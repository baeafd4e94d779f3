/** The script interpreter's replay coroutine: every host answer re-runs the whole script against a log. */
module Replay {
  import opened Wrappers
  import opened Types

  /** One host function a script called, with its arguments. */
  datatype HostCall = HostCall(function_: string, arguments: Value)

  /** What a block tells the host. */
  datatype Command =
    | Ask(call: HostCall)
    | Done(result: Value)
    | Fail(code: string, message: string)

  const NONDETERMINISTIC := "nondeterministic_replay"
  const SCRIPT_ERROR := "script_error"
  const UNEXPECTED := Fail("unexpected_event", "no script-facing call produces this event")

  datatype Event =
    | InferDone(text: string)
    | Opened(handle: nat, len: nat, kind: Value)
    | Sliced(text: string, nextOffset: nat)
    | SlicedBytes(bytesBase64: string, nextOffset: nat)
    | Embedded(vectors: Value)
    | PageTextAttempted(attempted: Option<string>, error: Option<string>)
    | PageTexted(text: string)
    | PageImaged(handle: nat, len: nat)
    | Unexpected(description: string)

  function Or(text: Option<string>): string {
    if text.Some? then text.value else ""
  }

  /** The JSON a script sees for an event, or None for one no script call produces. */
  function AnswerOf(event: Event): Option<Value> {
    match event
    case InferDone(text) => Some(Str(text))
    case Opened(handle, len, kind) =>
      Some(Object(map["handle" := Num(handle as real), "len" := Num(len as real), "kind" := kind]))
    case Sliced(text, next) => Some(Object(map["text" := Str(text), "next_offset" := Num(next as real)]))
    case SlicedBytes(bytes, next) => Some(Object(map["bytes_base64" := Str(bytes), "next_offset" := Num(next as real)]))
    case Embedded(vectors) => Some(Object(map["vectors" := vectors]))
    case PageTextAttempted(text, error) =>
      Some(Object(map["ok" := Boolean(text.Some?), "text" := Str(Or(text)), "error" := Str(Or(error))]))
    case PageTexted(text) => Some(Object(map["text" := Str(text)]))
    case PageImaged(handle, len) => Some(Object(map["handle" := Num(handle as real), "len" := Num(len as real)]))
    case Unexpected(_) => None
  }

  /** Which part of the event the script finds where; an object has just the fields named. */
  ghost predicate Tells(event: Event, answer: Value) {
    match event
    case InferDone(text) => answer.Str? && answer.text == text
    case Opened(handle, len, kind) =>
      Has(answer, {"handle", "len", "kind"}) && answer.Get("handle") == Some(Num(handle as real)) &&
      answer.Get("len") == Some(Num(len as real)) && answer.Get("kind") == Some(kind)
    case Sliced(text, next) =>
      Has(answer, {"text", "next_offset"}) && answer.GetText("text") == Some(text) && answer.Get("next_offset") == Some(Num(next as real))
    case SlicedBytes(bytes, next) =>
      Has(answer, {"bytes_base64", "next_offset"}) && answer.GetText("bytes_base64") == Some(bytes) &&
      answer.Get("next_offset") == Some(Num(next as real))
    case Embedded(vectors) => Has(answer, {"vectors"}) && answer.Get("vectors") == Some(vectors)
    case PageTextAttempted(text, error) =>
      Has(answer, {"ok", "text", "error"}) && answer.Get("ok") == Some(Boolean(text.Some?)) &&
      (answer.GetText("text") == match text case Some(t) => Some(t) case None => Some("")) &&
      (answer.GetText("error") == match error case Some(e) => Some(e) case None => Some(""))
    case PageTexted(text) => Has(answer, {"text"}) && answer.GetText("text") == Some(text)
    case PageImaged(handle, len) =>
      Has(answer, {"handle", "len"}) && answer.Get("handle") == Some(Num(handle as real)) && answer.Get("len") == Some(Num(len as real))
    case Unexpected(_) => false
  }

  ghost predicate Has(answer: Value, names: set<string>) {
    answer.Object? && answer.members.Keys == names
  }

  /** An object with no fields but those is determined by them. */
  lemma SameFields(a: Value, b: Value, names: set<string>)
    requires Has(a, names) && Has(b, names) && forall name :: name in names ==> a.Get(name) == b.Get(name)
    ensures a == b
  {
    forall name | name in names ensures a.members[name] == b.members[name] { assert a.Get(name) == b.Get(name); }
    assert a.members == b.members;
  }

  lemma TextIs(answer: Value, name: string)
    requires answer.GetText(name).Some?
    ensures answer.Get(name) == Some(Str(answer.GetText(name).value))
  {}

  lemma AnswerTells(event: Event)
    ensures AnswerOf(event).None? <==> event.Unexpected?
    ensures AnswerOf(event).Some? ==> Tells(event, AnswerOf(event).value)
  {}

  lemma TellsOnce(event: Event, answer: Value)
    requires Tells(event, answer)
    ensures AnswerOf(event) == Some(answer)
  {
    AnswerTells(event);
    var given := AnswerOf(event).value;
    match event
    case InferDone(_) =>
    case Opened(_, _, _) => SameFields(given, answer, {"handle", "len", "kind"});
    case Sliced(_, _) =>
      TextIs(given, "text");
      TextIs(answer, "text");
      SameFields(given, answer, {"text", "next_offset"});
    case SlicedBytes(_, _) =>
      TextIs(given, "bytes_base64");
      TextIs(answer, "bytes_base64");
      SameFields(given, answer, {"bytes_base64", "next_offset"});
    case Embedded(_) => SameFields(given, answer, {"vectors"});
    case PageTextAttempted(_, _) =>
      TextIs(given, "text");
      TextIs(answer, "text");
      TextIs(given, "error");
      TextIs(answer, "error");
      SameFields(given, answer, {"ok", "text", "error"});
    case PageTexted(_) =>
      TextIs(given, "text");
      TextIs(answer, "text");
      SameFields(given, answer, {"text"});
    case PageImaged(_, _) => SameFields(given, answer, {"handle", "len"});
  }

  /** What a script sees of an event, exactly. */
  lemma AnswerExactly(event: Event, answer: Value)
    ensures AnswerOf(event) == Some(answer) <==> Tells(event, answer)
  {
    AnswerTells(event);
    if Tells(event, answer) { TellsOnce(event, answer); }
  }

  /** How a host call comes back to the script: with an answer, or with the suspend error. */
  datatype Reply = Answered(value: Value) | Suspended

  datatype Act = Call(call: HostCall) | Return(value: Value) | Throw(message: string)

  /** A script, by what it does after each sequence of replies; it may catch the suspend error and go on. */
  datatype Script = Script(act: seq<Reply> -> Act)

  datatype Logged = Logged(call: HostCall, answer: Value)

  // ---------------------------------------------------------------- one run

  function Diverged(i: nat): Command {
    Fail(NONDETERMINISTIC, "replay diverged at a host call")
  }

  datatype Issued = Issued(reply: Reply, callIndex: nat, pending: Option<Command>)

  /** Answer a call from the log, or suspend on it. */
  function Issue(call: HostCall, callIndex: nat, pending: Option<Command>, log: seq<Logged>): Issued {
    if callIndex < |log| && log[callIndex].call == call then Issued(Answered(log[callIndex].answer), callIndex + 1, pending)
    else Issued(Suspended, callIndex, Some(if callIndex < |log| then Diverged(callIndex) else Ask(call)))
  }

  datatype Ended = Ended(pending: Option<Command>, consumed: nat, last: Act)

  /** From here, the script makes exactly `n` more host calls and then ends, the log serving those it can. */
  ghost predicate EndsAfter(script: Script, history: seq<Reply>, callIndex: nat, log: seq<Logged>, n: nat)
    decreases n
  {
    var act := script.act(history);
    if !act.Call? then n == 0
    else
      n > 0 &&
      var issued := Issue(act.call, callIndex, None, log);
      EndsAfter(script, history + [issued.reply], issued.callIndex, log, n - 1)
  }

  /** The script does not go on making host calls forever. */
  ghost predicate Ends(script: Script, history: seq<Reply>, callIndex: nat, log: seq<Logged>) {
    exists n: nat :: EndsAfter(script, history, callIndex, log, n)
  }

  ghost predicate RunEnds(script: Script, log: seq<Logged>) {
    Ends(script, [], 0, log)
  }

  ghost function CallsLeft(script: Script, history: seq<Reply>, callIndex: nat, log: seq<Logged>): (n: nat)
    requires Ends(script, history, callIndex, log)
    ensures EndsAfter(script, history, callIndex, log, n)
  {
    var n: nat :| EndsAfter(script, history, callIndex, log, n);
    n
  }

  lemma {:induction false} EndsOnce(script: Script, history: seq<Reply>, callIndex: nat, log: seq<Logged>, m: nat, n: nat)
    requires EndsAfter(script, history, callIndex, log, m) && EndsAfter(script, history, callIndex, log, n)
    ensures m == n
    decreases n
  {
    var act := script.act(history);
    if act.Call? {
      var issued := Issue(act.call, callIndex, None, log);
      EndsOnce(script, history + [issued.reply], issued.callIndex, log, m - 1, n - 1);
    }
  }

  /** A host call later, there is one call less to go. */
  lemma CallLater(script: Script, history: seq<Reply>, callIndex: nat, pending: Option<Command>, log: seq<Logged>)
    requires script.act(history).Call?
    ensures var issued := Issue(script.act(history).call, callIndex, pending, log);
            var later := history + [issued.reply];
            (Ends(script, history, callIndex, log) <==> Ends(script, later, issued.callIndex, log)) &&
            (Ends(script, history, callIndex, log) ==>
              CallsLeft(script, later, issued.callIndex, log) < CallsLeft(script, history, callIndex, log))
  {
    var issued := Issue(script.act(history).call, callIndex, pending, log);
    var later := history + [issued.reply];
    if n: nat :| EndsAfter(script, history, callIndex, log, n) {
      assert EndsAfter(script, later, issued.callIndex, log, n - 1);
      EndsOnce(script, history, callIndex, log, n, CallsLeft(script, history, callIndex, log));
      EndsOnce(script, later, issued.callIndex, log, n - 1, CallsLeft(script, later, issued.callIndex, log));
    }
    if n: nat :| EndsAfter(script, later, issued.callIndex, log, n) {
      assert EndsAfter(script, history, callIndex, log, n + 1);
    }
  }

  lemma NoCallEnds(script: Script, history: seq<Reply>, callIndex: nat, log: seq<Logged>)
    requires !script.act(history).Call?
    ensures Ends(script, history, callIndex, log)
  {
    assert EndsAfter(script, history, callIndex, log, 0);
  }

  ghost function Evaluate(script: Script, history: seq<Reply>, callIndex: nat, pending: Option<Command>, log: seq<Logged>): Ended
    requires Ends(script, history, callIndex, log)
    decreases CallsLeft(script, history, callIndex, log)
  {
    var act := script.act(history);
    if !act.Call? then Ended(pending, callIndex, act)
    else
      CallLater(script, history, callIndex, pending, log);
      var issued := Issue(act.call, callIndex, pending, log);
      Evaluate(script, history + [issued.reply], issued.callIndex, issued.pending, log)
  }

  function Concluded(ended: Ended, log: seq<Logged>): Command {
    if ended.pending.Some? then ended.pending.value
    else if ended.consumed < |log| then Fail(NONDETERMINISTIC, "replay diverged: answers were left over")
    else
      match ended.last
      case Throw(message) => Fail(SCRIPT_ERROR, message)
      case Return(value) => Done(value)
      case Call(call) => Ask(call)
  }

  /** What one run of the script against the log tells the host. */
  ghost function RunOf(script: Script, log: seq<Logged>): Command
    requires RunEnds(script, log)
  {
    Concluded(Evaluate(script, [], 0, None, log), log)
  }

  /** The same, None for a run that never comes to an end. */
  ghost function Says(script: Script, log: seq<Logged>): Option<Command> {
    if RunEnds(script, log) then Some(RunOf(script, log)) else None
  }

  /** A cell that several host functions share. */
  class Cell<T> {
    var value: T

    constructor (value: T)
      ensures this.value == value
    {
      this.value := value;
    }
  }

  method IssueOrReplay(call: HostCall, callIndex: Cell<nat>, pending: Cell<Option<Command>>, log: seq<Logged>)
    returns (reply: Reply)
    modifies callIndex, pending
    ensures Issued(reply, callIndex.value, pending.value) == Issue(call, old(callIndex.value), old(pending.value), log)
  {
    var i := callIndex.value;
    if i < |log| {
      if log[i].call != call {
        pending.value := Some(Diverged(i));
        return Suspended;
      }
      callIndex.value := i + 1;
      return Answered(log[i].answer);
    }
    pending.value := Some(Ask(call));
    return Suspended;
  }

  /** The engine's part: the script's acts in turn, its host calls going through the shared cells. */
  method EvaluateScript(script: Script, callIndex: Cell<nat>, pending: Cell<Option<Command>>, log: seq<Logged>) returns (act: Act)
    // Like every run below: it returns only if it comes to an end.
    requires Ends(script, [], callIndex.value, log)
    modifies callIndex, pending
    ensures Ended(pending.value, callIndex.value, act) == Evaluate(script, [], old(callIndex.value), old(pending.value), log)
    ensures !act.Call?
  {
    var history: seq<Reply> := [];
    act := script.act(history);
    ghost var goal := Evaluate(script, [], callIndex.value, pending.value, log);
    while act.Call?
      invariant act == script.act(history) && Ends(script, history, callIndex.value, log)
      invariant goal == Evaluate(script, history, callIndex.value, pending.value, log)
      decreases CallsLeft(script, history, callIndex.value, log)
    {
      CallLater(script, history, callIndex.value, pending.value, log);
      var reply := IssueOrReplay(act.call, callIndex, pending, log);
      history := history + [reply];
      act := script.act(history);
    }
  }

  class RhaiBlock {
    var log: seq<Logged>
    var pendingCommand: Option<HostCall>
    /** How many memoized answers all runs so far were served. */
    ghost var served: nat

    constructor ()
      ensures log == [] && pendingCommand == None && served == 0
    {
      log, pendingCommand, served := [], None, 0;
    }

    /** Run the script from the top; `script` is how this run of it behaves. */
    method Run(script: Script) returns (r: Command)
      requires RunEnds(script, log)
      modifies this`served
      ensures r == RunOf(script, log)
      ensures served == old(served) + Evaluate(script, [], 0, None, log).consumed
    {
      var callIndex := new Cell<nat>(0);
      var pending := new Cell<Option<Command>>(None);
      var act := EvaluateScript(script, callIndex, pending, log);
      served := served + callIndex.value;
      if pending.value.Some? {
        return pending.value.value;
      }
      if callIndex.value < |log| {
        return Fail(NONDETERMINISTIC, "replay diverged: answers were left over");
      }
      match act {
        case Return(value) => return Done(value);
        case Throw(message) => return Fail(SCRIPT_ERROR, message);
      }
    }

    method RunAndTrackPending(script: Script) returns (r: Command)
      requires RunEnds(script, log)
      modifies this`served, this`pendingCommand
      ensures r == RunOf(script, log)
      ensures pendingCommand == if r.Ask? then Some(r.call) else None
      ensures served == old(served) + Evaluate(script, [], 0, None, log).consumed
    {
      r := Run(script);
      pendingCommand := if r.Ask? then Some(r.call) else None;
    }

    /** `script` is absent when the job input carries no script. */
    method Start(script: Option<Script>) returns (r: Command)
      requires script.Some? ==> RunEnds(script.value, [])
      modifies this
      ensures script.None? ==> r.Fail? && log == old(log) && pendingCommand == old(pendingCommand)
      ensures script.Some? ==> log == [] && r == RunOf(script.value, [])
      ensures script.Some? ==> pendingCommand == if r.Ask? then Some(r.call) else None
      ensures script.Some? ==> served == old(served) + Evaluate(script.value, [], 0, None, []).consumed
    {
      if script.None? {
        return Fail("schema_validation_failed", "job input must carry a script");
      }
      log := [];
      pendingCommand := None;
      r := RunAndTrackPending(script.value);
    }

    method Step(event: Event, script: Script) returns (r: Command)
      // The host only answers what was asked; the source panics otherwise.
      requires pendingCommand.Some?
      requires AnswerOf(event).Some? ==> RunEnds(script, log + [Logged(pendingCommand.value, AnswerOf(event).value)])
      modifies this
      ensures AnswerOf(event).None? ==> r == UNEXPECTED && log == old(log) && served == old(served)
      ensures AnswerOf(event).None? ==> pendingCommand.None?
      ensures AnswerOf(event).Some? ==>
                log == old(log) + [Logged(old(pendingCommand.value), AnswerOf(event).value)] && r == RunOf(script, log)
      ensures AnswerOf(event).Some? ==> pendingCommand == if r.Ask? then Some(r.call) else None
      ensures AnswerOf(event).Some? ==> served == old(served) + Evaluate(script, [], 0, None, log).consumed
    {
      var call := pendingCommand.value;
      pendingCommand := None;
      var answer := AnswerOf(event);
      if answer.None? {
        return UNEXPECTED;
      }
      log := log + [Logged(call, answer.value)];
      r := RunAndTrackPending(script);
    }
  }

  // ---------------------------------------------------------------- direct execution

  function Answers(log: seq<Logged>): (history: seq<Reply>)
    ensures |history| == |log|
  {
    if log == [] then [] else Answers(log[..|log| - 1]) + [Answered(log[|log| - 1].answer)]
  }

  /** What the script itself does next, once its calls so far have returned those answers. */
  function DirectNext(script: Script, log: seq<Logged>): Command {
    match script.act(Answers(log))
    case Call(call) => Ask(call)
    case Return(value) => Done(value)
    case Throw(message) => Fail(SCRIPT_ERROR, message)
  }

  /** The script, given the logged answers one by one, makes exactly the logged calls. */
  ghost predicate Retraces(script: Script, log: seq<Logged>) {
    forall i :: 0 <= i < |log| ==> CallsAt(script, log, i)
  }

  predicate CallsAt(script: Script, log: seq<Logged>, i: nat)
    requires i < |log|
  {
    script.act(Answers(log[..i])) == Call(log[i].call)
  }

  lemma {:induction false} EvaluateRetraced(script: Script, log: seq<Logged>, i: nat)
    requires Retraces(script, log) && i <= |log|
    ensures RunEnds(script, log) <==> Ends(script, Answers(log[..i]), i, log)
    ensures RunEnds(script, log) ==> Evaluate(script, [], 0, None, log) == Evaluate(script, Answers(log[..i]), i, None, log)
  {
    if i > 0 {
      EvaluateRetraced(script, log, i - 1);
      assert CallsAt(script, log, i - 1);
      assert log[..i][..i - 1] == log[..i - 1];
      CallLater(script, Answers(log[..i - 1]), i - 1, None, log);
    }
  }

  /** The script ends if every call from `history` on is met with the suspend error. */
  ghost predicate Stops(script: Script, history: seq<Reply>) {
    Ends(script, history, 0, [])
  }

  /** Past the end of a log every call is met with it. */
  lemma {:induction false} StopsAfter(script: Script, history: seq<Reply>, log: seq<Logged>, n: nat)
    ensures EndsAfter(script, history, |log|, log, n) <==> EndsAfter(script, history, 0, [], n)
    decreases n
  {
    if n > 0 { StopsAfter(script, history + [Suspended], log, n - 1); }
  }

  lemma StopsExactly(script: Script, history: seq<Reply>, log: seq<Logged>)
    ensures Ends(script, history, |log|, log) <==> Stops(script, history)
  {
    if n: nat :| EndsAfter(script, history, |log|, log, n) { StopsAfter(script, history, log, n); }
    if n: nat :| EndsAfter(script, history, 0, [], n) { StopsAfter(script, history, log, n); }
  }

  /** The last call a script makes if every call from `history` on is met with the suspend error. */
  ghost function LastAsked(script: Script, history: seq<Reply>, last: HostCall): HostCall
    requires Stops(script, history)
    decreases CallsLeft(script, history, 0, [])
  {
    var act := script.act(history);
    if !act.Call? then last
    else
      CallLater(script, history, 0, None, []);
      LastAsked(script, history + [Suspended], act.call)
  }

  lemma {:induction false} EvaluateSuspended(script: Script, history: seq<Reply>, last: HostCall, log: seq<Logged>)
    requires Stops(script, history)
    ensures Ends(script, history, |log|, log)
    ensures Evaluate(script, history, |log|, Some(Ask(last)), log).pending == Some(Ask(LastAsked(script, history, last)))
    ensures Evaluate(script, history, |log|, Some(Ask(last)), log).consumed == |log|
    decreases CallsLeft(script, history, 0, [])
  {
    StopsExactly(script, history, log);
    if script.act(history).Call? {
      CallLater(script, history, 0, None, []);
      EvaluateSuspended(script, history + [Suspended], script.act(history).call, log);
    }
  }

  /** What a run says when the log retraces: the direct step, but for what is called after suspending. */
  ghost function SaysOnTrace(script: Script, log: seq<Logged>): Option<Command> {
    var next := DirectNext(script, log);
    if !next.Ask? then Some(next)
    else if Stops(script, Answers(log) + [Suspended]) then
      Some(Ask(LastAsked(script, Answers(log) + [Suspended], next.call)))
    else None
  }

  lemma RunOnTrace(script: Script, log: seq<Logged>)
    requires Retraces(script, log)
    ensures Says(script, log) == SaysOnTrace(script, log)
    ensures RunEnds(script, log) ==> Evaluate(script, [], 0, None, log).consumed == |log|
  {
    EvaluateRetraced(script, log, |log|);
    assert log[..|log|] == log;
    var act := script.act(Answers(log));
    if act.Call? {
      CallLater(script, Answers(log), |log|, None, log);
      StopsExactly(script, Answers(log) + [Suspended], log);
      if Stops(script, Answers(log) + [Suspended]) {
        EvaluateSuspended(script, Answers(log) + [Suspended], act.call, log);
      }
    } else {
      NoCallEnds(script, Answers(log), |log|, log);
    }
  }

  // ---------------------------------------------------------------- divergence detection

  lemma {:induction false} PendingStays(script: Script, history: seq<Reply>, i: nat, pending: Option<Command>, log: seq<Logged>)
    requires Ends(script, history, i, log) && pending.Some? && !pending.value.Done?
    requires pending.value.Fail? ==> pending.value.code == NONDETERMINISTIC
    ensures var p := Evaluate(script, history, i, pending, log).pending;
            p.Some? && !p.value.Done? && (p.value.Fail? ==> p.value.code == NONDETERMINISTIC)
    decreases CallsLeft(script, history, i, log)
  {
    var act := script.act(history);
    if act.Call? {
      CallLater(script, history, i, pending, log);
      var issued := Issue(act.call, i, pending, log);
      PendingStays(script, history + [issued.reply], issued.callIndex, issued.pending, log);
    }
  }

  /** A run with nothing pending at its end was served the whole way. */
  lemma {:induction false} NothingPending(script: Script, i: nat, log: seq<Logged>)
    requires i <= |log| && Ends(script, Answers(log[..i]), i, log)
    requires forall k :: 0 <= k < i ==> CallsAt(script, log, k)
    requires Evaluate(script, Answers(log[..i]), i, None, log).pending.None?
    ensures var e := Evaluate(script, Answers(log[..i]), i, None, log);
            i <= e.consumed <= |log| && (e.consumed == |log| ==> Retraces(script, log) && e.last == script.act(Answers(log)))
    decreases |log| - i
  {
    var history := Answers(log[..i]);
    var act := script.act(history);
    if act.Call? {
      CallLater(script, history, i, None, log);
      var issued := Issue(act.call, i, None, log);
      if issued.pending.Some? {
        PendingStays(script, history + [issued.reply], issued.callIndex, issued.pending, log);
      } else {
        assert log[..i + 1][..i] == log[..i];
        NothingPending(script, i + 1, log);
      }
    } else {
      assert i == |log| ==> log[..i] == log;
    }
  }

  /** A verdict of the script itself, rather than a request or a divergence. */
  predicate Verdict(c: Command) {
    c.Done? || (c.Fail? && c.code == SCRIPT_ERROR)
  }

  /**
   Divergence detection is complete. However this run of the script behaves, whatever it catches
   and whether or not it ends, it ends with a result exactly when it made the logged calls in
   order, used the whole log, and then ended with that result.
   */
  lemma VerdictExactly(script: Script, log: seq<Logged>, c: Command)
    requires Verdict(c)
    ensures Says(script, log) == Some(c) <==> Retraces(script, log) && DirectNext(script, log) == c
  {
    assert log[..0] == [];
    if Retraces(script, log) { RunOnTrace(script, log); }
    if RunEnds(script, log) {
      if Evaluate(script, [], 0, None, log).pending.None? {
        NothingPending(script, 0, log);
      } else {
        PendingIsNoVerdict(script, [], 0, log);
      }
    }
  }

  lemma {:induction false} PendingIsNoVerdict(script: Script, history: seq<Reply>, i: nat, log: seq<Logged>)
    requires Ends(script, history, i, log)
    ensures var p := Evaluate(script, history, i, None, log).pending; p.Some? ==> !Verdict(p.value)
    decreases CallsLeft(script, history, i, log)
  {
    var act := script.act(history);
    if act.Call? {
      CallLater(script, history, i, None, log);
      var issued := Issue(act.call, i, None, log);
      if issued.pending.Some? {
        PendingStays(script, history + [issued.reply], issued.callIndex, issued.pending, log);
      } else {
        PendingIsNoVerdict(script, history + [issued.reply], issued.callIndex, log);
      }
    }
  }

  // ---------------------------------------------------------------- whole conversations

  type Host = (seq<Logged>, HostCall) -> Event
  /** What a block says once these calls were answered; None if it never says anything. */
  type Next = seq<Logged> -> Option<Command>

  datatype Talk = Going(log: seq<Logged>) | Over(log: seq<Logged>, last: Command) | Silent(log: seq<Logged>)

  /** The first `k` exchanges of a conversation in which `next` decides what to say. */
  function Converse(next: Next, host: Host, k: nat): Talk {
    if k == 0 then Going([])
    else
      match Converse(next, host, k - 1)
      case Going(log) => Exchange(next(log), host, log)
      case finished => finished
  }

  /** The host answers what it is asked, and the answer goes on the log. */
  function Exchange(said: Option<Command>, host: Host, log: seq<Logged>): Talk {
    match said
    case None => Silent(log)
    case Some(Ask(call)) =>
      (match AnswerOf(host(log, call))
       case None => Over(log, UNEXPECTED)
       case Some(answer) => Going(log + [Logged(call, answer)]))
    case Some(c) => Over(log, c)
  }

  lemma ConverseNext(next: Next, host: Host, k: nat, log: seq<Logged>)
    requires Converse(next, host, k) == Going(log)
    ensures Converse(next, host, k + 1) == Exchange(next(log), host, log)
  {}

  ghost predicate AgreesAt(a: Next, b: Next, host: Host, inv: seq<Logged> -> bool, log: seq<Logged>) {
    inv(log) ==> a(log) == b(log) && inv(Exchange(b(log), host, log).log)
  }

  lemma {:induction false} ConverseAgrees(a: Next, b: Next, host: Host, inv: seq<Logged> -> bool, k: nat)
    requires inv([])
    requires forall log {:trigger AgreesAt(a, b, host, inv, log)} :: AgreesAt(a, b, host, inv, log)
    ensures Converse(a, host, k) == Converse(b, host, k) && inv(Converse(b, host, k).log)
  {
    if k > 0 {
      ConverseAgrees(a, b, host, inv, k - 1);
      assert AgreesAt(a, b, host, inv, Converse(b, host, k - 1).log);
    }
  }

  predicate GoesOn(next: Next, host: Host, log: seq<Logged>, k: nat)
    requires k < |log|
  {
    Exchange(next(log[..k]), host, log[..k]) == Going(log[..k + 1])
  }

  lemma {:induction false} ConverseReaches(next: Next, host: Host, log: seq<Logged>, k: nat)
    requires k <= |log| && forall i :: 0 <= i < |log| ==> GoesOn(next, host, log, i)
    ensures Converse(next, host, k) == Going(log[..k])
  {
    if k > 0 {
      ConverseReaches(next, host, log, k - 1);
      assert GoesOn(next, host, log, k - 1);
    }
  }

  ghost function Replayed(script: Script): Next {
    log => Says(script, log)
  }

  function Direct(script: Script): Next {
    log => Some(DirectNext(script, log))
  }

  predicate Presentable(event: Event, answer: Value) {
    AnswerOf(event) == Some(answer)
  }

  ghost predicate CanBeAnswered(answer: Value) {
    exists e :: Presentable(e, answer)
  }

  ghost predicate CanOccur(script: Script, log: seq<Logged>) {
    Retraces(script, log) && forall i :: 0 <= i < |log| ==> CanBeAnswered(log[i].answer)
  }

  /** After suspending on a call, the script ends, having made no other call or the same one last. */
  ghost predicate SettlesAt(script: Script, log: seq<Logged>) {
    var next := DirectNext(script, log);
    next.Ask? ==>
      Stops(script, Answers(log) + [Suspended]) && LastAsked(script, Answers(log) + [Suspended], next.call) == next.call
  }

  ghost predicate Settles(script: Script) {
    forall log :: CanOccur(script, log) ==> SettlesAt(script, log)
  }

  /** The replayed script and the script run once are indistinguishable to every host. */
  ghost predicate SameToEveryHost(script: Script) {
    forall host: Host, k: nat :: Converse(Replayed(script), host, k) == Converse(Direct(script), host, k)
  }

  lemma CanOccurNext(script: Script, log: seq<Logged>, call: HostCall, event: Event)
    requires CanOccur(script, log) && script.act(Answers(log)) == Call(call) && AnswerOf(event).Some?
    ensures CanOccur(script, log + [Logged(call, AnswerOf(event).value)])
  {
    var longer := log + [Logged(call, AnswerOf(event).value)];
    assert Presentable(event, longer[|log|].answer);
    forall i | 0 <= i < |longer| ensures CallsAt(script, longer, i) && CanBeAnswered(longer[i].answer) {
      if i < |log| {
        assert CallsAt(script, log, i);
        assert longer[..i] == log[..i];
        assert longer[i] == log[i];
      } else {
        assert longer[..i] == log;
      }
    }
  }

  lemma SaysTheSame(script: Script, host: Host, log: seq<Logged>)
    requires CanOccur(script, log) && SettlesAt(script, log)
    ensures Says(script, log) == Some(DirectNext(script, log))
    ensures CanOccur(script, Exchange(Some(DirectNext(script, log)), host, log).log)
  {
    RunOnTrace(script, log);
    var next := DirectNext(script, log);
    if next.Ask? {
      var event := host(log, next.call);
      if AnswerOf(event).Some? { CanOccurNext(script, log, next.call, event); }
    }
  }

  lemma ReplayFollows(script: Script, host: Host, k: nat)
    requires Settles(script)
    ensures Converse(Replayed(script), host, k) == Converse(Direct(script), host, k)
  {
    var inv: seq<Logged> -> bool := log => CanOccur(script, log);
    forall log ensures AgreesAt(Replayed(script), Direct(script), host, inv, log) {
      if inv(log) {
        assert SettlesAt(script, log);
        SaysTheSame(script, host, log);
      }
    }
    assert CanOccur(script, []);
    ConverseAgrees(Replayed(script), Direct(script), host, inv, k);
  }

  ghost function EventFor(answer: Value): Event {
    if CanBeAnswered(answer) then
      var e :| Presentable(e, answer); e
    else InferDone("")
  }

  lemma EventAnswers(answer: Value)
    requires CanBeAnswered(answer)
    ensures AnswerOf(EventFor(answer)) == Some(answer)
  {
    var e :| Presentable(e, answer);
  }

  /** A host that gives the logged answers in turn. */
  ghost function Prompter(log: seq<Logged>): Host {
    (said: seq<Logged>, call: HostCall) => if |said| < |log| then EventFor(log[|said|].answer) else InferDone("")
  }

  lemma PrompterNext(script: Script, log: seq<Logged>, k: nat)
    requires CanOccur(script, log) && k < |log|
    ensures Exchange(Some(DirectNext(script, log[..k])), Prompter(log), log[..k]) == Going(log[..k + 1])
  {
    assert CallsAt(script, log, k) && CanBeAnswered(log[k].answer);
    EventAnswers(log[k].answer);
    assert log[..k + 1] == log[..k] + [log[k]];
  }

  lemma PrompterLeadsTo(script: Script, log: seq<Logged>)
    requires CanOccur(script, log)
    ensures Converse(Direct(script), Prompter(log), |log|) == Going(log)
  {
    forall k | 0 <= k < |log| ensures GoesOn(Direct(script), Prompter(log), log, k) {
      PrompterNext(script, log, k);
    }
    ConverseReaches(Direct(script), Prompter(log), log, |log|);
    assert log[..|log|] == log;
  }

  lemma UnsettledShows(script: Script, log: seq<Logged>)
    requires CanOccur(script, log) && SameToEveryHost(script)
    ensures SettlesAt(script, log)
  {
    var host := Prompter(log);
    PrompterLeadsTo(script, log);
    var next := DirectNext(script, log);
    if next.Ask? {
      RunOnTrace(script, log);
      assert Converse(Replayed(script), host, |log|) == Converse(Direct(script), host, |log|);
      assert Converse(Replayed(script), host, |log| + 1) == Converse(Direct(script), host, |log| + 1);
      assert Converse(Direct(script), host, |log| + 1) == Going(log + [Logged(next.call, Str(""))]);
      assert Converse(Replayed(script), host, |log| + 1) == Exchange(Says(script, log), host, log);
      assert Stops(script, Answers(log) + [Suspended]);
      var asked := LastAsked(script, Answers(log) + [Suspended], next.call);
      assert Converse(Replayed(script), host, |log| + 1) == Going(log + [Logged(asked, Str(""))]);
      assert (log + [Logged(asked, Str(""))])[|log|] == (log + [Logged(next.call, Str(""))])[|log|];
    }
  }

  /**
   Replay equals direct execution, for every host, exactly when the script settles: what it does
   after a suspended call comes to an end, and not with another call. No script is excluded.
   */
  lemma ReplayExactly(script: Script)
    ensures Settles(script) <==> SameToEveryHost(script)
  {
    if Settles(script) {
      forall host: Host, k: nat ensures Converse(Replayed(script), host, k) == Converse(Direct(script), host, k) {
        ReplayFollows(script, host, k);
      }
    }
    if SameToEveryHost(script) {
      forall log | CanOccur(script, log) ensures SettlesAt(script, log) {
        UnsettledShows(script, log);
      }
    }
  }

  /** The script lets every suspend error through. */
  ghost predicate Uncaught(script: Script) {
    forall history :: history != [] && history[|history| - 1] == Suspended ==> !script.act(history).Call?
  }

  /** Such a script settles, and each run of it ends, however many calls it may make in all. */
  lemma UncaughtSettles(script: Script)
    requires Uncaught(script)
    ensures Settles(script) && forall log :: RunEnds(script, log)
  {
    forall log ensures SettlesAt(script, log) {
      var history := Answers(log) + [Suspended];
      assert history[|history| - 1] == Suspended;
      NoCallEnds(script, history, 0, []);
    }
    forall log ensures RunEnds(script, log) { UncaughtEnds(script, [], 0, log); }
  }

  lemma {:induction false} UncaughtEnds(script: Script, history: seq<Reply>, i: nat, log: seq<Logged>)
    requires Uncaught(script) && i <= |log|
    ensures Ends(script, history, i, log)
    decreases |log| - i
  {
    var act := script.act(history);
    if !act.Call? {
      NoCallEnds(script, history, i, log);
    } else {
      var issued := Issue(act.call, i, None, log);
      var later := history + [issued.reply];
      if issued.reply.Answered? {
        UncaughtEnds(script, later, issued.callIndex, log);
      } else {
        assert later[|later| - 1] == Suspended;
        NoCallEnds(script, later, issued.callIndex, log);
      }
      CallLater(script, history, i, None, log);
    }
  }

  /** The first logged call that the script, given the answers before it, does not make. */
  ghost predicate StraysAt(script: Script, log: seq<Logged>, i: nat) {
    i < |log| && (forall k :: 0 <= k < i ==> CallsAt(script, log, k)) && !CallsAt(script, log, i)
  }

  lemma {:induction false} FirstStray(script: Script, log: seq<Logged>, n: nat) returns (i: nat)
    requires n <= |log| && !Retraces(script, log) && forall k :: 0 <= k < n ==> CallsAt(script, log, k)
    ensures StraysAt(script, log, i)
    decreases |log| - n
  {
    if n < |log| && CallsAt(script, log, n) {
      i := FirstStray(script, log, n + 1);
    } else {
      i := n;
    }
  }

  lemma {:induction false} ServedUpTo(script: Script, log: seq<Logged>, i: nat)
    requires RunEnds(script, log) && i <= |log| && forall k :: 0 <= k < i ==> CallsAt(script, log, k)
    ensures Ends(script, Answers(log[..i]), i, log)
    ensures Evaluate(script, [], 0, None, log) == Evaluate(script, Answers(log[..i]), i, None, log)
  {
    if i > 0 {
      ServedUpTo(script, log, i - 1);
      assert CallsAt(script, log, i - 1);
      assert log[..i][..i - 1] == log[..i - 1];
      CallLater(script, Answers(log[..i - 1]), i - 1, None, log);
    }
  }

  /**
   What a script that lets every suspend error through says on any log: where the log retraces, what
   it does next; on any other, that the replay was not deterministic.
   */
  lemma UncaughtExactly(script: Script, log: seq<Logged>)
    requires Uncaught(script)
    ensures Retraces(script, log) ==> Says(script, log) == Some(DirectNext(script, log))
    ensures !Retraces(script, log) ==>
              Says(script, log).Some? && Says(script, log).value.Fail? && Says(script, log).value.code == NONDETERMINISTIC
  {
    hide Evaluate, Ends, DirectNext, Retraces, StraysAt;
    UncaughtSettles(script);
    if Retraces(script, log) {
      UncaughtRetraces(script, log);
    } else {
      var i := FirstStray(script, log, 0);
      StrayIsReported(script, log, i);
    }
  }

  lemma UncaughtRetraces(script: Script, log: seq<Logged>)
    requires Uncaught(script) && Retraces(script, log)
    ensures Says(script, log) == Some(DirectNext(script, log))
  {
    hide Retraces, Says;
    RunOnTrace(script, log);
    var history := Answers(log) + [Suspended];
    assert history[|history| - 1] == Suspended;
    NoCallEnds(script, history, 0, []);
  }

  lemma StrayIsReported(script: Script, log: seq<Logged>, i: nat)
    requires Uncaught(script) && RunEnds(script, log) && StraysAt(script, log, i)
    ensures RunOf(script, log).Fail? && RunOf(script, log).code == NONDETERMINISTIC
  {
    hide Ends, Evaluate, Uncaught, CallsAt;
    ServedUpTo(script, log, i);
    StrayEvaluates(script, log, i);
  }

  lemma StrayEvaluates(script: Script, log: seq<Logged>, i: nat)
    requires Uncaught(script) && i < |log| && !CallsAt(script, log, i) && Ends(script, Answers(log[..i]), i, log)
    ensures var e := Evaluate(script, Answers(log[..i]), i, None, log);
            e.consumed == i && (e.pending.Some? ==> e.pending.value == Diverged(i))
  {
    hide Ends, Evaluate, Diverged;
    var history := Answers(log[..i]);
    EvaluateOnce(script, history, i, None, log);
    var act := script.act(history);
    if act.Call? {
      var later := history + [Suspended];
      assert later[|later| - 1] == Suspended;
      assert Issue(act.call, i, None, log) == Issued(Suspended, i, Some(Diverged(i)));
      EvaluateOnce(script, later, i, Some(Diverged(i)), log);
    }
  }

  /** One turn of a run. */
  lemma EvaluateOnce(script: Script, history: seq<Reply>, callIndex: nat, pending: Option<Command>, log: seq<Logged>)
    requires Ends(script, history, callIndex, log)
    ensures var act := script.act(history);
            if !act.Call? then Evaluate(script, history, callIndex, pending, log) == Ended(pending, callIndex, act)
            else
              var issued := Issue(act.call, callIndex, pending, log);
              Ends(script, history + [issued.reply], issued.callIndex, log) &&
              Evaluate(script, history, callIndex, pending, log) ==
              Evaluate(script, history + [issued.reply], issued.callIndex, issued.pending, log)
  {
    if script.act(history).Call? { CallLater(script, history, callIndex, pending, log); }
  }

  /** The conversation stands at `log`, and `said` is what the block says next. */
  ghost predicate Talking(script: Script, host: Host, log: seq<Logged>, said: Command) {
    && Converse(Direct(script), host, |log|) == Going(log)
    && CanOccur(script, log)
    && Says(script, log) == Some(said)
  }

  lemma DriveStart(script: Script, host: Host)
    requires Settles(script)
    ensures RunEnds(script, []) && Talking(script, host, [], RunOf(script, []))
    ensures Evaluate(script, [], 0, None, []).consumed == 0
  {
    assert CanOccur(script, []);
    assert SettlesAt(script, []);
    RunOnTrace(script, []);
  }

  lemma Asking(script: Script, host: Host, log: seq<Logged>, call: HostCall)
    requires SettlesAt(script, log) && Talking(script, host, log, Ask(call))
    ensures DirectNext(script, log) == Ask(call)
    ensures Converse(Direct(script), host, |log| + 1) == Exchange(Some(Ask(call)), host, log)
    ensures CanOccur(script, Exchange(Some(Ask(call)), host, log).log)
  {
    SaysTheSame(script, host, log);
    ConverseNext(Direct(script), host, |log|, log);
    assert Direct(script)(log) == Some(Ask(call));
  }

  /** A conversation that is over stays over. */
  lemma {:induction false} OverStays(next: Next, host: Host, k: nat, n: nat)
    requires k <= n && Converse(next, host, k).Over?
    ensures Converse(next, host, n) == Converse(next, host, k)
  {
    if k < n { OverStays(next, host, k, n - 1); }
  }

  lemma DriveNext(script: Script, host: Host, log: seq<Logged>, call: HostCall)
    requires Settles(script) && Talking(script, host, log, Ask(call))
    ensures Retraces(script, log)
    ensures var answer := AnswerOf(host(log, call));
            if answer.None? then Converse(Direct(script), host, |log| + 1) == Over(log, UNEXPECTED)
            else
              var longer := log + [Logged(call, answer.value)];
              RunEnds(script, longer) && Talking(script, host, longer, RunOf(script, longer)) &&
              Evaluate(script, [], 0, None, longer).consumed == |longer|
  {
    assert SettlesAt(script, log);
    Asking(script, host, log, call);
    var answer := AnswerOf(host(log, call));
    if answer.Some? {
      var longer := log + [Logged(call, answer.value)];
      assert SettlesAt(script, longer);
      RunOnTrace(script, longer);
    }
  }

  /** While the block still asks, the direct conversation is not over. */
  lemma StillGoing(script: Script, host: Host, log: seq<Logged>, said: Command, exchanges: nat)
    requires Talking(script, host, log, said) && Converse(Direct(script), host, exchanges).Over?
    ensures |log| < exchanges
  {
    if exchanges <= |log| { OverStays(Direct(script), host, exchanges, |log|); }
  }

  lemma DirectVerdict(script: Script, log: seq<Logged>)
    ensures DirectNext(script, log).Ask? || Verdict(DirectNext(script, log))
  {}

  lemma DriveEnd(script: Script, host: Host, log: seq<Logged>, last: Command)
    requires Settles(script) && Talking(script, host, log, last) && !last.Ask?
    ensures Converse(Direct(script), host, |log| + 1) == Over(log, last)
    ensures Verdict(last) && Retraces(script, log)
  {
    assert SettlesAt(script, log);
    SaysTheSame(script, host, log);
    ConverseNext(Direct(script), host, |log|, log);
    assert Direct(script)(log) == Some(last);
    DirectVerdict(script, log);
  }

  /** 1 + 2 + ... + n. */
  function Triangle(n: nat): nat {
    if n == 0 then 0 else Triangle(n - 1) + n
  }

  lemma {:induction false} TriangleIs(n: nat)
    ensures Triangle(n) == n * (n + 1) / 2
  {
    if n > 0 {
      TriangleIs(n - 1);
      assert n * (n + 1) == (n - 1) * n + 2 * n;
    }
  }

  /**
   The host's side of one job: ask, answer, until the block ends. The script run once comes to
   an end with this host, after however many exchanges.
   */
  method Drive(script: Script, host: Host, ghost exchanges: nat) returns (r: Command, block: RhaiBlock)
    requires Settles(script) && Converse(Direct(script), host, exchanges).Over?
    ensures Converse(Direct(script), host, |block.log| + 1) == Over(block.log, r)
    ensures Retraces(script, block.log) && (Verdict(r) || r == UNEXPECTED)
    ensures block.served == Triangle(|block.log|)
  {
    hide Evaluate, Settles, Talking, Retraces, RunOf, RunEnds, AnswerOf, Converse, Verdict;
    DriveStart(script, host);
    block := new RhaiBlock();
    r := block.Start(Some(script));
    while r.Ask?
      invariant fresh(block)
      invariant Talking(script, host, block.log, r)
      invariant block.pendingCommand == if r.Ask? then Some(r.call) else None
      invariant block.served == Triangle(|block.log|)
      decreases exchanges - |block.log|
    {
      StillGoing(script, host, block.log, r, exchanges);
      DriveNext(script, host, block.log, r.call);
      var event := host(block.log, r.call);
      r := block.Step(event, script);
      if AnswerOf(event).None? {
        return;
      }
    }
    DriveEnd(script, host, block.log, r);
  }

  // ---------------------------------------------------------------- scripts that catch, and one that loops

  const FIRST := HostCall("infer", Str("a"))
  const SECOND := HostCall("infer", Str("b"))

  /** `try { infer("a") } catch { infer("b") }`, after which the script returns. */
  function Catching(): Script {
    Script((history: seq<Reply>) =>
             if history == [] then Call(FIRST) else if history == [Suspended] then Call(SECOND) else Return(Null))
  }

  lemma SecondIsAnother()
    ensures FIRST != SECOND
  {
    assert FIRST.arguments.text[0] != SECOND.arguments.text[0];
  }

  /** Suspended on its first call, it asks for something else and ends. */
  lemma CatchingStops()
    ensures Stops(Catching(), [Suspended]) && LastAsked(Catching(), [Suspended], FIRST) == SECOND
  {
    var s := Catching();
    assert s.act([Suspended]) == Call(SECOND);
    assert [Suspended] + [Suspended] == [Suspended, Suspended];
    NoCallEnds(s, [Suspended, Suspended], 0, []);
    CallLater(s, [Suspended], 0, None, []);
    assert LastAsked(s, [Suspended, Suspended], SECOND) == SECOND;
  }

  /** It is asked for the wrong thing at once, and reported as nondeterministic after the first answer. */
  lemma CatchingDiverges(answer: Value)
    ensures !Settles(Catching())
    ensures DirectNext(Catching(), []) == Ask(FIRST) && Says(Catching(), []) == Some(Ask(SECOND))
    ensures var said := Says(Catching(), [Logged(SECOND, answer)]);
            said.Some? && said.value.Fail? && said.value.code == NONDETERMINISTIC
  {
    var s := Catching();
    SecondIsAnother();
    CatchingStops();
    assert CanOccur(s, []);
    assert [] + [Suspended] == [Suspended];
    assert !SettlesAt(s, []);
    RunOnTrace(s, []);
    CatchingAnswered(answer);
  }

  lemma CatchingAnswered(answer: Value)
    ensures RunEnds(Catching(), [Logged(SECOND, answer)]) && RunOf(Catching(), [Logged(SECOND, answer)]) == Diverged(0)
  {
    var s, log, p := Catching(), [Logged(SECOND, answer)], Some(Diverged(0));
    SecondIsAnother();
    assert [] + [Suspended] == [Suspended];
    assert [Suspended] + [Answered(answer)] == [Suspended, Answered(answer)];
    assert s.act([Suspended]) == Call(SECOND);
    assert Issue(FIRST, 0, None, log) == Issued(Suspended, 0, p);
    assert Issue(SECOND, 0, p, log) == Issued(Answered(answer), 1, p);
    NoCallEnds(s, [Suspended, Answered(answer)], 1, log);
    CallLater(s, [Suspended], 0, p, log);
    CallLater(s, [], 0, None, log);
    assert Evaluate(s, [Suspended, Answered(answer)], 1, p, log) == Ended(p, 1, Return(Null));
    assert Evaluate(s, [Suspended], 0, p, log) == Ended(p, 1, Return(Null));
    assert Evaluate(s, [], 0, None, log) == Ended(p, 1, Return(Null));
  }

  /** `loop { try { return infer("a") } catch {} }`. */
  function Retrying(): Script {
    Script((history: seq<Reply>) =>
             if history != [] && history[|history| - 1].Answered? then Return(history[|history| - 1].value) else Call(FIRST))
  }

  lemma {:induction false} RetryingGoesOn(history: seq<Reply>, n: nat)
    requires history != [] ==> history[|history| - 1] == Suspended
    ensures !EndsAfter(Retrying(), history, 0, [], n)
    decreases n
  {
    if n > 0 { RetryingGoesOn(history + [Suspended], n - 1); }
  }

  /** It is answered by any host when run once, and replayed it never gets as far as asking. */
  lemma RetryingIsSilent()
    ensures Says(Retrying(), []) == None && DirectNext(Retrying(), []) == Ask(FIRST) && !Settles(Retrying())
  {
    forall n: nat ensures !EndsAfter(Retrying(), [], 0, [], n) { RetryingGoesOn([], n); }
    forall n: nat ensures !EndsAfter(Retrying(), [Suspended], 0, [], n) { RetryingGoesOn([Suspended], n); }
    assert CanOccur(Retrying(), []);
    assert [] + [Suspended] == [Suspended];
    assert !SettlesAt(Retrying(), []);
  }

  /** `while infer("a") != "done" {}`. */
  function Polling(): Script {
    Script((history: seq<Reply>) =>
             if history == [] then Call(FIRST)
             else
               match history[|history| - 1]
               case Suspended => Throw("suspended")
               case Answered(value) => if value == Str("done") then Return(Null) else Call(FIRST))
  }

  function Polls(n: nat): (log: seq<Logged>)
    ensures |log| == n
  {
    if n == 0 then [] else Polls(n - 1) + [Logged(FIRST, Str("wait"))]
  }

  lemma {:induction false} PollingAsks(n: nat)
    ensures CanOccur(Polling(), Polls(n)) && DirectNext(Polling(), Polls(n)) == Ask(FIRST)
  {
    if n > 0 {
      PollingAsks(n - 1);
      var event := InferDone("wait");
      CanOccurNext(Polling(), Polls(n - 1), FIRST, event);
      assert Polls(n)[..n - 1] == Polls(n - 1);
      assert Answers(Polls(n))[n - 1] == Answered(Str("wait"));
      assert Str("wait") != Str("done") by { assert "wait"[0] != "done"[0]; }
    }
  }

  lemma PollingIsUncaught()
    ensures Uncaught(Polling())
  {
    forall history | history != [] && history[|history| - 1] == Suspended ensures !Polling().act(history).Call? {}
  }

  /** It may make any number of calls, and no host can tell its replay from running it once. */
  lemma PollingIsReplayed()
    ensures SameToEveryHost(Polling())
    ensures forall n: nat :: CanOccur(Polling(), Polls(n)) && DirectNext(Polling(), Polls(n)).Ask?
  {
    hide SameToEveryHost, Settles, CanOccur, DirectNext;
    PollingIsUncaught();
    UncaughtSettles(Polling());
    ReplayExactly(Polling());
    forall n: nat ensures CanOccur(Polling(), Polls(n)) && DirectNext(Polling(), Polls(n)).Ask? { PollingAsks(n); }
  }
}
