/** What one piece of work comes to, told by what its block answered and not by how the host got there. */
module Attempts {
  import opened Wrappers
  import opened Types
  import opened Graphs
  import opened Ladder

  // ---------------------------------------------------------------- one attempt

  /** What the block is given after its first `i` answers: the input, then each answer in turn. */
  function Given(work: Work, answers: seq<Value>, i: nat): Value
    requires i <= |answers|
  {
    if i == 0 then work.input else answers[i - 1]
  }

  ghost predicate AnswersAt(world: World, work: Work, attempt: nat, backend: Backend, answers: seq<Value>, i: nat)
    requires i < |answers|
  {
    world.run(work.site, attempt, i, backend, Given(work, answers, i)) == Produced(answers[i])
  }

  /** The loop field says so; a node without one is done with its first answer. */
  predicate IsDone(work: Work, answer: Value) {
    work.repeatUntil.None? || answer.GetText(work.repeatUntil.value) == Some("done")
  }

  /** Answer `i` leads to another turn. */
  predicate LeadsFurther(work: Work, answers: seq<Value>, i: nat)
    requires work.Bounded() && i < |answers|
  {
    !IsDone(work, answers[i]) && i + 1 < work.maxIterations.value
  }

  /** The block's answers, one after another, the first `going` of them leading further. */
  ghost predicate Turns(world: World, work: Work, attempt: nat, backend: Backend, answers: seq<Value>, going: nat)
    requires work.Bounded() && going <= |answers|
  {
    && (forall i :: 0 <= i < |answers| ==> AnswersAt(world, work, attempt, backend, answers, i))
    && (forall i :: 0 <= i < going ==> LeadsFurther(work, answers, i))
  }

  /** The block's run after these answers. */
  function NextRun(world: World, work: Work, attempt: nat, backend: Backend, answers: seq<Value>): BlockRun {
    world.run(work.site, attempt, |answers|, backend, Given(work, answers, |answers|))
  }

  /** These are the block's answers in this attempt, and this is what they make of it. */
  ghost predicate Yields(world: World, work: Work, attempt: nat, backend: Backend, answers: seq<Value>, outcome: Attempt)
    requires work.Bounded()
  {
    match outcome
    case Fatal =>
      Turns(world, work, attempt, backend, answers, |answers|) && NextRun(world, work, attempt, backend, answers) == Cancelled
    case Accepted(value) =>
      answers != [] && Turns(world, work, attempt, backend, answers, |answers| - 1) &&
      value == answers[|answers| - 1] && IsDone(work, value) &&
      work.expected.MatchesValue(value) && world.objection(work.site, attempt, work.input, value) == None
    case Rejected(reason, Some(message)) =>
      Turns(world, work, attempt, backend, answers, |answers|) &&
      NextRun(world, work, attempt, backend, answers) == BlockFailed(message) && reason == message
    case Rejected(reason, None) =>
      answers != [] && Turns(world, work, attempt, backend, answers, |answers| - 1) &&
      RefusedFor(world, work, attempt, answers, reason)
  }

  /** Why the last answer was not taken: the bound was reached, its type is wrong, or a check objected. */
  ghost predicate RefusedFor(world: World, work: Work, attempt: nat, answers: seq<Value>, reason: string)
    requires work.Bounded() && answers != []
  {
    var last := answers[|answers| - 1];
    if !IsDone(work, last) then |answers| >= work.maxIterations.value && reason == "did not reach repeat_until within max_iterations"
    else if !work.expected.MatchesValue(last) then reason == "does not match the declared output"
    else world.objection(work.site, attempt, work.input, last) == Some(reason)
  }

  /** The loop has come to the turn after these answers. */
  lemma {:induction false} TurnsUnroll(world: World, work: Work, attempt: nat, backend: Backend, answers: seq<Value>, i: nat)
    requires work.Bounded() && i <= |answers| && Turns(world, work, attempt, backend, answers, i)
    ensures Try(world, work, attempt, backend) == AttemptFrom(world, work, attempt, backend, i, Given(work, answers, i))
  {
    if i > 0 {
      assert LeadsFurther(work, answers, i - 1) && AnswersAt(world, work, attempt, backend, answers, i - 1);
      TurnsUnroll(world, work, attempt, backend, answers, i - 1);
    }
  }

  /** What answers make of an attempt is what the attempt is. */
  lemma YieldsIsTry(world: World, work: Work, attempt: nat, backend: Backend, answers: seq<Value>, outcome: Attempt)
    requires work.Bounded() && Yields(world, work, attempt, backend, answers, outcome)
    ensures Try(world, work, attempt, backend) == outcome
  {
    if outcome.Fatal? || (outcome.Rejected? && outcome.envelope.Some?) {
      TurnsUnroll(world, work, attempt, backend, answers, |answers|);
    } else {
      assert AnswersAt(world, work, attempt, backend, answers, |answers| - 1);
      TurnsUnroll(world, work, attempt, backend, answers, |answers| - 1);
    }
  }

  lemma TurnsAppend(world: World, work: Work, attempt: nat, backend: Backend, answers: seq<Value>, next: Value)
    requires work.Bounded() && Turns(world, work, attempt, backend, answers, |answers|)
    requires NextRun(world, work, attempt, backend, answers) == Produced(next)
    ensures Turns(world, work, attempt, backend, answers + [next], |answers|)
  {
    var longer := answers + [next];
    forall i | 0 <= i < |longer| ensures AnswersAt(world, work, attempt, backend, longer, i) {
      if i < |answers| { assert AnswersAt(world, work, attempt, backend, answers, i); }
      assert Given(work, longer, i) == Given(work, answers, i);
    }
    forall i | 0 <= i < |answers| ensures LeadsFurther(work, longer, i) { assert LeadsFurther(work, answers, i); }
  }

  /** There always are such answers. */
  lemma {:induction false} AnswersOf(world: World, work: Work, attempt: nat, backend: Backend, answers: seq<Value>) returns (all: seq<Value>)
    requires work.Bounded() && Turns(world, work, attempt, backend, answers, |answers|)
    ensures Yields(world, work, attempt, backend, all, AttemptFrom(world, work, attempt, backend, |answers|, Given(work, answers, |answers|)))
    decreases if work.repeatUntil.Some? && |answers| < work.maxIterations.value then work.maxIterations.value - |answers| else 0
  {
    all := answers;
    var ran := NextRun(world, work, attempt, backend, answers);
    if ran.Produced? {
      TurnsAppend(world, work, attempt, backend, answers, ran.value);
      all := answers + [ran.value];
      if LeadsFurther(work, all, |answers|) {
        all := AnswersOf(world, work, attempt, backend, all);
      }
    }
  }

  ghost predicate EndsAs(world: World, work: Work, attempt: nat, backend: Backend, outcome: Attempt)
    requires work.Bounded()
  {
    exists answers :: Yields(world, work, attempt, backend, answers, outcome)
  }

  /**
   What an attempt comes to, exactly: each answer is what the block makes of the one before, the
   first of them of the input, as long as none is done and the bound allows another; the last is
   accepted when it is done, of the declared type, and none of the checks objects to it.
   */
  lemma AttemptExactly(world: World, work: Work, attempt: nat, backend: Backend, outcome: Attempt)
    requires work.Bounded()
    ensures Try(world, work, attempt, backend) == outcome <==> EndsAs(world, work, attempt, backend, outcome)
  {
    assert Turns(world, work, attempt, backend, [], 0);
    var all := AnswersOf(world, work, attempt, backend, []);
    if answers :| Yields(world, work, attempt, backend, answers, outcome) {
      YieldsIsTry(world, work, attempt, backend, answers, outcome);
    }
  }

  // ---------------------------------------------------------------- the whole ladder

  /** The attempts before `k` were all rejected. */
  ghost predicate RejectedBefore(world: World, work: Work, plan: Plan, k: nat)
    requires work.Bounded() && k <= |plan.attempts|
  {
    forall i :: 0 <= i < k ==> IsRejected(world, work, plan, i)
  }

  ghost predicate IsRejected(world: World, work: Work, plan: Plan, i: nat)
    requires work.Bounded() && i < |plan.attempts|
  {
    exists reason, message :: EndsAs(world, work, i, plan.attempts[i], Rejected(reason, message))
  }

  /** The ladder comes to this at attempt `k`. */
  ghost predicate SettledAt(world: World, work: Work, plan: Plan, k: nat, result: Climbed)
    requires work.Bounded()
  {
    k < |plan.attempts| && RejectedBefore(world, work, plan, k) &&
    match result
    case Done(value) => EndsAs(world, work, k, plan.attempts[k], Accepted(value))
    case Stopped => EndsAs(world, work, k, plan.attempts[k], Fatal)
    case Exhausted(reason, escalated, message) =>
      k + 1 == |plan.attempts| &&
      exists why, envelope :: EndsAs(world, work, k, plan.attempts[k], Rejected(why, envelope)) && GivesUp(plan.end, why, envelope, result)
  }

  /** The last reason is reported, except when a rung names a model that is not there. */
  predicate GivesUp(end: End, why: string, envelope: Option<string>, result: Climbed) {
    result.Exhausted? && (result.escalated <==> end == Escalates) &&
    if end.Unresolved? then result.reason == "reroute names unresolved model " + end.model && result.envelope.None?
    else result.reason == why && result.envelope == envelope
  }

  lemma RejectedExactly(world: World, work: Work, plan: Plan, i: nat)
    requires work.Bounded() && i < |plan.attempts|
    ensures IsRejected(world, work, plan, i) <==> Try(world, work, i, plan.attempts[i]).Rejected?
  {
    var outcome := Try(world, work, i, plan.attempts[i]);
    AttemptExactly(world, work, i, plan.attempts[i], outcome);
    if reason, message :| EndsAs(world, work, i, plan.attempts[i], Rejected(reason, message)) {
      AttemptExactly(world, work, i, plan.attempts[i], Rejected(reason, message));
    }
  }

  lemma {:induction false} FollowPasses(world: World, work: Work, plan: Plan, k: nat)
    requires work.Bounded() && k < |plan.attempts| && RejectedBefore(world, work, plan, k)
    ensures Follow(world, work, plan, 0) == Follow(world, work, plan, k)
  {
    hide EndsAs, IsRejected, Try;
    if k > 0 {
      assert IsRejected(world, work, plan, k - 1);
      FollowPasses(world, work, plan, k - 1);
      RejectedExactly(world, work, plan, k - 1);
      FollowNext(world, work, plan, k - 1);
    }
  }

  lemma SettledIsFollow(world: World, work: Work, plan: Plan, k: nat, result: Climbed)
    requires work.Bounded() && SettledAt(world, work, plan, k, result)
    ensures Follow(world, work, plan, 0) == result
  {
    hide EndsAs, Try, Follow;
    FollowPasses(world, work, plan, k);
    FollowNext(world, work, plan, k);
    match result
    case Done(value) => AttemptExactly(world, work, k, plan.attempts[k], Accepted(value));
    case Stopped => AttemptExactly(world, work, k, plan.attempts[k], Fatal);
    case Exhausted(_, _, _) =>
      var why, envelope :| EndsAs(world, work, k, plan.attempts[k], Rejected(why, envelope)) && GivesUp(plan.end, why, envelope, result);
      AttemptExactly(world, work, k, plan.attempts[k], Rejected(why, envelope));
  }

  lemma {:induction false} FollowSettles(world: World, work: Work, plan: Plan, k: nat) returns (at: nat)
    requires work.Bounded() && k < |plan.attempts| && RejectedBefore(world, work, plan, k)
    ensures SettledAt(world, work, plan, at, Follow(world, work, plan, k))
    decreases |plan.attempts| - k
  {
    hide EndsAs, IsRejected, Try, Follow;
    var outcome := Try(world, work, k, plan.attempts[k]);
    AttemptExactly(world, work, k, plan.attempts[k], outcome);
    FollowNext(world, work, plan, k);
    at := k;
    if outcome.Rejected? {
      RejectedExactly(world, work, plan, k);
      if k + 1 < |plan.attempts| {
        at := FollowSettles(world, work, plan, k + 1);
      } else {
        assert GivesUp(plan.end, outcome.reason, outcome.envelope, Follow(world, work, plan, k));
      }
    }
  }

  /**
   What a ladder comes to, exactly: the first attempt of the plan that is not rejected decides, by
   its value or by cancellation; if all are, the last one's reason is what is reported.
   */
  lemma ClimbExactly(world: World, work: Work, result: Climbed)
    requires work.Bounded()
    ensures Climb(world, work) == result <==> exists k :: SettledAt(world, work, PlanOf(world, work), k, result)
  {
    hide SettledAt, Follow;
    var plan := PlanOf(world, work);
    NoneBefore(world, work, plan);
    var at := FollowSettles(world, work, plan, 0);
    if k :| SettledAt(world, work, plan, k, result) { SettledIsFollow(world, work, plan, k, result); }
  }

  lemma NoneBefore(world: World, work: Work, plan: Plan)
    requires work.Bounded()
    ensures RejectedBefore(world, work, plan, 0)
  {}

  // ---------------------------------------------------------------- the plan

  /** The backend in force at rung `r`: the last one switched to, from -1, before the first rung, on. */
  function InForce(rungs: seq<Rung>, r: int): Backend
    requires -1 <= r < |rungs|
  {
    if r == -1 then Default else if rungs[r].Reroute? then Alternate(rungs[r].model) else InForce(rungs, r - 1)
  }

  /** Where the ladder ends: the first rung that does not lead on, or past the last. */
  ghost predicate StopsAtRung(rungs: seq<Rung>, stop: nat, alternates: set<string>, end: End) {
    stop <= |rungs| && (forall i :: 0 <= i < stop ==> LeadsOn(rungs[i], alternates)) &&
    if stop == |rungs| then end == RanOut
    else if rungs[stop].Escalate? then end == Escalates
    else rungs[stop].Reroute? && rungs[stop].model !in alternates && end == Unresolved(rungs[stop].model)
  }

  /** The attempts that rung `r` allows are those from `from[r]` up to `from[r + 1]`. */
  ghost predicate Allots(rungs: seq<Rung>, stop: nat, from: seq<nat>, attempts: seq<Backend>)
    requires stop <= |rungs|
  {
    |from| == stop + 1 && from[0] == 1 <= |attempts| == from[stop] && attempts[0] == Default &&
    forall r :: 0 <= r < stop ==> AllotsRung(rungs, r, from, attempts)
  }

  /** A retry as often as it says, a reroute once, on the backend then in force. */
  ghost predicate AllotsRung(rungs: seq<Rung>, r: nat, from: seq<nat>, attempts: seq<Backend>)
    requires r < |rungs| && r + 1 < |from|
  {
    from[r + 1] == from[r] + (if rungs[r].Retry? then rungs[r].times else 1) && from[r + 1] <= |attempts| &&
    forall k :: from[r] <= k < from[r + 1] ==> attempts[k] == InForce(rungs, r)
  }

  lemma RepeatIs(backend: Backend, times: nat, k: nat)
    requires k < times
    ensures Repeat(backend, times)[k] == backend
  {
    if k > 0 { RepeatIs(backend, times - 1, k - 1); }
  }

  lemma AllotsOn(rungs: seq<Rung>, r: nat, from: seq<nat>, attempts: seq<Backend>, last: nat, more: seq<Backend>)
    requires r < |rungs| && r + 1 < |from| && AllotsRung(rungs, r, from, attempts)
    ensures AllotsRung(rungs, r, from + [last], attempts + more)
  {}

  /** One more rung's attempts. */
  lemma AllotsNext(rungs: seq<Rung>, i: nat, from: seq<nat>, before: seq<Backend>, more: seq<Backend>)
    requires i < |rungs| && Allots(rungs, i, from, before)
    requires |more| == (if rungs[i].Retry? then rungs[i].times else 1)
    requires forall k :: 0 <= k < |more| ==> more[k] == InForce(rungs, i)
    ensures Allots(rungs, i + 1, from + [|before| + |more|], before + more)
  {
    hide InForce;
    var longer, attempts := from + [|before| + |more|], before + more;
    forall r | 0 <= r < i + 1 ensures AllotsRung(rungs, r, longer, attempts) {
      if r < i {
        assert AllotsRung(rungs, r, from, before);
        AllotsOn(rungs, r, from, before, |before| + |more|, more);
      }
    }
  }

  /** The attempts of one rung that leads on, and those of the rungs behind it. */
  lemma ExpandRung(rungs: seq<Rung>, i: nat, alternates: set<string>) returns (more: seq<Backend>)
    requires i < |rungs| && LeadsOn(rungs[i], alternates)
    ensures |more| == (if rungs[i].Retry? then rungs[i].times else 1) && forall k :: 0 <= k < |more| ==> more[k] == InForce(rungs, i)
    ensures var rest := Expand(rungs[i + 1..], InForce(rungs, i), alternates);
            Expand(rungs[i..], InForce(rungs, i - 1), alternates) == Plan(more + rest.attempts, rest.end)
  {
    assert rungs[i..][0] == rungs[i] && rungs[i..][1..] == rungs[i + 1..];
    more := if rungs[i].Retry? then Repeat(InForce(rungs, i), rungs[i].times) else [InForce(rungs, i)];
    forall k | 0 <= k < |more| ensures more[k] == InForce(rungs, i) {
      if rungs[i].Retry? { RepeatIs(InForce(rungs, i), rungs[i].times, k); }
    }
  }

  lemma {:induction false} ExpandAllots(rungs: seq<Rung>, i: nat, alternates: set<string>, from: seq<nat>, before: seq<Backend>)
    returns (stop: nat, all: seq<nat>)
    requires i <= |rungs| && Allots(rungs, i, from, before) && forall j :: 0 <= j < i ==> LeadsOn(rungs[j], alternates)
    ensures var rest := Expand(rungs[i..], InForce(rungs, i - 1), alternates);
            StopsAtRung(rungs, stop, alternates, rest.end) && Allots(rungs, stop, all, before + rest.attempts)
    decreases |rungs| - i
  {
    hide Allots;
    stop, all := i, from;
    if i == |rungs| || !LeadsOn(rungs[i], alternates) {
      assert before + [] == before;
    } else {
      var more := ExpandRung(rungs, i, alternates);
      hide Expand, LeadsOn;
      AllotsNext(rungs, i, from, before, more);
      stop, all := ExpandAllots(rungs, i + 1, alternates, from + [|before| + |more|], before + more);
      var rest := Expand(rungs[i + 1..], InForce(rungs, i), alternates).attempts;
      assert before + (more + rest) == before + more + rest;
    }
  }

  /**
   Which attempts a ladder makes if all fail: one on the default backend, then for each rung up to
   the first that does not lead on, a retry's number on the backend last switched to, or one on the
   backend a reroute names.
   */
  lemma PlanMeans(world: World, work: Work) returns (stop: nat, from: seq<nat>)
    ensures var plan := PlanOf(world, work);
            StopsAtRung(work.onFail, stop, world.alternates, plan.end) && Allots(work.onFail, stop, from, plan.attempts)
  {
    assert work.onFail[0..] == work.onFail;
    stop, from := ExpandAllots(work.onFail, 0, world.alternates, [1], [Default]);
  }
}
