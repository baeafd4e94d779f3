/** The catalog shared by any number of processes: locking, publishing by rename, blobs, crashes. */
module CatalogRuns {
  import opened Wrappers
  import opened Catalog

  /** A file as a reader can find it. */
  datatype File = Absent | Torn | Whole(index: Index)

  /** One call of one process. */
  datatype Task = Task(process: nat, number: nat, op: Op)

  type Outcome = Option<CatalogError>

  datatype Phase =
    | Idle
    | Hashed(task: Task)
    | Storing(task: Task)
    | Waiting(task: Task)
    | Locked(task: Task)
    | HasRead(task: Task, copy: Index)
    | Changed(task: Task, next: Index)
    | Writing(task: Task, next: Index)
    | Synced(task: Task, next: Index)
    | Renamed(task: Task)
    | Returned(task: Task, outcome: Outcome)

  /** A call that has taken effect, or been refused, and what it reported. */
  datatype Record = Record(task: Task, outcome: Outcome)

  /** `log` lists the calls in the order they took effect; nothing reads it. */
  datatype State = State(
    file: File,
    tmp: File,
    blobs: map<string, Bytes>,
    lock: Option<nat>,
    phases: map<nat, Phase>,
    begun: nat,
    log: seq<Record>)

  const NEW_CATALOG := State(Absent, Absent, map[], None, map[], 0, [])

  /** What can happen next, each step by one process. */
  datatype Event =
    | Begin(p: nat, op: Op)
    | LookForBlob(p: nat)
    | StoreBlob(p: nat)
    | TakeLock(p: nat)
    | ReadIndex(p: nat)
    | Modify(p: nat)
    | CreateTmp(p: nat)
    | SyncTmp(p: nat)
    | Rename(p: nat)
    | Return(p: nat)
    | Crash(p: nat)

  function PhaseOf(s: State, p: nat): Phase {
    if p in s.phases then s.phases[p] else Idle
  }

  function View(file: File): Index {
    if file.Whole? then file.index else EMPTY_INDEX
  }

  function Goto(s: State, p: nat, phase: Phase): State {
    s.(phases := s.phases[p := phase])
  }

  /** The system call a process makes next, from the phase it is in; events that do not apply change nothing. */
  function After(sha: Digest, s: State, e: Event): State {
    var phase := PhaseOf(s, e.p);
    match e
    case Begin(p, op) =>
      if phase.Idle? || phase.Returned? then
        var task := Task(p, s.begun, op);
        Goto(s, p, if op.Add? then Hashed(task) else Waiting(task)).(begun := s.begun + 1)
      else s
    case LookForBlob(p) =>
      if phase.Hashed? && phase.task.op.Add? then
        Goto(s, p, if sha(phase.task.op.bytes) in s.blobs then Waiting(phase.task) else Storing(phase.task))
      else s
    case StoreBlob(p) =>
      if phase.Storing? && phase.task.op.Add? then
        Goto(s, p, Waiting(phase.task)).(blobs := s.blobs[sha(phase.task.op.bytes) := phase.task.op.bytes])
      else s
    case TakeLock(p) =>
      if phase.Waiting? && s.lock.None? then Goto(s, p, Locked(phase.task)).(lock := Some(p)) else s
    case ReadIndex(p) =>
      if phase.Locked? && !s.file.Torn? then Goto(s, p, HasRead(phase.task, View(s.file))) else s
    case Modify(p) =>
      if phase.HasRead? then
        match Apply(sha, phase.copy, phase.task.op)
        case Ok(next) => Goto(s, p, Changed(phase.task, next))
        case Err(error) =>
          Goto(s, p, Returned(phase.task, Some(error))).(lock := None, log := s.log + [Record(phase.task, Some(error))])
      else s
    case CreateTmp(p) =>
      if phase.Changed? then Goto(s, p, Writing(phase.task, phase.next)).(tmp := Torn) else s
    case SyncTmp(p) =>
      if phase.Writing? then Goto(s, p, Synced(phase.task, phase.next)).(tmp := Whole(phase.next)) else s
    case Rename(p) =>
      if phase.Synced? then
        Goto(s, p, Renamed(phase.task)).(file := s.tmp, tmp := Absent, log := s.log + [Record(phase.task, None)])
      else s
    case Return(p) =>
      if phase.Renamed? then Goto(s, p, Returned(phase.task, None)).(lock := None) else s
    case Crash(p) =>
      Goto(s, p, Idle).(lock := if s.lock == Some(p) then None else s.lock)
  }

  function Run(sha: Digest, events: seq<Event>): State {
    if events == [] then NEW_CATALOG else After(sha, Run(sha, events[..|events| - 1]), events[|events| - 1])
  }

  function OpsOf(log: seq<Record>): (ops: seq<Op>)
    ensures |ops| == |log|
  {
    if log == [] then [] else OpsOf(log[..|log| - 1]) + [log[|log| - 1].task.op]
  }

  // ---------------------------------------------------------------- the invariant

  ghost predicate Logged(s: State, task: Task, outcome: Outcome) {
    exists k :: 0 <= k < |s.log| && s.log[k] == Record(task, outcome)
  }

  ghost predicate Unlogged(s: State, task: Task) {
    forall k :: 0 <= k < |s.log| ==> s.log[k].task != task
  }

  ghost predicate BlobKept(sha: Digest, s: State, op: Op) {
    op.Add? ==> sha(op.bytes) in s.blobs
  }

  predicate Critical(phase: Phase) {
    phase.Locked? || phase.HasRead? || phase.Changed? || phase.Writing? || phase.Synced? || phase.Renamed?
  }

  /** A call that is under way and has not taken effect. */
  ghost predicate Pending(sha: Digest, s: State, task: Task) {
    Unlogged(s, task) && BlobKept(sha, s, task.op)
  }

  /** What process `p`'s phase says about the shared files. */
  ghost predicate Knows(sha: Digest, s: State, p: nat) {
    match PhaseOf(s, p)
    case Idle => true
    case Hashed(task) => Unlogged(s, task) && task.op.Add?
    case Storing(task) => Unlogged(s, task) && task.op.Add?
    case Waiting(task) => Pending(sha, s, task)
    case Locked(task) => Pending(sha, s, task)
    case HasRead(task, copy) => Pending(sha, s, task) && copy == View(s.file)
    case Changed(task, next) => Pending(sha, s, task) && Apply(sha, View(s.file), task.op) == Ok(next)
    case Writing(task, next) => Pending(sha, s, task) && Apply(sha, View(s.file), task.op) == Ok(next)
    case Synced(task, next) =>
      Pending(sha, s, task) && Apply(sha, View(s.file), task.op) == Ok(next) && s.tmp == Whole(next)
    case Renamed(task) => Logged(s, task, None)
    case Returned(task, outcome) => Logged(s, task, outcome)
  }

  ghost predicate Mine(sha: Digest, s: State, p: nat) {
    var phase := PhaseOf(s, p);
    && (Critical(phase) <==> s.lock == Some(p))
    && (!phase.Idle? ==> phase.task.process == p && phase.task.number < s.begun)
    && Knows(sha, s, p)
  }

  /** What each call reported is what it would have reported had the calls run one after another. */
  ghost predicate ReportsRight(sha: Digest, log: seq<Record>) {
    forall k :: 0 <= k < |log| ==> ReportRight(sha, log, k)
  }

  ghost predicate ReportRight(sha: Digest, log: seq<Record>, k: nat)
    requires k < |log|
  {
    var result := Apply(sha, Fold(sha, OpsOf(log[..k])), log[k].task.op);
    log[k].outcome == if result.Ok? then None else Some(result.error)
  }

  ghost predicate OnceEach(log: seq<Record>, begun: nat) {
    && (forall k :: 0 <= k < |log| ==> log[k].task.number < begun)
    && (forall j, k :: 0 <= j < k < |log| ==> log[j].task != log[k].task)
  }

  ghost predicate BlobsHold(sha: Digest, s: State) {
    && (forall hex :: hex in s.blobs ==> sha(s.blobs[hex]) == hex)
    && (forall nv :: nv in View(s.file).entries ==> HasBlob(s, View(s.file).entries[nv].hash))
    && (forall nv :: nv in View(s.file).retired ==> HasBlob(s, View(s.file).retired[nv]))
  }

  predicate HasBlob(s: State, hash: string) {
    |hash| >= |PREFIX| && hash[..|PREFIX|] == PREFIX && hash[|PREFIX|..] in s.blobs
  }

  ghost predicate Good(sha: Digest, s: State) {
    && !s.file.Torn?
    && View(s.file) == Fold(sha, OpsOf(s.log))
    && ReportsRight(sha, s.log)
    && OnceEach(s.log, s.begun)
    && BlobsHold(sha, s)
    && forall p: nat :: Mine(sha, s, p)
  }

  // ---------------------------------------------------------------- every step keeps it

  /** A step of `p` as the other processes see it. */
  ghost predicate StepOf(s: State, t: State, p: nat) {
    && (forall q: nat :: q != p ==> PhaseOf(t, q) == PhaseOf(s, q))
    && s.begun <= t.begun
    && s.blobs.Keys <= t.blobs.Keys
    && (t.lock == s.lock || (s.lock in {None, Some(p)} && t.lock in {None, Some(p)}))
    && ((t.file == s.file && t.tmp == s.tmp) || s.lock == Some(p))
    && (t.log == s.log || LogsOne(s, t, p))
  }

  ghost predicate LogsOne(s: State, t: State, p: nat) {
    exists record: Record :: record.task.process == p && t.log == s.log + [record]
  }

  lemma UnloggedStays(s: State, t: State, p: nat, task: Task)
    requires StepOf(s, t, p) && task.process != p && Unlogged(s, task)
    ensures Unlogged(t, task)
  {
    if t.log != s.log {
      var record: Record :| record.task.process == p && t.log == s.log + [record];
    }
  }

  lemma LoggedStays(s: State, t: State, p: nat, task: Task, outcome: Outcome)
    requires StepOf(s, t, p) && Logged(s, task, outcome)
    ensures Logged(t, task, outcome)
  {
    var k :| 0 <= k < |s.log| && s.log[k] == Record(task, outcome);
    if t.log != s.log {
      var record: Record :| record.task.process == p && t.log == s.log + [record];
    }
    assert t.log[k] == s.log[k];
  }

  /** What another process knows survives the step. */
  lemma OtherKeeps(sha: Digest, s: State, t: State, p: nat, q: nat)
    requires StepOf(s, t, p) && Mine(sha, s, q) && p != q
    ensures Mine(sha, t, q)
  {
    var phase := PhaseOf(s, q);
    if phase.Renamed? {
      LoggedStays(s, t, p, phase.task, None);
    } else if phase.Returned? {
      LoggedStays(s, t, p, phase.task, phase.outcome);
    } else if !phase.Idle? {
      UnloggedStays(s, t, p, phase.task);
    }
  }

  lemma OthersKeep(sha: Digest, s: State, t: State, p: nat)
    requires StepOf(s, t, p) && (forall q: nat :: Mine(sha, s, q)) && Mine(sha, t, p)
    ensures forall q: nat :: Mine(sha, t, q)
  {
    forall q: nat ensures Mine(sha, t, q) {
      if q != p { OtherKeeps(sha, s, t, p, q); }
    }
  }

  /** The call takes effect now: it was not in the log, and is from now on. */
  lemma LogsNext(sha: Digest, s: State, task: Task, outcome: Outcome)
    requires ReportsRight(sha, s.log) && OnceEach(s.log, s.begun) && Unlogged(s, task) && task.number < s.begun
    requires var result := Apply(sha, Fold(sha, OpsOf(s.log)), task.op);
             outcome == if result.Ok? then None else Some(result.error)
    ensures var log := s.log + [Record(task, outcome)];
            ReportsRight(sha, log) && OnceEach(log, s.begun) && OpsOf(log) == OpsOf(s.log) + [task.op]
  {
    var log := s.log + [Record(task, outcome)];
    assert log[..|s.log|] == s.log;
    forall k | 0 <= k < |log| ensures ReportRight(sha, log, k) {
      if k < |s.log| {
        assert ReportRight(sha, s.log, k);
        assert log[..k] == s.log[..k];
      }
    }
  }

  lemma FoldNext(sha: Digest, ops: seq<Op>, op: Op)
    ensures var result := Apply(sha, Fold(sha, ops), op);
            Fold(sha, ops + [op]) == if result.Ok? then result.value else Fold(sha, ops)
  {
    assert (ops + [op])[..|ops|] == ops;
  }

  /** A step that leaves the index and the log alone. */
  lemma QuietStep(sha: Digest, s: State, t: State, p: nat)
    requires Good(sha, s) && StepOf(s, t, p) && Mine(sha, t, p)
    requires t.file == s.file && t.log == s.log
    requires t.blobs == s.blobs || exists b: Bytes :: t.blobs == s.blobs[sha(b) := b]
    ensures Good(sha, t)
  {
    OthersKeep(sha, s, t, p);
    OnceEachLater(s.log, s.begun, t.begun);
  }

  lemma OnceEachLater(log: seq<Record>, begun: nat, later: nat)
    requires OnceEach(log, begun) && begun <= later
    ensures OnceEach(log, later)
  {}

  lemma BeginIsGood(sha: Digest, s: State, p: nat, op: Op)
    requires Good(sha, s)
    ensures Good(sha, After(sha, s, Begin(p, op)))
  {
    var t := After(sha, s, Begin(p, op));
    if t != s {
      assert Mine(sha, s, p);
      assert Unlogged(t, Task(p, s.begun, op)) by {
        forall k | 0 <= k < |s.log| ensures s.log[k].task.number != s.begun {}
      }
      QuietStep(sha, s, t, p);
    }
  }

  lemma BlobStepsAreGood(sha: Digest, s: State, e: Event)
    requires Good(sha, s) && (e.LookForBlob? || e.StoreBlob?)
    ensures Good(sha, After(sha, s, e))
  {
    var t := After(sha, s, e);
    if t != s {
      assert Mine(sha, s, e.p);
      if e.StoreBlob? { assert t.blobs == s.blobs[sha(PhaseOf(s, e.p).task.op.bytes) := PhaseOf(s, e.p).task.op.bytes]; }
      QuietStep(sha, s, t, e.p);
    }
  }

  lemma TakeLockIsGood(sha: Digest, s: State, p: nat)
    requires Good(sha, s)
    ensures Good(sha, After(sha, s, TakeLock(p)))
  {
    var t := After(sha, s, TakeLock(p));
    if t != s {
      assert Mine(sha, s, p);
      QuietStep(sha, s, t, p);
    }
  }

  lemma ReadIndexIsGood(sha: Digest, s: State, p: nat)
    requires Good(sha, s)
    ensures Good(sha, After(sha, s, ReadIndex(p)))
  {
    var t := After(sha, s, ReadIndex(p));
    if t != s {
      assert Mine(sha, s, p);
      QuietStep(sha, s, t, p);
    }
  }

  lemma ReturnIsGood(sha: Digest, s: State, p: nat)
    requires Good(sha, s)
    ensures Good(sha, After(sha, s, Return(p)))
  {
    var t := After(sha, s, Return(p));
    if t != s {
      assert Mine(sha, s, p);
      assert StepOf(s, t, p);
      LoggedStays(s, t, p, PhaseOf(s, p).task, None);
      QuietStep(sha, s, t, p);
    }
  }

  /** A process that dies gives up its lock and leaves its files as they are. */
  lemma CrashIsGood(sha: Digest, s: State, p: nat)
    requires Good(sha, s)
    ensures Good(sha, After(sha, s, Crash(p)))
  {
    var t := After(sha, s, Crash(p));
    assert Mine(sha, s, p);
    QuietStep(sha, s, t, p);
  }

  lemma CreateTmpIsGood(sha: Digest, s: State, p: nat)
    requires Good(sha, s)
    ensures Good(sha, After(sha, s, CreateTmp(p)))
  {
    var t := After(sha, s, CreateTmp(p));
    if t != s {
      assert Mine(sha, s, p);
      QuietStep(sha, s, t, p);
    }
  }

  lemma SyncTmpIsGood(sha: Digest, s: State, p: nat)
    requires Good(sha, s)
    ensures Good(sha, After(sha, s, SyncTmp(p)))
  {
    var t := After(sha, s, SyncTmp(p));
    if t != s {
      assert Mine(sha, s, p);
      QuietStep(sha, s, t, p);
    }
  }

  /** A step that puts a call in the log and leaves `t.file` right and the blobs as they were. */
  lemma LoggingStep(sha: Digest, s: State, t: State, p: nat, task: Task, outcome: Outcome)
    requires Good(sha, s) && StepOf(s, t, p) && Mine(sha, t, p)
    requires t.log == s.log + [Record(task, outcome)] && t.begun == s.begun && !t.file.Torn? && BlobsHold(sha, t)
    requires Unlogged(s, task) && task.number < s.begun
    requires var result := Apply(sha, View(s.file), task.op);
             outcome == (if result.Ok? then None else Some(result.error)) &&
             View(t.file) == if result.Ok? then result.value else View(s.file)
    ensures Good(sha, t)
  {
    LogsNext(sha, s, task, outcome);
    FoldNext(sha, OpsOf(s.log), task.op);
    OthersKeep(sha, s, t, p);
  }

  lemma RefusalIsGood(sha: Digest, s: State, p: nat)
    requires Good(sha, s) && PhaseOf(s, p).HasRead? && Apply(sha, PhaseOf(s, p).copy, PhaseOf(s, p).task.op).Err?
    ensures Good(sha, After(sha, s, Modify(p)))
  {
    var t, phase := After(sha, s, Modify(p)), PhaseOf(s, p);
    assert Mine(sha, s, p);
    var outcome := Some(Apply(sha, phase.copy, phase.task.op).error);
    assert t.log[|s.log|] == Record(phase.task, outcome);
    assert Logged(t, phase.task, outcome);
    assert LogsOne(s, t, p);
    LoggingStep(sha, s, t, p, phase.task, outcome);
  }

  lemma ModifyIsGood(sha: Digest, s: State, p: nat)
    requires Good(sha, s)
    ensures Good(sha, After(sha, s, Modify(p)))
  {
    hide BlobsHold, ReportsRight, OnceEach, Fold;
    var t, phase := After(sha, s, Modify(p)), PhaseOf(s, p);
    if phase.HasRead? {
      if Apply(sha, phase.copy, phase.task.op).Ok? {
        assert Mine(sha, s, p);
        QuietStep(sha, s, t, p);
      } else {
        RefusalIsGood(sha, s, p);
      }
    }
  }

  lemma PublishedBlobs(sha: Digest, s: State, t: State, op: Op)
    requires BlobsHold(sha, s) && BlobKept(sha, s, op) && t.blobs == s.blobs
    requires Apply(sha, View(s.file), op) == Ok(View(t.file))
    ensures BlobsHold(sha, t)
  {
    if op.Add? {
      var hash := EntryFor(sha, op).hash;
      assert hash[..|PREFIX|] == PREFIX && hash[|PREFIX|..] == sha(op.bytes);
    }
  }

  lemma RenameIsGood(sha: Digest, s: State, p: nat)
    requires Good(sha, s)
    ensures Good(sha, After(sha, s, Rename(p)))
  {
    var t, phase := After(sha, s, Rename(p)), PhaseOf(s, p);
    if phase.Synced? {
      assert Mine(sha, s, p);
      PublishedBlobs(sha, s, t, phase.task.op);
      assert t.log[|s.log|] == Record(phase.task, None);
      assert Logged(t, phase.task, None);
      assert LogsOne(s, t, p);
      LoggingStep(sha, s, t, p, phase.task, None);
    }
  }

  lemma StepIsGood(sha: Digest, s: State, e: Event)
    requires Good(sha, s)
    ensures Good(sha, After(sha, s, e))
  {
    match e
    case Begin(p, op) => BeginIsGood(sha, s, p, op);
    case LookForBlob(_) => BlobStepsAreGood(sha, s, e);
    case StoreBlob(_) => BlobStepsAreGood(sha, s, e);
    case TakeLock(p) => TakeLockIsGood(sha, s, p);
    case ReadIndex(p) => ReadIndexIsGood(sha, s, p);
    case Modify(p) => ModifyIsGood(sha, s, p);
    case CreateTmp(p) => CreateTmpIsGood(sha, s, p);
    case SyncTmp(p) => SyncTmpIsGood(sha, s, p);
    case Rename(p) => RenameIsGood(sha, s, p);
    case Return(p) => ReturnIsGood(sha, s, p);
    case Crash(p) => CrashIsGood(sha, s, p);
  }

  lemma {:induction false} RunIsGood(sha: Digest, events: seq<Event>)
    ensures Good(sha, Run(sha, events))
  {
    if events == [] {
      assert OpsOf([]) == [];
    } else {
      RunIsGood(sha, events[..|events| - 1]);
      StepIsGood(sha, Run(sha, events[..|events| - 1]), events[|events| - 1]);
    }
  }

  // ---------------------------------------------------------------- what any run guarantees

  /**
   Linearizability. Whatever the interleaving and wherever processes crash: a reader never finds
   a torn index; what it finds is what the calls that took effect come to, one after another;
   every report, refusals included, is the one that order gives; and a call that returned took
   effect exactly once.
   */
  lemma Linearizable(sha: Digest, events: seq<Event>, p: nat)
    ensures var s := Run(sha, events);
            !s.file.Torn? && View(s.file) == Fold(sha, OpsOf(s.log)) && ReportsRight(sha, s.log) &&
            (forall j, k :: 0 <= j < k < |s.log| ==> s.log[j].task != s.log[k].task) &&
            (PhaseOf(s, p).Returned? ==> Logged(s, PhaseOf(s, p).task, PhaseOf(s, p).outcome)) &&
            Disjoint(View(s.file))
  {
    RunIsGood(sha, events);
    var s := Run(sha, events);
    assert Mine(sha, s, p);
    FoldDisjoint(sha, OpsOf(s.log));
  }

  lemma {:induction false} LogOnlyGrows(sha: Digest, events: seq<Event>, i: nat)
    requires i <= |events|
    ensures Run(sha, events[..i]).log <= Run(sha, events).log
    decreases |events|
  {
    if i == |events| {
      assert events[..i] == events;
    } else {
      var front := events[..|events| - 1];
      assert front[..i] == events[..i];
      LogOnlyGrows(sha, front, i);
    }
  }

  /**
   And the order is that of real time: a call that had returned before another began comes before
   it in the log, with the report it returned.
   */
  lemma ReturnedComesFirst(sha: Digest, events: seq<Event>, i: nat, j: nat, p: nat, k: nat)
    requires i <= j < |events| && PhaseOf(Run(sha, events[..i]), p).Returned?
    requires Begins(sha, Run(sha, events[..j]), events[j]).Some?
    requires k < |Run(sha, events).log| && Begins(sha, Run(sha, events[..j]), events[j]) == Some(Run(sha, events).log[k].task)
    ensures var returned := PhaseOf(Run(sha, events[..i]), p);
            exists m :: 0 <= m < k && Run(sha, events).log[m] == Record(returned.task, returned.outcome)
  {
    var (early, now, late) := (Run(sha, events[..i]), Run(sha, events[..j]), Run(sha, events));
    var returned := PhaseOf(early, p);
    RunIsGood(sha, events[..i]);
    RunIsGood(sha, events[..j]);
    assert Mine(sha, early, p);
    var m :| 0 <= m < |early.log| && early.log[m] == Record(returned.task, returned.outcome);
    assert events[..j][..i] == events[..i];
    LogOnlyGrows(sha, events[..j], i);
    LogOnlyGrows(sha, events, j);
    assert now.log[m] == early.log[m] && late.log[m] == now.log[m];
  }

  /** The call that an event begins, if the process is free to begin one. */
  function Begins(sha: Digest, s: State, e: Event): Option<Task> {
    if e.Begin? && After(sha, s, e) != s then Some(PhaseOf(After(sha, s, e), e.p).task) else None
  }

  lemma {:induction false} OpsOfPrefix(log: seq<Record>, n: nat)
    requires n <= |log|
    ensures OpsOf(log[..n]) == OpsOf(log)[..n]
    decreases |log|
  {
    if n == |log| {
      assert log[..n] == log;
    } else {
      var front := log[..|log| - 1];
      assert front[..n] == log[..n];
      OpsOfPrefix(front, n);
    }
  }

  /** Immutability. What a name@version stood for at any time it stands for at every later time. */
  lemma PublishedNeverChanges(sha: Digest, events: seq<Event>, i: nat, nv: string)
    requires i <= |events| && Claim(View(Run(sha, events[..i]).file), nv).Some?
    ensures Claim(View(Run(sha, events).file), nv) == Claim(View(Run(sha, events[..i]).file), nv)
  {
    RunIsGood(sha, events);
    RunIsGood(sha, events[..i]);
    LogOnlyGrows(sha, events, i);
    var (early, late) := (Run(sha, events[..i]).log, Run(sha, events).log);
    assert late[..|early|] == early;
    OpsOfPrefix(late, |early|);
    ClaimsNeverChange(sha, OpsOf(late), |early|, nv);
  }

  // ---------------------------------------------------------------- reading a blob back

  datatype BlobRead = Read(bytes: Bytes) | MalformedHash | NoSuchFile

  function StripPrefix(hash: string): string {
    if |hash| >= |PREFIX| && hash[..|PREFIX|] == PREFIX then hash[|PREFIX|..] else hash
  }

  function ReadBlob(blobs: map<string, Bytes>, entry: Entry): BlobRead {
    var hex := StripPrefix(entry.hash);
    if !WellFormedHex(hex) then MalformedHash
    else if hex in blobs then Read(blobs[hex])
    else NoSuchFile
  }

  /** Every entry a reader can find has its content, and the content has the entry's hash. */
  lemma EveryEntryHasItsBlob(sha: Digest, events: seq<Event>, nv: string)
    requires InHex(sha) && nv in View(Run(sha, events).file).entries
    ensures var s := Run(sha, events);
            var entry := View(s.file).entries[nv];
            var r := ReadBlob(s.blobs, entry);
            r.Read? && PREFIX + sha(r.bytes) == entry.hash && r.bytes in s.blobs.Values
  {
    RunIsGood(sha, events);
    var s := Run(sha, events);
    var hash := View(s.file).entries[nv].hash;
    assert HasBlob(s, hash);
    assert WellFormedHex(sha(s.blobs[StripPrefix(hash)]));
    assert hash == hash[..|PREFIX|] + hash[|PREFIX|..];
  }

  // ---------------------------------------------------------------- where contents come from

  /** The contents that some call of the run adds. */
  ghost function AddedIn(events: seq<Event>): set<Bytes> {
    set e | e in events && e.Begin? && e.op.Add? :: e.op.bytes
  }

  predicate AddsFrom(op: Op, contents: set<Bytes>) {
    op.Add? ==> op.bytes in contents
  }

  /** Every content in sight was brought by a call. */
  ghost predicate Sourced(s: State, contents: set<Bytes>) {
    && (forall hex :: hex in s.blobs ==> s.blobs[hex] in contents)
    && (forall k :: 0 <= k < |s.log| ==> AddsFrom(s.log[k].task.op, contents))
    && (forall p :: p in s.phases && !s.phases[p].Idle? ==> AddsFrom(s.phases[p].task.op, contents))
  }

  lemma StepIsSourced(sha: Digest, s: State, e: Event, contents: set<Bytes>)
    requires Sourced(s, contents) && (e.Begin? ==> AddsFrom(e.op, contents))
    ensures Sourced(After(sha, s, e), contents)
  {
    hide Apply;
  }

  lemma {:induction false} RunIsSourced(sha: Digest, events: seq<Event>, contents: set<Bytes>)
    requires AddedIn(events) <= contents
    ensures Sourced(Run(sha, events), contents)
  {
    if events != [] {
      hide After;
      var front, last := events[..|events| - 1], events[|events| - 1];
      assert events == front + [last];
      assert last in events;
      RunIsSourced(sha, front, contents);
      StepIsSourced(sha, Run(sha, front), last, contents);
    }
  }

  lemma AddClaims(sha: Digest, index: Index, op: Op)
    requires op.Add? && Apply(sha, index, op).Ok?
    ensures Claim(Apply(sha, index, op).value, op.nameVersion) == Some(EntryFor(sha, op).hash)
  {}

  /** What an add that took effect claims stays claimed. */
  lemma AddedIsClaimed(sha: Digest, log: seq<Record>, k: nat)
    requires ReportsRight(sha, log) && k < |log| && log[k].outcome == None && log[k].task.op.Add?
    ensures Claim(Fold(sha, OpsOf(log)), log[k].task.op.nameVersion) == Some(EntryFor(sha, log[k].task.op).hash)
  {
    hide Apply, Fold, EntryFor, Claim;
    var op, before := log[k].task.op, OpsOf(log[..k]);
    assert ReportRight(sha, log, k);
    assert log[..k + 1][..k] == log[..k];
    assert OpsOf(log[..k + 1]) == before + [op];
    FoldNext(sha, before, op);
    AddClaims(sha, Fold(sha, before), op);
    OpsOfPrefix(log, k + 1);
    ClaimsNeverChange(sha, OpsOf(log), k + 1, op.nameVersion);
  }

  /**
   What was added is what is read back: once a call has added some bytes under a name, any reader
   that finds the name, at that time or later and whatever was removed and added between, reads
   those bytes, provided no two contents added in the run share a digest.
   */
  lemma AddedIsReadBack(sha: Digest, events: seq<Event>, k: nat)
    requires InHex(sha) && TellsApart(sha, AddedIn(events))
    requires var log := Run(sha, events).log; k < |log| && log[k].outcome == None && log[k].task.op.Add?
    ensures var s := Run(sha, events);
            var op := s.log[k].task.op;
            op.nameVersion in View(s.file).entries ==>
              ReadBlob(s.blobs, View(s.file).entries[op.nameVersion]) == Read(op.bytes)
  {
    RunIsGood(sha, events);
    RunIsSourced(sha, events, AddedIn(events));
    var s := Run(sha, events);
    var op := s.log[k].task.op;
    AddedIsClaimed(sha, s.log, k);
    if op.nameVersion in View(s.file).entries {
      EveryEntryHasItsBlob(sha, events, op.nameVersion);
      var bytes := ReadBlob(s.blobs, View(s.file).entries[op.nameVersion]).bytes;
      assert (PREFIX + sha(bytes))[|PREFIX|..] == sha(bytes);
      assert (PREFIX + sha(op.bytes))[|PREFIX|..] == sha(op.bytes);
      assert AddsFrom(op, AddedIn(events));
    }
  }

  /** Any run of fewer than 16^64 steps has a digest that meets those conditions. */
  lemma RunHasADigest(events: seq<Event>) returns (sha: Digest)
    requires |events| < Sixteens(64)
    ensures InHex(sha) && TellsApart(sha, AddedIn(events))
  {
    var contents := Contents(events);
    ContentsAre(events);
    sha := DigestExists(contents);
  }

  function Contents(events: seq<Event>): (r: seq<Bytes>)
    ensures |r| <= |events|
  {
    if events == [] then []
    else (if events[0].Begin? && events[0].op.Add? then [events[0].op.bytes] else []) + Contents(events[1..])
  }

  predicate Adds(e: Event, b: Bytes) {
    e.Begin? && e.op.Add? && e.op.bytes == b
  }

  lemma {:induction false} ContentsHas(events: seq<Event>, b: Bytes)
    ensures b in Contents(events) <==> exists e :: e in events && Adds(e, b)
  {
    if events != [] {
      ContentsHas(events[1..], b);
      assert events == [events[0]] + events[1..];
      assert Adds(events[0], b) <==> b in Contents([events[0]]);
      assert Contents(events) == (if events[0].Begin? && events[0].op.Add? then [events[0].op.bytes] else []) + Contents(events[1..]);
      if e :| e in events && Adds(e, b) { assert e == events[0] || e in events[1..]; }
    }
  }

  lemma ContentsAre(events: seq<Event>)
    ensures AddedIn(events) == set b | b in Contents(events)
  {
    forall b ensures b in AddedIn(events) <==> b in Contents(events) {
      ContentsHas(events, b);
      if e :| e in events && Adds(e, b) { assert b in AddedIn(events); }
      if b in AddedIn(events) {
        var e :| e in events && e.Begin? && e.op.Add? && e.op.bytes == b;
        assert Adds(e, b);
      }
    }
  }
}
