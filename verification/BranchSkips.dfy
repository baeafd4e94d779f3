/** Which nodes a finished run skipped: exactly those that need a label not taken. */
module BranchSkips {
  import opened Wrappers
  import opened Types
  import opened Graphs
  import opened TopoSort
  import opened Exclusivity
  import opened Composition
  import opened GraphCheck
  import opened Ladder
  import opened Ledger
  import opened RunSpec
  import opened Interruption
  import opened CrashResume
  import opened Soundness

  // ---------------------------------------------------------------- how the ledger says a node ended

  datatype Ending = Open | Passed | Out(route: Option<string>)

  function EndingOf(s: Store, node: string): Ending {
    var own := Key(node, None);
    if own !in s.rows then Open
    else
      match s.rows[own]
      case SkippedRow => Passed
      case CompletedRow(output, _) => Out(output.GetText("route"))
      case _ => Open
  }

  /** By the ledger, the decision of node `k`'s mark came before it and took another label. */
  ghost predicate ExcludedIn(job: Job, k: nat, s: Store)
    requires k < |job.nodes|
  {
    var name := job.nodes[k].name;
    name in job.exclusiveTo &&
      var ex := job.exclusiveTo[name];
      Earlier(job, ex.decision, k) && EndingOf(s, ex.decision).Out? && EndingOf(s, ex.decision).route.Some? &&
      EndingOf(s, ex.decision).route.value != ex.label_
  }

  /** By the ledger, node `k` needs another node that was skipped. */
  ghost predicate NeedsPassed(job: Job, k: nat, s: Store)
    requires k < |job.nodes|
  {
    var node := job.nodes[k];
    node.input.Some? && exists m :: node.input.value.Mentions(m) && m != node.name && EndingOf(s, m).Passed?
  }

  /** A node that ended did so after all nodes before it, and was skipped exactly when it had to be. */
  ghost predicate EndedRight(job: Job, k: nat, s: Store)
    requires k < |job.nodes|
  {
    EndingOf(s, job.nodes[k].name) != Open ==>
      (forall j :: 0 <= j < k ==> EndingOf(s, job.nodes[j].name) != Open) &&
      (EndingOf(s, job.nodes[k].name).Passed? <==> ExcludedIn(job, k, s) || NeedsPassed(job, k, s))
  }

  ghost predicate RowsRight(job: Job, s: Store) {
    forall k :: 0 <= k < |job.nodes| ==> EndedRight(job, k, s)
  }

  /** What a run has in memory about a node is what the ledger says. */
  ghost predicate Told(vol: Volatile, node: string, end: Ending) {
    && end != Open
    && (node in vol.skipped <==> end.Passed?)
    && (if node in vol.routes then Some(vol.routes[node]) else None) == (if end.Out? then end.route else None)
  }

  ghost predicate AllTold(job: Job, i: nat, vol: Volatile, s: Store)
    requires i <= |job.nodes|
  {
    forall j :: 0 <= j < i ==> Told(vol, job.nodes[j].name, EndingOf(s, job.nodes[j].name))
  }

  // ---------------------------------------------------------------- one step

  lemma AgreeEnds(a: Store, b: Store, node: string)
    requires AgreeOn(a, b, node)
    ensures EndingOf(a, node) == EndingOf(b, node)
  {}

  predicate ItemOrPin(w: Write) {
    w.Put? ==> w.key.item.Some?
  }

  lemma {:induction false} ItemsLeaveOpen(s: Store, ws: seq<Write>, node: string)
    requires forall k :: 0 <= k < |ws| ==> ItemOrPin(ws[k])
    ensures EndingOf(ApplyAll(s, ws), node) == EndingOf(s, node)
    decreases |ws|
  {
    if ws != [] {
      assert ItemOrPin(ws[0]);
      forall k | 0 <= k < |ws[1..]| ensures ItemOrPin(ws[1..][k]) { assert ws[1..][k] == ws[k + 1]; }
      ItemsLeaveOpen(Apply(s, ws[0]), ws[1..], node);
    }
  }

  lemma FanoutWritesItems(env: Env, node: CheckedNode, s: Store)
    requires node.over.Some?
    ensures forall k :: 0 <= k < |RunFanout(env, node, s).writes| ==> ItemOrPin(RunFanout(env, node, s).writes[k])
  {
    hide FanFrom, FanoutEnd, ReadItems;
    var manifest := env.manifests(node.over.value);
    var items := UsableItems(manifest);
    RunFanoutIs(env, node, s);
    if items.Ok? && SamePin(s, node.name, manifest.digest) {
      var all := PinnedWrites(env, node, s, manifest.digest, items.value);
      FanPuts(env, node, items.value, 0, s.rows);
      FanoutEndAgain(env, node.name, |items.value|, all, ApplyAll(s, all.writes).rows, 0);
      forall k | 0 <= k < |all.writes| ensures ItemOrPin(all.writes[k]) {
        if all.writes[k].Put? { assert IsItemPut(all.writes[k], node.name); }
      }
    }
  }

  /** Part of a fan-out node's turn leaves its own row as it was; the whole turn completes it, without a route. */
  lemma FanoutEnds(env: Env, node: CheckedNode, vol: Volatile, s: Store, m: nat)
    requires node.over.Some? && m <= |FanoutStep(RunFanout(env, node, s), node.name, vol).writes|
    ensures var r := FanoutStep(RunFanout(env, node, s), node.name, vol);
            var end := EndingOf(ApplyAll(s, r.writes[..m]), node.name);
            (m < |r.writes| || r.Halt? ==> end == EndingOf(s, node.name)) &&
            (m == |r.writes| && r.Advance? ==> end == Out(None))
  {
    hide RunFanout;
    var fanned := RunFanout(env, node, s);
    FanoutWritesItems(env, node, s);
    var r := FanoutStep(fanned, node.name, vol);
    if m <= |fanned.writes| {
      assert r.writes[..m] == fanned.writes[..m];
      ItemsLeaveOpen(s, fanned.writes[..m], node.name);
    } else {
      var last := Put(Key(node.name, None), CompletedRow(fanned.value, None));
      assert r.writes[..m] == fanned.writes + [last];
      ApplyConcat(s, fanned.writes, [last]);
      ApplyOne(ApplyAll(s, fanned.writes), last);
      CollectionHasNoRoute(env, node, s);
    }
  }

  /** Part of a turn leaves the node's ending as it was, or is the whole turn. */
  lemma StepEnds(env: Env, job: Job, i: nat, vol: Volatile, s: Store, m: nat)
    requires LoopsBounded(job.nodes) && i < |job.nodes| && m <= |NodeStep(env, job, job.nodes[i], vol, s).writes|
    requires Unheard(vol, job.nodes[i].name)
    ensures var r, name := NodeStep(env, job, job.nodes[i], vol, s), job.nodes[i].name;
            var end := EndingOf(ApplyAll(s, r.writes[..m]), name);
            (m < |r.writes| || r.Halt? ==> end == EndingOf(s, name)) &&
            (EndingOf(s, name) != Open ==> r.Advance? && r.writes == []) &&
            (m == |r.writes| && r.Advance? ==> Told(r.vol, name, end)) &&
            (m == |r.writes| && r.Advance? && EndingOf(s, name) == Open ==>
              (end.Passed? <==> BranchedAway(job.exclusiveTo, name, vol.routes) || NeedsSkipped(job.nodes[i], vol.skipped)))
  {
    hide RunFanout, Climb, InputOf, RouteAccepted, BranchedAway, NeedsSkipped;
    var node := job.nodes[i];
    var r := NodeStep(env, job, node, vol, s);
    if node.over.Some? && EndingOf(s, node.name) == Open && r == FanoutStep(RunFanout(env, node, s), node.name, vol) {
      FanoutEnds(env, node, vol, s, m);
    } else {
      if node.over.None? { AtMostOneWrite(env, job, node, vol, s); }
      assert |r.writes| <= 1;
      if m == 0 { assert r.writes[..0] == []; }
      if m == 1 {
        assert r.writes[..1] == [r.writes[0]];
        ApplyOne(s, r.writes[0]);
      }
    }
  }

  /** What memory excludes is what the ledger excludes. */
  lemma ExcludedAlike(job: Job, i: nat, vol: Volatile, s: Store)
    requires i < |job.nodes| && SoundAt(job, i, vol) && AllTold(job, i, vol, s)
    ensures BranchedAway(job.exclusiveTo, job.nodes[i].name, vol.routes) <==> ExcludedIn(job, i, s)
  {
    var name := job.nodes[i].name;
    if name in job.exclusiveTo {
      var d := job.exclusiveTo[name].decision;
      if d in vol.routes { assert !Unheard(vol, d); }
    }
  }

  lemma NeedsAlike(job: Job, i: nat, vol: Volatile, s: Store)
    requires Laid(job) && GoodJob(job) && i < |job.nodes| && SoundAt(job, i, vol) && AllTold(job, i, vol, s)
    ensures NeedsSkipped(job.nodes[i], vol.skipped) <==> NeedsPassed(job, i, s)
  {
    var node := job.nodes[i];
    NotYetHeard(job, i);
    assert NeedsEarlier(job, i);
    if node.input.Some? {
      ReferencesAnyMeans(node.input.value, vol.skipped);
      forall m | node.input.value.Mentions(m) ensures m in vol.skipped <==> m != node.name && EndingOf(s, m).Passed? {
        if m == node.name { assert Unheard(vol, m); }
      }
    }
  }

  /** Another store in which only node `i` may have come to its end, and rightly. */
  lemma RightNext(job: Job, i: nat, s: Store, t: Store)
    requires Laid(job) && GoodJob(job) && i < |job.nodes| && RowsRight(job, s)
    requires forall n :: n != job.nodes[i].name ==> EndingOf(t, n) == EndingOf(s, n)
    requires EndingOf(t, job.nodes[i].name) != EndingOf(s, job.nodes[i].name) ==>
               EndingOf(s, job.nodes[i].name) == Open &&
               (forall j :: 0 <= j < i ==> EndingOf(s, job.nodes[j].name) != Open) &&
               (EndingOf(t, job.nodes[i].name).Passed? <==> ExcludedIn(job, i, s) || NeedsPassed(job, i, s))
    ensures RowsRight(job, t)
  {
    hide EndingOf;
    SameNameSameNode(job, i);
    forall k | 0 <= k < |job.nodes| ensures EndedRight(job, k, t) {
      assert EndedRight(job, k, s);
      if EndingOf(t, job.nodes[i].name) == EndingOf(s, job.nodes[i].name) {
        assert forall n :: EndingOf(t, n) == EndingOf(s, n);
      } else if k <= i {
        SameBefore(job, k, i, s, t);
      }
    }
  }

  /** What node `k` had to go by does not change when a later node ends. */
  lemma SameBefore(job: Job, k: nat, i: nat, s: Store, t: Store)
    requires Laid(job) && GoodJob(job) && k <= i < |job.nodes|
    requires forall n :: n != job.nodes[i].name ==> EndingOf(t, n) == EndingOf(s, n)
    ensures ExcludedIn(job, k, t) <==> ExcludedIn(job, k, s)
    ensures NeedsPassed(job, k, t) <==> NeedsPassed(job, k, s)
  {
    hide EndingOf;
    SameNameSameNode(job, i);
    assert NeedsEarlier(job, k);
    forall n | Earlier(job, n, k) ensures EndingOf(t, n) == EndingOf(s, n) {
      assert n != job.nodes[i].name;
    }
  }

  /** Wherever a turn is cut, the ledger is right; and what the run then knows is what it says. */
  lemma StepKeepsRight(env: Env, job: Job, i: nat, vol: Volatile, s: Store, m: nat)
    requires Laid(job) && GoodJob(job) && i < |job.nodes| && SoundAt(job, i, vol)
    requires RowsRight(job, s) && AllTold(job, i, vol, s)
    requires m <= |NodeStep(env, job, job.nodes[i], vol, s).writes|
    ensures var r := NodeStep(env, job, job.nodes[i], vol, s);
            RowsRight(job, ApplyAll(s, r.writes[..m])) &&
            (m == |r.writes| && r.Advance? ==>
              Told(r.vol, job.nodes[i].name, EndingOf(ApplyAll(s, r.writes), job.nodes[i].name)))
  {
    hide EndingOf, NodeStep, ExcludedIn, NeedsPassed, EndedRight, BranchedAway, NeedsSkipped;
    var node := job.nodes[i];
    var r := NodeStep(env, job, node, vol, s);
    var t := ApplyAll(s, r.writes[..m]);
    assert m == |r.writes| ==> r.writes[..m] == r.writes;
    NotYetHeard(job, i);
    StepEnds(env, job, i, vol, s, m);
    ExcludedAlike(job, i, vol, s);
    NeedsAlike(job, i, vol, s);
    NodeStepLocal(env, job, node, vol, s, s);
    forall n | n != node.name ensures EndingOf(t, n) == EndingOf(s, n) {
      UntouchedAgrees(s, r.writes[..m], n);
      AgreeEnds(s, t, n);
    }
    if EndingOf(s, node.name) != Open { assert r.writes[..m] == []; }
    RightNext(job, i, s, t);
  }

  lemma ToldNext(job: Job, i: nat, before: Volatile, after: Volatile, s: Store, t: Store)
    requires GoodJob(job) && i < |job.nodes| && AllTold(job, i, before, s) && OneNode(job, i, before, after)
    requires forall n :: n != job.nodes[i].name ==> EndingOf(t, n) == EndingOf(s, n)
    requires Told(after, job.nodes[i].name, EndingOf(t, job.nodes[i].name))
    ensures AllTold(job, i + 1, after, t)
  {
    hide EndingOf;
    SameNameSameNode(job, i);
    forall j | 0 <= j < i + 1 ensures Told(after, job.nodes[j].name, EndingOf(t, job.nodes[j].name)) {
      if j < i { assert SameAbout(before, after, job.nodes[j].name); }
    }
  }

  ghost predicate Rightly(job: Job, i: nat, vol: Volatile, s: Store) {
    SoundAt(job, i, vol) && WellTypedRows(job, s) && RowsRight(job, s) && AllTold(job, i, vol, s)
  }

  lemma StepStaysRight(env: Env, job: Job, i: nat, vol: Volatile, s: Store)
    requires Laid(job) && GoodJob(job) && i < |job.nodes| && Rightly(job, i, vol, s)
    ensures var r := NodeStep(env, job, job.nodes[i], vol, s);
            r.Advance? ==> Rightly(job, i + 1, r.vol, ApplyAll(s, r.writes))
  {
    hide NodeStep, SoundAt, WellTypedRows, RowsRight, EndingOf, OneNode;
    var r := NodeStep(env, job, job.nodes[i], vol, s);
    assert i <= |job.nodes| && SoundAt(job, i, vol);
    StepKeepsSound(env, job, i, vol, s);
    StepKeepsRight(env, job, i, vol, s, |r.writes|);
    assert r.writes[..|r.writes|] == r.writes;
    NodeStepLocal(env, job, job.nodes[i], vol, s, s);
    if r.Advance? {
      var t := ApplyAll(s, r.writes);
      forall n | n != job.nodes[i].name ensures EndingOf(t, n) == EndingOf(s, n) {
        UntouchedAgrees(s, r.writes, n);
        AgreeEnds(s, t, n);
      }
      ToldNext(job, i, vol, r.vol, s, t);
    }
  }

  // ---------------------------------------------------------------- any history

  lemma {:induction false} TraverseKeepsRight(env: Env, job: Job, i: nat, vol: Volatile, s: Store, m: nat)
    requires Laid(job) && GoodJob(job) && i <= |job.nodes| && Rightly(job, i, vol, s)
    requires m <= |Traverse(StepOf(env, job), |job.nodes|, i, vol, s).writes|
    ensures RowsRight(job, ApplyAll(s, Traverse(StepOf(env, job), |job.nodes|, i, vol, s).writes[..m]))
    decreases |job.nodes| - i
  {
    hide NodeStep, SoundAt, WellTypedRows, RowsRight, AllTold;
    var writes := Traverse(StepOf(env, job), |job.nodes|, i, vol, s).writes;
    if i == |job.nodes| {
      assert writes[..m] == [];
    } else {
      assert SoundAt(job, i, vol) && WellTypedRows(job, s) && RowsRight(job, s) && AllTold(job, i, vol, s);
      var first := NodeStep(env, job, job.nodes[i], vol, s);
      assert first == StepOf(env, job)(i, vol, s);
      if m <= |first.writes| {
        assert writes[..m] == first.writes[..m];
        StepKeepsRight(env, job, i, vol, s, m);
      } else {
        StepStaysRight(env, job, i, vol, s);
        var s1, later := ApplyAll(s, first.writes), m - |first.writes|;
        TraverseKeepsRight(env, job, i + 1, first.vol, s1, later);
        var rest := Traverse(StepOf(env, job), |job.nodes|, i + 1, first.vol, s1).writes;
        assert writes[..m] == first.writes + rest[..later];
        ApplyConcat(s, first.writes, rest[..later]);
      }
    }
  }

  lemma RightAtStart(job: Job, s: Store)
    requires WellTypedRows(job, s) && RowsRight(job, s)
    ensures Rightly(job, 0, NOTHING_YET, s)
  {}

  lemma {:induction false} LedgerRight(job: Job, runs: seq<BrokenRun>)
    requires Laid(job) && GoodJob(job)
    ensures RowsRight(job, LedgerAfter(job, runs))
    decreases |runs|
  {
    if runs != [] {
      var front, last := runs[..|runs| - 1], runs[|runs| - 1];
      var before := LedgerAfter(job, front);
      LedgerRight(job, front);
      LedgerWellTyped(job, front);
      RightAtStart(job, before);
      var writes := Start(last.env, job, before).writes;
      var m := if last.after < |writes| then last.after else |writes|;
      assert writes[..|writes|] == writes;
      if job.nodes != [] { TraverseKeepsRight(last.env, job, 0, NOTHING_YET, before, m); }
    }
  }

  lemma RightOnArrival(env: Env, job: Job, i: nat, start: Store)
    requires Laid(job) && GoodJob(job) && i <= |job.nodes| && WellTypedRows(job, start) && RowsRight(job, start)
    ensures var at := ArrivesAt(StepOf(env, job), i, start); at.Some? ==> Rightly(job, i, at.value.vol, at.value.store)
  {
    var inv: Invariant := (k: nat, vol: Volatile, s: Store) => Rightly(job, k, vol, s);
    hide NodeStep, Rightly;
    forall k: nat, vol, s | k < |job.nodes| ensures KeptAt(StepOf(env, job), inv, k, vol, s) {
      if inv(k, vol, s) { StepStaysRight(env, job, k, vol, s); }
    }
    RightAtStart(job, start);
    HoldsOnArrival(StepOf(env, job), inv, |job.nodes|, i, start);
  }

  // ---------------------------------------------------------------- finished runs

  ghost predicate HaltsUnfinished(step: StepFunction, n: nat) {
    forall i: nat, vol, s {:trigger step(i, vol, s)} ::
      i < n && step(i, vol, s).Halt? ==> !step(i, vol, s).envelope.Finished?
  }

  lemma NodesHaltUnfinished(env: Env, job: Job)
    requires LoopsBounded(job.nodes)
    ensures HaltsUnfinished(StepOf(env, job), |job.nodes|)
  {}

  /** A traversal that was not stopped ends with what is in hand past the last node. */
  lemma {:induction false} TraverseArrives(step: StepFunction, n: nat, i: nat, start: Store)
    requires HaltsUnfinished(step, n) && i <= n && ArrivesAt(step, i, start).Some?
    ensures var at := ArrivesAt(step, i, start).value;
            var t := Traverse(step, n, i, at.vol, at.store);
            (t.stop.Some? ==> !t.stop.value.Finished?) &&
            (t.stop.None? ==> ArrivesAt(step, n, start).Some? && ArrivesAt(step, n, start).value.vol == t.vol)
    decreases n - i
  {
    if i < n {
      var at := ArrivesAt(step, i, start).value;
      if step(i, at.vol, at.store).Advance? { TraverseArrives(step, n, i + 1, start); }
    }
  }

  lemma FinishedArrives(env: Env, job: Job, start: Store)
    requires LoopsBounded(job.nodes) && Start(env, job, start).envelope.Finished?
    ensures var at := ArrivesAt(StepOf(env, job), |job.nodes|, start);
            at.Some? && at.value.vol == Start(env, job, start).vol
  {
    NodesHaltUnfinished(env, job);
    TraverseArrives(StepOf(env, job), |job.nodes|, 0, start);
  }

  /** The decision of the node's mark ran before the node and took another label. */
  ghost predicate ExcludedAt(job: Job, k: nat, routes: map<string, string>)
    requires k < |job.nodes|
  {
    var name := job.nodes[k].name;
    && BranchedAway(job.exclusiveTo, name, routes)
    && Earlier(job, job.exclusiveTo[name].decision, k)
  }

  /** Node `k` needs the output of another node `j`. */
  ghost predicate Needs(job: Job, k: nat, j: nat) {
    k < |job.nodes| && j < |job.nodes| && j != k &&
    job.nodes[k].input.Some? && job.nodes[k].input.value.Mentions(job.nodes[j].name)
  }

  ghost predicate NeedPath(job: Job, p: seq<nat>) {
    && p != []
    && (forall x :: 0 <= x < |p| ==> p[x] < |job.nodes|)
    && (forall x, y :: 0 <= x < |p| && 0 <= y < |p| && y == x + 1 ==> Needs(job, p[x], p[y]))
  }

  ghost predicate LeadsToExcluded(job: Job, p: seq<nat>, k: nat, routes: map<string, string>) {
    NeedPath(job, p) && p[0] == k && ExcludedAt(job, p[|p| - 1], routes)
  }

  /** The node, or one it needs through any number of others, is excluded. */
  ghost predicate Excluded(job: Job, k: nat, routes: map<string, string>) {
    exists p :: LeadsToExcluded(job, p, k, routes)
  }

  lemma NeedsGoBack(job: Job, k: nat, j: nat)
    requires Laid(job) && GoodJob(job) && Needs(job, k, j)
    ensures j < k
  {
    assert NeedsEarlier(job, k);
    SameNameSameNode(job, j);
    SameNameSameNode(job, k);
  }

  lemma {:induction false} PathGoesBack(job: Job, p: seq<nat>)
    requires Laid(job) && GoodJob(job) && NeedPath(job, p)
    ensures p[|p| - 1] <= p[0] < |job.nodes|
    decreases |p|
  {
    if |p| > 1 {
      assert Needs(job, p[0], p[1]);
      NeedsGoBack(job, p[0], p[1]);
      TailIsPath(job, p);
      PathGoesBack(job, p[1..]);
    }
  }

  lemma TailIsPath(job: Job, p: seq<nat>)
    requires NeedPath(job, p) && |p| > 1
    ensures NeedPath(job, p[1..])
  {
    var q := p[1..];
    forall x, y | 0 <= x < |q| && 0 <= y < |q| && y == x + 1 ensures Needs(job, q[x], q[y]) {
      assert Needs(job, p[x + 1], p[y + 1]);
    }
  }

  lemma PathFrom(job: Job, k: nat, p: seq<nat>)
    requires NeedPath(job, p) && Needs(job, k, p[0])
    ensures NeedPath(job, [k] + p)
  {}

  /** The nodes skipped are those excluded or needing another that was skipped. */
  ghost predicate SkipsRight(job: Job, vol: Volatile) {
    forall k :: 0 <= k < |job.nodes| ==>
      (job.nodes[k].name in vol.skipped <==>
        ExcludedAt(job, k, vol.routes) || exists j: nat :: Needs(job, k, j) && job.nodes[j].name in vol.skipped)
  }

  lemma {:induction false} SkippedIsExcluded(job: Job, vol: Volatile, k: nat)
    requires Laid(job) && GoodJob(job) && k < |job.nodes| && SkipsRight(job, vol) && job.nodes[k].name in vol.skipped
    ensures Excluded(job, k, vol.routes)
    decreases k
  {
    if ExcludedAt(job, k, vol.routes) {
      assert LeadsToExcluded(job, [k], k, vol.routes);
    } else {
      var j: nat :| Needs(job, k, j) && job.nodes[j].name in vol.skipped;
      NeedsGoBack(job, k, j);
      SkippedIsExcluded(job, vol, j);
      var p :| LeadsToExcluded(job, p, j, vol.routes);
      PathFrom(job, k, p);
      assert LeadsToExcluded(job, [k] + p, k, vol.routes);
    }
  }

  lemma {:induction false} ExcludedIsSkipped(job: Job, vol: Volatile, k: nat, p: seq<nat>)
    requires k < |job.nodes| && SkipsRight(job, vol) && LeadsToExcluded(job, p, k, vol.routes)
    ensures job.nodes[k].name in vol.skipped
    decreases |p|
  {
    if |p| > 1 {
      assert Needs(job, k, p[1]);
      TailIsPath(job, p);
      ExcludedIsSkipped(job, vol, p[1], p[1..]);
    }
  }

  /** At the end of the node loop, memory says of the skips what the ledger says. */
  lemma RightlySkips(job: Job, vol: Volatile, s: Store)
    requires Laid(job) && GoodJob(job) && Rightly(job, |job.nodes|, vol, s)
    ensures SkipsRight(job, vol)
  {
    hide EndingOf;
    forall k | 0 <= k < |job.nodes|
      ensures job.nodes[k].name in vol.skipped <==>
              ExcludedAt(job, k, vol.routes) || exists j: nat :: Needs(job, k, j) && job.nodes[j].name in vol.skipped
    {
      assert EndedRight(job, k, s) && Told(vol, job.nodes[k].name, EndingOf(s, job.nodes[k].name));
      SkippedAsNeeded(job, k, vol, s);
      assert ExcludedAt(job, k, vol.routes) <==> ExcludedIn(job, k, s);
    }
  }

  lemma SkippedAsNeeded(job: Job, k: nat, vol: Volatile, s: Store)
    requires Laid(job) && GoodJob(job) && k < |job.nodes| && AllTold(job, |job.nodes|, vol, s)
    ensures NeedsPassed(job, k, s) <==> exists j: nat :: Needs(job, k, j) && job.nodes[j].name in vol.skipped
  {
    hide EndingOf;
    var node := job.nodes[k];
    assert NeedsEarlier(job, k);
    if NeedsPassed(job, k, s) {
      var m :| node.input.value.Mentions(m) && m != node.name && EndingOf(s, m).Passed?;
      var j :| 0 <= j < k && job.nodes[j].name == m;
      assert Needs(job, k, j) && Told(vol, m, EndingOf(s, m));
    }
    if j: nat :| Needs(job, k, j) && job.nodes[j].name in vol.skipped {
      SameNameSameNode(job, k);
      assert Told(vol, job.nodes[j].name, EndingOf(s, job.nodes[j].name));
    }
  }

  /**
   The rule, for every job, with no condition on its branches. After any history, a run that
   finishes has skipped exactly the nodes that need, through any number of inputs, a node whose
   mark's decision ran before it and took another label; every other node has an output.
   */
  lemma SkipsExactly(env: Env, job: Job, runs: seq<BrokenRun>, k: nat)
    requires Laid(job) && GoodJob(job) && k < |job.nodes|
    requires Start(env, job, LedgerAfter(job, runs)).envelope.Finished?
    ensures var vol, name := Start(env, job, LedgerAfter(job, runs)).vol, job.nodes[k].name;
            (name in vol.skipped <==> Excluded(job, k, vol.routes)) &&
            (name in vol.outputs <==> name !in vol.skipped)
  {
    var start := LedgerAfter(job, runs);
    LedgerRight(job, runs);
    LedgerWellTyped(job, runs);
    FinishedArrives(env, job, start);
    RightOnArrival(env, job, |job.nodes|, start);
    var at := ArrivesAt(StepOf(env, job), |job.nodes|, start).value;
    RightlySkips(job, at.vol, at.store);
    assert Dealt(job, at.vol, k);
    if job.nodes[k].name in at.vol.skipped { SkippedIsExcluded(job, at.vol, k); }
    if p :| LeadsToExcluded(job, p, k, at.vol.routes) { ExcludedIsSkipped(job, at.vol, k, p); }
  }

  // ---------------------------------------------------------------- from marks to branches

  predicate NotTaken(ex: Exclusive, routes: map<string, string>) {
    ex.decision in routes && routes[ex.decision] != ex.label_
  }

  /** Some label that the node needs was not taken. */
  ghost predicate Lost(graph: NodeGraph, branches: Branches, name: string, routes: map<string, string>) {
    exists ex :: Reaches(graph, branches, name, ex) && NotTaken(ex, routes)
  }

  /** Some label that the node needs was decided before the node's turn, and not taken. */
  ghost predicate LostBefore(graph: NodeGraph, branches: Branches, job: Job, k: nat, routes: map<string, string>)
    requires k < |job.nodes|
  {
    exists ex :: Reaches(graph, branches, job.nodes[k].name, ex) && NotTaken(ex, routes) && Earlier(job, ex.decision, k)
  }

  ghost predicate NeedsBefore(job: Job, i: nat, name: string) {
    exists j :: 0 <= j < i && Needs(job, i, j) && job.nodes[j].name == name
  }

  /** What feeds a node in the graph is what the node needs in the job. */
  ghost predicate Mirrors(graph: NodeGraph, job: Job) {
    && (forall i, b {:trigger Feeds(graph.nodes, job.nodes[i].name, b)} ::
          0 <= i < |job.nodes| && Feeds(graph.nodes, job.nodes[i].name, b) ==> b == job.nodes[i].name || NeedsBefore(job, i, b))
    && (forall i: nat, j: nat :: Needs(job, i, j) ==> Feeds(graph.nodes, job.nodes[i].name, job.nodes[j].name))
  }

  lemma AcceptedMirrors(graph: NodeGraph, branches: Branches, declared: Declared, checked: CheckedGraph, input: Value)
    requires AcceptedAs(graph, branches, declared, checked)
    ensures Mirrors(graph, Job(checked.nodes, checked.exclusiveTo, input))
  {
    hide AcceptedAs;
    var job := Job(checked.nodes, checked.exclusiveTo, input);
    forall i, b | 0 <= i < |job.nodes| && Feeds(graph.nodes, job.nodes[i].name, b)
      ensures b == job.nodes[i].name || NeedsBefore(job, i, b)
    {
      if b != job.nodes[i].name { FedIsNeeded(graph, branches, declared, checked, input, i, b); }
    }
    forall i: nat, j: nat | Needs(job, i, j) ensures Feeds(graph.nodes, job.nodes[i].name, job.nodes[j].name) {
      NeededIsFed(graph, branches, declared, checked, input, i, j);
    }
  }

  lemma EntryOf(graph: NodeGraph, declared: Declared, node: CheckedNode) returns (x: nat)
    requires FromEntry(graph, declared, node)
    ensures x < |graph.nodes| && graph.nodes[x].name == node.name && graph.nodes[x].node.input == node.input
  {
    var e :| e in graph.nodes && e.name in declared && declared[e.name].Ok? && node == CheckedEntry(e, declared[e.name].value);
    x :| 0 <= x < |graph.nodes| && graph.nodes[x] == e;
  }

  lemma FedIsNeeded(graph: NodeGraph, branches: Branches, declared: Declared, checked: CheckedGraph, input: Value, k: nat, b: string)
    requires AcceptedAs(graph, branches, declared, checked) && k < |checked.nodes|
    requires Feeds(graph.nodes, checked.nodes[k].name, b) && b != checked.nodes[k].name
    ensures NeedsBefore(Job(checked.nodes, checked.exclusiveTo, input), k, b)
  {
    var node := checked.nodes[k];
    assert FromEntry(graph, declared, node);
    var x := EntryOf(graph, declared, node);
    var y :| 0 <= y < |graph.nodes| && graph.nodes[y].name == node.name && graph.nodes[y].node.input.Some? &&
      b in graph.nodes[y].node.input.value.Refs();
    assert x == y;
    node.input.value.RefsAreMentions(b);
    AcceptedNeedsEarlier(graph, branches, declared, checked, input, k);
    var job := Job(checked.nodes, checked.exclusiveTo, input);
    var j :| 0 <= j < k && job.nodes[j].name == b;
    assert Needs(job, k, j);
  }

  lemma NeededIsFed(graph: NodeGraph, branches: Branches, declared: Declared, checked: CheckedGraph, input: Value, k: nat, j: nat)
    requires AcceptedAs(graph, branches, declared, checked)
    requires Needs(Job(checked.nodes, checked.exclusiveTo, input), k, j)
    ensures Feeds(graph.nodes, checked.nodes[k].name, checked.nodes[j].name)
  {
    var node := checked.nodes[k];
    assert FromEntry(graph, declared, node);
    var x := EntryOf(graph, declared, node);
    node.input.value.RefsAreMentions(checked.nodes[j].name);
  }

  /** A node excluded through its needs has lost a label that it needs. */
  lemma {:induction false} ExcludedIsLost(graph: NodeGraph, branches: Branches, job: Job, p: seq<nat>, routes: map<string, string>) returns (ex: Exclusive)
    requires Mirrors(graph, job) && Truthful(graph, branches, job.exclusiveTo)
    requires NeedPath(job, p) && ExcludedAt(job, p[|p| - 1], routes)
    ensures Reaches(graph, branches, job.nodes[p[0]].name, ex) && NotTaken(ex, routes)
    ensures Earlier(job, ex.decision, p[|p| - 1])
    decreases |p|
  {
    if |p| == 1 {
      ex := job.exclusiveTo[job.nodes[p[0]].name];
    } else {
      assert Needs(job, p[0], p[1]);
      TailIsPath(job, p);
      ex := ExcludedIsLost(graph, branches, job, p[1..], routes);
      FeedReaches(graph, branches, job.nodes[p[0]].name, job.nodes[p[1]].name, ex);
    }
  }

  /** On every accepted graph, whatever its branches: a node that a finished run skipped has lost a label that it needs. */
  lemma SkippedHasLost(env: Env, graph: NodeGraph, branches: Branches, declared: Declared, checked: CheckedGraph,
                       input: Value, runs: seq<BrokenRun>, k: nat)
    requires AcceptedAs(graph, branches, declared, checked) && LoopsBounded(checked.nodes) && k < |checked.nodes|
    requires var job := Job(checked.nodes, checked.exclusiveTo, input); Start(env, job, LedgerAfter(job, runs)).envelope.Finished?
    ensures var job := Job(checked.nodes, checked.exclusiveTo, input);
            var vol := Start(env, job, LedgerAfter(job, runs)).vol;
            job.nodes[k].name in vol.skipped ==> LostBefore(graph, branches, job, k, vol.routes)
  {
    var job := Job(checked.nodes, checked.exclusiveTo, input);
    AcceptedIsLaid(graph, branches, declared, checked, input);
    AcceptedMirrors(graph, branches, declared, checked, input);
    MarksAreTruthful(graph, branches);
    SkipsExactly(env, job, runs, k);
    var routes := Start(env, job, LedgerAfter(job, runs)).vol.routes;
    if Excluded(job, k, routes) { ExcludedHasLostBefore(graph, branches, job, k, routes); }
  }

  lemma ExcludedHasLostBefore(graph: NodeGraph, branches: Branches, job: Job, k: nat, routes: map<string, string>)
    requires Laid(job) && GoodJob(job) && Mirrors(graph, job) && k < |job.nodes|
    requires Truthful(graph, branches, job.exclusiveTo) && Excluded(job, k, routes)
    ensures LostBefore(graph, branches, job, k, routes)
  {
    hide Mirrors, Laid, Reaches, Truthful;
    var p :| LeadsToExcluded(job, p, k, routes);
    var ex := ExcludedIsLost(graph, branches, job, p, routes);
    PathGoesBack(job, p);
    assert Earlier(job, ex.decision, k);
  }

  /**
   The exact order condition where no node needs two labels: a finished run skipped a node if
   and only if a label it needs was lost and the decision came before the node.
   */
  lemma LostIsSkippedIfDecidedFirst(env: Env, graph: NodeGraph, branches: Branches, declared: Declared, checked: CheckedGraph,
                                    input: Value, runs: seq<BrokenRun>, k: nat)
    requires AcceptedAs(graph, branches, declared, checked) && LoopsBounded(checked.nodes) && k < |checked.nodes|
    requires OneLabelEach(graph, branches)
    requires var job := Job(checked.nodes, checked.exclusiveTo, input); Start(env, job, LedgerAfter(job, runs)).envelope.Finished?
    ensures var job := Job(checked.nodes, checked.exclusiveTo, input);
            var vol := Start(env, job, LedgerAfter(job, runs)).vol;
            job.nodes[k].name in vol.skipped <==> LostBefore(graph, branches, job, k, vol.routes)
  {
    var job := Job(checked.nodes, checked.exclusiveTo, input);
    AcceptedIsLaid(graph, branches, declared, checked, input);
    AcceptedMirrors(graph, branches, declared, checked, input);
    SkipsExactly(env, job, runs, k);
    MarksAreExact(graph, branches, NamesOf(checked.nodes));
    ExcludedIsLostBefore(graph, branches, job, k, Start(env, job, LedgerAfter(job, runs)).vol.routes);
  }

  lemma ExcludedIsLostBefore(graph: NodeGraph, branches: Branches, job: Job, k: nat, routes: map<string, string>)
    requires Laid(job) && GoodJob(job) && Mirrors(graph, job) && k < |job.nodes|
    requires ExactMarks(graph, branches, job.exclusiveTo) && Truthful(graph, branches, job.exclusiveTo)
    ensures Excluded(job, k, routes) <==> LostBefore(graph, branches, job, k, routes)
  {
    hide Mirrors, Laid, Reaches, Truthful;
    var name := job.nodes[k].name;
    if Excluded(job, k, routes) { ExcludedHasLostBefore(graph, branches, job, k, routes); }
    if ex :| Reaches(graph, branches, name, ex) && NotTaken(ex, routes) && Earlier(job, ex.decision, k) {
      assert LeadsToExcluded(job, [k], k, routes);
    }
  }

  lemma MarksAreExact(graph: NodeGraph, branches: Branches, order: seq<string>)
    requires SortsAs(graph, Ordered(order)) && OneLabelEach(graph, branches) && BranchExclusivity(graph, branches).Ok?
    ensures ExactMarks(graph, branches, BranchExclusivity(graph, branches).value)
    ensures Truthful(graph, branches, BranchExclusivity(graph, branches).value)
  {
    SeedsTruthful(graph, branches, 0, map[]);
    MarksAreTruthful(graph, branches);
    MarksExactly(graph, branches, order);
  }

  // ---------------------------------------------------------------- when decisions come first

  ghost predicate WaitsFor(graph: NodeGraph, target: string, decision: string) {
    exists p :: FeedPath(graph.nodes, p) && p[0] == target && p[|p| - 1] == decision
  }

  /** Every target needs its decision's output, directly or through other nodes. */
  ghost predicate TargetsWait(graph: NodeGraph, branches: Branches) {
    forall t, ex {:trigger IsTarget(branches, t, ex)} ::
      IsTarget(branches, t, ex) ==> t != ex.decision && WaitsFor(graph, t, ex.decision)
  }

  /** A path through the graph's inputs is one through the job's needs, self-references left out. */
  lemma {:induction false} FollowNames(graph: NodeGraph, job: Job, p: seq<string>, k: nat) returns (q: seq<nat>)
    requires Mirrors(graph, job) && FeedPath(graph.nodes, p) && k < |job.nodes| && job.nodes[k].name == p[0]
    ensures NeedPath(job, q) && q[0] == k && job.nodes[q[|q| - 1]].name == p[|p| - 1]
    decreases |p|
  {
    if |p| == 1 {
      q := [k];
    } else {
      assert Feeds(graph.nodes, p[0], p[1]);
      assert FeedPath(graph.nodes, p[1..]) by {
        forall x, y | 0 <= x < |p[1..]| && 0 <= y < |p[1..]| && y == x + 1 ensures Feeds(graph.nodes, p[1..][x], p[1..][y]) {
          assert Feeds(graph.nodes, p[x + 1], p[y + 1]);
        }
      }
      if p[1] == p[0] {
        q := FollowNames(graph, job, p[1..], k);
      } else {
        assert NeedsBefore(job, k, p[1]);
        var j :| 0 <= j < k && Needs(job, k, j) && job.nodes[j].name == p[1];
        q := FollowNames(graph, job, p[1..], j);
        PathFrom(job, k, q);
        q := [k] + q;
      }
    }
  }

  lemma WaitingIsEarlier(graph: NodeGraph, job: Job, j: nat, decision: string)
    requires Laid(job) && GoodJob(job) && Mirrors(graph, job) && j < |job.nodes|
    requires WaitsFor(graph, job.nodes[j].name, decision) && job.nodes[j].name != decision
    ensures Earlier(job, decision, j)
  {
    var p :| FeedPath(graph.nodes, p) && p[0] == job.nodes[j].name && p[|p| - 1] == decision;
    var q := FollowNames(graph, job, p, j);
    PathGoesBack(job, q);
  }

  lemma LostIsExcluded(graph: NodeGraph, branches: Branches, job: Job, k: nat, routes: map<string, string>)
    requires Laid(job) && GoodJob(job) && Mirrors(graph, job) && k < |job.nodes|
    requires Truthful(graph, branches, job.exclusiveTo) && Seeded(branches, job.exclusiveTo.Keys)
    requires TargetsAlone(graph, branches) && TargetsWait(graph, branches)
    requires Lost(graph, branches, job.nodes[k].name, routes)
    ensures Excluded(job, k, routes)
  {
    var ex :| Reaches(graph, branches, job.nodes[k].name, ex) && NotTaken(ex, routes);
    var p :| LeadsTo(graph, branches, p, job.nodes[k].name, ex);
    var q := FollowNames(graph, job, p, k);
    var j := q[|q| - 1];
    assert IsTarget(branches, job.nodes[j].name, ex);
    AloneKeepsItsMark(graph, branches, job.exclusiveTo, job.nodes[j].name, ex);
    WaitingIsEarlier(graph, job, j, ex.decision);
    assert LeadsToExcluded(job, q, k, routes);
  }

  /**
   When every target has its own label only and waits for its decision, the nodes skipped by a
   finished run are exactly those that need a label not taken, whatever the history and however
   many decisions meet at a node.
   */
  lemma WaitingTargetsSkipExactly(env: Env, graph: NodeGraph, branches: Branches, declared: Declared, checked: CheckedGraph,
                                  input: Value, runs: seq<BrokenRun>, k: nat)
    requires AcceptedAs(graph, branches, declared, checked) && LoopsBounded(checked.nodes) && k < |checked.nodes|
    requires TargetsAlone(graph, branches) && TargetsWait(graph, branches)
    requires var job := Job(checked.nodes, checked.exclusiveTo, input); Start(env, job, LedgerAfter(job, runs)).envelope.Finished?
    ensures var job := Job(checked.nodes, checked.exclusiveTo, input);
            var vol := Start(env, job, LedgerAfter(job, runs)).vol;
            job.nodes[k].name in vol.skipped <==> Lost(graph, branches, job.nodes[k].name, vol.routes)
  {
    var job := Job(checked.nodes, checked.exclusiveTo, input);
    AcceptedIsLaid(graph, branches, declared, checked, input);
    AcceptedMirrors(graph, branches, declared, checked, input);
    MarksAreTruthful(graph, branches);
    SkipsExactly(env, job, runs, k);
    SkippedHasLost(env, graph, branches, declared, checked, input, runs, k);
    var routes := Start(env, job, LedgerAfter(job, runs)).vol.routes;
    if Lost(graph, branches, job.nodes[k].name, routes) {
      LostIsExcluded(graph, branches, job, k, routes);
    }
  }

  // ---------------------------------------------------------------- what a decision may answer

  /** With targets alone, a decision's answer is accepted exactly when it names a label it was declared with. */
  lemma RouteAcceptedExactly(graph: NodeGraph, branches: Branches, decision: string, value: Value)
    requires BranchExclusivity(graph, branches).Ok? && TargetsAlone(graph, branches)
    ensures RouteAccepted(BranchExclusivity(graph, branches).value, decision, value) <==>
            (forall name :: !Declares(branches, decision, name)) ||
            (value.GetText("route").Some? && Declares(branches, decision, value.GetText("route").value))
  {
    var labels := LabelsOf(BranchExclusivity(graph, branches).value, decision);
    forall name ensures name in labels <==> Declares(branches, decision, name) {
      LabelsAreDeclared(graph, branches, decision, name);
    }
  }

  /** A decision that ran, and is not a fan-out node, took one of the labels it was declared with. */
  lemma DecisionTakesALabel(env: Env, graph: NodeGraph, branches: Branches, declared: Declared, checked: CheckedGraph,
                            input: Value, runs: seq<BrokenRun>, k: nat, name: string)
    requires AcceptedAs(graph, branches, declared, checked) && LoopsBounded(checked.nodes) && k < |checked.nodes|
    requires TargetsAlone(graph, branches) && checked.nodes[k].over.None? && Declares(branches, checked.nodes[k].name, name)
    requires var job := Job(checked.nodes, checked.exclusiveTo, input); Start(env, job, LedgerAfter(job, runs)).envelope.Finished?
    ensures var job := Job(checked.nodes, checked.exclusiveTo, input);
            var vol, decision := Start(env, job, LedgerAfter(job, runs)).vol, job.nodes[k].name;
            decision in vol.outputs ==> decision in vol.routes && Declares(branches, decision, vol.routes[decision])
  {
    var job := Job(checked.nodes, checked.exclusiveTo, input);
    AcceptedIsLaid(graph, branches, declared, checked, input);
    var start := LedgerAfter(job, runs);
    LedgerWellTyped(job, runs);
    FinishedArrives(env, job, start);
    SoundOnArrival(env, job, |job.nodes|, start);
    var vol, decision := Start(env, job, start).vol, job.nodes[k].name;
    assert Dealt(job, vol, k);
    if decision in vol.outputs { RouteAcceptedExactly(graph, branches, decision, vol.outputs[decision]); }
  }

  /** And so does every row that a history of runs can leave for it. */
  lemma RecordedRouteIsDeclared(graph: NodeGraph, branches: Branches, declared: Declared, checked: CheckedGraph,
                                input: Value, runs: seq<BrokenRun>, k: nat, name: string)
    requires AcceptedAs(graph, branches, declared, checked) && LoopsBounded(checked.nodes) && k < |checked.nodes|
    requires TargetsAlone(graph, branches) && checked.nodes[k].over.None? && Declares(branches, checked.nodes[k].name, name)
    ensures var rows, own := LedgerAfter(Job(checked.nodes, checked.exclusiveTo, input), runs).rows, Key(checked.nodes[k].name, None);
            own in rows && rows[own].CompletedRow? ==>
              rows[own].output.GetText("route").Some? && Declares(branches, own.node, rows[own].output.GetText("route").value)
  {
    var job := Job(checked.nodes, checked.exclusiveTo, input);
    AcceptedIsLaid(graph, branches, declared, checked, input);
    LedgerWellTyped(job, runs);
    var rows, own := LedgerAfter(job, runs).rows, Key(checked.nodes[k].name, None);
    if own in rows && rows[own].CompletedRow? {
      assert RowDelivers(job, Put(own, rows[own]));
      assert Delivers(job, job.nodes[k], rows[own].output);
      RouteAcceptedExactly(graph, branches, own.node, rows[own].output);
    }
  }
}
