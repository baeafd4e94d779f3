/** What executing a node or an item leaves, and what a whole run returns, told by the block's answers. */
module Execution {
  import opened Wrappers
  import opened Types
  import opened Graphs
  import opened Exclusivity
  import opened Composition
  import opened Paths
  import opened GraphCheck
  import opened Ladder
  import opened Attempts
  import opened Ledger
  import opened RunSpec
  import opened Interruption
  import opened CrashResume
  import opened Manifests
  import opened FanoutResults
  import Soundness
  import BranchSkips

  // ---------------------------------------------------------------- one item

  /** The piece of work comes to this, at some attempt of its plan. */
  ghost predicate ComesTo(world: World, work: Work, result: Climbed)
    requires work.Bounded()
  {
    exists k :: SettledAt(world, work, PlanOf(world, work), k, result)
  }

  /** One item: run on its line's value, held to what the block declares of one result, never looped. */
  function WorkOfItem(node: CheckedNode, item: nat, input: Value): Work {
    Work(Site(node.name, Some(item)), if node.itemOutput.Some? then node.itemOutput.value else node.signature.output,
         None, None, node.onFail, input)
  }

  /** The row an item is left with, or None when the job must stop. */
  ghost predicate ItemLeaves(env: Env, node: CheckedNode, item: nat, input: Value, row: Option<Row>) {
    if !node.signature.input.MatchesValue(input) then row == Some(FailedRow("does not match the declared input", Some(input)))
    else
      var work := WorkOfItem(node, item, input);
      match row
      case None => ComesTo(env.world, work, Stopped)
      case Some(CompletedRow(value, given)) => given == Some(input) && ComesTo(env.world, work, Done(value))
      case Some(EscalatedRow(reason, given)) => given == Some(input) && exists m :: ComesTo(env.world, work, Exhausted(reason, true, m))
      case Some(FailedRow(reason, given)) => given == Some(input) && exists m :: ComesTo(env.world, work, Exhausted(reason, false, m))
      case Some(SkippedRow) => false
  }

  lemma ComesToExactly(world: World, work: Work, result: Climbed)
    requires work.Bounded()
    ensures ComesTo(world, work, result) <==> Climb(world, work) == result
  {
    ClimbExactly(world, work, result);
  }

  /** The row is completed, escalated or failed as the ladder ended, and records the item it was run on. */
  lemma ItemRowExactly(env: Env, node: CheckedNode, item: nat, input: Value, row: Option<Row>)
    ensures ItemRow(env, node, item, input) == row <==> ItemLeaves(env, node, item, input, row)
  {
    hide ComesTo, Climb;
    var work := WorkOfItem(node, item, input);
    forall result ensures ComesTo(env.world, work, result) <==> Climb(env.world, work) == result {
      ComesToExactly(env.world, work, result);
    }
  }

  // ---------------------------------------------------------------- a fan-out node

  /** The item has no row yet, and running it leaves none. */
  ghost predicate StopsTheJob(env: Env, node: CheckedNode, items: seq<Value>, rows: map<Key, Row>, i: nat)
    requires i < |items|
  {
    Key(node.name, Some(i)) !in rows && ItemLeaves(env, node, i, items[i], None)
  }

  lemma {:induction false} FanStopsExactly(env: Env, node: CheckedNode, items: seq<Value>, i: nat, rows: map<Key, Row>)
    requires i <= |items|
    ensures FanFrom(env, node, items, i, rows).stopped <==> exists k :: i <= k < |items| && StopsTheJob(env, node, items, rows, k)
    decreases |items| - i
  {
    hide ItemRow, ItemLeaves;
    if i < |items| {
      FanStopsExactly(env, node, items, i + 1, rows);
      ItemRowExactly(env, node, i, items[i], None);
      if StopsTheJob(env, node, items, rows, i) {
        assert FanFrom(env, node, items, i, rows).stopped;
      } else {
        assert FanFrom(env, node, items, i, rows).stopped == FanFrom(env, node, items, i + 1, rows).stopped;
      }
    }
  }

  predicate IsItemFrom(w: Write, i: nat) {
    w.Put? && w.key.item.Some? && i <= w.key.item.value
  }

  /** Each row is of a later item than the one before. */
  ghost predicate RisesFrom(writes: seq<Write>, i: nat) {
    && (forall k :: 0 <= k < |writes| ==> IsItemFrom(writes[k], i))
    && (forall j, k :: 0 <= j < k < |writes| ==> writes[j].key.item.value < writes[k].key.item.value)
  }

  lemma RisesWith(w: Write, rest: seq<Write>, i: nat)
    requires RisesFrom(rest, i + 1) && w.Put? && w.key.item == Some(i)
    ensures RisesFrom([w] + rest, i)
  {
    var all := [w] + rest;
    forall k | 0 <= k < |all| ensures IsItemFrom(all[k], i) { if k > 0 { assert IsItemFrom(rest[k - 1], i + 1); } }
    forall j, k | 0 <= j < k < |all| ensures all[j].key.item.value < all[k].key.item.value {
      assert IsItemFrom(rest[k - 1], i + 1);
      if j > 0 { assert all[j] == rest[j - 1]; }
    }
  }

  lemma RisesEarlier(writes: seq<Write>, i: nat)
    requires RisesFrom(writes, i + 1)
    ensures RisesFrom(writes, i)
  {
    forall k | 0 <= k < |writes| ensures IsItemFrom(writes[k], i) { assert IsItemFrom(writes[k], i + 1); }
  }

  /** Items are run in order. */
  lemma {:induction false} ItemsInOrder(env: Env, node: CheckedNode, items: seq<Value>, i: nat, rows: map<Key, Row>)
    requires i <= |items|
    ensures RisesFrom(FanFrom(env, node, items, i, rows).writes, i)
    decreases |items| - i
  {
    hide ItemRow, RisesFrom;
    if i == |items| {
      NothingRises(i);
    } else {
      ItemsInOrder(env, node, items, i + 1, rows);
      var rest, row := FanFrom(env, node, items, i + 1, rows).writes, ItemRow(env, node, i, items[i]);
      RisesEarlier(rest, i);
      NothingRises(i);
      if row.Some? { RisesWith(Put(Key(node.name, Some(i)), row.value), rest, i); }
    }
  }

  lemma NothingRises(i: nat)
    ensures RisesFrom([], i)
  {}

  predicate CompletedIn(rows: map<Key, Row>, node: string, i: nat) {
    Key(node, Some(i)) in rows && rows[Key(node, Some(i))].CompletedRow?
  }

  lemma {:induction false} SomeSucceeded(rows: map<Key, Row>, node: string, n: nat)
    ensures Succeeded(rows, node, n) > 0 <==>
            exists i: nat :: i < n && CompletedIn(rows, node, i)
  {
    if n > 0 {
      SomeSucceeded(rows, node, n - 1);
      assert CompletedIn(rows, node, n - 1) ==> Succeeded(rows, node, n) > 0;
    }
  }

  /**
   Which end a fan-out node comes to: it needs a usable manifest, the one it is pinned to; an item
   that is cancelled aborts the job; and one item at least has to complete.
   */
  lemma FanoutEndsExactly(env: Env, node: CheckedNode, s: Store)
    requires node.over.Some?
    ensures var r, manifest := RunFanout(env, node, s), env.manifests(node.over.value);
            var items := UsableItems(manifest);
            if items.Err? then r == Bailed([], Broken(items.error))
            else if node.name in s.manifests && s.manifests[node.name].digest != manifest.digest then r.Bailed? && r.writes == [] && r.envelope.Broken?
            else if exists i :: 0 <= i < |items.value| && StopsTheJob(env, node, items.value, s.rows, i) then r.Bailed? && r.envelope == Aborted
            else
              (r.Collected? <==> exists i: nat :: i < |items.value| && CompletedIn(ApplyAll(s, r.writes).rows, node.name, i)) &&
              (r.Bailed? ==> r.envelope.Broken?)
  {
    hide ReadItems, FanFrom, StopsTheJob, Project, AllConcluded, CompletedIn, Succeeded;
    var manifest := env.manifests(node.over.value);
    var items := UsableItems(manifest);
    RunFanoutIs(env, node, s);
    if items.Ok? && SamePin(s, node.name, manifest.digest) {
      FanStopsExactly(env, node, items.value, 0, s.rows);
      var fan := PinnedWrites(env, node, s, manifest.digest, items.value);
      SomeSucceeded(ApplyAll(s, fan.writes).rows, node.name, |items.value|);
    }
  }

  // ---------------------------------------------------------------- one node

  function WorkOfNode(node: CheckedNode, input: Value): Work {
    Work(Site(node.name, None), node.signature.output, node.repeatUntil, node.maxIterations, node.onFail, input)
  }

  /** An entry node is given the job's input, any other what its expression composes to. */
  ghost predicate IsGiven(job: Job, node: CheckedNode, outputs: Outputs, input: Value) {
    match node.input
    case None => input == job.input
    case Some(expr) => Composes(expr, outputs, input)
  }

  /** The value is the node's output from now on, and its route, if it names one, the branch it took. */
  ghost predicate Remembers(before: Volatile, after: Volatile, node: string, value: Value, routes: bool) {
    && after.outputs == before.outputs[node := value] && after.skipped == before.skipped
    && after.routes == (match value.GetText("route")
                        case Some(label_) => if routes then before.routes[node := label_] else before.routes
                        case None => before.routes)
  }

  /** Where a node that is not a fan-out node leaves the run. */
  ghost predicate NodeLeaves(env: Env, job: Job, node: CheckedNode, input: Value, vol: Volatile, step: Step)
    requires node.repeatUntil.Some? ==> node.maxIterations.Some?
  {
    var own, work := Key(node.name, None), WorkOfNode(node, input);
    match step
    case Advance(writes, after) =>
      exists value :: ComesTo(env.world, work, Done(value)) && RouteAccepted(job.exclusiveTo, node.name, value) &&
        writes == [Put(own, CompletedRow(value, None))] && Remembers(vol, after, node.name, value, true)
    case Halt(writes, Aborted) => writes == [] && ComesTo(env.world, work, Stopped)
    case Halt(writes, Broken(reason)) =>
      (writes == [Put(own, EscalatedRow(reason, Some(input)))] && exists m :: ComesTo(env.world, work, Exhausted(reason, true, m))) ||
      (writes == [] && exists m :: ComesTo(env.world, work, Exhausted(reason, false, m))) ||
      (writes == [] && reason == "the route matches no declared label" &&
        exists value :: ComesTo(env.world, work, Done(value)) && !RouteAccepted(job.exclusiveTo, node.name, value))
    case Halt(_, Finished(_)) => false
  }

  /**
   Executing a node runs its block on what it is given. An accepted value is recorded and
   remembered; an escalated row is left exactly when the ladder escalated; nothing else is written.
   */
  lemma NodeExecutes(env: Env, job: Job, node: CheckedNode, vol: Volatile, s: Store) returns (input: Value)
    requires node.over.None? && (node.repeatUntil.Some? ==> node.maxIterations.Some?)
    requires Soundness.AboutToExecute(job, node, Soundness.State(vol, s))
    ensures IsGiven(job, node, vol.outputs, input)
    ensures NodeLeaves(env, job, node, input, vol, NodeStep(env, job, node, vol, s))
  {
    hide ComesTo, Climb, Evaluate, RouteAccepted, BranchedAway, NeedsSkipped, Composes;
    input := InputOf(job, node, vol.outputs);
    if node.input.Some? { ComposedExactly(node.input.value, vol.outputs, input); }
    var work := WorkOfNode(node, input);
    forall result ensures ComesTo(env.world, work, result) <==> Climb(env.world, work) == result {
      ComesToExactly(env.world, work, result);
    }
    assert NodeStep(env, job, node, vol, s) == Execute(env, job, node, vol, s);
    var climbed := Climb(env.world, work);
    assert ComesTo(env.world, work, climbed);
  }

  /** A fan-out node's turn: its items', then its own row, with the collection as its output. */
  lemma FanoutExecutes(env: Env, job: Job, node: CheckedNode, vol: Volatile, s: Store)
    requires node.over.Some? && (node.repeatUntil.Some? ==> node.maxIterations.Some?)
    requires Soundness.AboutToExecute(job, node, Soundness.State(vol, s))
    ensures var r, step := RunFanout(env, node, s), NodeStep(env, job, node, vol, s);
            if r.Bailed? then step == Halt(r.writes, r.envelope)
            else
              step.Advance? && step.writes == r.writes + [Put(Key(node.name, None), CompletedRow(r.value, None))] &&
              Remembers(vol, step.vol, node.name, r.value, false)
  {
    hide RunFanout;
  }

  /** A node the ledger knows the end of is not run: its row is what is remembered. */
  lemma NodeIsRemembered(env: Env, job: Job, node: CheckedNode, vol: Volatile, s: Store)
    requires node.repeatUntil.Some? ==> node.maxIterations.Some?
    requires Key(node.name, None) in s.rows && (s.rows[Key(node.name, None)].CompletedRow? || s.rows[Key(node.name, None)].SkippedRow?)
    ensures var row, step := s.rows[Key(node.name, None)], NodeStep(env, job, node, vol, s);
            step.Advance? && step.writes == [] &&
            if row.SkippedRow? then step.vol == vol.(skipped := vol.skipped + {node.name})
            else Remembers(vol, step.vol, node.name, row.output, true)
  {}

  // ---------------------------------------------------------------- the whole run

  /** Node `k` is the last, in run order, to have an output, and this is it. */
  ghost predicate LastToDeliver(nodes: seq<CheckedNode>, outputs: Outputs, k: nat, value: Value) {
    k < |nodes| && nodes[k].name in outputs && outputs[nodes[k].name] == value &&
    forall j :: k < j < |nodes| ==> nodes[j].name !in outputs
  }

  lemma {:induction false} LastOutputIs(nodes: seq<CheckedNode>, outputs: Outputs) returns (k: nat)
    ensures match LastOutput(nodes, outputs)
            case Some(value) => LastToDeliver(nodes, outputs, k, value)
            case None => forall j :: 0 <= j < |nodes| ==> nodes[j].name !in outputs
  {
    k := 0;
    if nodes != [] {
      if nodes[|nodes| - 1].name in outputs {
        k := |nodes| - 1;
      } else {
        k := LastOutputIs(nodes[..|nodes| - 1], outputs);
      }
    }
  }

  lemma OneLast(nodes: seq<CheckedNode>, outputs: Outputs, j: nat, k: nat, a: Value, b: Value)
    requires LastToDeliver(nodes, outputs, j, a) && LastToDeliver(nodes, outputs, k, b)
    ensures a == b
  {
    assert j == k;
  }

  /** The node loop came to its end. */
  ghost predicate WentThrough(env: Env, job: Job, store: Store)
    requires LoopsBounded(job.nodes)
  {
    job.nodes != [] && Soundness.ArrivesAt(StepOf(env, job), |job.nodes|, store).Some?
  }

  lemma {:induction false} ThroughIsNoStop(step: StepFunction, n: nat, i: nat, start: Store)
    requires i <= n && Soundness.ArrivesAt(step, i, start).Some?
    ensures var at := Soundness.ArrivesAt(step, i, start).value;
            var t := Traverse(step, n, i, at.vol, at.store);
            (t.stop.None? <==> Soundness.ArrivesAt(step, n, start).Some?) &&
            (t.stop.None? ==> Soundness.ArrivesAt(step, n, start).value.vol == t.vol)
    decreases n - i
  {
    if i < n {
      var at := Soundness.ArrivesAt(step, i, start).value;
      if step(i, at.vol, at.store).Advance? {
        ThroughIsNoStop(step, n, i + 1, start);
      } else {
        NeverArrives(step, n, i, start);
      }
    }
  }

  lemma {:induction false} NeverArrives(step: StepFunction, n: nat, i: nat, start: Store)
    requires i < n && Soundness.ArrivesAt(step, i, start).Some?
    requires var at := Soundness.ArrivesAt(step, i, start).value; step(i, at.vol, at.store).Halt?
    ensures Soundness.ArrivesAt(step, n, start).None?
  {
    if i + 1 < n { NeverArrives(step, n - 1, i, start); }
  }

  /**
   What a run returns, exactly: the output of the last node, in run order, that has one, if the node
   loop came to its end and there is any.
   */
  lemma ResultExactly(env: Env, job: Job, store: Store, value: Value)
    requires LoopsBounded(job.nodes)
    ensures var run := Start(env, job, store);
            run.envelope == Finished(value) <==>
            WentThrough(env, job, store) && exists k :: LastToDeliver(job.nodes, run.vol.outputs, k, value)
  {
    hide StepOf;
    if job.nodes != [] {
      var step := StepOf(env, job);
      ThroughIsNoStop(step, |job.nodes|, 0, store);
      var t := Traverse(step, |job.nodes|, 0, NOTHING_YET, store);
      var last := LastOutputIs(job.nodes, t.vol.outputs);
      var found := LastOutput(job.nodes, t.vol.outputs);
      StopsAreNoResults(env, job, store);
      if k :| LastToDeliver(job.nodes, t.vol.outputs, k, value) {
        assert found.Some?;
        OneLast(job.nodes, t.vol.outputs, last, k, found.value, value);
      }
    }
  }

  lemma StopsAreNoResults(env: Env, job: Job, store: Store)
    requires LoopsBounded(job.nodes)
    ensures var t := Traverse(StepOf(env, job), |job.nodes|, 0, NOTHING_YET, store); t.stop.Some? ==> !t.stop.value.Finished?
  {
    BranchSkips.NodesHaltUnfinished(env, job);
    BranchSkips.TraverseArrives(StepOf(env, job), |job.nodes|, 0, store);
  }

  /** A loop that came to its end without a result is one in which no node has an output. */
  lemma NoResultExactly(env: Env, job: Job, store: Store)
    requires LoopsBounded(job.nodes) && WentThrough(env, job, store)
    ensures var run := Start(env, job, store);
            run.envelope == Broken("every node in this job was skipped") <==>
            forall k :: 0 <= k < |job.nodes| ==> job.nodes[k].name !in run.vol.outputs
  {
    hide StepOf;
    ThroughIsNoStop(StepOf(env, job), |job.nodes|, 0, store);
    var last := LastOutputIs(job.nodes, Traverse(StepOf(env, job), |job.nodes|, 0, NOTHING_YET, store).vol.outputs);
  }
}
