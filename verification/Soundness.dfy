/** Accepted graphs do not go wrong: what every run of one keeps, however often it was broken off before. */
module Soundness {
  import opened Wrappers
  import opened Types
  import opened Graphs
  import opened TopoSort
  import opened Exclusivity
  import opened Composition
  import opened GraphCheck
  import opened Ladder
  import opened Ledger
  import opened RunSpec
  import opened Interruption
  import opened CrashResume

  // ---------------------------------------------------------------- what a run has in hand at a node

  datatype State = State(vol: Volatile, store: Store)

  /** What a run started on `start` has in hand when it comes to node `i`, if it gets that far. */
  function ArrivesAt(step: StepFunction, i: nat, start: Store): Option<State> {
    if i == 0 then Some(State(NOTHING_YET, start))
    else
      match ArrivesAt(step, i - 1, start)
      case None => None
      case Some(now) =>
        match step(i - 1, now.vol, now.store)
        case Halt(_, _) => None
        case Advance(writes, vol) => Some(State(vol, ApplyAll(now.store, writes)))
  }

  /** The node is neither in the ledger nor excluded, so its block is about to run. */
  predicate AboutToExecute(job: Job, node: CheckedNode, now: State) {
    var own := Key(node.name, None);
    && !(own in now.store.rows && (now.store.rows[own].SkippedRow? || now.store.rows[own].CompletedRow?))
    && !BranchedAway(job.exclusiveTo, node.name, now.vol.routes)
    && !NeedsSkipped(node, now.vol.skipped)
  }

  // ---------------------------------------------------------------- what acceptance gives a job

  ghost predicate Earlier(job: Job, n: string, i: nat) {
    exists k :: 0 <= k < i && k < |job.nodes| && job.nodes[k].name == n
  }

  ghost predicate NeedsEarlier(job: Job, i: nat)
    requires i < |job.nodes|
  {
    var node := job.nodes[i];
    node.input.Some? ==> forall n :: node.input.value.Mentions(n) ==> n == node.name || Earlier(job, n, i)
  }

  /** Each node needs only earlier nodes or itself, and a fan-out node presents its two files. */
  ghost predicate Laid(job: Job) {
    && (forall i :: 0 <= i < |job.nodes| ==> NeedsEarlier(job, i))
    && (forall i :: 0 <= i < |job.nodes| ==> job.nodes[i].over.Some? ==> job.nodes[i].signature.output == FanoutCollectionTy())
  }

  lemma AcceptedNeedsEarlier(graph: NodeGraph, branches: Branches, declared: Declared, checked: CheckedGraph, input: Value, i: nat)
    requires AcceptedAs(graph, branches, declared, checked) && i < |checked.nodes|
    ensures NeedsEarlier(Job(checked.nodes, checked.exclusiveTo, input), i)
  {
    var job, order := Job(checked.nodes, checked.exclusiveTo, input), NamesOf(checked.nodes);
    KahnOrderIsTopological(DepsOf(graph.nodes), order);
    assert DepsBefore(DepsOf(graph.nodes), order, i);
    var node := checked.nodes[i];
    assert FromEntry(graph, declared, node);
    var e :| e in graph.nodes && e.name in declared && declared[e.name].Ok? && node == CheckedEntry(e, declared[e.name].value);
    DepsOfEntry(graph.nodes, e);
    if node.input.Some? {
      forall n | node.input.value.Mentions(n) && n != node.name ensures Earlier(job, n, i) {
        node.input.value.RefsAreMentions(n);
        assert n in EntryDeps(e);
        var k :| 0 <= k < i && order[k] == n;
        assert job.nodes[k].name == n;
      }
    }
  }

  /** Acceptance lays the nodes out for a run, whatever the job's input. */
  lemma AcceptedIsLaid(graph: NodeGraph, branches: Branches, declared: Declared, checked: CheckedGraph, input: Value)
    requires AcceptedAs(graph, branches, declared, checked)
    ensures var job := Job(checked.nodes, checked.exclusiveTo, input);
            Laid(job) && Distinct(NamesOf(job.nodes))
  {
    var job := Job(checked.nodes, checked.exclusiveTo, input);
    KahnOrderIsTopological(DepsOf(graph.nodes), NamesOf(checked.nodes));
    forall i | 0 <= i < |job.nodes| ensures NeedsEarlier(job, i) {
      AcceptedNeedsEarlier(graph, branches, declared, checked, input, i);
    }
    forall i | 0 <= i < |job.nodes| && job.nodes[i].over.Some? ensures job.nodes[i].signature.output == FanoutCollectionTy() {
      assert FromEntry(graph, declared, job.nodes[i]);
    }
  }

  // ---------------------------------------------------------------- the ledger stays well typed

  /** The value has the node's declared type, and names a declared label if the node decides a branch. */
  predicate Delivers(job: Job, node: CheckedNode, value: Value) {
    && node.signature.output.MatchesValue(value)
    && (node.over.None? ==> RouteAccepted(job.exclusiveTo, node.name, value))
  }

  ghost predicate RowDelivers(job: Job, w: Write) {
    w.Put? && w.key.item.None? && w.row.CompletedRow? ==>
      forall k :: 0 <= k < |job.nodes| && job.nodes[k].name == w.key.node ==> Delivers(job, job.nodes[k], w.row.output)
  }

  ghost predicate AllDeliver(job: Job, ws: seq<Write>) {
    forall k :: 0 <= k < |ws| ==> RowDelivers(job, ws[k])
  }

  ghost predicate WellTypedRows(job: Job, s: Store) {
    forall key :: key in s.rows ==> RowDelivers(job, Put(key, s.rows[key]))
  }

  lemma CollectionHasItsType(jobDir: string, node: string, succeeded: nat, failed: nat)
    ensures FanoutCollectionTy().MatchesValue(Collection(jobDir, node, succeeded, failed))
  {}

  lemma ItemsDeliver(env: Env, job: Job, node: CheckedNode, s: Store, digest: string, items: seq<Value>)
    ensures AllDeliver(job, PinnedWrites(env, node, s, digest, items).writes)
  {
    var writes := PinnedWrites(env, node, s, digest, items).writes;
    FanPuts(env, node, items, 0, s.rows);
    forall k | 0 <= k < |writes| ensures RowDelivers(job, writes[k]) {
      if writes[k].Put? { assert IsItemPut(writes[k], node.name); }
    }
  }

  lemma FanoutDelivers(env: Env, job: Job, i: nat, s: Store)
    requires Laid(job) && i < |job.nodes| && job.nodes[i].over.Some?
    ensures AllDeliver(job, RunFanout(env, job.nodes[i], s).writes)
    ensures RunFanout(env, job.nodes[i], s).Collected? ==> Delivers(job, job.nodes[i], RunFanout(env, job.nodes[i], s).value)
  {
    var node := job.nodes[i];
    var manifest := env.manifests(node.over.value);
    var items := UsableItems(manifest);
    RunFanoutIs(env, node, s);
    if items.Ok? && SamePin(s, node.name, manifest.digest) {
      var fan := PinnedWrites(env, node, s, manifest.digest, items.value);
      ItemsDeliver(env, job, node, s, manifest.digest, items.value);
      EndDelivers(env, job, node, |items.value|, fan, ApplyAll(s, fan.writes).rows);
    }
  }

  lemma EndDelivers(env: Env, job: Job, node: CheckedNode, n: nat, fan: Fan, rows: map<Key, Row>)
    requires AllDeliver(job, fan.writes)
    requires node.over.Some? && node.signature.output == FanoutCollectionTy()
    ensures AllDeliver(job, FanoutEnd(env, node.name, n, fan, rows).writes)
    ensures FanoutEnd(env, node.name, n, fan, rows).Collected? ==> Delivers(job, node, FanoutEnd(env, node.name, n, fan, rows).value)
  {
    var succeeded := Succeeded(rows, node.name, n);
    CollectionHasItsType(env.jobDir, node.name, succeeded, n - succeeded);
  }

  lemma NodeRowDelivers(job: Job, i: nat, value: Value)
    requires GoodJob(job) && i < |job.nodes| && Delivers(job, job.nodes[i], value)
    ensures RowDelivers(job, Put(Key(job.nodes[i].name, None), CompletedRow(value, None)))
  {
    SameNameSameNode(job, i);
  }

  lemma FanoutStepDelivers(job: Job, i: nat, fanned: Fanned, vol: Volatile)
    requires GoodJob(job) && i < |job.nodes| && AllDeliver(job, fanned.writes)
    requires fanned.Collected? ==> Delivers(job, job.nodes[i], fanned.value)
    ensures AllDeliver(job, FanoutStep(fanned, job.nodes[i].name, vol).writes)
  {
    if fanned.Collected? { NodeRowDelivers(job, i, fanned.value); }
  }

  lemma SameNameSameNode(job: Job, i: nat)
    requires GoodJob(job) && i < |job.nodes|
    ensures forall k :: 0 <= k < |job.nodes| && job.nodes[k].name == job.nodes[i].name ==> k == i
  {
    forall k | 0 <= k < |job.nodes| && job.nodes[k].name == job.nodes[i].name ensures k == i {
      assert NamesOf(job.nodes)[k] == NamesOf(job.nodes)[i];
    }
  }

  lemma StepDelivers(env: Env, job: Job, i: nat, vol: Volatile, s: Store)
    requires Laid(job) && GoodJob(job) && i < |job.nodes|
    ensures AllDeliver(job, NodeStep(env, job, job.nodes[i], vol, s).writes)
  {
    var node := job.nodes[i];
    if node.over.Some? {
      FanoutDelivers(env, job, i, s);
      FanoutStepDelivers(job, i, RunFanout(env, node, s), vol);
    } else {
      ClimbMeans(env.world, NodeWork(node, InputOf(job, node, vol.outputs)));
      SameNameSameNode(job, i);
    }
  }

  lemma TraverseDelivers(env: Env, job: Job, i: nat, vol: Volatile, s: Store)
    requires Laid(job) && GoodJob(job) && i <= |job.nodes|
    ensures AllDeliver(job, Traverse(StepOf(env, job), |job.nodes|, i, vol, s).writes)
  {
    hide RowDelivers;
    var good: Write -> bool := w => RowDelivers(job, w);
    forall k: nat, v, t | k < |job.nodes| ensures AllAre(good, StepOf(env, job)(k, v, t).writes) {
      StepDelivers(env, job, k, v, t);
    }
    TraverseAllAre(StepOf(env, job), |job.nodes|, i, vol, s, good);
  }

  lemma {:induction false} RowsStayTyped(job: Job, s: Store, ws: seq<Write>)
    requires WellTypedRows(job, s) && AllDeliver(job, ws)
    ensures WellTypedRows(job, ApplyAll(s, ws))
    decreases |ws|
  {
    if ws != [] {
      assert RowDelivers(job, ws[0]);
      forall k | 0 <= k < |ws[1..]| ensures RowDelivers(job, ws[1..][k]) { assert ws[1..][k] == ws[k + 1]; }
      RowsStayTyped(job, Apply(s, ws[0]), ws[1..]);
    }
  }

  /** Every ledger a history of runs can leave is well typed, whatever each of them was answered and read. */
  lemma {:induction false} LedgerWellTyped(job: Job, runs: seq<BrokenRun>)
    requires Laid(job) && GoodJob(job)
    ensures WellTypedRows(job, LedgerAfter(job, runs))
    decreases |runs|
  {
    if runs != [] {
      var front, last := runs[..|runs| - 1], runs[|runs| - 1];
      LedgerWellTyped(job, front);
      var before := LedgerAfter(job, front);
      TraverseDelivers(last.env, job, 0, NOTHING_YET, before);
      RowsStayTyped(job, before, Kept(job, before, last));
    }
  }

  // ---------------------------------------------------------------- the volatile state stays sound

  /** Node `k` has been dealt with: skipped, or its output is there, of its type, with the route it names. */
  ghost predicate Dealt(job: Job, vol: Volatile, k: nat)
    requires k < |job.nodes|
  {
    var node := job.nodes[k];
    && (node.name in vol.outputs <==> node.name !in vol.skipped)
    && (node.name in vol.outputs ==> Delivers(job, node, vol.outputs[node.name]))
    && (node.name in vol.routes ==> node.name in vol.outputs)
    && (node.name in vol.outputs && node.over.None? ==>
          (if node.name in vol.routes then Some(vol.routes[node.name]) else None) == vol.outputs[node.name].GetText("route"))
  }

  /** Nothing is known yet about a name that no earlier node has. */
  ghost predicate Unheard(vol: Volatile, n: string) {
    n !in vol.outputs && n !in vol.skipped && n !in vol.routes
  }

  ghost predicate SoundAt(job: Job, i: nat, vol: Volatile) {
    && i <= |job.nodes|
    && (forall k :: 0 <= k < i ==> Dealt(job, vol, k))
    && (forall n :: !Earlier(job, n, i) ==> Unheard(vol, n))
  }

  /** The step changes what is known about its own node only, and deals with it. */
  ghost predicate OneNode(job: Job, i: nat, before: Volatile, after: Volatile)
    requires i < |job.nodes|
  {
    && Dealt(job, after, i)
    && forall n :: n != job.nodes[i].name ==> SameAbout(before, after, n)
  }

  ghost predicate SameAbout(a: Volatile, b: Volatile, n: string) {
    && (n in a.outputs <==> n in b.outputs) && (n in a.outputs ==> a.outputs[n] == b.outputs[n])
    && (n in a.skipped <==> n in b.skipped)
    && (n in a.routes <==> n in b.routes) && (n in a.routes ==> a.routes[n] == b.routes[n])
  }

  lemma OutputDeals(job: Job, i: nat, vol: Volatile, value: Value)
    requires i < |job.nodes| && Unheard(vol, job.nodes[i].name) && Delivers(job, job.nodes[i], value)
    ensures OneNode(job, i, vol, WithOutput(vol, job.nodes[i].name, value))
  {}

  lemma CollectionDeals(job: Job, i: nat, vol: Volatile, value: Value)
    requires i < |job.nodes| && Unheard(vol, job.nodes[i].name) && Delivers(job, job.nodes[i], value)
    requires job.nodes[i].over.Some?
    ensures OneNode(job, i, vol, vol.(outputs := vol.outputs[job.nodes[i].name := value]))
  {}

  lemma ExecuteDeals(env: Env, job: Job, i: nat, vol: Volatile, s: Store)
    requires Laid(job) && GoodJob(job) && i < |job.nodes| && Unheard(vol, job.nodes[i].name)
    ensures var r := Execute(env, job, job.nodes[i], vol, s); r.Advance? ==> OneNode(job, i, vol, r.vol)
  {
    var node := job.nodes[i];
    if node.over.Some? {
      FanoutDelivers(env, job, i, s);
      var fanned := RunFanout(env, node, s);
      if fanned.Collected? { CollectionDeals(job, i, vol, fanned.value); }
    } else {
      ClimbMeans(env.world, NodeWork(node, InputOf(job, node, vol.outputs)));
      var climbed := Climb(env.world, NodeWork(node, InputOf(job, node, vol.outputs)));
      if climbed.Done? && RouteAccepted(job.exclusiveTo, node.name, climbed.value) {
        OutputDeals(job, i, vol, climbed.value);
      }
    }
  }

  lemma StepDealsWith(env: Env, job: Job, i: nat, vol: Volatile, s: Store)
    requires Laid(job) && GoodJob(job) && i < |job.nodes|
    requires WellTypedRows(job, s) && Unheard(vol, job.nodes[i].name)
    ensures var r := NodeStep(env, job, job.nodes[i], vol, s); r.Advance? ==> OneNode(job, i, vol, r.vol)
  {
    var own := Key(job.nodes[i].name, None);
    if own in s.rows && s.rows[own].CompletedRow? {
      assert RowDelivers(job, Put(own, s.rows[own]));
      OutputDeals(job, i, vol, s.rows[own].output);
    } else {
      ExecuteDeals(env, job, i, vol, s);
    }
  }

  lemma SoundNext(job: Job, i: nat, before: Volatile, after: Volatile)
    requires GoodJob(job) && i < |job.nodes| && SoundAt(job, i, before) && OneNode(job, i, before, after)
    ensures SoundAt(job, i + 1, after)
  {
    forall k | 0 <= k < i + 1 ensures Dealt(job, after, k) {
      if k < i {
        SameNameSameNode(job, i);
        assert SameAbout(before, after, job.nodes[k].name);
        assert Dealt(job, before, k);
      }
    }
    forall n | !Earlier(job, n, i + 1) ensures Unheard(after, n) {
      assert job.nodes[i].name != n;
      assert SameAbout(before, after, n);
      assert !Earlier(job, n, i);
    }
  }

  lemma NotYetHeard(job: Job, i: nat)
    requires GoodJob(job) && i < |job.nodes|
    ensures !Earlier(job, job.nodes[i].name, i)
  {
    SameNameSameNode(job, i);
  }

  lemma StepKeepsSound(env: Env, job: Job, i: nat, vol: Volatile, s: Store)
    requires Laid(job) && GoodJob(job) && i < |job.nodes|
    requires SoundAt(job, i, vol) && WellTypedRows(job, s)
    ensures var r := StepOf(env, job)(i, vol, s);
            r.Advance? ==> SoundAt(job, i + 1, r.vol) && OneNode(job, i, vol, r.vol) && WellTypedRows(job, ApplyAll(s, r.writes))
  {
    var step := NodeStep(env, job, job.nodes[i], vol, s);
    StepDelivers(env, job, i, vol, s);
    RowsStayTyped(job, s, step.writes);
    NotYetHeard(job, i);
    StepDealsWith(env, job, i, vol, s);
    if step.Advance? { SoundNext(job, i, vol, step.vol); }
  }

  type Invariant = (nat, Volatile, Store) -> bool

  ghost predicate KeptAt(step: StepFunction, inv: Invariant, i: nat, vol: Volatile, s: Store) {
    inv(i, vol, s) && step(i, vol, s).Advance? ==> inv(i + 1, step(i, vol, s).vol, ApplyAll(s, step(i, vol, s).writes))
  }

  /** What every step keeps holds at every node a run comes to. */
  lemma {:induction false} HoldsOnArrival(step: StepFunction, inv: Invariant, n: nat, i: nat, start: Store)
    requires i <= n && inv(0, NOTHING_YET, start)
    requires forall k: nat, vol, s {:trigger KeptAt(step, inv, k, vol, s)} :: k < n ==> KeptAt(step, inv, k, vol, s)
    ensures var at := ArrivesAt(step, i, start); at.Some? ==> inv(i, at.value.vol, at.value.store)
  {
    if i > 0 {
      HoldsOnArrival(step, inv, n, i - 1, start);
      var before := ArrivesAt(step, i - 1, start);
      if before.Some? {
        assert KeptAt(step, inv, i - 1, before.value.vol, before.value.store);
      }
    }
  }

  /** At every node a run comes to, what it holds in memory and in the ledger is sound. */
  lemma SoundOnArrival(env: Env, job: Job, i: nat, start: Store)
    requires Laid(job) && GoodJob(job) && i <= |job.nodes| && WellTypedRows(job, start)
    ensures var at := ArrivesAt(StepOf(env, job), i, start);
            at.Some? ==> SoundAt(job, i, at.value.vol) && WellTypedRows(job, at.value.store)
  {
    var inv: Invariant := (k: nat, vol: Volatile, s: Store) => SoundAt(job, k, vol) && WellTypedRows(job, s);
    forall k: nat, vol, s | k < |job.nodes| ensures KeptAt(StepOf(env, job), inv, k, vol, s) {
      if inv(k, vol, s) { StepKeepsSound(env, job, k, vol, s); }
    }
    HoldsOnArrival(StepOf(env, job), inv, |job.nodes|, i, start);
  }

  // ---------------------------------------------------------------- type soundness

  lemma InputsPresent(job: Job, i: nat, now: State, n: string)
    requires Laid(job) && GoodJob(job) && i < |job.nodes| && SoundAt(job, i, now.vol)
    requires AboutToExecute(job, job.nodes[i], now)
    requires job.nodes[i].input.Some? && job.nodes[i].input.value.Mentions(n)
    ensures n in now.vol.outputs <==> n != job.nodes[i].name
    ensures n in now.vol.outputs ==> exists k :: 0 <= k < i && job.nodes[k].name == n && job.nodes[k].signature.output.MatchesValue(now.vol.outputs[n])
  {
    var node := job.nodes[i];
    assert NeedsEarlier(job, i);
    NotYetHeard(job, i);
    if n != node.name {
      var k :| 0 <= k < i && job.nodes[k].name == n;
      assert Dealt(job, now.vol, k);
      ReferencesAnyMeans(node.input.value, now.vol.skipped);
    }
  }

  /** The signature the check used for an earlier node is the one the run holds it to. */
  lemma SignatureOfNode(graph: NodeGraph, declared: Declared, node: CheckedNode)
    requires Readable(graph, declared) && DistinctNames(graph.nodes) && FromEntry(graph, declared, node)
    ensures node.name in SignaturesOf(graph.nodes, declared)
    ensures SignaturesOf(graph.nodes, declared)[node.name] == node.signature
  {
    var e :| e in graph.nodes && e.name in declared && declared[e.name].Ok? && node == CheckedEntry(e, declared[e.name].value);
    var k :| 0 <= k < |graph.nodes| && graph.nodes[k] == e;
    SignatureOfEntry(graph.nodes, declared, k);
  }

  ghost predicate ReadsSoundly(node: CheckedNode, signatures: Signatures, job: Job, now: State) {
    node.input.Some? ==>
      (forall n :: node.input.value.Mentions(n) ==> (n in now.vol.outputs <==> n != node.name)) &&
      (FitsReadingNull(node.input.value, signatures, node.signature.input, node.name) ==>
        node.signature.input.MatchesValue(InputOf(job, node, now.vol.outputs)))
  }

  /** What an input names, other than the node itself, is there and of the type the check used. */
  lemma NamedIsTyped(graph: NodeGraph, branches: Branches, declared: Declared, checked: CheckedGraph, input: Value, i: nat, now: State, n: string)
    requires AcceptedAs(graph, branches, declared, checked) && LoopsBounded(checked.nodes) && i < |checked.nodes|
    requires SoundAt(Job(checked.nodes, checked.exclusiveTo, input), i, now.vol)
    requires AboutToExecute(Job(checked.nodes, checked.exclusiveTo, input), checked.nodes[i], now)
    requires checked.nodes[i].input.Some? && checked.nodes[i].input.value.Mentions(n)
    ensures n in now.vol.outputs <==> n != checked.nodes[i].name
    ensures var signatures := SignaturesOf(graph.nodes, declared);
            n in now.vol.outputs ==> n in signatures && signatures[n].output.MatchesValue(now.vol.outputs[n])
  {
    hide SignaturesOf, SoundAt, AboutToExecute;
    var job := Job(checked.nodes, checked.exclusiveTo, input);
    AcceptedIsLaid(graph, branches, declared, checked, input);
    InputsPresent(job, i, now, n);
    if n in now.vol.outputs {
      var k :| 0 <= k < i && job.nodes[k].name == n && job.nodes[k].signature.output.MatchesValue(now.vol.outputs[n]);
      assert FromEntry(graph, declared, checked.nodes[k]);
      SignatureOfNode(graph, declared, checked.nodes[k]);
    }
  }

  lemma ExecutesSoundly(graph: NodeGraph, branches: Branches, declared: Declared, checked: CheckedGraph, input: Value, i: nat, now: State)
    requires AcceptedAs(graph, branches, declared, checked) && LoopsBounded(checked.nodes) && i < |checked.nodes|
    requires SoundAt(Job(checked.nodes, checked.exclusiveTo, input), i, now.vol)
    requires AboutToExecute(Job(checked.nodes, checked.exclusiveTo, input), checked.nodes[i], now)
    ensures ReadsSoundly(checked.nodes[i], SignaturesOf(graph.nodes, declared), Job(checked.nodes, checked.exclusiveTo, input), now)
  {
    var node := checked.nodes[i];
    assert Readable(graph, declared);
    hide AcceptedAs, SignaturesOf, SoundAt, AboutToExecute, Evaluate, FitsReadingNull, LoopsBounded;
    if node.input.Some? {
      forall n | node.input.value.Mentions(n) ensures NamedRightly(SignaturesOf(graph.nodes, declared), node.name, now, n) {
        NamedIsTyped(graph, branches, declared, checked, input, i, now, n);
      }
      NamedReadSoundly(node, SignaturesOf(graph.nodes, declared), Job(checked.nodes, checked.exclusiveTo, input), now);
    }
  }

  ghost predicate NamedRightly(signatures: Signatures, own: string, now: State, n: string) {
    && (n in now.vol.outputs <==> n != own)
    && (n in now.vol.outputs ==> n in signatures && signatures[n].output.MatchesValue(now.vol.outputs[n]))
  }

  lemma NamedReadSoundly(node: CheckedNode, signatures: Signatures, job: Job, now: State)
    requires node.input.Some? && forall n :: node.input.value.Mentions(n) ==> NamedRightly(signatures, node.name, now, n)
    ensures ReadsSoundly(node, signatures, job, now)
  {
    hide Evaluate, FitsReadingNull;
    if FitsReadingNull(node.input.value, signatures, node.signature.input, node.name) {
      forall n | n in signatures && n != node.name && node.input.value.Mentions(n)
        ensures n in now.vol.outputs && signatures[n].output.MatchesValue(now.vol.outputs[n])
      {
        assert NamedRightly(signatures, node.name, now, n);
      }
      FitsReadingNullSound(node.input.value, signatures, node.signature.input, node.name, now.vol.outputs);
    }
    forall n | node.input.value.Mentions(n) ensures n in now.vol.outputs <==> n != node.name {
      assert NamedRightly(signatures, node.name, now, n);
    }
  }

  /**
   Type soundness over every run. The graph was accepted; the job was broken off any number of
   times, anywhere, in any worlds. Whenever a run comes to a node and is about to execute it,
   every node its input names has an output, except itself, and the composed value has the
   declared input type provided the input fits with the node's own output read as null.
   */
  lemma AcceptedGraphsDoNotGoWrong(env: Env, graph: NodeGraph, branches: Branches, declared: Declared, checked: CheckedGraph,
                                   input: Value, runs: seq<BrokenRun>, i: nat)
    requires AcceptedAs(graph, branches, declared, checked) && LoopsBounded(checked.nodes) && i < |checked.nodes|
    ensures var job := Job(checked.nodes, checked.exclusiveTo, input);
            var at := ArrivesAt(StepOf(env, job), i, LedgerAfter(job, runs));
            at.Some? && AboutToExecute(job, job.nodes[i], at.value) ==>
              ReadsSoundly(job.nodes[i], SignaturesOf(graph.nodes, declared), job, at.value)
  {
    var job := Job(checked.nodes, checked.exclusiveTo, input);
    AcceptedIsLaid(graph, branches, declared, checked, input);
    LedgerWellTyped(job, runs);
    var start := LedgerAfter(job, runs);
    SoundOnArrival(env, job, i, start);
    var at := ArrivesAt(StepOf(env, job), i, start);
    if at.Some? && AboutToExecute(job, job.nodes[i], at.value) {
      ExecutesSoundly(graph, branches, declared, checked, input, i, at.value);
    }
  }

  /** With homogeneous lists, acceptance is enough for an input to fit. */
  lemma AcceptedInputsFit(graph: NodeGraph, branches: Branches, declared: Declared, checked: CheckedGraph, i: nat)
    requires AcceptedAs(graph, branches, declared, checked) && i < |checked.nodes| && checked.nodes[i].input.Some?
    requires Homogeneous(checked.nodes[i].input.value, SignaturesOf(graph.nodes, declared))
    ensures Fits(checked.nodes[i].input.value, SignaturesOf(graph.nodes, declared), checked.nodes[i].signature.input)
  {
    var node := checked.nodes[i];
    assert FromEntry(graph, declared, node);
    var e :| e in graph.nodes && e.name in declared && declared[e.name].Ok? && node == CheckedEntry(e, declared[e.name].value);
    var k :| 0 <= k < |graph.nodes| && graph.nodes[k] == e;
    assert EntrySeamFits(graph, declared, k);
    AcceptedFits(node.input.value, SignaturesOf(graph.nodes, declared), node.signature.input);
  }

  lemma SelfReferenceIsMarked(graph: NodeGraph, branches: Branches, declared: Declared, checked: CheckedGraph, i: nat)
    requires AcceptedAs(graph, branches, declared, checked) && i < |checked.nodes|
    requires checked.nodes[i].input == Some(FromNode(checked.nodes[i].name))
    ensures checked.nodes[i].repeatUntil.Some?
  {
    var node := checked.nodes[i];
    KahnOrderIsTopological(DepsOf(graph.nodes), NamesOf(checked.nodes));
    assert DepsBefore(DepsOf(graph.nodes), NamesOf(checked.nodes), i);
    assert FromEntry(graph, declared, node);
    var e :| e in graph.nodes && e.name in declared && declared[e.name].Ok? && node == CheckedEntry(e, declared[e.name].value);
    DepsOfEntry(graph.nodes, e);
    node.input.value.RefsAreMentions(node.name);
    assert node.repeatUntil.None? ==> node.name in EntryDeps(e);
    assert node.name !in NamesOf(checked.nodes)[..i];
  }

  /** A marked loop that names itself reads null for itself, whatever the history. */
  lemma SelfReferenceReadsNull(env: Env, graph: NodeGraph, branches: Branches, declared: Declared, checked: CheckedGraph,
                               input: Value, runs: seq<BrokenRun>, i: nat)
    requires AcceptedAs(graph, branches, declared, checked) && LoopsBounded(checked.nodes) && i < |checked.nodes|
    requires checked.nodes[i].input == Some(FromNode(checked.nodes[i].name))
    ensures var job := Job(checked.nodes, checked.exclusiveTo, input);
            var at := ArrivesAt(StepOf(env, job), i, LedgerAfter(job, runs));
            at.Some? && AboutToExecute(job, job.nodes[i], at.value) ==>
              InputOf(job, job.nodes[i], at.value.vol.outputs) == Null && job.nodes[i].repeatUntil.Some?
  {
    hide AcceptedAs, ArrivesAt, AboutToExecute, LedgerAfter, Fits;
    AcceptedGraphsDoNotGoWrong(env, graph, branches, declared, checked, input, runs, i);
    SelfReferenceIsMarked(graph, branches, declared, checked, i);
    var job := Job(checked.nodes, checked.exclusiveTo, input);
    var node := job.nodes[i];
    assert node.input.value.Mentions(node.name);
  }
}
