/** Crashing and resuming a job, any number of times and anywhere, changes nothing about how it ends. */
module CrashResume {
  import opened Wrappers
  import opened Types
  import opened Graphs
  import opened GraphCheck
  import opened Ladder
  import opened Ledger
  import opened RunSpec
  import opened Interruption

  // ---------------------------------------------------------------- fan-out: locality

  ghost predicate SameItemsFrom(a: map<Key, Row>, b: map<Key, Row>, node: string, i: nat) {
    forall j: nat :: i <= j ==> (Key(node, Some(j)) in a <==> Key(node, Some(j)) in b)
  }

  lemma {:induction false} FanLocal(env: Env, node: CheckedNode, items: seq<Value>, i: nat, a: map<Key, Row>, b: map<Key, Row>)
    requires i <= |items| && SameItemsFrom(a, b, node.name, i)
    ensures FanFrom(env, node, items, i, a) == FanFrom(env, node, items, i, b)
    decreases |items| - i
  {
    if i < |items| { FanLocal(env, node, items, i + 1, a, b); }
  }

  predicate IsItemPut(w: Write, node: string) {
    w.Put? && w.key.node == node && w.key.item.Some?
  }

  ghost predicate AllItemPuts(ws: seq<Write>, node: string) {
    forall k :: 0 <= k < |ws| ==> IsItemPut(ws[k], node)
  }

  lemma {:induction false} FanPuts(env: Env, node: CheckedNode, items: seq<Value>, i: nat, rows: map<Key, Row>)
    requires i <= |items|
    ensures AllItemPuts(FanFrom(env, node, items, i, rows).writes, node.name)
    decreases |items| - i
  {
    if i < |items| { FanPuts(env, node, items, i + 1, rows); }
  }

  lemma {:induction false} SucceededLocal(a: Store, b: Store, node: string, n: nat)
    requires AgreeOn(a, b, node)
    ensures Succeeded(a.rows, node, n) == Succeeded(b.rows, node, n)
  {
    if n > 0 { SucceededLocal(a, b, node, n - 1); }
  }

  lemma {:induction false} ConcludedLocal(a: Store, b: Store, node: string, items: seq<nat>)
    requires AgreeOn(a, b, node)
    requires forall i :: i in items ==> Key(node, Some(i)) in a.rows
    ensures ConcludedRows(a.rows, node, items) == ConcludedRows(b.rows, node, items)
  {
    if items != [] { ConcludedLocal(a, b, node, items[1..]); }
  }

  lemma ItemsLocal(a: Store, b: Store, node: string)
    requires AgreeOn(a, b, node)
    ensures ItemsOf(a.rows, node) == ItemsOf(b.rows, node)
  {
    forall i ensures i in ItemsOf(a.rows, node) <==> i in ItemsOf(b.rows, node) {
      assert i in ItemsOf(a.rows, node) <==> Key(node, Some(i)) in a.rows;
      assert i in ItemsOf(b.rows, node) <==> Key(node, Some(i)) in b.rows;
    }
  }

  lemma FanoutEndLocal(env: Env, node: string, n: nat, fan: Fan, a: Store, b: Store)
    requires AgreeOn(a, b, node)
    ensures FanoutEnd(env, node, n, fan, a.rows) == FanoutEnd(env, node, n, fan, b.rows)
  {
    SucceededLocal(a, b, node, n);
    ItemsLocal(a, b, node);
    AscendingMembers(ItemsOf(a.rows, node));
    ConcludedLocal(a, b, node, Ascending(ItemsOf(a.rows, node)));
  }

  lemma PinnedLocal(env: Env, node: CheckedNode, a: Store, b: Store, digest: string, items: seq<Value>)
    requires AgreeOn(a, b, node.name)
    ensures PinnedWrites(env, node, a, digest, items) == PinnedWrites(env, node, b, digest, items)
    ensures AllTouch(PinnedWrites(env, node, a, digest, items).writes, node.name)
  {
    FanLocal(env, node, items, 0, a.rows, b.rows);
    FanPuts(env, node, items, 0, a.rows);
  }

  lemma RunFanoutLocal(env: Env, node: CheckedNode, a: Store, b: Store)
    requires node.over.Some? && AgreeOn(a, b, node.name)
    ensures RunFanout(env, node, a) == RunFanout(env, node, b)
    ensures AllTouch(RunFanout(env, node, a).writes, node.name)
  {
    var manifest := env.manifests(node.over.value);
    var items := UsableItems(manifest);
    if items.Ok? {
      PinnedLocal(env, node, a, b, manifest.digest, items.value);
      var fan := PinnedWrites(env, node, a, manifest.digest, items.value);
      AgreeKept(a, b, fan.writes, node.name);
      FanoutEndLocal(env, node.name, |items.value|, fan, ApplyAll(a, fan.writes), ApplyAll(b, fan.writes));
    }
  }

  lemma ExecuteLocal(env: Env, job: Job, node: CheckedNode, vol: Volatile, a: Store, b: Store)
    requires node.repeatUntil.Some? ==> node.maxIterations.Some?
    requires AgreeOn(a, b, node.name)
    ensures Execute(env, job, node, vol, a) == Execute(env, job, node, vol, b)
    ensures AllTouch(Execute(env, job, node, vol, a).writes, node.name)
  {
    if node.over.Some? {
      RunFanoutLocal(env, node, a, b);
    }
  }

  lemma NodeStepLocal(env: Env, job: Job, node: CheckedNode, vol: Volatile, a: Store, b: Store)
    requires node.repeatUntil.Some? ==> node.maxIterations.Some?
    requires AgreeOn(a, b, node.name)
    ensures NodeStep(env, job, node, vol, a) == NodeStep(env, job, node, vol, b)
    ensures AllTouch(NodeStep(env, job, node, vol, a).writes, node.name)
  {
    ExecuteLocal(env, job, node, vol, a, b);
  }

  ghost predicate GoodJob(job: Job) {
    LoopsBounded(job.nodes) && Distinct(NamesOf(job.nodes))
  }

  lemma StepLocal(env: Env, job: Job)
    requires LoopsBounded(job.nodes)
    ensures Local(StepOf(env, job), NamesOf(job.nodes))
  {
    var step, names := StepOf(env, job), NamesOf(job.nodes);
    forall i: nat, vol, a, b | i < |names| && AgreeOn(a, b, names[i])
      ensures step(i, vol, a) == step(i, vol, b)
    {
      NodeStepLocal(env, job, job.nodes[i], vol, a, b);
    }
    forall i: nat, vol, s | i < |names| ensures AllTouch(step(i, vol, s).writes, names[i]) {
      NodeStepLocal(env, job, job.nodes[i], vol, s, s);
    }
  }

  // ---------------------------------------------------------------- fan-out: resuming

  /** Every item of an unknown node is written in turn. */
  lemma {:induction false} FanHead(env: Env, node: CheckedNode, items: seq<Value>, i: nat, rows: map<Key, Row>)
    requires i < |items| && Key(node.name, Some(i)) !in rows && FanFrom(env, node, items, i, rows).writes != []
    ensures ItemRow(env, node, i, items[i]).Some?
    ensures var row := ItemRow(env, node, i, items[i]).value;
            FanFrom(env, node, items, i, rows) ==
            Fan([Put(Key(node.name, Some(i)), row)] + FanFrom(env, node, items, i + 1, rows).writes,
                FanFrom(env, node, items, i + 1, rows).stopped)
  {}

  /** Items interrupted after `m` rows go on with the next one. */
  lemma {:induction false} FanResumes(env: Env, node: CheckedNode, items: seq<Value>, i: nat, s: Store, m: nat)
    requires i <= |items| && forall j: nat :: i <= j ==> Key(node.name, Some(j)) !in s.rows
    requires m <= |FanFrom(env, node, items, i, s.rows).writes|
    ensures var fan := FanFrom(env, node, items, i, s.rows);
            FanFrom(env, node, items, i, ApplyAll(s, fan.writes[..m]).rows) == Fan(fan.writes[m..], fan.stopped)
    decreases |items| - i
  {
    var fan := FanFrom(env, node, items, i, s.rows);
    if m == 0 {
      assert fan.writes[..0] == [] && fan.writes[0..] == fan.writes;
    } else {
      assert i < |items|;
      FanHead(env, node, items, i, s.rows);
      var w, rest := fan.writes[0], FanFrom(env, node, items, i + 1, s.rows);
      var s1 := Apply(s, w);
      FanLocal(env, node, items, i + 1, s.rows, s1.rows);
      FanResumes(env, node, items, i + 1, s1, m - 1);
      assert fan.writes[..m] == [w] + rest.writes[..m - 1];
      assert ([w] + rest.writes[..m - 1])[1..] == rest.writes[..m - 1];
      var cut := ApplyAll(s1, rest.writes[..m - 1]);
      assert ApplyAll(s, fan.writes[..m]) == cut;
      ItemsStay(env, node, items, i + 1, s1, m - 1, i);
      assert fan.writes[m..] == rest.writes[m - 1..];
    }
  }

  /** Later items leave earlier rows where they are. */
  lemma {:induction false} ItemsStay(env: Env, node: CheckedNode, items: seq<Value>, i: nat, s: Store, m: nat, k: nat)
    requires i <= |items| && k < i && Key(node.name, Some(k)) in s.rows
    requires m <= |FanFrom(env, node, items, i, s.rows).writes|
    ensures Key(node.name, Some(k)) in ApplyAll(s, FanFrom(env, node, items, i, s.rows).writes[..m]).rows
    decreases |items| - i
  {
    var ws := FanFrom(env, node, items, i, s.rows).writes;
    RowsGrow(s, ws[..m], Key(node.name, Some(k)));
  }

  lemma {:induction false} RowsGrow(s: Store, ws: seq<Write>, key: Key)
    requires key in s.rows
    ensures key in ApplyAll(s, ws).rows
    decreases |ws|
  {
    if ws != [] { RowsGrow(Apply(s, ws[0]), ws[1..], key); }
  }

  lemma {:induction false} PinStays(s: Store, ws: seq<Write>, node: string)
    requires node in s.manifests && AllItemPuts(ws, node)
    ensures ApplyAll(s, ws).manifests == s.manifests
    decreases |ws|
  {
    if ws != [] {
      assert IsItemPut(ws[0], node);
      forall i | 0 <= i < |ws[1..]| ensures IsItemPut(ws[1..][i], node) { assert ws[1..][i] == ws[i + 1]; }
      PinStays(Apply(s, ws[0]), ws[1..], node);
    }
  }

  /** A pinned fan-out interrupted after its pin and `m` items. */
  lemma PinnedResumes(env: Env, node: CheckedNode, s: Store, digest: string, items: seq<Value>, m: nat)
    requires Fresh(s, node.name)
    requires var fan := PinnedWrites(env, node, s, digest, items); 0 < m <= |fan.writes|
    ensures var fan := PinnedWrites(env, node, s, digest, items);
            var cut := ApplyAll(s, fan.writes[..m]);
            node.name in cut.manifests && cut.manifests[node.name].digest == digest &&
            PinnedWrites(env, node, cut, digest, items) == Fan(fan.writes[m..], fan.stopped)
  {
    var pin := Pin(node.name, Pinned(digest, |items|));
    var all, items' := PinnedWrites(env, node, s, digest, items), FanFrom(env, node, items, 0, s.rows);
    var s1 := Apply(s, pin);
    assert all.writes == [pin] + items'.writes;
    assert all.writes[..m] == [pin] + items'.writes[..m - 1];
    assert ([pin] + items'.writes[..m - 1])[1..] == items'.writes[..m - 1];
    var cut := ApplyAll(s, all.writes[..m]);
    assert cut == ApplyAll(s1, items'.writes[..m - 1]);
    FanPuts(env, node, items, 0, s.rows);
    PinStays(s1, items'.writes[..m - 1], node.name);
    FanResumes(env, node, items, 0, s1, m - 1);
    assert [] + items'.writes[m - 1..] == all.writes[m..];
  }

  ghost predicate FannedAgain(first: Fanned, again: Fanned, m: nat)
    requires m <= |first.writes|
  {
    match first
    case Bailed(writes, envelope) => again == Bailed(writes[m..], envelope)
    case Collected(writes, value, files) => again == Collected(writes[m..], value, files)
  }

  /** The digest does not clash with the one the node is pinned to. */
  predicate SamePin(s: Store, node: string, digest: string) {
    node in s.manifests ==> s.manifests[node].digest == digest
  }

  lemma RunFanoutIs(env: Env, node: CheckedNode, s: Store)
    requires node.over.Some?
    ensures var manifest := env.manifests(node.over.value);
            var items := UsableItems(manifest);
            items.Ok? && SamePin(s, node.name, manifest.digest) ==>
              var fan := PinnedWrites(env, node, s, manifest.digest, items.value);
              RunFanout(env, node, s) == FanoutEnd(env, node.name, |items.value|, fan, ApplyAll(s, fan.writes).rows) &&
              RunFanout(env, node, s).writes == fan.writes
    ensures var manifest := env.manifests(node.over.value);
            if UsableItems(manifest).Err? then RunFanout(env, node, s).writes == []
            else manifest.Manifest? && (!SamePin(s, node.name, manifest.digest) ==> RunFanout(env, node, s).writes == [])
  {}

  lemma FanoutEndAgain(env: Env, node: string, n: nat, fan: Fan, rows: map<Key, Row>, m: nat)
    requires m <= |fan.writes|
    ensures FanoutEnd(env, node, n, fan, rows).writes == fan.writes
    ensures FannedAgain(FanoutEnd(env, node, n, fan, rows), FanoutEnd(env, node, n, Fan(fan.writes[m..], fan.stopped), rows), m)
  {}

  lemma RunFanoutResumes(env: Env, node: CheckedNode, s: Store, m: nat)
    requires node.over.Some? && Fresh(s, node.name)
    requires m <= |RunFanout(env, node, s).writes|
    ensures FannedAgain(RunFanout(env, node, s), RunFanout(env, node, ApplyAll(s, RunFanout(env, node, s).writes[..m])), m)
  {
    hide RunFanout, UsableItems, PinnedWrites, FanoutEnd;
    var first := RunFanout(env, node, s);
    if m == 0 {
      assert first.writes[..0] == [] && first.writes[0..] == first.writes;
    } else {
      var manifest := env.manifests(node.over.value);
      RunFanoutIs(env, node, s);
      var items := UsableItems(manifest).value;
      var fan := PinnedWrites(env, node, s, manifest.digest, items);
      var after := ApplyAll(s, fan.writes);
      FanoutEndAgain(env, node.name, |items|, fan, after.rows, m);
      PinnedResumes(env, node, s, manifest.digest, items, m);
      ApplyConcat(s, fan.writes[..m], fan.writes[m..]);
      assert fan.writes[..m] + fan.writes[m..] == fan.writes;
      RunFanoutIs(env, node, ApplyAll(s, fan.writes[..m]));
    }
  }

  lemma FanoutStepAgain(first: Fanned, again: Fanned, node: string, vol: Volatile, m: nat)
    requires m <= |first.writes| && FannedAgain(first, again, m)
    ensures ResumesAfter(FanoutStep(first, node, vol), FanoutStep(again, node, vol), m)
  {
    if first.Collected? {
      var last := Put(Key(node, None), CompletedRow(first.value, None));
      assert (first.writes + [last])[m..] == first.writes[m..] + [last];
    }
  }

  lemma CollectionHasNoRoute(env: Env, node: CheckedNode, s: Store)
    requires node.over.Some? && RunFanout(env, node, s).Collected?
    ensures RunFanout(env, node, s).value.GetText("route").None?
  {}

  /** A fan-out node taken again after `m` of its writes, its own row being the last of them. */
  lemma FanoutStepResumes(env: Env, job: Job, node: CheckedNode, vol: Volatile, s: Store, m: nat)
    requires node.over.Some? && Fresh(s, node.name)
    requires node.repeatUntil.Some? ==> node.maxIterations.Some?
    requires !BranchedAway(job.exclusiveTo, node.name, vol.routes) && !NeedsSkipped(node, vol.skipped)
    requires m <= |NodeStep(env, job, node, vol, s).writes|
    ensures var first := NodeStep(env, job, node, vol, s);
            ResumesAfter(first, NodeStep(env, job, node, vol, ApplyAll(s, first.writes[..m])), m)
  {
    hide RunFanout, BranchedAway, NeedsSkipped, Climb, InputOf;
    var fanned := RunFanout(env, node, s);
    var first := FanoutStep(fanned, node.name, vol);
    if m <= |fanned.writes| {
      assert first.writes[..m] == fanned.writes[..m];
      RunFanoutResumes(env, node, s, m);
      NoNodeRow(env, node, s, m);
      FanoutStepAgain(fanned, RunFanout(env, node, ApplyAll(s, fanned.writes[..m])), node.name, vol, m);
    } else {
      var last := Put(Key(node.name, None), CompletedRow(fanned.value, None));
      CollectionHasNoRoute(env, node, s);
      assert first.writes[..m] == fanned.writes + [last];
      ApplyConcat(s, fanned.writes, [last]);
      ApplyOne(ApplyAll(s, fanned.writes), last);
      assert first.writes[m..] == [];
    }
  }

  /** While its items run, a fan-out node has no row of its own. */
  lemma NoNodeRow(env: Env, node: CheckedNode, s: Store, m: nat)
    requires node.over.Some? && Fresh(s, node.name)
    requires m <= |RunFanout(env, node, s).writes|
    ensures Key(node.name, None) !in ApplyAll(s, RunFanout(env, node, s).writes[..m]).rows
  {
    var ws := RunFanout(env, node, s).writes[..m];
    var manifest := env.manifests(node.over.value);
    var items := UsableItems(manifest);
    RunFanoutIs(env, node, s);
    if ws != [] {
      FanPuts(env, node, items.value, 0, s.rows);
      var all := PinnedWrites(env, node, s, manifest.digest, items.value);
      FanoutEndAgain(env, node.name, |items.value|, all, ApplyAll(s, all.writes).rows, m);
      forall k | 0 <= k < |ws| ensures ws[k].Put? ==> ws[k].key.item.Some? {
        assert ws[k] == all.writes[k];
        assert k > 0 ==> IsItemPut(FanFrom(env, node, items.value, 0, s.rows).writes[k - 1], node.name);
      }
    }
    NoRowAppears(s, ws, Key(node.name, None));
  }

  lemma {:induction false} NoRowAppears(s: Store, ws: seq<Write>, key: Key)
    requires key !in s.rows && forall k :: 0 <= k < |ws| ==> (ws[k].Put? ==> ws[k].key != key)
    ensures key !in ApplyAll(s, ws).rows
    decreases |ws|
  {
    if ws != [] {
      assert ws[0].Put? ==> ws[0].key != key;
      forall k | 0 <= k < |ws[1..]| ensures ws[1..][k].Put? ==> ws[1..][k].key != key { assert ws[1..][k] == ws[k + 1]; }
      NoRowAppears(Apply(s, ws[0]), ws[1..], key);
    }
  }

  // ---------------------------------------------------------------- any node: resuming

  lemma AtMostOneWrite(env: Env, job: Job, node: CheckedNode, vol: Volatile, s: Store)
    requires node.over.None? && (node.repeatUntil.Some? ==> node.maxIterations.Some?)
    ensures |Execute(env, job, node, vol, s).writes| <= 1
  {}

  lemma NodeStepResumes(env: Env, job: Job, node: CheckedNode, vol: Volatile, s: Store, m: nat)
    requires node.repeatUntil.Some? ==> node.maxIterations.Some?
    requires Fresh(s, node.name) && m <= |NodeStep(env, job, node, vol, s).writes|
    ensures var first := NodeStep(env, job, node, vol, s);
            ResumesAfter(first, NodeStep(env, job, node, vol, ApplyAll(s, first.writes[..m])), m)
  {
    var first := NodeStep(env, job, node, vol, s);
    if m == 0 {
      assert first.writes[..0] == [] && first.writes[0..] == first.writes;
    } else if node.over.Some? && !BranchedAway(job.exclusiveTo, node.name, vol.routes) && !NeedsSkipped(node, vol.skipped) {
      FanoutStepResumes(env, job, node, vol, s, m);
    } else {
      if node.over.None? { AtMostOneWrite(env, job, node, vol, s); }
      assert m == 1 && first.writes[..1] == first.writes && first.writes[1..] == [];
      assert first.writes == [first.writes[0]];
      ApplyOne(s, first.writes[0]);
    }
  }

  lemma StepResumable(env: Env, job: Job)
    requires LoopsBounded(job.nodes)
    ensures Resumable(StepOf(env, job), NamesOf(job.nodes))
  {
    var step, names := StepOf(env, job), NamesOf(job.nodes);
    forall i: nat, vol, s, m: nat | i < |names| && Fresh(s, names[i]) && m <= |step(i, vol, s).writes|
      ensures ResumableAt(step, names, i, vol, s, m)
    {
      NodeStepResumes(env, job, job.nodes[i], vol, s, m);
    }
  }

  // ---------------------------------------------------------------- cancellation

  /** `cut` answers as `world` does, except that any block run may be cancelled instead. */
  ghost predicate CancelsMore(cut: World, world: World) {
    && cut.alternates == world.alternates
    && (forall site, attempt, input, value :: cut.objection(site, attempt, input, value) == world.objection(site, attempt, input, value))
    && (forall site, attempt, iteration, backend, input ::
          cut.run(site, attempt, iteration, backend, input) == world.run(site, attempt, iteration, backend, input) ||
          cut.run(site, attempt, iteration, backend, input) == BlockRun.Cancelled)
  }

  lemma {:induction false} AttemptCut(cut: World, world: World, work: Work, attempt: nat, backend: Backend, iterations: nat, current: Value)
    requires work.Bounded() && CancelsMore(cut, world)
    ensures var a := AttemptFrom(cut, work, attempt, backend, iterations, current);
            a == AttemptFrom(world, work, attempt, backend, iterations, current) || a == Fatal
    decreases if work.repeatUntil.Some? then work.maxIterations.value - iterations else 0
  {
    var ran := world.run(work.site, attempt, iterations, backend, current);
    if ran.Produced? && work.repeatUntil.Some? && iterations + 1 < work.maxIterations.value {
      AttemptCut(cut, world, work, attempt, backend, iterations + 1, ran.value);
    }
  }

  lemma {:induction false} FollowCut(cut: World, world: World, work: Work, plan: Plan, k: nat)
    requires work.Bounded() && CancelsMore(cut, world) && k < |plan.attempts|
    ensures Follow(cut, work, plan, k) == Follow(world, work, plan, k) || Follow(cut, work, plan, k) == Stopped
    decreases |plan.attempts| - k
  {
    AttemptCut(cut, world, work, k, plan.attempts[k], 0, work.input);
    if k + 1 < |plan.attempts| { FollowCut(cut, world, work, plan, k + 1); }
  }

  lemma ClimbCut(cut: World, world: World, work: Work)
    requires work.Bounded() && CancelsMore(cut, world)
    ensures Climb(cut, work) == Climb(world, work) || Climb(cut, work) == Stopped
  {
    FollowCut(cut, world, work, PlanOf(world, work), 0);
  }

  lemma {:induction false} FanCut(env: Env, cut: World, node: CheckedNode, items: seq<Value>, i: nat, rows: map<Key, Row>)
    requires CancelsMore(cut, env.world) && i <= |items|
    ensures var a, b := FanFrom(env.(world := cut), node, items, i, rows), FanFrom(env, node, items, i, rows);
            a == b || (a.stopped && a.writes <= b.writes)
    decreases |items| - i
  {
    if i < |items| {
      ClimbCut(cut, env.world, ItemWork(node, i, items[i]));
      FanCut(env, cut, node, items, i + 1, rows);
    }
  }

  lemma RunFanoutCut(env: Env, cut: World, node: CheckedNode, s: Store)
    requires node.over.Some? && CancelsMore(cut, env.world)
    ensures var a, b := RunFanout(env.(world := cut), node, s), RunFanout(env, node, s);
            a == b || (a.Bailed? && a.envelope == Aborted && a.writes <= b.writes)
  {
    hide FanFrom, ApplyAll, ReadItems, CancelsMore;
    var manifest := env.manifests(node.over.value);
    var items := UsableItems(manifest);
    RunFanoutIs(env, node, s);
    RunFanoutIs(env.(world := cut), node, s);
    if items.Ok? && SamePin(s, node.name, manifest.digest) {
      FanCut(env, cut, node, items.value, 0, s.rows);
    }
  }

  lemma NodeStepCut(env: Env, cut: World, job: Job, node: CheckedNode, vol: Volatile, s: Store)
    requires node.repeatUntil.Some? ==> node.maxIterations.Some?
    requires CancelsMore(cut, env.world)
    ensures CutsShort(NodeStep(env.(world := cut), job, node, vol, s), NodeStep(env, job, node, vol, s))
  {
    if node.over.Some? {
      RunFanoutCut(env, cut, node, s);
    } else {
      ClimbCut(cut, env.world, NodeWork(node, InputOf(job, node, vol.outputs)));
    }
  }

  /** A run cancelled anywhere has written a prefix of what it would have written. */
  lemma CancelledWritesPrefix(env: Env, cut: World, job: Job, s: Store)
    requires LoopsBounded(job.nodes) && CancelsMore(cut, env.world)
    ensures Start(env.(world := cut), job, s).writes <= Start(env, job, s).writes
  {
    var short := env.(world := cut);
    forall k: nat, v, t | k < |job.nodes| ensures CutsShort(StepOf(short, job)(k, v, t), StepOf(env, job)(k, v, t)) {
      NodeStepCut(env, cut, job, job.nodes[k], v, t);
    }
    TraverseCutShort(StepOf(short, job), StepOf(env, job), |job.nodes|, 0, NOTHING_YET, s);
  }

  // ---------------------------------------------------------------- crash and resume

  /** One run and how much of it reached the ledger: what its blocks and manifests were, and after how many writes it was cut. */
  datatype BrokenRun = BrokenRun(env: Env, after: nat)

  ghost function Kept(job: Job, store: Store, run: BrokenRun): seq<Write>
    requires LoopsBounded(job.nodes)
  {
    var writes := Start(run.env, job, store).writes;
    if run.after < |writes| then writes[..run.after] else writes
  }

  /** What the ledger holds after a history of runs, each starting from what the last one left. */
  ghost function LedgerAfter(job: Job, runs: seq<BrokenRun>): Store
    requires LoopsBounded(job.nodes)
  {
    if runs == [] then EMPTY_STORE
    else
      var before := LedgerAfter(job, runs[..|runs| - 1]);
      ApplyAll(before, Kept(job, before, runs[|runs| - 1]))
  }

  /** The runs find what `env` finds, except that blocks may be cancelled. */
  ghost predicate OnlyCancelled(runs: seq<BrokenRun>, env: Env) {
    forall i :: 0 <= i < |runs| ==> runs[i].env == env.(world := runs[i].env.world) && CancelsMore(runs[i].env.world, env.world)
  }

  /** The uninterrupted run, on a ledger that holds nothing. */
  ghost function Uninterrupted(env: Env, job: Job): Run
    requires LoopsBounded(job.nodes)
  {
    Start(env, job, EMPTY_STORE)
  }

  ghost function LedgerAt(env: Env, job: Job, j: nat): Store
    requires LoopsBounded(job.nodes) && j <= |Uninterrupted(env, job).writes|
  {
    ApplyAll(EMPTY_STORE, Uninterrupted(env, job).writes[..j])
  }

  /** Resuming from any point of the uninterrupted run: the same end, and only the writes that are missing. */
  lemma ResumeAt(env: Env, job: Job, j: nat)
    requires GoodJob(job) && j <= |Uninterrupted(env, job).writes|
    ensures var whole, again := Uninterrupted(env, job), Start(env, job, LedgerAt(env, job, j));
            again.vol == whole.vol && again.envelope == whole.envelope && Remainder(again.writes, whole.writes, j)
  {
    if job.nodes != [] {
      StepLocal(env, job);
      StepResumable(env, job);
      TraverseResumes(StepOf(env, job), NamesOf(job.nodes), 0, NOTHING_YET, EMPTY_STORE, j);
    }
  }

  lemma WriteTwice(s: Store, ws: seq<Write>)
    requires ws != []
    ensures ApplyAll(ApplyAll(s, ws), [ws[|ws| - 1]]) == ApplyAll(s, ws)
  {
    var front, last := ws[..|ws| - 1], ws[|ws| - 1];
    assert ws == front + [last];
    ApplyConcat(s, front, [last]);
    ApplyOne(ApplyAll(s, front), last);
    ApplyOne(ApplyAll(s, ws), last);
  }

  /** Adding a prefix of the missing writes leads to a later point of the same run. */
  lemma LaterPoint(env: Env, job: Job, j: nat, rest: seq<Write>, kept: seq<Write>) returns (j': nat)
    requires LoopsBounded(job.nodes) && j <= |Uninterrupted(env, job).writes|
    requires Remainder(rest, Uninterrupted(env, job).writes, j) && kept <= rest
    ensures j <= j' <= |Uninterrupted(env, job).writes|
    ensures ApplyAll(LedgerAt(env, job, j), kept) == LedgerAt(env, job, j')
    ensures kept == rest ==> j' == |Uninterrupted(env, job).writes|
  {
    var w := Uninterrupted(env, job).writes;
    if rest == w[j..] {
      j' := j + |kept|;
      assert w[..j'] == w[..j] + kept;
      ApplyConcat(EMPTY_STORE, w[..j], kept);
    } else {
      j' := j;
      assert w[..j] == w;
      WriteTwice(EMPTY_STORE, w);
      assert kept == [] || kept == rest;
    }
  }

  /** However often the job was broken off, its ledger is at some point of the uninterrupted run. */
  lemma {:induction false} LedgerIsAPoint(env: Env, job: Job, runs: seq<BrokenRun>) returns (j: nat)
    requires GoodJob(job)
    requires OnlyCancelled(runs, env)
    ensures j <= |Uninterrupted(env, job).writes|
    ensures LedgerAfter(job, runs) == LedgerAt(env, job, j)
    decreases |runs|
  {
    if runs == [] {
      j := 0;
      assert Uninterrupted(env, job).writes[..0] == [];
    } else {
      var front, last := runs[..|runs| - 1], runs[|runs| - 1];
      var k := LedgerIsAPoint(env, job, front);
      var before := LedgerAfter(job, front);
      ResumeAt(env, job, k);
      CancelledWritesPrefix(env, last.env.world, job, before);
      j := LaterPoint(env, job, k, Start(env, job, before).writes, Kept(job, before, last));
    }
  }

  /**
   Crash-resume equivalence. After any history of crashes and cancellations, at any points, a
   run that is let through to its end has the outputs, skips, routes and result of the run that
   was never interrupted, and leaves the same ledger.
   */
  lemma ResumedEqualsUninterrupted(env: Env, job: Job, runs: seq<BrokenRun>)
    requires GoodJob(job)
    requires OnlyCancelled(runs, env)
    ensures var store, whole := LedgerAfter(job, runs), Uninterrupted(env, job);
            var final := Start(env, job, store);
            final.vol == whole.vol && final.envelope == whole.envelope &&
            ApplyAll(store, final.writes) == ApplyAll(EMPTY_STORE, whole.writes)
  {
    var j := LedgerIsAPoint(env, job, runs);
    ResumeAt(env, job, j);
    var rest := Start(env, job, LedgerAt(env, job, j)).writes;
    var end := LaterPoint(env, job, j, rest, rest);
    var w := Uninterrupted(env, job).writes;
    assert w[..|w|] == w;
  }

  // ---------------------------------------------------------------- nothing concluded is run again

  /** The ledger already says how this piece of work ended. */
  predicate Known(store: Store, site: Site) {
    var own := Key(site.node, None);
    (own in store.rows && (store.rows[own].CompletedRow? || store.rows[own].SkippedRow?)) ||
    (site.item.Some? && Key(site.node, site.item) in store.rows)
  }

  /** The two worlds answer alike, except possibly about work the ledger knows the end of. */
  ghost predicate AlikeElsewhere(a: World, b: World, store: Store) {
    && a.alternates == b.alternates
    && forall site: Site :: !Known(store, site) ==> AlikeAt(a, b, site)
  }

  ghost predicate AlikeAround(a: World, b: World, store: Store, node: string) {
    && a.alternates == b.alternates
    && forall site: Site :: site.node == node && !Known(store, site) ==> AlikeAt(a, b, site)
  }

  ghost predicate AlikeAt(a: World, b: World, site: Site) {
    && (forall attempt, input, value :: a.objection(site, attempt, input, value) == b.objection(site, attempt, input, value))
    && (forall attempt, iteration, backend, input ::
          a.run(site, attempt, iteration, backend, input) == b.run(site, attempt, iteration, backend, input))
  }

  lemma {:induction false} AttemptAlike(a: World, b: World, work: Work, attempt: nat, backend: Backend, iterations: nat, current: Value)
    requires work.Bounded() && AlikeAt(a, b, work.site)
    ensures AttemptFrom(a, work, attempt, backend, iterations, current) == AttemptFrom(b, work, attempt, backend, iterations, current)
    decreases if work.repeatUntil.Some? then work.maxIterations.value - iterations else 0
  {
    var ran := b.run(work.site, attempt, iterations, backend, current);
    if ran.Produced? && work.repeatUntil.Some? && iterations + 1 < work.maxIterations.value {
      AttemptAlike(a, b, work, attempt, backend, iterations + 1, ran.value);
    }
  }

  lemma {:induction false} FollowAlike(a: World, b: World, work: Work, plan: Plan, k: nat)
    requires work.Bounded() && AlikeAt(a, b, work.site) && k < |plan.attempts|
    ensures Follow(a, work, plan, k) == Follow(b, work, plan, k)
    decreases |plan.attempts| - k
  {
    AttemptAlike(a, b, work, k, plan.attempts[k], 0, work.input);
    if k + 1 < |plan.attempts| { FollowAlike(a, b, work, plan, k + 1); }
  }

  lemma ClimbAlike(a: World, b: World, work: Work)
    requires work.Bounded() && a.alternates == b.alternates && AlikeAt(a, b, work.site)
    ensures Climb(a, work) == Climb(b, work)
  {
    FollowAlike(a, b, work, PlanOf(a, work), 0);
  }

  lemma {:induction false} FanAlike(env: Env, other: World, node: CheckedNode, items: seq<Value>, i: nat, s: Store)
    requires AlikeAround(env.world, other, s, node.name) && i <= |items|
    requires var own := Key(node.name, None);
             own in s.rows ==> !s.rows[own].CompletedRow? && !s.rows[own].SkippedRow?
    ensures FanFrom(env, node, items, i, s.rows) == FanFrom(env.(world := other), node, items, i, s.rows)
    decreases |items| - i
  {
    if i < |items| {
      FanAlike(env, other, node, items, i + 1, s);
      if Key(node.name, Some(i)) !in s.rows {
        assert !Known(s, Site(node.name, Some(i)));
        ClimbAlike(env.world, other, ItemWork(node, i, items[i]));
      }
    }
  }

  lemma RunFanoutAlike(env: Env, other: World, node: CheckedNode, s: Store)
    requires node.over.Some? && AlikeAround(env.world, other, s, node.name) && !Known(s, Site(node.name, None))
    ensures RunFanout(env, node, s) == RunFanout(env.(world := other), node, s)
  {
    hide FanFrom, AlikeAround, ApplyAll, ReadItems;
    var manifest := env.manifests(node.over.value);
    var items := UsableItems(manifest);
    RunFanoutIs(env, node, s);
    RunFanoutIs(env.(world := other), node, s);
    if items.Ok? && SamePin(s, node.name, manifest.digest) {
      FanAlike(env, other, node, items.value, 0, s);
    }
  }

  lemma NodeStepAlike(env: Env, other: World, job: Job, node: CheckedNode, vol: Volatile, s: Store)
    requires node.repeatUntil.Some? ==> node.maxIterations.Some?
    requires AlikeAround(env.world, other, s, node.name)
    ensures NodeStep(env, job, node, vol, s) == NodeStep(env.(world := other), job, node, vol, s)
  {
    hide RouteAccepted, BranchedAway, NeedsSkipped, RunFanout, Climb;
    if !Known(s, Site(node.name, None)) {
      if node.over.Some? {
        RunFanoutAlike(env, other, node, s);
      } else {
        ClimbAlike(env.world, other, NodeWork(node, InputOf(job, node, vol.outputs)));
      }
    }
  }

  lemma AlikeMoves(a: World, b: World, s: Store, t: Store, node: string)
    requires AlikeElsewhere(a, b, s) && AgreeOn(s, t, node)
    ensures AlikeAround(a, b, t, node)
  {
    forall site: Site | site.node == node && !Known(t, site) ensures AlikeAt(a, b, site) {
      assert Key(node, None) in s.rows <==> Key(node, None) in t.rows;
      assert !Known(s, site);
    }
  }

  /**
   No concluded work is run again: blocks, checks and judges of nodes and items the ledger
   knows the end of could answer anything, and the run would be the same.
   */
  lemma ConcludedNeverRerun(env: Env, other: World, job: Job, store: Store)
    requires GoodJob(job) && AlikeElsewhere(env.world, other, store)
    ensures Start(env, job, store) == Start(env.(world := other), job, store)
  {
    var env' := env.(world := other);
    var names := NamesOf(job.nodes);
    StepLocal(env, job);
    forall k: nat, v, t | k < |names| && AgreeOn(store, t, names[k])
      ensures StepOf(env, job)(k, v, t) == StepOf(env', job)(k, v, t)
    {
      AlikeMoves(env.world, other, store, t, names[k]);
      NodeStepAlike(env, other, job, job.nodes[k], v, t);
    }
    TraverseSame(StepOf(env, job), StepOf(env', job), names, 0, NOTHING_YET, store, store);
  }

  // ---------------------------------------------------------------- nothing concluded is overwritten

  /** A row that is final: an item's, or a node's that completed or was skipped. */
  predicate Final(store: Store, key: Key) {
    key in store.rows && (key.item.Some? || store.rows[key].CompletedRow? || store.rows[key].SkippedRow?)
  }

  ghost predicate NoneFinal(ws: seq<Write>, store: Store) {
    forall k :: 0 <= k < |ws| ==> (ws[k].Put? ==> !Final(store, ws[k].key))
  }

  lemma {:induction false} FanKeepsFinal(env: Env, node: CheckedNode, items: seq<Value>, i: nat, s: Store)
    requires i <= |items|
    ensures NoneFinal(FanFrom(env, node, items, i, s.rows).writes, s)
    decreases |items| - i
  {
    if i < |items| { FanKeepsFinal(env, node, items, i + 1, s); }
  }

  lemma PinnedKeepsFinal(env: Env, node: CheckedNode, s: Store, digest: string, items: seq<Value>)
    ensures NoneFinal(PinnedWrites(env, node, s, digest, items).writes, s)
  {
    hide FanFrom;
    FanKeepsFinal(env, node, items, 0, s);
  }

  lemma RunFanoutKeepsFinal(env: Env, node: CheckedNode, s: Store)
    requires node.over.Some?
    ensures NoneFinal(RunFanout(env, node, s).writes, s)
  {
    hide NoneFinal, PinnedWrites, FanoutEnd;
    var manifest := env.manifests(node.over.value);
    var items := UsableItems(manifest);
    RunFanoutIs(env, node, s);
    if items.Ok? && SamePin(s, node.name, manifest.digest) {
      PinnedKeepsFinal(env, node, s, manifest.digest, items.value);
      var fan := PinnedWrites(env, node, s, manifest.digest, items.value);
      FanoutEndAgain(env, node.name, |items.value|, fan, ApplyAll(s, fan.writes).rows, 0);
    } else {
      NothingFinal(s);
    }
  }

  lemma NothingFinal(s: Store)
    ensures NoneFinal([], s)
  {}

  lemma NodeStepKeepsFinal(env: Env, job: Job, node: CheckedNode, vol: Volatile, s: Store)
    requires node.repeatUntil.Some? ==> node.maxIterations.Some?
    ensures NoneFinal(NodeStep(env, job, node, vol, s).writes, s)
  {
    hide RunFanout, Climb, InputOf, BranchedAway, NeedsSkipped, RouteAccepted;
    if node.over.Some? {
      RunFanoutKeepsFinal(env, node, s);
    }
  }

  lemma {:induction false} TraverseKeepsFinal(env: Env, job: Job, i: nat, vol: Volatile, now: Store, start: Store)
    requires GoodJob(job) && i <= |job.nodes|
    requires forall k :: i <= k < |job.nodes| ==> AgreeOn(start, now, job.nodes[k].name)
    ensures NoneFinal(Traverse(StepOf(env, job), |job.nodes|, i, vol, now).writes, start)
    decreases |job.nodes| - i
  {
    if i < |job.nodes| {
      var node := job.nodes[i];
      var first := StepOf(env, job)(i, vol, now);
      assert first == NodeStep(env, job, node, vol, now);
      hide NodeStep;
      NodeStepKeepsFinal(env, job, node, vol, now);
      NodeStepLocal(env, job, node, vol, now, now);
      assert NoneFinal(first.writes, start) by {
        forall k | 0 <= k < |first.writes| ensures first.writes[k].Put? ==> !Final(start, first.writes[k].key) {
          assert Touches(first.writes[k], node.name);
        }
      }
      if first.Advance? {
        var next := ApplyAll(now, first.writes);
        forall k | i + 1 <= k < |job.nodes| ensures AgreeOn(start, next, job.nodes[k].name) {
          assert NamesOf(job.nodes)[i] != NamesOf(job.nodes)[k];
          UntouchedAgrees(now, first.writes, job.nodes[k].name);
        }
        TraverseKeepsFinal(env, job, i + 1, first.vol, next, start);
      }
    }
  }

  lemma {:induction false} FinalStays(s: Store, ws: seq<Write>, start: Store, key: Key)
    requires Final(start, key) && NoneFinal(ws, start) && key in s.rows && s.rows[key] == start.rows[key]
    ensures key in ApplyAll(s, ws).rows && ApplyAll(s, ws).rows[key] == start.rows[key]
    decreases |ws|
  {
    if ws != [] {
      assert ws[0].Put? ==> !Final(start, ws[0].key);
      forall k | 0 <= k < |ws[1..]| ensures ws[1..][k].Put? ==> !Final(start, ws[1..][k].key) { assert ws[1..][k] == ws[k + 1]; }
      FinalStays(Apply(s, ws[0]), ws[1..], start, key);
    }
  }

  /** Whatever a run does, from whatever ledger, every final row is still there unchanged afterwards. */
  lemma FinalRowsKept(env: Env, job: Job, store: Store, key: Key)
    requires GoodJob(job) && Final(store, key)
    ensures var after := ApplyAll(store, Start(env, job, store).writes);
            key in after.rows && after.rows[key] == store.rows[key]
  {
    TraverseKeepsFinal(env, job, 0, NOTHING_YET, store, store);
    FinalStays(store, Start(env, job, store).writes, store, key);
  }
}
