/** The runner: it drives a checked graph node by node and checkpoints into the job's ledger. */
module Runner {
  import opened Wrappers
  import opened Types
  import opened Graphs
  import opened Composition
  import opened GraphCheck
  import opened Ladder
  import opened Ledger
  import opened RunSpec

  /** The ledger changed by exactly these checkpoints, in this order. */
  twostate predicate Checkpointed(ledger: JobLedger, writes: seq<Write>)
    reads ledger
  {
    && ledger.Contents() == ApplyAll(old(ledger.Contents()), writes)
    && ledger.written == old(ledger.written) + writes
  }

  /** Two stretches of checkpoints are one. */
  lemma Glue(store: Store, before: seq<Write>, a: seq<Write>, b: seq<Write>)
    ensures ApplyAll(ApplyAll(store, a), b) == ApplyAll(store, a + b)
    ensures before + a + b == before + (a + b)
  {
    hide ApplyAll;
    ApplyConcat(store, a, b);
    Regroup(before, a, b);
  }

  lemma Regroup<T>(a: seq<T>, b: seq<T>, c: seq<T>)
    ensures a + b + c == a + (b + c)
  {}

  function Prepend(items: seq<Value>, r: Result<seq<Value>, string>): Result<seq<Value>, string> {
    if r.Ok? then Ok(items + r.value) else r
  }

  lemma PrependFacts(items: seq<Value>, value: Value, r: Result<seq<Value>, string>)
    ensures Prepend([], r) == r
    ensures Prepend(items, Prepend([value], r)) == Prepend(items + [value], r)
  {
    if r.Ok? {
      assert [] + r.value == r.value;
      assert items + ([value] + r.value) == items + [value] + r.value;
    }
  }

  /** The manifest's values, or why the node cannot run over it. */
  method ReadManifest(manifest: Manifest) returns (r: Result<seq<Value>, string>)
    ensures r == UsableItems(manifest)
  {
    if manifest.Unreadable? {
      return Err(manifest.message);
    }
    var lines := manifest.lines;
    var items: seq<Value> := [];
    PrependFacts([], Null, ReadItems(lines, 0));
    for i := 0 to |lines|
      invariant ReadItems(lines, 0) == Prepend(items, ReadItems(lines, i))
    {
      match lines[i] {
        case Blank =>
        case Malformed(message) => return Err(message);
        case Json(value) =>
          PrependFacts(items, value, ReadItems(lines, i + 1));
          items := items + [value];
      }
    }
    assert items + [] == items;
    if items == [] {
      return Err("the manifest is empty");
    }
    return Ok(items);
  }

  method WriteFiles(concluded: seq<Concluded>) returns (files: Files)
    ensures files == Project(concluded, 0, Files([], []))
  {
    files := Files([], []);
    for i := 0 to |concluded|
      invariant Project(concluded, 0, Files([], [])) == Project(concluded, i, files)
    {
      if concluded[i].output.Some? {
        files := files.(results := files.results + [(concluded[i].item, concluded[i].output.value)]);
      } else if concluded[i].error.Some? {
        files := files.(failures := files.failures + [(concluded[i].item, concluded[i].error.value)]);
      }
    }
  }

  /** Items not yet reached have the rows they had at the start. */
  ghost predicate UntouchedFrom(start: map<Key, Row>, rows: map<Key, Row>, node: string, i: nat) {
    forall j: nat :: i <= j ==>
      (Key(node, Some(j)) in rows <==> Key(node, Some(j)) in start) &&
      (Key(node, Some(j)) in rows ==> rows[Key(node, Some(j))] == start[Key(node, Some(j))])
  }

  /** Conclude one item and record how. */
  method RunItem(env: Env, node: CheckedNode, item: nat, input: Value, ledger: JobLedger)
    returns (stopped: bool, completed: bool)
    modifies ledger
    ensures ledger.status == old(ledger.status)
    ensures match ItemRow(env, node, item, input)
            case None => stopped && Checkpointed(ledger, [])
            case Some(row) => !stopped && Checkpointed(ledger, [Put(Key(node.name, Some(item)), row)]) &&
                              (completed <==> row.CompletedRow?)
  {
    ApplyOne(ledger.Contents(), Put(Key(node.name, Some(item)), SkippedRow));
    stopped, completed := false, false;
    if !node.signature.input.MatchesValue(input) {
      ledger.WriteItemFailed(node.name, item, "does not match the declared input", input);
    } else {
      var climbed, _ := RunLadder(env.world, ItemWork(node, item, input));
      match climbed {
        case Done(value) =>
          completed := true;
          ledger.WriteItemCompleted(node.name, item, value, input);
        case Stopped => stopped := true;
        case Exhausted(reason, escalated, _) =>
          if escalated {
            ledger.WriteEscalated(node.name, Some(item), reason, input);
          } else {
            ledger.WriteItemFailed(node.name, item, reason, input);
          }
      }
    }
  }

  lemma {:induction false} SucceededAt(rows: map<Key, Row>, rows': map<Key, Row>, node: string, n: nat)
    requires forall j: nat :: j < n ==>
      (Key(node, Some(j)) in rows <==> Key(node, Some(j)) in rows') &&
      (Key(node, Some(j)) in rows ==> rows[Key(node, Some(j))] == rows'[Key(node, Some(j))])
    ensures Succeeded(rows, node, n) == Succeeded(rows', node, n)
  {
    if n > 0 { SucceededAt(rows, rows', node, n - 1); }
  }

  /** Counting one item more, which has its row by now. */
  lemma SucceededNext(rows: map<Key, Row>, rows': map<Key, Row>, node: string, i: nat, row: Row)
    requires rows' == rows[Key(node, Some(i)) := row]
    ensures Succeeded(rows', node, i + 1) == Succeeded(rows, node, i) + (if row.CompletedRow? then 1 else 0)
  {
    SucceededAt(rows, rows', node, i);
  }

  lemma UntouchedNext(start: map<Key, Row>, rows: map<Key, Row>, rows': map<Key, Row>, node: string, i: nat, row: Row)
    requires UntouchedFrom(start, rows, node, i) && rows' == rows[Key(node, Some(i)) := row]
    ensures UntouchedFrom(start, rows', node, i + 1)
    ensures Key(node, Some(i)) in rows <==> Key(node, Some(i)) in start
  {}

  lemma RowAgain(rows: map<Key, Row>, key: Key)
    requires key in rows
    ensures rows == rows[key := rows[key]]
  {}

  /** The whole fan-out is the writes done so far followed by what is left. */
  ghost predicate Splits(whole: Fan, done: seq<Write>, rest: Fan) {
    whole.writes == done + rest.writes && whole.stopped == rest.stopped
  }

  lemma SplitsFirst(whole: Fan)
    ensures Splits(whole, [], whole)
  {
    assert [] + whole.writes == whole.writes;
  }

  lemma SplitsNext(env: Env, node: CheckedNode, items: seq<Value>, i: nat, rows: map<Key, Row>, whole: Fan, done: seq<Write>)
    requires i < |items| && Splits(whole, done, FanFrom(env, node, items, i, rows))
    ensures var key, row := Key(node.name, Some(i)), ItemRow(env, node, i, items[i]);
            if key in rows then Splits(whole, done, FanFrom(env, node, items, i + 1, rows))
            else if row.None? then whole == Fan(done, true)
            else Splits(whole, done + [Put(key, row.value)], FanFrom(env, node, items, i + 1, rows))
  {
    hide ItemRow;
    var key, row := Key(node.name, Some(i)), ItemRow(env, node, i, items[i]);
    if key !in rows {
      if row.None? {
        assert done + [] == done;
      } else {
        var rest := FanFrom(env, node, items, i + 1, rows).writes;
        assert done + ([Put(key, row.value)] + rest) == done + [Put(key, row.value)] + rest;
      }
    }
  }

  lemma SplitsLast(env: Env, node: CheckedNode, items: seq<Value>, rows: map<Key, Row>, whole: Fan, done: seq<Write>)
    requires Splits(whole, done, FanFrom(env, node, items, |items|, rows))
    ensures whole == Fan(done, false)
  {
    assert done + [] == done;
  }

  /** The per-item loop, resumable at any item. */
  method RunItems(env: Env, node: CheckedNode, items: seq<Value>, ledger: JobLedger)
    returns (stopped: bool, succeeded: nat, failed: nat)
    modifies ledger
    ensures var fan := FanFrom(env, node, items, 0, old(ledger.rows));
            stopped == fan.stopped && Checkpointed(ledger, fan.writes)
    ensures !stopped ==> succeeded == Succeeded(ledger.rows, node.name, |items|) && succeeded + failed == |items|
    ensures ledger.status == old(ledger.status)
  {
    stopped, succeeded, failed := false, 0, 0;
    ghost var start, startStore := ledger.rows, ledger.Contents();
    ghost var done: seq<Write> := [];
    ghost var whole := FanFrom(env, node, items, 0, start);
    assert Succeeded(start, node.name, 0) == 0 && UntouchedFrom(start, start, node.name, 0);
    assert ApplyAll(startStore, []) == startStore;
    SplitsFirst(whole);
    hide ApplyAll, ItemRow, FanFrom, Splits, UntouchedFrom, Succeeded;
    for i := 0 to |items|
      invariant Splits(whole, done, FanFrom(env, node, items, i, start))
      invariant ledger.Contents() == ApplyAll(startStore, done) && ledger.written == old(ledger.written) + done
      invariant UntouchedFrom(start, ledger.rows, node.name, i)
      invariant succeeded == Succeeded(ledger.rows, node.name, i) && succeeded + failed == i
      invariant ledger.status == old(ledger.status)
    {
      var key := Key(node.name, Some(i));
      ghost var before := ledger.rows;
      SplitsNext(env, node, items, i, start, whole, done);
      var concluded := ledger.ItemConcluded(node.name, i);
      if concluded {
        RowAgain(before, key);
        UntouchedNext(start, before, before, node.name, i, before[key]);
        SucceededNext(before, before, node.name, i, before[key]);
        var output := ledger.GetItemCompleted(node.name, i);
        if output.Some? {
          succeeded := succeeded + 1;
        } else {
          failed := failed + 1;
        }
      } else {
        UntouchedNext(start, before, before[key := SkippedRow], node.name, i, SkippedRow);
        var halted, completed := RunItem(env, node, i, items[i], ledger);
        if halted {
          stopped := true;
          return;
        }
        ghost var row := ItemRow(env, node, i, items[i]).value;
        ApplyOne(ApplyAll(startStore, done), Put(key, row));
        ApplyConcat(startStore, done, [Put(key, row)]);
        done := done + [Put(key, row)];
        assert ledger.rows == before[key := row];
        UntouchedNext(start, before, ledger.rows, node.name, i, row);
        SucceededNext(before, ledger.rows, node.name, i, row);
        if completed {
          succeeded := succeeded + 1;
        } else {
          failed := failed + 1;
        }
      }
    }
    SplitsLast(env, node, items, start, whole, done);
  }

  method PinManifest(node: string, digest: string, items: nat, ledger: JobLedger) returns (changed: bool)
    modifies ledger
    ensures changed <==> node in old(ledger.manifests) && old(ledger.manifests)[node].digest != digest
    ensures Checkpointed(ledger, if changed then [] else PinFirst(old(ledger.Contents()), node, digest, items))
    ensures ledger.rows == old(ledger.rows) && ledger.status == old(ledger.status)
  {
    var pinned := ledger.CheckOrRecordManifest(node, digest, items);
    changed := pinned.Err?;
    ApplyOne(old(ledger.Contents()), Pin(node, Pinned(digest, items)));
  }

  /** Pin the manifest, then the items; a changed manifest leaves the ledger alone. */
  method RunPinned(env: Env, node: CheckedNode, digest: string, items: seq<Value>, ledger: JobLedger)
    returns (changed: bool, stopped: bool, succeeded: nat)
    modifies ledger
    ensures changed <==> node.name in old(ledger.manifests) && old(ledger.manifests)[node.name].digest != digest
    ensures changed ==> Checkpointed(ledger, [])
    ensures !changed ==>
              var fan := PinnedWrites(env, node, old(ledger.Contents()), digest, items);
              Checkpointed(ledger, fan.writes) && stopped == fan.stopped &&
              (!stopped ==> succeeded == Succeeded(ledger.rows, node.name, |items|))
    ensures ledger.status == old(ledger.status)
  {
    stopped, succeeded := false, 0;
    ghost var rows := ledger.rows;
    changed := PinManifest(node.name, digest, |items|, ledger);
    if changed {
      return;
    }
    Glue(old(ledger.Contents()), old(ledger.written), PinFirst(old(ledger.Contents()), node.name, digest, |items|),
         FanFrom(env, node, items, 0, rows).writes);
    var failed;
    stopped, succeeded, failed := RunItems(env, node, items, ledger);
  }

  /** One fan-out node over its manifest, pinned to the content it first ran against. */
  method RunFanoutNode(env: Env, node: CheckedNode, ledger: JobLedger)
    returns (r: Result<Value, Envelope>, files: Files)
    requires node.over.Some?
    modifies ledger
    ensures ledger.status == old(ledger.status)
    ensures Checkpointed(ledger, RunFanout(env, node, old(ledger.Contents())).writes)
    ensures match RunFanout(env, node, old(ledger.Contents()))
            case Bailed(_, envelope) => r == Err(envelope)
            case Collected(_, value, files') => r == Ok(value) && files == files'
  {
    hide PinnedWrites, AllConcluded, ReadItems, Succeeded, Project, Collection;
    files := Files([], []);
    var manifest := env.manifests(node.over.value);
    var items := ReadManifest(manifest);
    if items.Err? {
      r := Err(Broken(items.error));
      return;
    }
    var changed, stopped, succeeded := RunPinned(env, node, manifest.digest, items.value, ledger);
    if changed {
      r := Err(Broken("the manifest has changed since this job first ran"));
      return;
    }
    if stopped {
      r := Err(Aborted);
      return;
    }
    if succeeded == 0 {
      r := Err(Broken("all fan-out items failed"));
      return;
    }
    var concluded := ledger.ConcludedItems(node.name);
    files := WriteFiles(concluded);
    r := Ok(Collection(env.jobDir, node.name, succeeded, |items.value| - succeeded));
  }

  /** One turn of the node loop. */
  method RunNode(env: Env, job: Job, node: CheckedNode, vol: Volatile, ledger: JobLedger)
    returns (next: Result<Volatile, Envelope>)
    requires node.repeatUntil.Some? ==> node.maxIterations.Some?
    modifies ledger
    ensures ledger.status == old(ledger.status)
    ensures match NodeStep(env, job, node, vol, old(ledger.Contents()))
            case Advance(writes, vol') => next == Ok(vol') && Checkpointed(ledger, writes)
            case Halt(writes, envelope) => next == Err(envelope) && Checkpointed(ledger, writes)
  {
    ghost var start := ledger.Contents();
    var wasSkipped := ledger.IsSkipped(node.name);
    if wasSkipped {
      return Ok(WithSkip(vol, node.name));
    }
    var cached := ledger.GetCompleted(node.name);
    if cached.Some? {
      return Ok(WithOutput(vol, node.name, cached.value));
    }
    if BranchedAway(job.exclusiveTo, node.name, vol.routes) {
      ApplyOne(start, Put(Key(node.name, None), SkippedRow));
      ledger.WriteSkipped(node.name);
      return Ok(WithSkip(vol, node.name));
    }
    if NeedsSkipped(node, vol.skipped) {
      ApplyOne(start, Put(Key(node.name, None), SkippedRow));
      ledger.WriteSkipped(node.name);
      return Ok(WithSkip(vol, node.name));
    }
    if node.over.Some? {
      var collected, _ := RunFanoutNode(env, node, ledger);
      match collected {
        case Err(envelope) => return Err(envelope);
        case Ok(value) =>
          ghost var w := Put(Key(node.name, None), CompletedRow(value, None));
          ghost var writes := RunFanout(env, node, start).writes;
          ApplyConcat(start, writes, [w]);
          ApplyOne(ApplyAll(start, writes), w);
          ledger.WriteCompleted(node.name, value);
          return Ok(vol.(outputs := vol.outputs[node.name := value]));
      }
    }
    var input := InputOf(job, node, vol.outputs);
    var climbed, _ := RunLadder(env.world, NodeWork(node, input));
    match climbed {
      case Stopped => return Err(Aborted);
      case Exhausted(reason, escalated, _) =>
        if escalated {
          ApplyOne(start, Put(Key(node.name, None), EscalatedRow(reason, Some(input))));
          ledger.WriteEscalated(node.name, None, reason, input);
        }
        return Err(Broken(reason));
      case Done(value) =>
        if !RouteAccepted(job.exclusiveTo, node.name, value) {
          return Err(Broken("the route matches no declared label"));
        }
        ApplyOne(start, Put(Key(node.name, None), CompletedRow(value, None)));
        ledger.WriteCompleted(node.name, value);
        return Ok(WithOutput(vol, node.name, value));
    }
  }

  method FindLastOutput(nodes: seq<CheckedNode>, outputs: Outputs) returns (r: Option<Value>)
    ensures r == LastOutput(nodes, outputs)
  {
    var i := |nodes|;
    assert nodes[..i] == nodes;
    while i > 0
      invariant 0 <= i <= |nodes|
      invariant LastOutput(nodes, outputs) == LastOutput(nodes[..i], outputs)
    {
      assert nodes[..i][..i - 1] == nodes[..i - 1];
      if nodes[i - 1].name in outputs {
        return Some(outputs[nodes[i - 1].name]);
      }
      i := i - 1;
    }
    return None;
  }

  /** `whole` is the checkpoints done so far followed by what `rest` still does. */
  ghost predicate Continues(whole: Traversal, done: seq<Write>, rest: Traversal) {
    whole.writes == done + rest.writes && whole.vol == rest.vol && whole.stop == rest.stop
  }

  lemma ContinuesNext(step: (nat, Volatile, Store) -> Step, n: nat, i: nat, vol: Volatile, store: Store, whole: Traversal, done: seq<Write>)
    requires i < n
    requires Continues(whole, done, Traverse(step, n, i, vol, store))
    ensures step(i, vol, store).Halt? ==>
              whole.writes == done + step(i, vol, store).writes && whole.stop == Some(step(i, vol, store).envelope)
    ensures step(i, vol, store).Advance? ==>
              Continues(whole, done + step(i, vol, store).writes,
                        Traverse(step, n, i + 1, step(i, vol, store).vol, ApplyAll(store, step(i, vol, store).writes)))
  {
    var next := step(i, vol, store);
    if next.Advance? {
      var rest := Traverse(step, n, i + 1, next.vol, ApplyAll(store, next.writes));
      assert done + (next.writes + rest.writes) == done + next.writes + rest.writes;
    }
  }

  /** `step` is what `NodeStep` does at each node. */
  ghost predicate Represents(step: (nat, Volatile, Store) -> Step, env: Env, job: Job)
    requires LoopsBounded(job.nodes)
  {
    forall i: nat, vol, store {:trigger NodeStep(env, job, job.nodes[i], vol, store)} ::
      i < |job.nodes| ==> step(i, vol, store) == NodeStep(env, job, job.nodes[i], vol, store)
  }

  /** The loop's state before node `i`: `done` is what the ledger gained since `start`. */
  ghost predicate AtNode(step: (nat, Volatile, Store) -> Step, n: nat, i: nat, vol: Volatile, now: Store, start: Store, done: seq<Write>)
    requires i <= n
  {
    && now == ApplyAll(start, done)
    && Continues(Traverse(step, n, 0, NOTHING_YET, start), done, Traverse(step, n, i, vol, now))
  }

  lemma AtFirst(step: (nat, Volatile, Store) -> Step, n: nat, start: Store)
    ensures AtNode(step, n, 0, NOTHING_YET, start, start, [])
  {
    var whole := Traverse(step, n, 0, NOTHING_YET, start);
    assert [] + whole.writes == whole.writes;
  }

  lemma AtNext(step: (nat, Volatile, Store) -> Step, n: nat, i: nat, vol: Volatile, now: Store, start: Store, done: seq<Write>)
    requires i < n && AtNode(step, n, i, vol, now, start, done)
    ensures step(i, vol, now).Advance? ==>
              AtNode(step, n, i + 1, step(i, vol, now).vol, ApplyAll(now, step(i, vol, now).writes), start, done + step(i, vol, now).writes)
    ensures step(i, vol, now).Halt? ==>
              HaltsWith(Traverse(step, n, 0, NOTHING_YET, start), start, done + step(i, vol, now).writes,
                        ApplyAll(now, step(i, vol, now).writes), step(i, vol, now).envelope)
  {
    ContinuesNext(step, n, i, vol, now, Traverse(step, n, 0, NOTHING_YET, start), done);
    ApplyConcat(start, done, step(i, vol, now).writes);
  }

  ghost predicate HaltsWith(whole: Traversal, start: Store, done: seq<Write>, now: Store, envelope: Envelope) {
    whole.writes == done && whole.stop == Some(envelope) && now == ApplyAll(start, done)
  }

  lemma AtLast(step: (nat, Volatile, Store) -> Step, n: nat, vol: Volatile, now: Store, start: Store, done: seq<Write>)
    requires AtNode(step, n, n, vol, now, start, done)
    ensures Traverse(step, n, 0, NOTHING_YET, start) == Traversal(done, vol, None)
    ensures now == ApplyAll(start, done)
  {
    assert done + [] == done;
  }

  /** One turn, in terms of the step function alone. */
  method Turn(env: Env, job: Job, i: nat, vol: Volatile, ledger: JobLedger,
              ghost step: (nat, Volatile, Store) -> Step, ghost start: Store, ghost done: seq<Write>)
    returns (next: Result<Volatile, Envelope>, ghost more: seq<Write>)
    requires LoopsBounded(job.nodes) && i < |job.nodes| && Represents(step, env, job)
    requires AtNode(step, |job.nodes|, i, vol, ledger.Contents(), start, done)
    modifies ledger
    ensures ledger.status == old(ledger.status) && ledger.written == old(ledger.written) + more
    ensures next.Ok? ==> AtNode(step, |job.nodes|, i + 1, next.value, ledger.Contents(), start, done + more)
    ensures next.Err? ==>
              HaltsWith(Traverse(step, |job.nodes|, 0, NOTHING_YET, start), start, done + more, ledger.Contents(), next.error)
  {
    AtNext(step, |job.nodes|, i, vol, ledger.Contents(), start, done);
    more := step(i, vol, ledger.Contents()).writes;
    next := RunNode(env, job, job.nodes[i], vol, ledger);
  }

  /** The node loop, checkpoint by checkpoint. */
  method RunNodes(env: Env, job: Job, ledger: JobLedger, ghost step: (nat, Volatile, Store) -> Step)
    returns (stop: Option<Envelope>, vol: Volatile)
    requires LoopsBounded(job.nodes) && Represents(step, env, job)
    modifies ledger
    ensures var whole := Traverse(step, |job.nodes|, 0, NOTHING_YET, old(ledger.Contents()));
            stop == whole.stop && (stop.None? ==> vol == whole.vol) && Checkpointed(ledger, whole.writes)
    ensures ledger.status == old(ledger.status)
  {
    ghost var start := ledger.Contents();
    ghost var done: seq<Write> := [];
    vol := NOTHING_YET;
    AtFirst(step, |job.nodes|, start);
    for i := 0 to |job.nodes|
      invariant AtNode(step, |job.nodes|, i, vol, ledger.Contents(), start, done)
      invariant ledger.written == old(ledger.written) + done && ledger.status == old(ledger.status)
    {
      var next, more := Turn(env, job, i, vol, ledger, step, start, done);
      Glue(start, old(ledger.written), done, more);
      done := done + more;
      match next {
        case Err(envelope) => stop := Some(envelope); return;
        case Ok(vol') => vol := vol';
      }
    }
    AtLast(step, |job.nodes|, vol, ledger.Contents(), start, done);
    stop := None;
  }

  /** A whole run, fresh or resumed: the ledger alone decides where it takes up. */
  method RunJob(env: Env, job: Job, ledger: JobLedger) returns (envelope: Envelope)
    requires LoopsBounded(job.nodes)
    modifies ledger
    ensures var run := Start(env, job, old(ledger.Contents()));
            envelope == run.envelope && Checkpointed(ledger, run.writes)
    ensures envelope.Finished? <==> ledger.status == JobStatus.Completed
    ensures envelope.Broken? <==> ledger.status == JobStatus.Failed
    ensures envelope.Aborted? <==> ledger.status == JobStatus.Cancelled
  {
    if job.nodes == [] {
      envelope := Broken("this job has no nodes to run");
    } else {
      var stop, vol := RunNodes(env, job, ledger, StepOf(env, job));
      if stop.Some? {
        envelope := stop.value;
      } else {
        var result := FindLastOutput(job.nodes, vol.outputs);
        envelope := if result.Some? then Finished(result.value) else Broken("every node in this job was skipped");
      }
    }
    ledger.Finish(StatusOf(envelope));
  }
}
