/** A fan-out node that succeeds accounts for every item of its manifest exactly once. */
module FanoutResults {
  import opened Wrappers
  import opened Types
  import opened Graphs
  import opened GraphCheck
  import opened Ladder
  import opened Ledger
  import opened RunSpec
  import opened Interruption
  import opened CrashResume
  import opened Manifests
  import Soundness

  // ---------------------------------------------------------------- what the files should hold

  /** The completed items below `n`, in order, with their outputs. */
  function ResultsBelow(rows: map<Key, Row>, node: string, n: nat): seq<(nat, Value)>
  {
    if n == 0 then []
    else
      var key := Key(node, Some(n - 1));
      ResultsBelow(rows, node, n - 1) +
      (if key in rows && rows[key].CompletedRow? then [(n - 1, rows[key].output)] else [])
  }

  /** The failed and escalated items below `n`, in order, with their errors. */
  function FailuresBelow(rows: map<Key, Row>, node: string, n: nat): seq<(nat, string)>
  {
    if n == 0 then []
    else
      var key := Key(node, Some(n - 1));
      FailuresBelow(rows, node, n - 1) +
      (if key in rows && (rows[key].FailedRow? || rows[key].EscalatedRow?) then [(n - 1, rows[key].error)] else [])
  }

  /** Every item below `n` has a row, and no other item does. */
  ghost predicate AllConcludedBelow(rows: map<Key, Row>, node: string, n: nat) {
    && (forall i: nat :: Key(node, Some(i)) in rows <==> i < n)
    && (forall i: nat :: i < n ==> !rows[Key(node, Some(i))].SkippedRow?)
  }

  /** Item rows name items of the manifest and are never skips. */
  ghost predicate ItemsWithin(rows: map<Key, Row>, node: string, n: nat) {
    forall i: nat :: Key(node, Some(i)) in rows ==> i < n && !rows[Key(node, Some(i))].SkippedRow?
  }

  // ---------------------------------------------------------------- every item concludes

  lemma {:induction false} FanConcludes(env: Env, node: CheckedNode, items: seq<Value>, i: nat, s: Store)
    requires i <= |items| && !FanFrom(env, node, items, i, s.rows).stopped
    requires ItemsWithin(s.rows, node.name, |items|)
    ensures var after := ApplyAll(s, FanFrom(env, node, items, i, s.rows).writes).rows;
            ItemsWithin(after, node.name, |items|) &&
            (forall k: nat :: Key(node.name, Some(k)) in s.rows || i <= k < |items| ==> Key(node.name, Some(k)) in after)
    decreases |items| - i
  {
    if i < |items| {
      var key := Key(node.name, Some(i));
      if key in s.rows {
        FanConcludes(env, node, items, i + 1, s);
      } else {
        var row := ItemRow(env, node, i, items[i]).value;
        var s1 := Apply(s, Put(key, row));
        FanLocal(env, node, items, i + 1, s.rows, s1.rows);
        FanConcludes(env, node, items, i + 1, s1);
        var rest := FanFrom(env, node, items, i + 1, s.rows).writes;
        assert ([Put(key, row)] + rest)[1..] == rest;
      }
    }
  }

  // ---------------------------------------------------------------- the projection

  lemma {:induction false} AscendingRange(s: set<nat>, k: nat, n: nat)
    requires k <= n && forall i: nat :: i in s <==> k <= i < n
    ensures |Ascending(s)| == n - k
    ensures forall i :: 0 <= i < n - k ==> Ascending(s)[i] == k + i
    decreases n - k
  {
    if k < n {
      assert k in s;
      assert Smallest(s) == k;
      var rest := s - {k};
      AscendingRange(rest, k + 1, n);
      assert Ascending(s) == [k] + Ascending(rest);
    } else {
      assert s == {};
    }
  }

  /** `concluded` lists the rows of items 0 to n in order. */
  ghost predicate Lists(concluded: seq<Concluded>, rows: map<Key, Row>, node: string) {
    forall i :: 0 <= i < |concluded| ==> Key(node, Some(i)) in rows && concluded[i] == ConcludedFrom(rows[Key(node, Some(i))], i)
  }

  lemma ListedAt(concluded: seq<Concluded>, rows: map<Key, Row>, node: string, i: nat)
    requires Lists(concluded, rows, node) && i < |concluded|
    ensures Key(node, Some(i)) in rows && concluded[i] == ConcludedFrom(rows[Key(node, Some(i))], i)
  {}

  lemma {:induction false} ProjectBelow(concluded: seq<Concluded>, i: nat, rows: map<Key, Row>, node: string)
    requires i <= |concluded| && Lists(concluded, rows, node)
    requires forall k :: 0 <= k < |concluded| ==> !rows[Key(node, Some(k))].SkippedRow?
    ensures Project(concluded, i, Files(ResultsBelow(rows, node, i), FailuresBelow(rows, node, i)))
         == Files(ResultsBelow(rows, node, |concluded|), FailuresBelow(rows, node, |concluded|))
    decreases |concluded| - i
  {
    hide Lists;
    if i < |concluded| {
      ListedAt(concluded, rows, node, i);
      assert concluded[i] == ConcludedFrom(rows[Key(node, Some(i))], i);
      ProjectBelow(concluded, i + 1, rows, node);
      if rows[Key(node, Some(i))].CompletedRow? {
        assert FailuresBelow(rows, node, i + 1) == FailuresBelow(rows, node, i);
      } else {
        assert ResultsBelow(rows, node, i + 1) == ResultsBelow(rows, node, i);
      }
    }
  }

  lemma ItemsAre(rows: map<Key, Row>, node: string, n: nat)
    requires AllConcludedBelow(rows, node, n)
    ensures var a := Ascending(ItemsOf(rows, node)); |a| == n && forall i :: 0 <= i < n ==> a[i] == i
  {
    var s := ItemsOf(rows, node);
    forall i: nat ensures i in s <==> 0 <= i < n {
      assert i in s <==> Key(node, Some(i)) in rows;
    }
    AscendingRange(s, 0, n);
  }

  lemma ConcludedInOrder(rows: map<Key, Row>, node: string, n: nat)
    requires AllConcludedBelow(rows, node, n)
    ensures |AllConcluded(rows, node)| == n && Lists(AllConcluded(rows, node), rows, node)
  {
    ItemsAre(rows, node, n);
    AscendingMembers(ItemsOf(rows, node));
    var a := Ascending(ItemsOf(rows, node));
    ConcludedRowsAre(rows, node, a);
    forall i | 0 <= i < n ensures ConcludedRows(rows, node, a)[i] == ConcludedFrom(rows[Key(node, Some(i))], i) {
      assert a[i] == i;
    }
  }

  lemma ProjectionOf(rows: map<Key, Row>, node: string, n: nat)
    requires AllConcludedBelow(rows, node, n)
    ensures Project(AllConcluded(rows, node), 0, Files([], [])) == Files(ResultsBelow(rows, node, n), FailuresBelow(rows, node, n))
  {
    ConcludedInOrder(rows, node, n);
    ProjectBelow(AllConcluded(rows, node), 0, rows, node);
  }

  lemma {:induction false} CountsAddUp(rows: map<Key, Row>, node: string, n: nat)
    requires forall i: nat :: i < n ==> Key(node, Some(i)) in rows && !rows[Key(node, Some(i))].SkippedRow?
    ensures |ResultsBelow(rows, node, n)| == Succeeded(rows, node, n)
    ensures |ResultsBelow(rows, node, n)| + |FailuresBelow(rows, node, n)| == n
  {
    if n > 0 { CountsAddUp(rows, node, n - 1); }
  }

  lemma {:induction false} ResultLines(rows: map<Key, Row>, node: string, n: nat, i: nat)
    requires forall k: nat :: k < n ==> Key(node, Some(k)) in rows && !rows[Key(node, Some(k))].SkippedRow?
    ensures forall v :: (i, v) in ResultsBelow(rows, node, n) <==>
              i < n && rows[Key(node, Some(i))].CompletedRow? && rows[Key(node, Some(i))].output == v
  {
    if n > 0 { ResultLines(rows, node, n - 1, i); }
  }

  lemma {:induction false} FailureLines(rows: map<Key, Row>, node: string, n: nat, i: nat)
    requires forall k: nat :: k < n ==> Key(node, Some(k)) in rows && !rows[Key(node, Some(k))].SkippedRow?
    ensures forall e :: (i, e) in FailuresBelow(rows, node, n) <==>
              i < n && !rows[Key(node, Some(i))].CompletedRow? && rows[Key(node, Some(i))].error == e
  {
    if n > 0 { FailureLines(rows, node, n - 1, i); }
  }

  /** Every item below `n` is on a line of exactly one of the two files, with its row's output or error. */
  lemma LinesPartition(rows: map<Key, Row>, node: string, n: nat, i: nat)
    requires forall k: nat :: k < n ==> Key(node, Some(k)) in rows && !rows[Key(node, Some(k))].SkippedRow?
    ensures (exists v :: (i, v) in ResultsBelow(rows, node, n)) <==> i < n && rows[Key(node, Some(i))].CompletedRow?
    ensures (exists e :: (i, e) in FailuresBelow(rows, node, n)) <==> i < n && !rows[Key(node, Some(i))].CompletedRow?
    ensures forall v :: (i, v) in ResultsBelow(rows, node, n) ==> rows[Key(node, Some(i))].output == v
    ensures forall e :: (i, e) in FailuresBelow(rows, node, n) ==> rows[Key(node, Some(i))].error == e
  {
    hide ResultsBelow, FailuresBelow;
    ResultLines(rows, node, n, i);
    FailureLines(rows, node, n, i);
    if i < n {
      var row := rows[Key(node, Some(i))];
      if row.CompletedRow? {
        assert (i, row.output) in ResultsBelow(rows, node, n);
      } else {
        assert (i, row.error) in FailuresBelow(rows, node, n);
      }
    }
  }

  /** The lines' items rise, and are below `n`. */
  ghost predicate RisesBelow<T>(lines: seq<(nat, T)>, n: nat) {
    (forall j, k :: 0 <= j < k < |lines| ==> lines[j].0 < lines[k].0) && forall k :: 0 <= k < |lines| ==> lines[k].0 < n
  }

  lemma RisesOn<T>(lines: seq<(nat, T)>, n: nat, more: seq<(nat, T)>)
    requires RisesBelow(lines, n) && |more| <= 1 && (more != [] ==> more[0].0 == n)
    ensures RisesBelow(lines + more, n + 1)
  {}

  lemma {:induction false} ResultsRise(rows: map<Key, Row>, node: string, n: nat)
    ensures RisesBelow(ResultsBelow(rows, node, n), n)
  {
    hide RisesBelow;
    if n > 0 {
      ResultsRise(rows, node, n - 1);
      var key := Key(node, Some(n - 1));
      RisesOn(ResultsBelow(rows, node, n - 1), n - 1, if key in rows && rows[key].CompletedRow? then [(n - 1, rows[key].output)] else []);
    } else {
      NothingRises<Value>(0);
    }
  }

  lemma {:induction false} FailuresRise(rows: map<Key, Row>, node: string, n: nat)
    ensures RisesBelow(FailuresBelow(rows, node, n), n)
  {
    hide RisesBelow;
    if n > 0 {
      FailuresRise(rows, node, n - 1);
      var key := Key(node, Some(n - 1));
      RisesOn(FailuresBelow(rows, node, n - 1), n - 1,
              if key in rows && (rows[key].FailedRow? || rows[key].EscalatedRow?) then [(n - 1, rows[key].error)] else []);
    } else {
      NothingRises<string>(0);
    }
  }

  lemma NothingRises<T>(n: nat)
    ensures RisesBelow<T>([], n)
  {}

  /** Both files list their items in order. */
  lemma LinesRise(rows: map<Key, Row>, node: string, n: nat)
    ensures RisesBelow(ResultsBelow(rows, node, n), n) && RisesBelow(FailuresBelow(rows, node, n), n)
  {
    ResultsRise(rows, node, n);
    FailuresRise(rows, node, n);
  }

  // ---------------------------------------------------------------- conservation

  /** The value names the node's two files and says how many lines each has, and nothing else. */
  ghost predicate Counts(value: Value, jobDir: string, node: string, files: Files) {
    && value.Object? && value.members.Keys == {"results_path", "failures_path", "succeeded", "failed"}
    && value.Get("results_path") == Some(Str(jobDir + "/results/" + node + ".results.jsonl"))
    && value.Get("failures_path") == Some(Str(jobDir + "/results/" + node + ".failures.jsonl"))
    && value.Get("succeeded") == Some(Num(|files.results| as real))
    && value.Get("failed") == Some(Num(|files.failures| as real))
  }

  /** What a successful fan-out leaves behind: rows, counters and files that agree on every item. */
  ghost predicate Accounts(rows: map<Key, Row>, node: string, n: nat, jobDir: string, value: Value, files: Files) {
    && AllConcludedBelow(rows, node, n)
    && files == Files(ResultsBelow(rows, node, n), FailuresBelow(rows, node, n))
    && |files.results| + |files.failures| == n && |files.results| > 0
    && Counts(value, jobDir, node, files)
  }

  lemma CollectionCounts(jobDir: string, node: string, files: Files)
    ensures Counts(Collection(jobDir, node, |files.results|, |files.failures|), jobDir, node, files)
  {}

  lemma PinKeepsRows(s: Store, node: string, digest: string, n: nat)
    ensures ApplyAll(s, PinFirst(s, node, digest, n)).rows == s.rows
  {
    if node !in s.manifests { ApplyOne(s, Pin(node, Pinned(digest, n))); }
  }

  /** From any ledger, and with any number of the items concluded in it. */
  lemma PinnedConserves(env: Env, node: CheckedNode, s: Store, digest: string, items: seq<Value>)
    requires !PinnedWrites(env, node, s, digest, items).stopped && ItemsWithin(s.rows, node.name, |items|)
    ensures var rows := ApplyAll(s, PinnedWrites(env, node, s, digest, items).writes).rows;
            AllConcludedBelow(rows, node.name, |items|) &&
            Project(AllConcluded(rows, node.name), 0, Files([], [])) ==
              Files(ResultsBelow(rows, node.name, |items|), FailuresBelow(rows, node.name, |items|)) &&
            |ResultsBelow(rows, node.name, |items|)| == Succeeded(rows, node.name, |items|) &&
            |ResultsBelow(rows, node.name, |items|)| + |FailuresBelow(rows, node.name, |items|)| == |items|
  {
    hide FanFrom, Project, AllConcluded, Succeeded, ResultsBelow, FailuresBelow, PinFirst;
    var pin := PinFirst(s, node.name, digest, |items|);
    var fan := FanFrom(env, node, items, 0, s.rows);
    var s1 := ApplyAll(s, pin);
    PinKeepsRows(s, node.name, digest, |items|);
    ApplyConcat(s, pin, fan.writes);
    FanConcludes(env, node, items, 0, s1);
    var rows := ApplyAll(s, pin + fan.writes).rows;
    ProjectionOf(rows, node.name, |items|);
    CountsAddUp(rows, node.name, |items|);
  }

  /** What a fan-out node that succeeds presents. */
  lemma CollectedIs(env: Env, node: CheckedNode, s: Store)
    requires node.over.Some? && RunFanout(env, node, s).Collected?
    ensures var r, manifest := RunFanout(env, node, s), env.manifests(node.over.value);
            manifest.Manifest? && UsableItems(manifest).Ok? &&
            var items := UsableItems(manifest).value;
            var fan := PinnedWrites(env, node, s, manifest.digest, items);
            var rows := ApplyAll(s, fan.writes).rows;
            r.writes == fan.writes && !fan.stopped && r.files == Project(AllConcluded(rows, node.name), 0, Files([], [])) &&
            Succeeded(rows, node.name, |items|) > 0 &&
            r.value == Collection(env.jobDir, node.name, Succeeded(rows, node.name, |items|), |items| - Succeeded(rows, node.name, |items|))
  {
    hide PinnedWrites, UsableItems, Project, AllConcluded, Succeeded, Collection;
    RunFanoutIs(env, node, s);
  }

  /** Whatever items were already concluded, a fan-out node that succeeds accounts for all of them. */
  lemma FanoutConserves(env: Env, node: CheckedNode, s: Store)
    requires node.over.Some? && RunFanout(env, node, s).Collected?
    requires var items := UsableItems(env.manifests(node.over.value));
             items.Ok? ==> ItemsWithin(s.rows, node.name, |items.value|)
    ensures var r := RunFanout(env, node, s);
            UsableItems(env.manifests(node.over.value)).Ok? &&
            Accounts(ApplyAll(s, r.writes).rows, node.name, |UsableItems(env.manifests(node.over.value)).value|,
                     env.jobDir, r.value, r.files)
    ensures var r, manifest := RunFanout(env, node, s), env.manifests(node.over.value);
            manifest.Manifest? && WellFormed(manifest.lines) && |r.files.results| + |r.files.failures| == |ValueLines(manifest.lines)|
  {
    hide RunFanout, UsableItems, PinnedWrites, Project, AllConcluded, AllConcludedBelow, Succeeded, ResultsBelow, FailuresBelow, Collection, Counts;
    var manifest := env.manifests(node.over.value);
    CollectedIs(env, node, s);
    var items := UsableItems(manifest).value;
    var fan := PinnedWrites(env, node, s, manifest.digest, items);
    PinnedConserves(env, node, s, manifest.digest, items);
    var rows := ApplyAll(s, fan.writes).rows;
    CollectionCounts(env.jobDir, node.name, Files(ResultsBelow(rows, node.name, |items|), FailuresBelow(rows, node.name, |items|)));
    UsableItemsExactly(manifest.digest, manifest.lines, items);
    ItemsAreLines(manifest.lines, items);
  }

  // ---------------------------------------------------------------- ledgers a job's history can leave

  /** A fan-out node and the manifest it is now to run over. */
  datatype Fanning = Fanning(node: string, digest: string, items: seq<Value>)

  /** The row records this item of the manifest, and is not a skip. */
  predicate RowOfItem(f: Fanning, item: nat, row: Row) {
    item < |f.items| && !row.SkippedRow? && row.input == Some(f.items[item])
  }

  /** No item has a row without a pin, and under a pin of this manifest every row is of one of its items. */
  ghost predicate Bound(f: Fanning, s: Store) {
    && (f.node !in s.manifests ==> forall i: nat :: Key(f.node, Some(i)) !in s.rows)
    && (f.node in s.manifests && s.manifests[f.node].digest == f.digest ==> s.manifests[f.node].items == |f.items|)
    && (f.node in s.manifests && s.manifests[f.node].digest == f.digest ==>
          forall i: nat :: Key(f.node, Some(i)) in s.rows ==> RowOfItem(f, i, s.rows[Key(f.node, Some(i))]))
  }

  /** The write respects the pin that the ledger holds when it is made. */
  predicate Respects(f: Fanning, s: Store, w: Write) {
    match w
    case Pin(node, pinned) => node == f.node ==> node !in s.manifests && (pinned.digest == f.digest ==> pinned.items == |f.items|)
    case Put(key, row) =>
      key.node == f.node && key.item.Some? ==>
        f.node in s.manifests && (s.manifests[f.node].digest == f.digest ==> RowOfItem(f, key.item.value, row))
  }

  predicate AllRespect(f: Fanning, s: Store, ws: seq<Write>)
    decreases |ws|
  {
    ws == [] || (Respects(f, s, ws[0]) && AllRespect(f, Apply(s, ws[0]), ws[1..]))
  }

  /** Wherever such writes are cut. */
  lemma {:induction false} RespectKeepsBound(f: Fanning, s: Store, ws: seq<Write>, m: nat)
    requires Bound(f, s) && AllRespect(f, s, ws) && m <= |ws|
    ensures Bound(f, ApplyAll(s, ws[..m]))
    decreases |ws|
  {
    if m > 0 {
      RespectKeepsBound(f, Apply(s, ws[0]), ws[1..], m - 1);
      assert ws[..m][1..] == ws[1..][..m - 1];
    }
  }

  lemma {:induction false} RespectConcat(f: Fanning, s: Store, a: seq<Write>, b: seq<Write>)
    requires AllRespect(f, s, a) && AllRespect(f, ApplyAll(s, a), b)
    ensures AllRespect(f, s, a + b)
    decreases |a|
  {
    if a == [] {
      assert a + b == b;
    } else {
      RespectConcat(f, Apply(s, a[0]), a[1..], b);
      assert (a + b)[1..] == a[1..] + b;
    }
  }

  lemma {:induction false} UntouchedRespects(f: Fanning, s: Store, ws: seq<Write>)
    requires NoneTouches(ws, f.node)
    ensures AllRespect(f, s, ws)
    decreases |ws|
  {
    if ws != [] {
      assert !Touches(ws[0], f.node);
      forall i | 0 <= i < |ws[1..]| ensures !Touches(ws[1..][i], f.node) { assert ws[1..][i] == ws[i + 1]; }
      UntouchedRespects(f, Apply(s, ws[0]), ws[1..]);
    }
  }

  lemma ItemRowRecords(env: Env, node: CheckedNode, item: nat, input: Value)
    ensures var row := ItemRow(env, node, item, input); row.Some? ==> !row.value.SkippedRow? && row.value.input == Some(input)
  {}

  lemma {:induction false} FanRespects(f: Fanning, env: Env, node: CheckedNode, items: seq<Value>, i: nat, rows: map<Key, Row>, s: Store)
    requires i <= |items| && node.name == f.node && f.node in s.manifests
    requires s.manifests[f.node].digest == f.digest ==> items == f.items
    ensures AllRespect(f, s, FanFrom(env, node, items, i, rows).writes)
    decreases |items| - i
  {
    hide ItemRow;
    if i < |items| {
      FanRespects(f, env, node, items, i + 1, rows, s);
      var row := ItemRow(env, node, i, items[i]);
      ItemRowRecords(env, node, i, items[i]);
      if Key(node.name, Some(i)) !in rows && row.Some? {
        var w := Put(Key(node.name, Some(i)), row.value);
        var rest := FanFrom(env, node, items, i + 1, rows).writes;
        FanRespects(f, env, node, items, i + 1, rows, Apply(s, w));
        assert ([w] + rest)[1..] == rest;
      }
    }
  }

  lemma PinnedRespects(f: Fanning, env: Env, node: CheckedNode, s: Store, digest: string, items: seq<Value>)
    requires node.name == f.node && SamePin(s, node.name, digest) && (digest == f.digest ==> items == f.items)
    ensures AllRespect(f, s, PinnedWrites(env, node, s, digest, items).writes)
  {
    hide FanFrom;
    var pin := PinFirst(s, node.name, digest, |items|);
    if pin != [] { ApplyOne(s, pin[0]); }
    FanRespects(f, env, node, items, 0, s.rows, ApplyAll(s, pin));
    RespectConcat(f, s, pin, FanFrom(env, node, items, 0, s.rows).writes);
  }

  /** Two manifests with one digest have the same lines. */
  predicate DigestDecides(a: Manifest, b: Manifest) {
    a.Manifest? && b.Manifest? && a.digest == b.digest ==> a.lines == b.lines
  }

  /** What this node is to run over in `env`. */
  function FanningOf(env: Env, node: CheckedNode): Fanning
    requires node.over.Some? && UsableItems(env.manifests(node.over.value)).Ok?
  {
    var manifest := env.manifests(node.over.value);
    Fanning(node.name, manifest.digest, UsableItems(manifest).value)
  }

  lemma RunFanoutRespects(f: Fanning, env: Env, node: CheckedNode, s: Store)
    requires node.over.Some? && node.name == f.node
    requires var m := env.manifests(node.over.value);
             UsableItems(m).Ok? && m.digest == f.digest ==> UsableItems(m).value == f.items
    ensures AllRespect(f, s, RunFanout(env, node, s).writes)
  {
    hide PinnedWrites, FanoutEnd, ReadItems;
    var manifest := env.manifests(node.over.value);
    var items := UsableItems(manifest);
    RunFanoutIs(env, node, s);
    if items.Ok? && SamePin(s, node.name, manifest.digest) {
      var fan := PinnedWrites(env, node, s, manifest.digest, items.value);
      PinnedRespects(f, env, node, s, manifest.digest, items.value);
      FanoutEndAgain(env, node.name, |items.value|, fan, ApplyAll(s, fan.writes).rows, 0);
    }
  }

  /** A node's own row says nothing about its items. */
  lemma OwnRowRespects(f: Fanning, s: Store, ws: seq<Write>, node: string, row: Row)
    requires AllRespect(f, s, ws)
    ensures AllRespect(f, s, ws + [Put(Key(node, None), row)])
  {
    assert [Put(Key(node, None), row)][1..] == [];
    RespectConcat(f, s, ws, [Put(Key(node, None), row)]);
  }

  lemma NodeStepRespects(f: Fanning, env: Env, job: Job, node: CheckedNode, vol: Volatile, s: Store)
    requires node.repeatUntil.Some? ==> node.maxIterations.Some?
    requires node.over.Some? && node.name == f.node
    requires var m := env.manifests(node.over.value);
             UsableItems(m).Ok? && m.digest == f.digest ==> UsableItems(m).value == f.items
    ensures AllRespect(f, s, NodeStep(env, job, node, vol, s).writes)
  {
    hide RunFanout, BranchedAway, NeedsSkipped, AllRespect, UsableItems;
    RunFanoutRespects(f, env, node, s);
    NothingRespects(f, s);
    OwnRowRespects(f, s, [], node.name, SkippedRow);
    assert [] + [Put(Key(node.name, None), SkippedRow)] == [Put(Key(node.name, None), SkippedRow)];
    var fanned := RunFanout(env, node, s);
    if fanned.Collected? { OwnRowRespects(f, s, fanned.writes, node.name, CompletedRow(fanned.value, None)); }
  }

  lemma NothingRespects(f: Fanning, s: Store)
    ensures AllRespect(f, s, [])
  {}

  lemma {:induction false} TraverseRespects(f: Fanning, env: Env, job: Job, at: nat, i: nat, vol: Volatile, s: Store)
    requires GoodJob(job) && i <= |job.nodes| && at < |job.nodes|
    requires job.nodes[at].over.Some? && job.nodes[at].name == f.node
    requires var m := env.manifests(job.nodes[at].over.value);
             UsableItems(m).Ok? && m.digest == f.digest ==> UsableItems(m).value == f.items
    ensures AllRespect(f, s, Traverse(StepOf(env, job), |job.nodes|, i, vol, s).writes)
    decreases |job.nodes| - i
  {
    hide AllRespect, NodeStep, UsableItems;
    NothingRespects(f, s);
    if i < |job.nodes| {
      var first := StepOf(env, job)(i, vol, s);
      assert first == NodeStep(env, job, job.nodes[i], vol, s);
      if i == at {
        NodeStepRespects(f, env, job, job.nodes[i], vol, s);
      } else {
        assert NamesOf(job.nodes)[i] != NamesOf(job.nodes)[at];
        NodeStepLocal(env, job, job.nodes[i], vol, s, s);
        UntouchedRespects(f, s, first.writes);
      }
      if first.Advance? {
        var s1 := ApplyAll(s, first.writes);
        TraverseRespects(f, env, job, at, i + 1, first.vol, s1);
        RespectConcat(f, s, first.writes, Traverse(StepOf(env, job), |job.nodes|, i + 1, first.vol, s1).writes);
      }
    }
  }

  /** Whatever the runs before found, what they left under this manifest's digest are rows of its items. */
  lemma {:induction false} LedgerIsBound(env: Env, job: Job, runs: seq<BrokenRun>, at: nat)
    requires GoodJob(job) && at < |job.nodes| && job.nodes[at].over.Some?
    requires UsableItems(env.manifests(job.nodes[at].over.value)).Ok?
    requires forall k :: 0 <= k < |runs| ==>
               DigestDecides(runs[k].env.manifests(job.nodes[at].over.value), env.manifests(job.nodes[at].over.value))
    ensures Bound(FanningOf(env, job.nodes[at]), LedgerAfter(job, runs))
    decreases |runs|
  {
    if runs != [] {
      var front, last := runs[..|runs| - 1], runs[|runs| - 1];
      LedgerIsBound(env, job, front, at);
      var before, f := LedgerAfter(job, front), FanningOf(env, job.nodes[at]);
      TraverseRespects(f, last.env, job, at, 0, NOTHING_YET, before);
      var writes := Start(last.env, job, before).writes;
      RespectKeepsBound(f, before, writes, if last.after < |writes| then last.after else |writes|);
      assert writes[..|writes|] == writes;
    }
  }

  /** Under its pin, the rows are of its items, before and after the node runs. */
  lemma BoundIsWithin(f: Fanning, s: Store)
    requires Bound(f, s) && SamePin(s, f.node, f.digest)
    ensures ItemsWithin(s.rows, f.node, |f.items|)
  {
    forall i: nat | Key(f.node, Some(i)) in s.rows ensures i < |f.items| && !s.rows[Key(f.node, Some(i))].SkippedRow? {
      assert RowOfItem(f, i, s.rows[Key(f.node, Some(i))]);
    }
  }

  /**
   Fan-out conservation. The job ran any number of times before, each run cut anywhere, answered
   anything, and finding any manifest as long as equal digests mean equal lines. A fan-out node that
   now succeeds has the manifest it is pinned to, has concluded each of its items once, on that
   item's value, and its counters and its two files agree with the rows.
   */
  lemma FanoutConservesAfterCrashes(env: Env, job: Job, runs: seq<BrokenRun>, at: nat)
    requires GoodJob(job) && at < |job.nodes| && job.nodes[at].over.Some?
    requires forall k :: 0 <= k < |runs| ==>
               DigestDecides(runs[k].env.manifests(job.nodes[at].over.value), env.manifests(job.nodes[at].over.value))
    requires RunFanout(env, job.nodes[at], LedgerAfter(job, runs)).Collected?
    ensures UsableItems(env.manifests(job.nodes[at].over.value)).Ok?
    ensures var f, store := FanningOf(env, job.nodes[at]), LedgerAfter(job, runs);
            var r := RunFanout(env, job.nodes[at], store);
            var after := ApplyAll(store, r.writes);
            Accounts(after.rows, f.node, |f.items|, env.jobDir, r.value, r.files) &&
            f.node in after.manifests && after.manifests[f.node] == Pinned(f.digest, |f.items|) &&
            forall i: nat :: i < |f.items| ==> RowOfItem(f, i, after.rows[Key(f.node, Some(i))])
  {
    LedgerIsBound(env, job, runs, at);
    ConservesWhenBound(env, job.nodes[at], LedgerAfter(job, runs));
  }

  lemma ConservesWhenBound(env: Env, node: CheckedNode, s: Store)
    requires node.over.Some? && UsableItems(env.manifests(node.over.value)).Ok?
    requires Bound(FanningOf(env, node), s) && RunFanout(env, node, s).Collected?
    ensures var f, r := FanningOf(env, node), RunFanout(env, node, s);
            var after := ApplyAll(s, r.writes);
            Accounts(after.rows, f.node, |f.items|, env.jobDir, r.value, r.files) &&
            f.node in after.manifests && after.manifests[f.node] == Pinned(f.digest, |f.items|) &&
            forall i: nat :: i < |f.items| ==> RowOfItem(f, i, after.rows[Key(f.node, Some(i))])
  {
    var f := FanningOf(env, node);
    BoundIsWithin(f, s);
    FanoutConserves(env, node, s);
    StaysBound(f, env, node, s);
  }

  /** When a run comes to a node, the ledger says of it and of later nodes what it said at the start. */
  lemma {:induction false} ArrivalLeaves(env: Env, job: Job, i: nat, k: nat, start: Store)
    requires GoodJob(job) && i <= k < |job.nodes|
    ensures var now := Soundness.ArrivesAt(StepOf(env, job), i, start);
            now.Some? ==> AgreeOn(start, now.value.store, job.nodes[k].name)
  {
    hide NodeStep;
    if i > 0 {
      ArrivalLeaves(env, job, i - 1, k, start);
      var before := Soundness.ArrivesAt(StepOf(env, job), i - 1, start);
      if before.Some? {
        var (vol, s) := (before.value.vol, before.value.store);
        var step := NodeStep(env, job, job.nodes[i - 1], vol, s);
        assert step == StepOf(env, job)(i - 1, vol, s);
        assert NamesOf(job.nodes)[i - 1] != NamesOf(job.nodes)[k];
        NodeStepLocal(env, job, job.nodes[i - 1], vol, s, s);
        UntouchedAgrees(s, step.writes, job.nodes[k].name);
      }
    }
  }

  lemma BoundAlike(f: Fanning, a: Store, b: Store)
    requires Bound(f, a) && AgreeOn(a, b, f.node)
    ensures Bound(f, b)
  {}

  /** The same inside a whole run: whenever the run, let go on from that ledger, comes to the node and its fan-out succeeds. */
  lemma FanoutConservesInRun(env: Env, job: Job, runs: seq<BrokenRun>, at: nat, now: Soundness.State)
    requires GoodJob(job) && at < |job.nodes| && job.nodes[at].over.Some?
    requires forall k :: 0 <= k < |runs| ==>
               DigestDecides(runs[k].env.manifests(job.nodes[at].over.value), env.manifests(job.nodes[at].over.value))
    requires Soundness.ArrivesAt(StepOf(env, job), at, LedgerAfter(job, runs)) == Some(now)
    requires RunFanout(env, job.nodes[at], now.store).Collected?
    ensures UsableItems(env.manifests(job.nodes[at].over.value)).Ok?
    ensures var f, r := FanningOf(env, job.nodes[at]), RunFanout(env, job.nodes[at], now.store);
            var after := ApplyAll(now.store, r.writes);
            Accounts(after.rows, f.node, |f.items|, env.jobDir, r.value, r.files) &&
            f.node in after.manifests && after.manifests[f.node] == Pinned(f.digest, |f.items|) &&
            forall i: nat :: i < |f.items| ==> RowOfItem(f, i, after.rows[Key(f.node, Some(i))])
  {
    LedgerIsBound(env, job, runs, at);
    ArrivalLeaves(env, job, at, at, LedgerAfter(job, runs));
    BoundAlike(FanningOf(env, job.nodes[at]), LedgerAfter(job, runs), now.store);
    ConservesWhenBound(env, job.nodes[at], now.store);
  }

  lemma StaysBound(f: Fanning, env: Env, node: CheckedNode, s: Store)
    requires node.over.Some? && UsableItems(env.manifests(node.over.value)).Ok? && f == FanningOf(env, node)
    requires Bound(f, s) && RunFanout(env, node, s).Collected?
    ensures var after := ApplyAll(s, RunFanout(env, node, s).writes);
            Bound(f, after) && f.node in after.manifests && after.manifests[f.node] == Pinned(f.digest, |f.items|)
  {
    hide FanFrom, FanoutEnd, UsableItems;
    var writes := RunFanout(env, node, s).writes;
    RunFanoutRespects(f, env, node, s);
    RespectKeepsBound(f, s, writes, |writes|);
    assert writes[..|writes|] == writes;
    var pin := PinFirst(s, node.name, f.digest, |f.items|);
    var fan := FanFrom(env, node, f.items, 0, s.rows);
    RunFanoutIs(env, node, s);
    FanoutEndAgain(env, node.name, |f.items|, Fan(pin + fan.writes, fan.stopped), ApplyAll(s, pin + fan.writes).rows, 0);
    if pin != [] { ApplyOne(s, pin[0]); }
    ApplyConcat(s, pin, fan.writes);
    FanPuts(env, node, f.items, 0, s.rows);
    PinStays(ApplyAll(s, pin), fan.writes, node.name);
  }
}
