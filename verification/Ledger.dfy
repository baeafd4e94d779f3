/** A job's durable checkpoints: one row per concluded node or fan-out item, and the pinned manifests. */
module Ledger {
  import opened Wrappers
  import opened Types

  /** A node's own row, or the row of one of its items. */
  datatype Key = Key(node: string, item: Option<nat>)

  datatype Row =
    | CompletedRow(output: Value, input: Option<Value>)
    | SkippedRow
    | FailedRow(error: string, input: Option<Value>)
    | EscalatedRow(error: string, input: Option<Value>)

  /** The manifest a fan-out node first ran against. */
  datatype Pinned = Pinned(digest: string, items: nat)

  datatype Store = Store(rows: map<Key, Row>, manifests: map<string, Pinned>)

  const EMPTY_STORE := Store(map[], map[])

  /** One durable change. */
  datatype Write = Put(key: Key, row: Row) | Pin(node: string, pinned: Pinned)

  function Apply(store: Store, w: Write): Store {
    match w
    case Put(key, row) => store.(rows := store.rows[key := row])
    case Pin(node, pinned) => store.(manifests := store.manifests[node := pinned])
  }

  function ApplyAll(store: Store, ws: seq<Write>): Store
    decreases |ws|
  {
    if ws == [] then store else ApplyAll(Apply(store, ws[0]), ws[1..])
  }

  lemma {:induction false} ApplyConcat(store: Store, a: seq<Write>, b: seq<Write>)
    ensures ApplyAll(store, a + b) == ApplyAll(ApplyAll(store, a), b)
    decreases |a|
  {
    if a == [] {
      assert a + b == b;
    } else {
      assert (a + b)[1..] == a[1..] + b;
      ApplyConcat(Apply(store, a[0]), a[1..], b);
    }
  }

  lemma ApplyOne(store: Store, w: Write)
    ensures ApplyAll(store, [w]) == Apply(store, w)
  {
    assert [w][1..] == [];
  }

  /** A concluded item, as the projection to files sees it. */
  datatype Concluded = Concluded(item: nat, output: Option<Value>, error: Option<string>)

  function ItemsOf(rows: map<Key, Row>, node: string): set<nat> {
    set k | k in rows && k.node == node && k.item.Some? :: k.item.value
  }

  predicate IsSmallest(m: nat, s: set<nat>) {
    m in s && forall x :: x in s ==> m <= x
  }

  lemma {:induction false} SmallestExists(s: set<nat>)
    requires s != {}
    ensures exists m :: IsSmallest(m, s)
  {
    var m :| m in s;
    if s != {m} {
      SmallestExists(s - {m});
      var least :| IsSmallest(least, s - {m});
      assert forall x :: x in s ==> x == m || x in s - {m};
      assert IsSmallest(if least < m then least else m, s);
    } else {
      assert IsSmallest(m, s);
    }
  }

  function Smallest(s: set<nat>): (m: nat)
    requires s != {}
    ensures IsSmallest(m, s)
  {
    SmallestExists(s);
    var m :| m in s && IsSmallest(m, s);
    m
  }

  /** A set of indices in increasing order. */
  function Ascending(s: set<nat>): seq<nat>
    decreases |s|
  {
    if s == {} then [] else [Smallest(s)] + Ascending(s - {Smallest(s)})
  }

  function ConcludedFrom(row: Row, item: nat): Concluded {
    match row
    case CompletedRow(output, _) => Concluded(item, Some(output), None)
    case SkippedRow => Concluded(item, None, None)
    case FailedRow(error, _) => Concluded(item, None, Some(error))
    case EscalatedRow(error, _) => Concluded(item, None, Some(error))
  }

  function ConcludedRows(rows: map<Key, Row>, node: string, items: seq<nat>): seq<Concluded>
    requires forall i :: i in items ==> Key(node, Some(i)) in rows
  {
    if items == [] then []
    else [ConcludedFrom(rows[Key(node, Some(items[0]))], items[0])] + ConcludedRows(rows, node, items[1..])
  }

  lemma {:induction false} AscendingMembers(s: set<nat>)
    ensures forall x :: x in Ascending(s) <==> x in s
    ensures forall i, j :: 0 <= i < j < |Ascending(s)| ==> Ascending(s)[i] < Ascending(s)[j]
    decreases |s|
  {
    if s != {} {
      var rest := s - {Smallest(s)};
      AscendingMembers(rest);
      assert forall x :: x in s <==> x == Smallest(s) || x in rest;
      assert Ascending(s) == [Smallest(s)] + Ascending(rest);
      forall j | 0 < j < |Ascending(s)| ensures Ascending(s)[0] < Ascending(s)[j] {
        assert Ascending(rest)[j - 1] in Ascending(rest);
      }
    }
  }

  /** Every concluded item of a node, by index. */
  function AllConcluded(rows: map<Key, Row>, node: string): seq<Concluded> {
    AscendingMembers(ItemsOf(rows, node));
    ConcludedRows(rows, node, Ascending(ItemsOf(rows, node)))
  }

  /** The node's concluded items and nothing else, each once, by increasing index, each as its row says. */
  ghost predicate ListsItems(r: seq<Concluded>, rows: map<Key, Row>, node: string) {
    && (forall i, j :: 0 <= i < j < |r| ==> r[i].item < r[j].item)
    && (forall i :: 0 <= i < |r| ==> ItemIs(r[i], rows, node))
    && (forall k: nat :: Key(node, Some(k)) in rows ==> Has(r, k))
  }

  ghost predicate Has(r: seq<Concluded>, item: nat) {
    exists i :: 0 <= i < |r| && r[i].item == item
  }

  predicate ItemIs(c: Concluded, rows: map<Key, Row>, node: string) {
    Key(node, Some(c.item)) in rows && c == ConcludedFrom(rows[Key(node, Some(c.item))], c.item)
  }

  lemma {:induction false} ConcludedRowsAre(rows: map<Key, Row>, node: string, items: seq<nat>)
    requires forall i :: i in items ==> Key(node, Some(i)) in rows
    ensures |ConcludedRows(rows, node, items)| == |items|
    ensures forall i :: 0 <= i < |items| ==>
              ConcludedRows(rows, node, items)[i] == ConcludedFrom(rows[Key(node, Some(items[i]))], items[i])
  {
    if items != [] { ConcludedRowsAre(rows, node, items[1..]); }
  }

  lemma ItemsHave(rows: map<Key, Row>, node: string, k: nat)
    ensures k in ItemsOf(rows, node) <==> Key(node, Some(k)) in rows
  {}

  lemma AllConcludedLists(rows: map<Key, Row>, node: string)
    ensures ListsItems(AllConcluded(rows, node), rows, node)
  {
    hide ItemsOf, Ascending, ConcludedRows, ConcludedFrom;
    var items := Ascending(ItemsOf(rows, node));
    AscendingMembers(ItemsOf(rows, node));
    forall i | i in items ensures Key(node, Some(i)) in rows { ItemsHave(rows, node, i); }
    ConcludedRowsAre(rows, node, items);
    ListsFrom(AllConcluded(rows, node), items, rows, node);
  }

  lemma ListsFrom(r: seq<Concluded>, items: seq<nat>, rows: map<Key, Row>, node: string)
    requires |r| == |items| && forall i :: i in items <==> i in ItemsOf(rows, node)
    requires forall i, j :: 0 <= i < j < |items| ==> items[i] < items[j]
    requires forall i :: 0 <= i < |items| ==>
               Key(node, Some(items[i])) in rows && r[i] == ConcludedFrom(rows[Key(node, Some(items[i]))], items[i])
    ensures ListsItems(r, rows, node)
  {
    hide ItemsOf, ConcludedFrom;
    forall i | 0 <= i < |r| ensures r[i].item == items[i] && ItemIs(r[i], rows, node) {
      ItemOfConcluded(rows[Key(node, Some(items[i]))], items[i]);
    }
    forall k: nat | Key(node, Some(k)) in rows ensures Has(r, k) {
      ItemsHave(rows, node, k);
      var i :| 0 <= i < |items| && items[i] == k;
      assert r[i].item == k;
    }
  }

  lemma ItemOfConcluded(row: Row, item: nat)
    ensures ConcludedFrom(row, item).item == item
  {}

  /** There is only one such list. */
  lemma {:induction false} ListedOnce(a: seq<Concluded>, b: seq<Concluded>, rows: map<Key, Row>, node: string)
    requires ListsItems(a, rows, node) && ListsItems(b, rows, node)
    ensures a == b
    decreases |a|
  {
    hide ListsItems, ItemIs;
    SameLast(a, b, rows, node);
    if a != [] && b != [] {
      WithoutLast(a, rows, node);
      WithoutLast(b, rows, node);
      ListedOnce(a[..|a| - 1], b[..|b| - 1], rows - {Key(node, Some(a[|a| - 1].item))}, node);
      assert a == a[..|a| - 1] + [a[|a| - 1]] && b == b[..|b| - 1] + [b[|b| - 1]];
    }
  }

  lemma SameLast(a: seq<Concluded>, b: seq<Concluded>, rows: map<Key, Row>, node: string)
    requires ListsItems(a, rows, node) && ListsItems(b, rows, node)
    ensures a == [] <==> b == []
    ensures a != [] && b != [] ==> a[|a| - 1] == b[|b| - 1]
  {
    hide ConcludedFrom;
    if a != [] {
      assert ItemIs(a[|a| - 1], rows, node);
      assert Has(b, a[|a| - 1].item);
    }
    if b != [] {
      assert ItemIs(b[|b| - 1], rows, node);
      assert Has(a, b[|b| - 1].item);
    }
  }

  lemma WithoutLast(a: seq<Concluded>, rows: map<Key, Row>, node: string)
    requires ListsItems(a, rows, node) && a != []
    ensures ListsItems(a[..|a| - 1], rows - {Key(node, Some(a[|a| - 1].item))}, node)
  {
    hide ConcludedFrom;
    var r, rest := a[..|a| - 1], rows - {Key(node, Some(a[|a| - 1].item))};
    forall k: nat | Key(node, Some(k)) in rest ensures Has(r, k) {
      assert Has(a, k);
      var i :| 0 <= i < |a| && a[i].item == k;
      assert r[i].item == k;
    }
    forall i | 0 <= i < |r| ensures ItemIs(r[i], rest, node) {
      assert ItemIs(a[i], rows, node) && a[i].item < a[|a| - 1].item;
    }
  }

  datatype JobStatus = Running | Completed | Failed | Cancelled

  class JobLedger {
    var rows: map<Key, Row>
    var manifests: map<string, Pinned>
    var status: JobStatus
    /** Every checkpoint written so far, oldest first. */
    ghost var written: seq<Write>

    constructor ()
      ensures Contents() == EMPTY_STORE && status == Running && written == []
    {
      rows, manifests, status, written := map[], map[], Running, [];
    }

    function Contents(): Store
      reads this
    {
      Store(rows, manifests)
    }

    method GetCompleted(node: string) returns (r: Option<Value>)
      ensures r.Some? <==> Key(node, None) in rows && rows[Key(node, None)].CompletedRow?
      ensures r.Some? ==> r.value == rows[Key(node, None)].output
    {
      if Key(node, None) in rows && rows[Key(node, None)].CompletedRow? {
        return Some(rows[Key(node, None)].output);
      }
      return None;
    }

    method IsSkipped(node: string) returns (r: bool)
      ensures r <==> Key(node, None) in rows && rows[Key(node, None)].SkippedRow?
    {
      return Key(node, None) in rows && rows[Key(node, None)].SkippedRow?;
    }

    method ItemConcluded(node: string, item: nat) returns (r: bool)
      ensures r <==> Key(node, Some(item)) in rows
    {
      return Key(node, Some(item)) in rows;
    }

    method GetItemCompleted(node: string, item: nat) returns (r: Option<Value>)
      ensures r.Some? <==> Key(node, Some(item)) in rows && rows[Key(node, Some(item))].CompletedRow?
      ensures r.Some? ==> r.value == rows[Key(node, Some(item))].output
    {
      if Key(node, Some(item)) in rows && rows[Key(node, Some(item))].CompletedRow? {
        return Some(rows[Key(node, Some(item))].output);
      }
      return None;
    }

    /** Insert a row, replacing any row under the same key. */
    method PutRow(key: Key, row: Row)
      modifies this
      ensures rows == old(rows)[key := row] && manifests == old(manifests)
      ensures Contents() == Apply(old(Contents()), Put(key, row))
      ensures written == old(written) + [Put(key, row)] && status == old(status)
    {
      rows := rows[key := row];
      written := written + [Put(key, row)];
    }

    method WriteCompleted(node: string, output: Value)
      modifies this
      ensures var w := Put(Key(node, None), CompletedRow(output, None));
              Contents() == Apply(old(Contents()), w) && written == old(written) + [w] && status == old(status)
    {
      PutRow(Key(node, None), CompletedRow(output, None));
    }

    method WriteSkipped(node: string)
      modifies this
      ensures var w := Put(Key(node, None), SkippedRow);
              Contents() == Apply(old(Contents()), w) && written == old(written) + [w] && status == old(status)
    {
      PutRow(Key(node, None), SkippedRow);
    }

    method WriteItemCompleted(node: string, item: nat, output: Value, input: Value)
      modifies this
      ensures var w := Put(Key(node, Some(item)), CompletedRow(output, Some(input)));
              Contents() == Apply(old(Contents()), w) && written == old(written) + [w] && status == old(status)
    {
      PutRow(Key(node, Some(item)), CompletedRow(output, Some(input)));
    }

    method WriteItemFailed(node: string, item: nat, error: string, input: Value)
      modifies this
      ensures var w := Put(Key(node, Some(item)), FailedRow(error, Some(input)));
              Contents() == Apply(old(Contents()), w) && written == old(written) + [w] && status == old(status)
    {
      PutRow(Key(node, Some(item)), FailedRow(error, Some(input)));
    }

    method WriteEscalated(node: string, item: Option<nat>, reason: string, input: Value)
      modifies this
      ensures var w := Put(Key(node, item), EscalatedRow(reason, Some(input)));
              Contents() == Apply(old(Contents()), w) && written == old(written) + [w] && status == old(status)
    {
      PutRow(Key(node, item), EscalatedRow(reason, Some(input)));
    }

    method ConcludedItems(node: string) returns (r: seq<Concluded>)
      ensures ListsItems(r, rows, node)
      ensures r == AllConcluded(rows, node)
    {
      AllConcludedLists(rows, node);
      return AllConcluded(rows, node);
    }

    /** Pin the manifest on the first run; later runs must bring the same digest. */
    method CheckOrRecordManifest(node: string, digest: string, items: nat) returns (r: Result<(), string>)
      modifies this
      ensures r.Ok? <==> (node in old(manifests) ==> old(manifests)[node].digest == digest)
      ensures r.Err? ==> node in old(manifests) && r.error == old(manifests)[node].digest
      ensures rows == old(rows)
      ensures manifests == if node in old(manifests) then old(manifests) else old(manifests)[node := Pinned(digest, items)]
      ensures status == old(status)
      ensures var w := Pin(node, Pinned(digest, items));
              if node in old(manifests) then Contents() == old(Contents()) && written == old(written)
              else Contents() == Apply(old(Contents()), w) && written == old(written) + [w]
    {
      if node in manifests {
        if manifests[node].digest != digest {
          return Err(manifests[node].digest);
        }
        return Ok(());
      }
      manifests := manifests[node := Pinned(digest, items)];
      written := written + [Pin(node, Pinned(digest, items))];
      return Ok(());
    }

    method Finish(final: JobStatus)
      modifies this
      ensures status == final && Contents() == old(Contents()) && written == old(written)
    {
      status := final;
    }
  }
}
