/** What a fan-out node reads from its manifest's lines, told by which lines hold a value. */
module Manifests {
  import opened Wrappers
  import opened Types
  import opened RunSpec

  /** The positions of the lines that hold a value. */
  function ValueLines(lines: seq<Line>): set<nat> {
    set i | 0 <= i < |lines| && lines[i].Json?
  }

  predicate Rising(at: seq<nat>) {
    forall j, k :: 0 <= j < k < |at| ==> at[j] < at[k]
  }

  /** `at` are the lines the items were read from: in order, each of them, and every line that holds a value. */
  ghost predicate ReadAt(lines: seq<Line>, items: seq<Value>, at: seq<nat>) {
    && |at| == |items|
    && Rising(at)
    && (forall k :: 0 <= k < |at| ==> at[k] < |lines| && lines[at[k]] == Line.Json(items[k]))
    && (forall i :: 0 <= i < |lines| && lines[i].Json? ==> i in at)
  }

  ghost predicate ReadsAs(lines: seq<Line>, items: seq<Value>) {
    exists at :: ReadAt(lines, items, at)
  }

  ghost predicate WellFormed(lines: seq<Line>) {
    forall i :: 0 <= i < |lines| ==> !lines[i].Malformed?
  }

  ghost predicate FirstMalformed(lines: seq<Line>, message: string) {
    exists i :: 0 <= i < |lines| && lines[i] == Malformed(message) && forall k :: 0 <= k < i ==> !lines[k].Malformed?
  }

  /** The same of the lines from `from` on. */
  ghost predicate ReadAtFrom(lines: seq<Line>, from: nat, items: seq<Value>, at: seq<nat>) {
    && |at| == |items|
    && Rising(at)
    && (forall k :: 0 <= k < |at| ==> from <= at[k] < |lines| && lines[at[k]] == Line.Json(items[k]))
    && (forall i :: from <= i < |lines| && lines[i].Json? ==> i in at)
  }

  lemma {:induction false} ReadItemsFrom(lines: seq<Line>, from: nat) returns (at: seq<nat>)
    requires from <= |lines|
    ensures match ReadItems(lines, from)
            case Ok(items) => ReadAtFrom(lines, from, items, at) && forall i :: from <= i < |lines| ==> !lines[i].Malformed?
            case Err(message) =>
              exists i :: from <= i < |lines| && lines[i] == Malformed(message) && forall k :: from <= k < i ==> !lines[k].Malformed?
    decreases |lines| - from
  {
    at := [];
    if from < |lines| && !lines[from].Malformed? {
      var rest := ReadItemsFrom(lines, from + 1);
      at := if lines[from].Json? then [from] + rest else rest;
    }
  }

  /** Two readings of the same lines are one. */
  lemma {:induction false} ReadOnce(lines: seq<Line>, a: seq<Value>, b: seq<Value>, at: seq<nat>, bt: seq<nat>)
    requires ReadAt(lines, a, at) && ReadAt(lines, b, bt)
    ensures a == b
  {
    SameRising(at, bt);
    forall k | 0 <= k < |a| ensures a[k] == b[k] { assert lines[at[k]] == lines[bt[k]]; }
  }

  lemma {:induction false} SameRising(a: seq<nat>, b: seq<nat>)
    requires Rising(a) && Rising(b) && forall x :: x in a <==> x in b
    ensures a == b
    decreases |a|
  {
    if a != [] { assert a[0] in b; }
    if b != [] { assert b[0] in a; }
    if a != [] && b != [] {
      var x := LastOf(a, b);
      var front, other := a[..|a| - 1], b[..|b| - 1];
      assert a == front + [x] && b == other + [x];
      FrontMembers(a, x);
      FrontMembers(b, x);
      forall z ensures z in front <==> z in other { assert z in a <==> z in b; }
      SameRising(front, other);
    }
  }

  /** Two rising sequences of the same numbers end in the same one. */
  lemma LastOf(a: seq<nat>, b: seq<nat>) returns (x: nat)
    requires a != [] && b != [] && Rising(a) && Rising(b) && forall x :: x in a <==> x in b
    ensures x == a[|a| - 1] == b[|b| - 1]
  {
    x := a[|a| - 1];
    var y := b[|b| - 1];
    assert x in a && y in b;
    var i, j :| 0 <= i < |b| && b[i] == x && 0 <= j < |a| && a[j] == y;
  }

  lemma FrontMembers(a: seq<nat>, x: nat)
    requires a != [] && Rising(a) && x == a[|a| - 1]
    ensures Rising(a[..|a| - 1]) && forall z :: z in a[..|a| - 1] <==> z in a && z != x
  {
    var front := a[..|a| - 1];
    assert a == front + [x];
    forall z | z in front ensures z != x { var k :| 0 <= k < |front| && front[k] == z; }
  }

  /**
   What a manifest supplies, exactly: the values of all its lines that hold one, in order, if there
   are any and no line is malformed.
   */
  lemma UsableItemsExactly(digest: string, lines: seq<Line>, items: seq<Value>)
    ensures UsableItems(Manifest(digest, lines)) == Ok(items) <==> WellFormed(lines) && items != [] && ReadsAs(lines, items)
  {
    var at := ReadItemsFrom(lines, 0);
    var read := ReadItems(lines, 0);
    if read.Ok? {
      assert ReadAt(lines, read.value, at);
      if bt :| ReadAt(lines, items, bt) { ReadOnce(lines, read.value, items, at, bt); }
    }
  }

  /** And why it supplies none: the first malformed line, or no value at all. */
  lemma UnusableMeans(digest: string, lines: seq<Line>, message: string)
    ensures UsableItems(Manifest(digest, lines)) == Err(message) ==>
              FirstMalformed(lines, message) || (WellFormed(lines) && ValueLines(lines) == {} && message == "the manifest is empty")
    ensures FirstMalformed(lines, message) || (WellFormed(lines) && ValueLines(lines) == {} && message == "the manifest is empty") ==>
              UsableItems(Manifest(digest, lines)) == Err(message)
  {
    var at := ReadItemsFrom(lines, 0);
    if ReadItems(lines, 0).Ok? && at != [] { assert at[0] in ValueLines(lines); }
  }

  /** As many items as lines that hold a value. */
  lemma ItemsAreLines(lines: seq<Line>, items: seq<Value>)
    requires ReadsAs(lines, items)
    ensures |items| == |ValueLines(lines)|
  {
    var at :| ReadAt(lines, items, at);
    RisingSize(at, ValueLines(lines));
  }

  lemma {:induction false} RisingSize(a: seq<nat>, s: set<nat>)
    requires Rising(a) && forall x :: x in a <==> x in s
    ensures |a| == |s|
    decreases |a|
  {
    if a == [] {
      assert s == {};
    } else {
      var last := a[|a| - 1];
      assert last in a;
      FrontMembers(a, last);
      RisingSize(a[..|a| - 1], s - {last});
    }
  }
}
