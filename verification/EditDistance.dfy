/** Edit distance: the two-row program computes the least number of single-character edits. */
module EditDistance {

  function Least(a: nat, b: nat, c: nat): nat {
    if a <= b && a <= c then a else if b <= c then b else c
  }

  function Cost(x: char, y: char): nat { if x == y then 0 else 1 }

  /** The distance between the first `i` characters of `a` and the first `j` of `b`. */
  function Between(a: string, i: nat, b: string, j: nat): nat
    requires i <= |a| && j <= |b|
    decreases i + j
  {
    if i == 0 then j
    else if j == 0 then i
    else
      Least(Between(a, i - 1, b, j) + 1, Between(a, i, b, j - 1) + 1, Between(a, i - 1, b, j - 1) + Cost(a[i - 1], b[j - 1]))
  }

  function Distance(a: string, b: string): nat {
    Between(a, |a|, b, |b|)
  }

  /** Any function that obeys the same recurrence, one cell at a time. */
  type Table = (nat, nat) -> nat

  ghost predicate Cell(f: Table, a: string, b: string, i: nat, j: nat)
    requires i <= |a| && j <= |b|
  {
    f(i, j) == if i == 0 then j else if j == 0 then i
               else Least(f(i - 1, j) + 1, f(i, j - 1) + 1, f(i - 1, j - 1) + Cost(a[i - 1], b[j - 1]))
  }

  ghost predicate IsTable(f: Table, a: string, b: string) {
    forall i: nat, j: nat {:trigger Cell(f, a, b, i, j)} :: i <= |a| && j <= |b| ==> Cell(f, a, b, i, j)
  }

  ghost function TableOf(a: string, b: string): Table {
    (i: nat, j: nat) => if i <= |a| && j <= |b| then Between(a, i, b, j) else 0
  }

  lemma TableOfIsTable(a: string, b: string)
    ensures IsTable(TableOf(a, b), a, b)
  {}

  /** Fill `curr` with row `i`, `prev` holding row `i - 1`. */
  method FillRow(a: string, b: string, i: nat, prev: array<nat>, curr: array<nat>, ghost f: Table)
    requires IsTable(f, a, b)
    requires 1 <= i <= |a| && prev != curr && prev.Length == curr.Length == |b| + 1
    requires forall j :: 0 <= j <= |b| ==> prev[j] == f(i - 1, j)
    modifies curr
    ensures forall j :: 0 <= j <= |b| ==> curr[j] == f(i, j)
    ensures forall j :: 0 <= j <= |b| ==> prev[j] == old(prev[j])
  {
    curr[0] := i;
    assert Cell(f, a, b, i, 0);
    for j := 1 to |b| + 1
      invariant forall k :: 0 <= k < j ==> curr[k] == f(i, k)
    {
      assert Cell(f, a, b, i, j);
      var cost := Cost(a[i - 1], b[j - 1]);
      curr[j] := Least(prev[j] + 1, curr[j - 1] + 1, prev[j - 1] + cost);
    }
  }

  method Levenshtein(a: string, b: string) returns (d: nat)
    ensures d == Distance(a, b)
  {
    ghost var f := TableOf(a, b);
    TableOfIsTable(a, b);
    var prev := new nat[|b| + 1](j => j);
    var curr := new nat[|b| + 1](_ => 0);
    for i := 1 to |a| + 1
      invariant prev != curr && prev.Length == curr.Length == |b| + 1 && fresh(prev) && fresh(curr)
      invariant forall j :: 0 <= j <= |b| ==> prev[j] == f(i - 1, j)
    {
      FillRow(a, b, i, prev, curr, f);
      prev, curr := curr, prev;
    }
    return prev[|b|];
  }

  // ---------------------------------------------------------------- single-character edits

  predicate InsertsAt(s: string, t: string, i: nat) {
    i < |t| && s == t[..i] + t[i + 1..]
  }

  predicate ReplacesAt(s: string, t: string, i: nat) {
    i < |s| && |s| == |t| && t == s[i := t[i]]
  }

  /** One character is inserted, deleted or replaced. */
  ghost predicate Edit(s: string, t: string) {
    (exists i: nat :: InsertsAt(s, t, i)) || (exists i: nat :: InsertsAt(t, s, i)) || (exists i: nat :: ReplacesAt(s, t, i))
  }

  /** At most `k` edits lead from `s` to `t`. */
  ghost predicate Within(s: string, t: string, k: nat)
    decreases k
  {
    s == t || (k > 0 && exists u :: Edit(s, u) && Within(u, t, k - 1))
  }

  lemma EditSymmetric(s: string, t: string)
    requires Edit(s, t)
    ensures Edit(t, s)
  {
    if i: nat :| ReplacesAt(s, t, i) {
      assert s == t[i := s[i]];
      assert ReplacesAt(t, s, i);
    }
  }

  lemma {:induction false} WithinMore(s: string, t: string, k: nat, l: nat)
    requires Within(s, t, k) && k <= l
    ensures Within(s, t, l)
    decreases k
  {
    if s != t {
      var u :| Edit(s, u) && Within(u, t, k - 1);
      WithinMore(u, t, k - 1, l - 1);
    }
  }

  lemma {:induction false} WithinThen(s: string, t: string, v: string, k: nat)
    requires Within(s, t, k) && Edit(t, v)
    ensures Within(s, v, k + 1)
    decreases k
  {
    if s == t {
      assert Within(v, v, k);
    } else {
      var u :| Edit(s, u) && Within(u, t, k - 1);
      WithinThen(u, t, v, k - 1);
    }
  }

  lemma EditAppend(s: string, t: string, c: char)
    requires Edit(s, t)
    ensures Edit(s + [c], t + [c])
  {
    if i: nat :| InsertsAt(s, t, i) {
      assert (t + [c])[..i] + (t + [c])[i + 1..] == t[..i] + t[i + 1..] + [c];
      assert InsertsAt(s + [c], t + [c], i);
    } else if i: nat :| InsertsAt(t, s, i) {
      assert (s + [c])[..i] + (s + [c])[i + 1..] == s[..i] + s[i + 1..] + [c];
      assert InsertsAt(t + [c], s + [c], i);
    } else {
      var i: nat :| ReplacesAt(s, t, i);
      assert ReplacesAt(s + [c], t + [c], i);
    }
  }

  lemma {:induction false} WithinAppend(s: string, t: string, c: char, k: nat)
    requires Within(s, t, k)
    ensures Within(s + [c], t + [c], k)
    decreases k
  {
    if s != t {
      var u :| Edit(s, u) && Within(u, t, k - 1);
      EditAppend(s, u, c);
      WithinAppend(u, t, c, k - 1);
    }
  }

  lemma LastInserted(t: string, j: nat)
    requires 1 <= j <= |t|
    ensures Edit(t[..j - 1], t[..j])
  {
    assert t[..j][..j - 1] + t[..j][j..] == t[..j - 1];
    assert InsertsAt(t[..j - 1], t[..j], j - 1);
  }

  lemma {:induction false} InsertAll(a: string, b: string, j: nat)
    requires j <= |b|
    ensures Within(a[..0], b[..j], j)
  {
    if j > 0 {
      InsertAll(a, b, j - 1);
      LastInserted(b, j);
      WithinThen(a[..0], b[..j - 1], b[..j], j - 1);
    }
  }

  lemma FirstDeleted(a: string, i: nat, t: string, k: nat)
    requires 1 <= i <= |a| && Within(a[..i - 1], t, k)
    ensures Within(a[..i], t, k + 1)
  {
    LastInserted(a, i);
    EditSymmetric(a[..i - 1], a[..i]);
  }

  lemma LastReplaced(a: string, i: nat, b: string, j: nat, k: nat)
    requires 1 <= i <= |a| && 1 <= j <= |b| && Within(a[..i - 1], b[..j - 1], k)
    ensures Within(a[..i], b[..j], k + Cost(a[i - 1], b[j - 1]))
  {
    WithinAppend(a[..i - 1], b[..j - 1], a[i - 1], k);
    var s, t := b[..j - 1] + [a[i - 1]], b[..j];
    assert a[..i] == a[..i - 1] + [a[i - 1]];
    if a[i - 1] == b[j - 1] {
      assert s == t;
    } else {
      assert ReplacesAt(s, t, j - 1);
      WithinThen(a[..i], s, t, k);
    }
  }

  /** The distance suffices: that many edits lead from one prefix to the other. */
  lemma {:induction false} TableSuffices(f: Table, a: string, b: string, i: nat, j: nat)
    requires IsTable(f, a, b) && i <= |a| && j <= |b|
    ensures Within(a[..i], b[..j], f(i, j))
    decreases i + j
  {
    assert Cell(f, a, b, i, j);
    hide IsTable, Within;
    if i == 0 {
      InsertAll(a, b, j);
    } else if j == 0 {
      TableSuffices(f, a, b, i - 1, 0);
      assert Cell(f, a, b, i - 1, 0);
      FirstDeleted(a, i, b[..0], i - 1);
    } else if f(i, j) == f(i - 1, j) + 1 {
      TableSuffices(f, a, b, i - 1, j);
      FirstDeleted(a, i, b[..j], f(i - 1, j));
    } else if f(i, j) == f(i, j - 1) + 1 {
      TableSuffices(f, a, b, i, j - 1);
      LastInserted(b, j);
      WithinThen(a[..i], b[..j - 1], b[..j], f(i, j - 1));
    } else {
      TableSuffices(f, a, b, i - 1, j - 1);
      LastReplaced(a, i, b, j, f(i - 1, j - 1));
    }
  }

  // ---------------------------------------------------------------- a metric

  lemma {:induction false} TablesMirror(f: Table, g: Table, a: string, b: string, i: nat, j: nat)
    requires IsTable(f, a, b) && IsTable(g, b, a) && i <= |a| && j <= |b|
    ensures f(i, j) == g(j, i)
    decreases i + j
  {
    assert Cell(f, a, b, i, j) && Cell(g, b, a, j, i);
    if i > 0 && j > 0 {
      TablesMirror(f, g, a, b, i - 1, j);
      TablesMirror(f, g, a, b, i, j - 1);
      TablesMirror(f, g, a, b, i - 1, j - 1);
    }
  }

  /** The lengths differ by no more than the distance, and together are no less. */
  lemma {:induction false} LengthBounds(f: Table, a: string, b: string, i: nat, j: nat)
    requires IsTable(f, a, b) && i <= |a| && j <= |b|
    ensures i <= j + f(i, j) && j <= i + f(i, j) && f(i, j) <= i + j
    decreases i + j
  {
    assert Cell(f, a, b, i, j);
    if i > 0 && j > 0 {
      LengthBounds(f, a, b, i - 1, j);
      LengthBounds(f, a, b, i, j - 1);
      LengthBounds(f, a, b, i - 1, j - 1);
    }
  }

  lemma {:induction false} TriangleOfTables(f: Table, g: Table, h: Table, a: string, b: string, c: string, i: nat, j: nat, k: nat)
    requires IsTable(f, a, b) && IsTable(g, b, c) && IsTable(h, a, c) && i <= |a| && j <= |b| && k <= |c|
    ensures h(i, k) <= f(i, j) + g(j, k)
    decreases i + j + k
  {
    if i == 0 || j == 0 || k == 0 {
      LengthBounds(f, a, b, i, j);
      LengthBounds(g, b, c, j, k);
      LengthBounds(h, a, c, i, k);
      assert Cell(f, a, b, i, j) && Cell(g, b, c, j, k) && Cell(h, a, c, i, k);
    } else {
      assert Cell(f, a, b, i, j) && Cell(g, b, c, j, k) && Cell(h, a, c, i, k);
      if f(i, j) == f(i - 1, j) + 1 {
        TriangleOfTables(f, g, h, a, b, c, i - 1, j, k);
      } else if g(j, k) == g(j, k - 1) + 1 {
        TriangleOfTables(f, g, h, a, b, c, i, j, k - 1);
      } else if f(i, j) == f(i, j - 1) + 1 {
        TriangleOfTables(f, g, h, a, b, c, i, j - 1, k);
        TriangleOfTables(f, g, h, a, b, c, i, j - 1, k - 1);
      } else if g(j, k) == g(j - 1, k) + 1 {
        TriangleOfTables(f, g, h, a, b, c, i - 1, j - 1, k);
      } else {
        TriangleOfTables(f, g, h, a, b, c, i - 1, j - 1, k - 1);
      }
    }
  }

  lemma Triangle(a: string, b: string, c: string)
    ensures Distance(a, c) <= Distance(a, b) + Distance(b, c)
  {
    TableOfIsTable(a, b);
    TableOfIsTable(b, c);
    TableOfIsTable(a, c);
    TriangleOfTables(TableOf(a, b), TableOf(b, c), TableOf(a, c), a, b, c, |a|, |b|, |c|);
  }

  lemma Symmetric(a: string, b: string)
    ensures Distance(a, b) == Distance(b, a)
  {
    TableOfIsTable(a, b);
    TableOfIsTable(b, a);
    TablesMirror(TableOf(a, b), TableOf(b, a), a, b, |a|, |b|);
  }

  lemma SameButLast(a: string, b: string, i: nat, j: nat, n: nat)
    requires 0 < n && i + n <= |a| && j + n <= |b| && a[i..i + n] == b[j..j + n]
    ensures a[i..i + (n - 1)] == b[j..j + (n - 1)]
    ensures a[i + n - 1] == b[j + n - 1]
  {
    var (s, t) := (a[i..i + n], b[j..j + n]);
    assert a[i..i + (n - 1)] == s[..n - 1];
    assert b[j..j + (n - 1)] == t[..n - 1];
    assert a[i + n - 1] == s[n - 1];
    assert b[j + n - 1] == t[n - 1];
  }

  /** Equal characters cost nothing. */
  lemma {:induction false} Alongside(f: Table, a: string, b: string, i: nat, j: nat, n: nat)
    requires IsTable(f, a, b) && i + n <= |a| && j + n <= |b| && a[i..i + n] == b[j..j + n]
    ensures f(i + n, j + n) <= f(i, j)
  {
    if n > 0 {
      SameButLast(a, b, i, j, n);
      Alongside(f, a, b, i, j, n - 1);
      assert Cell(f, a, b, i + n, j + n);
    }
  }

  lemma InsertionCostsOne(f: Table, s: string, t: string, i: nat)
    requires IsTable(f, s, t) && InsertsAt(s, t, i)
    ensures f(|s|, |t|) <= 1
  {
    assert s[0..i] == t[0..i] && s[i..i + (|s| - i)] == t[i + 1..i + 1 + (|s| - i)];
    assert Cell(f, s, t, 0, 0);
    Alongside(f, s, t, 0, 0, i);
    assert Cell(f, s, t, i, i + 1);
    Alongside(f, s, t, i, i + 1, |s| - i);
  }

  lemma ReplacementCostsOne(f: Table, s: string, t: string, i: nat)
    requires IsTable(f, s, t) && ReplacesAt(s, t, i)
    ensures f(|s|, |t|) <= 1
  {
    assert s[0..i] == t[0..i] && s[i + 1..i + 1 + (|s| - i - 1)] == t[i + 1..i + 1 + (|s| - i - 1)];
    assert Cell(f, s, t, 0, 0);
    Alongside(f, s, t, 0, 0, i);
    assert Cell(f, s, t, i + 1, i + 1);
    Alongside(f, s, t, i + 1, i + 1, |s| - i - 1);
  }

  lemma EditCostsOne(s: string, t: string)
    requires Edit(s, t)
    ensures Distance(s, t) <= 1
  {
    TableOfIsTable(s, t);
    TableOfIsTable(t, s);
    if i: nat :| InsertsAt(s, t, i) {
      InsertionCostsOne(TableOf(s, t), s, t, i);
    } else if i: nat :| InsertsAt(t, s, i) {
      InsertionCostsOne(TableOf(t, s), t, s, i);
      Symmetric(s, t);
    } else {
      var i: nat :| ReplacesAt(s, t, i);
      ReplacementCostsOne(TableOf(s, t), s, t, i);
    }
  }

  lemma SameCostsNothing(s: string)
    ensures Distance(s, s) == 0
  {
    TableOfIsTable(s, s);
    Alongside(TableOf(s, s), s, s, 0, 0, |s|);
  }

  /** Nothing shorter does. */
  lemma {:induction false} DistanceNeeded(s: string, t: string, k: nat)
    requires Within(s, t, k)
    ensures Distance(s, t) <= k
    decreases k
  {
    if s == t {
      SameCostsNothing(s);
    } else {
      var u :| Edit(s, u) && Within(u, t, k - 1);
      DistanceNeeded(u, t, k - 1);
      EditCostsOne(s, u);
      Triangle(s, u, t);
    }
  }

  lemma DistanceSuffices(a: string, b: string)
    ensures Within(a, b, Distance(a, b))
  {
    TableOfIsTable(a, b);
    TableSuffices(TableOf(a, b), a, b, |a|, |b|);
    assert a[..|a|] == a && b[..|b|] == b;
  }

  /** The distance is the least number of single-character edits. */
  lemma DistanceExactly(a: string, b: string, k: nat)
    ensures Distance(a, b) <= k <==> Within(a, b, k)
  {
    if Distance(a, b) <= k {
      DistanceSuffices(a, b);
      WithinMore(a, b, Distance(a, b), k);
    }
    if Within(a, b, k) { DistanceNeeded(a, b, k); }
  }

  lemma DistanceIsAMetric(a: string, b: string, c: string)
    ensures Distance(a, b) == 0 <==> a == b
    ensures Distance(a, b) == Distance(b, a)
    ensures Distance(a, c) <= Distance(a, b) + Distance(b, c)
  {
    DistanceExactly(a, b, 0);
    Symmetric(a, b);
    Triangle(a, b, c);
  }
}
