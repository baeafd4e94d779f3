/** Strings as the host compares, trims and sorts them.

  Rust orders strings by their UTF-8 bytes, which is the order of their code
  points, and every ordered map the host uses iterates its keys in that order.
*/
module Strings {
  import opened Wrappers

  // ---------------------------------------------------------------- order

  /** Lexicographic order on code points. */
  predicate Less(a: string, b: string) {
    && b != []
    && (a == [] || a[0] < b[0] || (a[0] == b[0] && Less(a[1..], b[1..])))
  }

  lemma {:induction false} LessTransitive(a: string, b: string, c: string)
    requires Less(a, b) && Less(b, c)
    ensures Less(a, c)
  {
    if a != [] && a[0] == b[0] == c[0] {
      LessTransitive(a[1..], b[1..], c[1..]);
    }
  }

  lemma {:induction false} LessTrichotomy(a: string, b: string)
    ensures a == b || Less(a, b) || Less(b, a)
    ensures !(Less(a, b) && Less(b, a))
    ensures a == b ==> !Less(a, b)
  {
    if a != [] && b != [] && a[0] == b[0] {
      LessTrichotomy(a[1..], b[1..]);
      assert a == [a[0]] + a[1..] && b == [b[0]] + b[1..];
    } else {
      assert a == [] == b || a != b;
    }
  }

  predicate Sorted(s: seq<string>) {
    forall i, j :: 0 <= i < j < |s| ==> Less(s[i], s[j])
  }

  predicate IsLeast(m: string, s: set<string>) {
    m in s && forall x :: x in s ==> x == m || Less(m, x)
  }

  lemma {:induction false} LeastExists(s: set<string>)
    requires s != {}
    ensures exists m :: IsLeast(m, s)
  {
    var x :| x in s;
    if s != {x} {
      var rest := s - {x};
      LeastExists(rest);
      var m :| IsLeast(m, rest);
      LessTrichotomy(x, m);
      if Less(x, m) {
        forall y | y in rest ensures y == x || Less(x, y) {
          if y != m { LessTransitive(x, m, y); }
        }
        assert IsLeast(x, s);
      } else {
        assert IsLeast(m, s);
      }
    } else {
      assert IsLeast(x, s);
    }
  }

  /** The smallest string of a nonempty set. */
  function Least(s: set<string>): (m: string)
    requires s != {}
    ensures IsLeast(m, s)
  {
    LeastExists(s);
    assert forall a, b :: IsLeast(a, s) && IsLeast(b, s) ==> a == b by {
      forall a, b | IsLeast(a, s) && IsLeast(b, s) ensures a == b { LessTrichotomy(a, b); }
    }
    var m :| m in s && IsLeast(m, s);
    m
  }

  /** The members of a set in increasing order: how an ordered map walks its keys. */
  function SortedSeq(s: set<string>): (r: seq<string>)
    ensures forall x :: x in r <==> x in s
    decreases |s|
  {
    if s == {} then []
    else
      var m := Least(s);
      var rest := SortedSeq(s - {m});
      assert forall x :: x in s <==> x == m || x in rest;
      [m] + rest
  }

  lemma {:induction false} SortedSeqSorted(s: set<string>)
    ensures Sorted(SortedSeq(s)) && |SortedSeq(s)| == |s|
    decreases |s|
  {
    if s != {} {
      SortedSeqSorted(s - {Least(s)});
    }
  }

  /** A sorted sequence is determined by its members. */
  lemma {:induction false} SortedUnique(s: seq<string>, t: seq<string>)
    requires Sorted(s) && Sorted(t)
    requires forall x :: x in s <==> x in t
    ensures s == t
  {
    if s == [] {
      assert forall i :: 0 <= i < |t| ==> t[i] in t;
    } else {
      assert s[0] in t;
      assert t[0] in s;
      var i :| 0 <= i < |t| && t[i] == s[0];
      var j :| 0 <= j < |s| && s[j] == t[0];
      if i != 0 {
        LessTrichotomy(t[0], s[0]);
        assert false;
      }
      forall x ensures x in s[1..] <==> x in t[1..] {
        if x in s[1..] {
          var k :| 1 <= k < |s| && s[k] == x;
          LessTrichotomy(s[0], x);
          assert x in t;
        }
        if x in t[1..] {
          var k :| 1 <= k < |t| && t[k] == x;
          LessTrichotomy(t[0], x);
          assert x in s;
        }
      }
      SortedUnique(s[1..], t[1..]);
      assert s == [s[0]] + s[1..] && t == [t[0]] + t[1..];
    }
  }

  // ---------------------------------------------------------------- whitespace

  /** The Unicode White_Space property, which is what `trim` removes. */
  predicate IsSpace(c: char) {
    || '\U{9}' <= c <= '\U{D}'
    || c == ' '
    || c == '\U{85}'
    || c == '\U{A0}'
    || c == '\U{1680}'
    || '\U{2000}' <= c <= '\U{200A}'
    || c == '\U{2028}'
    || c == '\U{2029}'
    || c == '\U{202F}'
    || c == '\U{205F}'
    || c == '\U{3000}'
  }

  function TrimStart(s: string): (r: string)
    ensures |r| <= |s|
  {
    if s != [] && IsSpace(s[0]) then TrimStart(s[1..]) else s
  }

  function TrimEnd(s: string): (r: string)
    ensures |r| <= |s|
  {
    if s != [] && IsSpace(s[|s| - 1]) then TrimEnd(s[..|s| - 1]) else s
  }

  function Trim(s: string): (r: string)
    ensures |r| <= |s|
  {
    TrimEnd(TrimStart(s))
  }

  /** A string without white space at either end. */
  predicate Trimmed(s: string) {
    s == [] || (!IsSpace(s[0]) && !IsSpace(s[|s| - 1]))
  }

  lemma {:induction false} TrimStartParts(s: string)
    ensures var r := TrimStart(s);
            r == s[|s| - |r|..] && (r == [] || !IsSpace(r[0])) &&
            forall i :: 0 <= i < |s| - |r| ==> IsSpace(s[i])
  {
    if s != [] && IsSpace(s[0]) { TrimStartParts(s[1..]); }
  }

  lemma {:induction false} TrimEndParts(s: string)
    ensures var r := TrimEnd(s);
            r == s[..|r|] && (r == [] || !IsSpace(r[|r| - 1])) &&
            forall i :: |r| <= i < |s| ==> IsSpace(s[i])
  {
    if s != [] && IsSpace(s[|s| - 1]) { TrimEndParts(s[..|s| - 1]); }
  }

  /** Trimming yields the middle piece between two runs of white space. */
  lemma TrimParts(s: string)
    ensures exists i: nat, j: nat {:trigger s[i..j]} :: i <= j <= |s| && Trim(s) == s[i..j]
    ensures Trimmed(Trim(s))
  {
    hide TrimStart, TrimEnd, IsSpace;
    TrimStartParts(s);
    var front := TrimStart(s);
    TrimEndParts(front);
    var i := |s| - |front|;
    SliceOfSuffix(s, i, |Trim(s)|);
  }

  lemma SliceOfSuffix(s: string, i: nat, n: nat)
    requires i + n <= |s|
    ensures s[i..][..n] == s[i..i + n]
  {
    var (a, b) := (s[i..][..n], s[i..i + n]);
    assert |a| == |b| == n;
    forall k | 0 <= k < n ensures a[k] == b[k] {
      assert a[k] == s[i + k] && b[k] == s[i + k];
    }
  }

  lemma TrimFixed(s: string)
    ensures Trim(s) == s <==> Trimmed(s)
  {
    TrimParts(s);
  }

  // ---------------------------------------------------------------- searching

  /** The first position of `c`, or the length when there is none. */
  function IndexOf(s: string, c: char): (i: nat)
    ensures i <= |s|
    ensures i < |s| ==> s[i] == c
    ensures forall j :: 0 <= j < i ==> s[j] != c
  {
    if s == [] || s[0] == c then 0 else 1 + IndexOf(s[1..], c)
  }

  predicate OccursAt(s: string, needle: string, j: nat) {
    j + |needle| <= |s| && s[j..j + |needle|] == needle
  }

  lemma SliceOfTail(s: string, i: nat, j: nat)
    requires 1 <= i <= j <= |s|
    ensures s[i..j] == s[1..][i - 1..j - 1]
  {
    var (a, b) := (s[i..j], s[1..][i - 1..j - 1]);
    assert |a| == |b| == j - i;
    forall k | 0 <= k < j - i ensures a[k] == b[k] {
      assert a[k] == s[i + k] && b[k] == s[1..][i - 1 + k];
    }
  }

  lemma OccursShift(s: string, needle: string, j: nat)
    requires s != "" && 1 <= j
    ensures OccursAt(s, needle, j) <==> OccursAt(s[1..], needle, j - 1)
  {
    if j + |needle| <= |s| { SliceOfTail(s, j, j + |needle|); }
  }

  predicate Contains(s: string, needle: string) {
    exists j: nat :: j <= |s| && OccursAt(s, needle, j)
  }

  /** The first position of `needle`, or None. */
  function Find(s: string, needle: string): (r: Option<nat>)
    ensures r.Some? ==> OccursAt(s, needle, r.value)
    ensures r.Some? ==> forall j: nat :: j < r.value ==> !OccursAt(s, needle, j)
    ensures r.None? ==> !Contains(s, needle)
  {
    if |s| < |needle| then None
    else if OccursAt(s, needle, 0) then Some(0)
    else
      var r := Find(s[1..], needle);
      assert forall j: nat :: 1 <= j ==> (OccursAt(s, needle, j) <==> OccursAt(s[1..], needle, j - 1)) by {
        forall j: nat | 1 <= j
          ensures OccursAt(s, needle, j) <==> OccursAt(s[1..], needle, j - 1)
        {
          OccursShift(s, needle, j);
        }
      }
      match r
      case None => None
      case Some(i) => Some(i + 1)
  }
}
