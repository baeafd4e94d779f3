/** What a tar listing of any bytes says, told by where the headers are and what they spell. */
module TarListing {
  import opened Wrappers
  import opened Utf8
  import opened Tar
  import opened TarRoundTrip

  // ---------------------------------------------------------------- one header

  /** The bytes up to the first NUL, or all of them. */
  ghost predicate UpToFirstNul(field: Bytes, text: Bytes) {
    |text| <= |field| && text == field[..|text|] && 0 !in text && (|text| == |field| || field[|text|] == 0)
  }

  lemma {:induction false} UpToNulStops(field: Bytes)
    ensures UpToFirstNul(field, UpToNul(field))
  {
    if field != [] && field[0] != 0 { UpToNulStops(field[1..]); }
  }

  lemma UpToNulExactly(field: Bytes, text: Bytes)
    ensures UpToFirstNul(field, text) <==> text == UpToNul(field)
  {
    UpToNulStops(field);
    var found := UpToNul(field);
    if UpToFirstNul(field, text) {
      if |text| < |found| { assert found[|text|] in found; }
    }
  }

  /** The middle of `text`, between two runs of blanks. */
  ghost predicate MiddleAt(text: Bytes, core: Bytes, i: nat, j: nat) {
    i <= j <= |text| && core == text[i..j] &&
    (forall k :: 0 <= k < i ==> IsBlank(text[k])) && (forall k :: j <= k < |text| ==> IsBlank(text[k])) &&
    (core != [] ==> !IsBlank(core[0]) && !IsBlank(core[|core| - 1]))
  }

  ghost predicate Trimmed(text: Bytes, core: Bytes) {
    exists i: nat, j: nat :: MiddleAt(text, core, i, j)
  }

  lemma {:induction false} TrimFrontAt(s: Bytes) returns (i: nat)
    ensures i <= |s| && TrimFront(s) == s[i..] && (i < |s| ==> !IsBlank(s[i])) && forall k :: 0 <= k < i ==> IsBlank(s[k])
  {
    i := 0;
    if s != [] && IsBlank(s[0]) {
      var n := TrimFrontAt(s[1..]);
      i := n + 1;
      forall k | 0 <= k < i ensures IsBlank(s[k]) { if k > 0 { assert s[k] == s[1..][k - 1]; } }
    }
  }

  lemma {:induction false} TrimBackAt(s: Bytes) returns (j: nat)
    ensures j <= |s| && TrimBack(s) == s[..j] && (j > 0 ==> !IsBlank(s[j - 1])) && forall k :: j <= k < |s| ==> IsBlank(s[k])
  {
    j := |s|;
    if s != [] && IsBlank(s[|s| - 1]) {
      j := TrimBackAt(s[..|s| - 1]);
      forall k | j <= k < |s| ensures IsBlank(s[k]) { if k < |s| - 1 { assert s[k] == s[..|s| - 1][k]; } }
    } else {
      assert s[..|s|] == s;
    }
  }

  lemma TrimsTo(s: Bytes)
    ensures Trimmed(s, TrimBack(TrimFront(s)))
  {
    hide TrimFront, TrimBack, IsBlank;
    var i := TrimFrontAt(s);
    var front := TrimFront(s);
    var n := TrimBackAt(front);
    var core := TrimBack(front);
    assert core == s[i..i + n];
    forall k | i + n <= k < |s| ensures IsBlank(s[k]) { assert s[k] == front[k - i]; }
    if core != [] { assert core[0] == s[i] && core[|core| - 1] == front[n - 1]; }
    assert MiddleAt(s, core, i, i + n);
  }

  /** A middle with something in it is inside any other. */
  lemma MiddleInside(s: Bytes, a: Bytes, i: nat, j: nat, b: Bytes, k: nat, l: nat)
    requires MiddleAt(s, a, i, j) && MiddleAt(s, b, k, l) && a != []
    ensures k <= i && j <= l
  {
    hide IsBlank;
    assert a[0] == s[i] && a[|a| - 1] == s[j - 1];
  }

  lemma MiddleOnce(s: Bytes, a: Bytes, i: nat, j: nat, b: Bytes, k: nat, l: nat)
    requires MiddleAt(s, a, i, j) && MiddleAt(s, b, k, l)
    ensures a == b
  {
    if a != [] { MiddleInside(s, a, i, j, b, k, l); }
    if b != [] { MiddleInside(s, b, k, l, a, i, j); }
  }

  lemma TrimmedExactly(s: Bytes, core: Bytes)
    ensures Trimmed(s, core) <==> core == TrimBack(TrimFront(s))
  {
    hide TrimFront, TrimBack, MiddleAt;
    TrimsTo(s);
    var i: nat, j: nat :| MiddleAt(s, TrimBack(TrimFront(s)), i, j);
    if k: nat, l: nat :| MiddleAt(s, core, k, l) { MiddleOnce(s, core, k, l, TrimBack(TrimFront(s)), i, j); }
  }

  lemma OnePlaceOn(d: int, weight: int, value: int)
    ensures (d * weight + value) * 8 == d * (weight * 8) + value * 8
  {}

  lemma OctalDigitLast(s: Bytes, d: Byte)
    requires AllOctal(s) && 0x30 <= d <= 0x37
    ensures AllOctal(s + [d]) && OctalValue(s + [d]) == OctalValue(s) * 8 + (d as int - 0x30)
  {
    assert (s + [d])[..|s|] == s;
  }

  /** A digit weighs eight times what it would one place further on. */
  lemma {:induction false} LeadingDigitWeighs(d: Byte, rest: Bytes)
    requires AllOctal(rest) && 0x30 <= d <= 0x37
    ensures AllOctal([d] + rest) && OctalValue([d] + rest) == (d as int - 0x30) * Eights(|rest|) + OctalValue(rest)
    decreases |rest|
  {
    hide OctalValue;
    if rest == [] {
      assert [d] + [] == [] + [d];
      OctalDigitLast([], d);
      NoDigits();
    } else {
      var front, last := rest[..|rest| - 1], rest[|rest| - 1];
      LeadingDigitWeighs(d, front);
      assert [d] + rest == [d] + front + [last] && rest == front + [last];
      OctalDigitLast([d] + front, last);
      OctalDigitLast(front, last);
      OnePlaceOn(d as int - 0x30, Eights(|front|), OctalValue(front));
    }
  }

  lemma NoDigits()
    ensures OctalValue([]) == 0 && Eights(0) == 1
  {}

  /** Digits, after a plus sign or not, between blanks; nothing at all is zero. */
  ghost predicate Spells(field: Bytes, core: Bytes, n: nat) {
    (exists text :: UpToFirstNul(field, text) && Trimmed(text, core)) &&
    if core == [] then n == 0
    else
      var digits := if core[0] == 0x2B then core[1..] else core;
      digits != [] && AllOctal(digits) && n == OctalValue(digits)
  }

  ghost predicate IsNumber(field: Bytes, n: nat) {
    exists core :: Spells(field, core, n)
  }

  lemma NumberExactly(field: Bytes, n: nat)
    ensures IsNumber(field, n) <==> Octal(field) == Some(n)
  {
    hide UpToNul, TrimFront, TrimBack, OctalValue, Trimmed, UpToFirstNul;
    var text := UpToNul(field);
    var core := TrimBack(TrimFront(text));
    UpToNulExactly(field, text);
    TrimmedExactly(text, core);
    if Octal(field) == Some(n) { assert Spells(field, core, n); }
    if other :| Spells(field, other, n) {
      var t :| UpToFirstNul(field, t) && Trimmed(t, other);
      UpToNulExactly(field, t);
      TrimmedExactly(t, other);
    }
  }

  /** The time, or zero when the field cannot be read. */
  ghost predicate IsTime(field: Bytes, mtime: nat) {
    if exists n: nat :: IsNumber(field, n) then IsNumber(field, mtime) else mtime == 0
  }

  lemma TimeExactly(field: Bytes, mtime: nat)
    ensures IsTime(field, mtime) <==> mtime == OrZero(Octal(field))
  {
    hide IsNumber, Octal;
    forall n: nat ensures IsNumber(field, n) <==> Octal(field) == Some(n) { NumberExactly(field, n); }
    if Octal(field).Some? { assert IsNumber(field, Octal(field).value); }
  }

  lemma KindExactly(flag: Byte, kind: Kind)
    ensures Flags(flag, kind) <==> KindOf(flag) == Some(kind)
  {}

  /** What a header says: the magic, a name, a size, a time, one of the kinds, and what follows it. */
  ghost predicate HeaderSays(header: Bytes, at: nat, e: Entry)
    requires |header| == BLOCK
  {
    header[257..262] == [0x75, 0x73, 0x74, 0x61, 0x72] &&
    UpToFirstNul(header[..100], e.name) && IsNumber(header[124..136], e.size) && IsTime(header[136..148], e.mtime) &&
    Flags(header[156], e.kind) && e.offset == at + 512
  }

  lemma HeaderExactly(header: Bytes, at: nat, e: Entry)
    requires |header| == BLOCK
    ensures HeaderSays(header, at, e) <==> HeaderEntry(header, at) == Some(e)
  {
    hide Octal, UpToNul, IsNumber, IsTime, UpToFirstNul, Flags, KindOf;
    UpToNulExactly(header[..100], e.name);
    NumberExactly(header[124..136], e.size);
    TimeExactly(header[136..148], e.mtime);
    KindExactly(header[156], e.kind);
  }

  // ---------------------------------------------------------------- the whole listing

  /** The headers are at these addresses: each starts where the entry before it, padded, ends. */
  ghost predicate HeadersAt(bytes: Bytes, width: nat, ats: seq<nat>, es: seq<Entry>)
    requires width > 0
  {
    |ats| == |es| + 1 && forall k :: 0 <= k < |es| ==> HeaderAt(bytes, width, ats[k], es[k], ats[k + 1])
  }

  ghost predicate HeaderAt(bytes: Bytes, width: nat, at: nat, e: Entry, next: nat)
    requires width > 0
  {
    at + BLOCK < width && at + BLOCK <= |bytes| && !Zero(bytes[at..at + BLOCK]) && HeaderSays(bytes[at..at + BLOCK], at, e) &&
    next == NextAt(at, e.size, width) < width
  }

  /** How it ends there: no addresses left, a zero block or too few bytes, or a header that cannot be listed. */
  ghost predicate EndsThere(bytes: Bytes, width: nat, at: nat, es: seq<Entry>, r: Listing)
    requires width > 0
  {
    if at + BLOCK >= width then r == Trapped
    else if at + BLOCK > |bytes| || Zero(bytes[at..at + BLOCK]) then r == Listed(es)
    else r == Refused(at) && forall e :: HeaderSays(bytes[at..at + BLOCK], at, e) ==> NextAt(at, e.size, width) >= width
  }

  ghost predicate ListsAs(bytes: Bytes, width: nat, at: nat, ats: seq<nat>, es: seq<Entry>, r: Listing)
    requires width > 0
  {
    HeadersAt(bytes, width, ats, es) && ats[0] == at && EndsThere(bytes, width, ats[|es|], es, r)
  }

  lemma {:induction false} ListingOf(bytes: Bytes, width: nat, at: nat) returns (ats: seq<nat>, es: seq<Entry>)
    requires width > 0
    ensures ListsAs(bytes, width, at, ats, es, ListFrom(bytes, width, at))
    decreases if at <= |bytes| then |bytes| - at + 1 else 0
  {
    hide HeaderSays, HeaderEntry, Zero, Padded;
    ats, es := [at], [];
    if at + BLOCK < width && at + BLOCK <= |bytes| && !Zero(bytes[at..at + BLOCK]) {
      var header := bytes[at..at + BLOCK];
      forall e ensures HeaderSays(header, at, e) <==> HeaderEntry(header, at) == Some(e) { HeaderExactly(header, at, e); }
      var found := HeaderEntry(header, at);
      if found.Some? && NextAt(at, found.value.size, width) < width {
        var next := NextAt(at, found.value.size, width);
        var more, rest := ListingOf(bytes, width, next);
        ats, es := [at] + more, [found.value] + rest;
        ListedBehind(bytes, width, at, found.value, more, rest, ListFrom(bytes, width, next));
      }
    }
  }

  lemma ListedBehind(bytes: Bytes, width: nat, at: nat, e: Entry, ats: seq<nat>, es: seq<Entry>, r: Listing)
    requires width > 0 && ats != [] && HeaderAt(bytes, width, at, e, ats[0]) && ListsAs(bytes, width, ats[0], ats, es, r)
    ensures ListsAs(bytes, width, at, [at] + ats, [e] + es, Cons(e, r))
  {
    hide HeaderAt, HeaderSays, Zero;
    var ats', es' := [at] + ats, [e] + es;
    forall k | 0 <= k < |es'| ensures HeaderAt(bytes, width, ats'[k], es'[k], ats'[k + 1]) {
      if k > 0 { assert es'[k] == es[k - 1] && ats'[k] == ats[k - 1] && ats'[k + 1] == ats[k]; }
    }
    assert ats'[|es'|] == ats[|es|];
  }

  /** There is one such listing. */
  lemma {:induction false} ListingIs(bytes: Bytes, width: nat, at: nat, ats: seq<nat>, es: seq<Entry>, r: Listing)
    requires width > 0 && ListsAs(bytes, width, at, ats, es, r)
    ensures ListFrom(bytes, width, at) == r
    decreases |es|
  {
    hide HeaderSays, HeaderEntry, Zero, Padded;
    if es != [] {
      assert HeaderAt(bytes, width, ats[0], es[0], ats[1]);
      HeaderExactly(bytes[at..at + BLOCK], at, es[0]);
      var rest := if r.Listed? then Listed(es[1..]) else r;
      RestListed(bytes, width, ats, es, r, rest);
      ListingIs(bytes, width, ats[1], ats[1..], es[1..], rest);
    } else if at + BLOCK < width && at + BLOCK <= |bytes| {
      var header := bytes[at..at + BLOCK];
      forall e ensures HeaderSays(header, at, e) <==> HeaderEntry(header, at) == Some(e) { HeaderExactly(header, at, e); }
    }
  }

  lemma RestListed(bytes: Bytes, width: nat, ats: seq<nat>, es: seq<Entry>, r: Listing, rest: Listing)
    requires width > 0 && es != [] && ats != [] && ListsAs(bytes, width, ats[0], ats, es, r)
    requires rest == if r.Listed? then Listed(es[1..]) else r
    ensures ListsAs(bytes, width, ats[1], ats[1..], es[1..], rest) && r == Cons(es[0], rest)
  {
    hide HeaderAt, HeaderSays, Zero;
    var ats', es' := ats[1..], es[1..];
    forall k | 0 <= k < |es'| ensures HeaderAt(bytes, width, ats'[k], es'[k], ats'[k + 1]) {
      assert es'[k] == es[k + 1] && ats'[k] == ats[k + 1] && ats'[k + 1] == ats[k + 2];
    }
    assert ats'[|es'|] == ats[|es|] && es == [es[0]] + es[1..];
  }

  /**
   What any bytes list as, exactly: the entries their headers spell, each header where the entry
   before it ends, up to a zero block or the end; or the address of the first header that cannot be
   listed; or an overflow.
   */
  lemma ListingExactly(bytes: Bytes, width: nat, r: Listing)
    requires width > 0
    ensures ListFrom(bytes, width, 0) == r <==> exists ats, es :: ListsAs(bytes, width, 0, ats, es, r)
  {
    hide ListFrom, ListsAs;
    var ats, es := ListingOf(bytes, width, 0);
    if ats', es' :| ListsAs(bytes, width, 0, ats', es', r) { ListingIs(bytes, width, 0, ats', es', r); }
  }
}
