/** Listing a tar archive: 512-byte headers, contents padded to whole blocks. */
module Tar {
  import opened Wrappers
  import opened Utf8

  const BLOCK: nat := 512
  const USTAR: Bytes := [0x75, 0x73, 0x74, 0x61, 0x72]
  /** Twelve octal digits stay below this. */
  const OCTAL_LIMIT: nat := 0x10_0000_0000

  datatype Kind = File | Dir | Symlink | Hardlink

  datatype Entry = Entry(name: Bytes, size: nat, mtime: nat, kind: Kind, offset: nat)

  /** `Trapped` is the one overflow the listing does not check. */
  datatype Listing = Listed(entries: seq<Entry>) | Refused(at: nat) | Trapped

  // ---------------------------------------------------------------- header fields

  predicate Zero(s: Bytes) { forall b :: b in s ==> b == 0 }

  /** The bytes before the first NUL. */
  function UpToNul(s: Bytes): Bytes {
    if s == [] || s[0] == 0 then [] else [s[0]] + UpToNul(s[1..])
  }

  predicate IsBlank(b: Byte) { b == 0x20 || 0x09 <= b <= 0x0D }

  function TrimFront(s: Bytes): Bytes {
    if s != [] && IsBlank(s[0]) then TrimFront(s[1..]) else s
  }

  function TrimBack(s: Bytes): Bytes {
    if s != [] && IsBlank(s[|s| - 1]) then TrimBack(s[..|s| - 1]) else s
  }

  predicate AllOctal(s: Bytes) { forall i :: 0 <= i < |s| ==> 0x30 <= s[i] <= 0x37 }

  function OctalValue(s: Bytes): nat
    requires AllOctal(s)
  {
    if s == [] then 0 else OctalValue(s[..|s| - 1]) * 8 + (s[|s| - 1] as int - 0x30)
  }

  /** A NUL- or space-padded octal number; an empty field counts as zero, and one plus sign is allowed. */
  function Octal(field: Bytes): Option<nat> {
    var text := TrimBack(TrimFront(UpToNul(field)));
    if text == [] then Some(0)
    else
      var digits := if text[0] == 0x2B then text[1..] else text;
      if digits != [] && AllOctal(digits) then Some(OctalValue(digits)) else None
  }

  function KindOf(flag: Byte): Option<Kind> {
    if flag == 0x30 || flag == 0 then Some(File)
    else if flag == 0x35 then Some(Dir)
    else if flag == 0x32 then Some(Symlink)
    else if flag == 0x31 then Some(Hardlink)
    else None
  }

  function OrZero(n: Option<nat>): nat {
    if n.Some? then n.value else 0
  }

  function HeaderEntry(header: Bytes, at: nat): Option<Entry>
    requires |header| == BLOCK
  {
    var size, kind := Octal(header[124..136]), KindOf(header[156]);
    if header[257..262] != USTAR || size.None? || kind.None? then None
    else Some(Entry(UpToNul(header[..100]), size.value, OrZero(Octal(header[136..148])), kind.value, at + BLOCK))
  }

  // ---------------------------------------------------------------- the listing

  /** A size rounded up to whole blocks. */
  function Padded(size: nat): (n: nat)
    ensures size <= n < size + BLOCK && n % BLOCK == 0
  {
    (size + BLOCK - 1) / BLOCK * BLOCK
  }

  function Cons(e: Entry, rest: Listing): Listing {
    match rest
    case Listed(es) => Listed([e] + es)
    case other => other
  }

  /** Addresses are below `width`; a padded size is cut to an address before it is added. */
  function ListFrom(bytes: Bytes, width: nat, at: nat): Listing
    requires width > 0
    decreases if at <= |bytes| then |bytes| - at + 1 else 0
  {
    if at + BLOCK >= width then Trapped
    else if at + BLOCK > |bytes| then Listed([])
    else
      var header := bytes[at..at + BLOCK];
      if Zero(header) then Listed([])
      else
        match HeaderEntry(header, at)
        case None => Refused(at)
        case Some(e) =>
          var next := at + BLOCK + Padded(e.size) % width;
          if next >= width then Refused(at) else Cons(e, ListFrom(bytes, width, next))
  }

  function Prefixed(before: seq<Entry>, rest: Listing): Listing {
    match rest
    case Listed(es) => Listed(before + es)
    case other => other
  }

  lemma PrefixedCons(before: seq<Entry>, e: Entry, rest: Listing)
    ensures Prefixed(before, Cons(e, rest)) == Prefixed(before + [e], rest)
  {
    if rest.Listed? { assert before + ([e] + rest.entries) == before + [e] + rest.entries; }
  }

  lemma PrefixedEnds(before: seq<Entry>, rest: Listing)
    ensures Prefixed([], rest) == rest && Prefixed(before, Listed([])) == Listed(before)
  {
    if rest.Listed? { assert [] + rest.entries == rest.entries; }
    assert before + [] == before;
  }

  method TarEntries(bytes: Bytes, width: nat) returns (r: Listing)
    requires |bytes| < width
    ensures r == ListFrom(bytes, width, 0)
  {
    hide HeaderEntry;
    var out: seq<Entry> := [];
    var at := 0;
    PrefixedEnds([], ListFrom(bytes, width, 0));
    while true
      invariant ListFrom(bytes, width, 0) == Prefixed(out, ListFrom(bytes, width, at))
      decreases if at <= |bytes| then |bytes| - at + 1 else 0
    {
      PrefixedEnds(out, ListFrom(bytes, width, at));
      if at + BLOCK >= width {
        return Trapped;
      }
      if at + BLOCK > |bytes| {
        return Listed(out);
      }
      var header := bytes[at..at + BLOCK];
      if Zero(header) {
        return Listed(out);
      }
      var entry := HeaderEntry(header, at);
      if entry.None? {
        return Refused(at);
      }
      var next := at + BLOCK + Padded(entry.value.size) % width;
      if next >= width {
        return Refused(at);
      }
      PrefixedCons(out, entry.value, ListFrom(bytes, width, next));
      out := out + [entry.value];
      at := next;
    }
  }

  // ---------------------------------------------------------------- any bytes at all

  /** Every header is inside the bytes, and each entry starts where the one before it was stepped over. */
  ghost predicate WellPlaced(bytes: Bytes, width: nat, at: nat, es: seq<Entry>)
    requires width > 0
  {
    && (forall k :: 0 <= k < |es| ==> at + BLOCK <= es[k].offset <= |bytes|)
    && (|es| > 0 ==> es[0].offset == at + BLOCK)
    && (forall k :: 0 <= k < |es| - 1 ==> es[k + 1].offset == es[k].offset + Padded(es[k].size) % width + BLOCK)
  }

  /** Where the next header is looked for. */
  function NextAt(at: nat, size: nat, width: nat): nat
    requires width > 0
  {
    at + BLOCK + Padded(size) % width
  }

  /** One turn of the listing: it ends, or it lists an entry and goes on past it. */
  lemma Turn(bytes: Bytes, width: nat, at: nat) returns (e: Option<Entry>)
    requires width > 0 && at + BLOCK < width
    ensures e.None? ==> ListFrom(bytes, width, at) in {Listed([]), Refused(at)}
    ensures e.Some? ==> at + BLOCK <= |bytes| && e.value.offset == at + BLOCK && e.value.size < OCTAL_LIMIT
    ensures e.Some? ==> var next := NextAt(at, e.value.size, width);
                        ListFrom(bytes, width, at) == (if next >= width then Refused(at) else Cons(e.value, ListFrom(bytes, width, next)))
  {
    hide HeaderEntry, Padded;
    e := None;
    if at + BLOCK <= |bytes| {
      var header := bytes[at..at + BLOCK];
      if !Zero(header) {
        e := HeaderEntry(header, at);
        HeaderFacts(header, at);
      }
    }
  }

  lemma HeaderFacts(header: Bytes, at: nat)
    requires |header| == BLOCK
    ensures HeaderEntry(header, at).Some? ==>
              HeaderEntry(header, at).value.size < OCTAL_LIMIT && HeaderEntry(header, at).value.offset == at + BLOCK
  {
    OctalFieldBound(header[124..136]);
  }

  lemma PlacedFirst(bytes: Bytes, width: nat, at: nat, e: Entry, es: seq<Entry>)
    requires width > 0 && e.offset == at + BLOCK <= |bytes|
    requires WellPlaced(bytes, width, NextAt(at, e.size, width), es)
    ensures WellPlaced(bytes, width, at, [e] + es)
  {
    hide Padded;
    var all := [e] + es;
    forall k | 0 <= k < |all| - 1 ensures all[k + 1].offset == all[k].offset + Padded(all[k].size) % width + BLOCK {
      if k > 0 { assert all[k] == es[k - 1] && all[k + 1] == es[k]; }
    }
  }

  lemma {:induction false} ListingWellPlaced(bytes: Bytes, width: nat, at: nat)
    requires width > 0
    ensures var r := ListFrom(bytes, width, at); r.Listed? ==> WellPlaced(bytes, width, at, r.entries)
    decreases if at <= |bytes| then |bytes| - at + 1 else 0
  {
    if at + BLOCK < width {
      hide ListFrom, Padded;
      var e := Turn(bytes, width, at);
      if e.Some? {
        var next := NextAt(at, e.value.size, width);
        var rest := ListFrom(bytes, width, next);
        ListingWellPlaced(bytes, width, next);
        if rest.Listed? { PlacedFirst(bytes, width, at, e.value, rest.entries); }
      }
    }
  }

  /**
   On any bytes the entries come in increasing order of offset, and the contents of an entry end
   before the next header exactly when its padded size is an address at all.
   */
  lemma ContentsApartExactly(bytes: Bytes, width: nat, k: nat)
    requires width > 0 && width % BLOCK == 0
    requires var r := ListFrom(bytes, width, 0); r.Listed? && k + 1 < |r.entries|
    ensures var es := ListFrom(bytes, width, 0).entries;
            es[k].offset + BLOCK <= es[k + 1].offset &&
            (es[k].offset + es[k].size + BLOCK <= es[k + 1].offset <==> Padded(es[k].size) < width)
  {
    hide ListFrom, Padded;
    ListingWellPlaced(bytes, width, 0);
    var es := ListFrom(bytes, width, 0).entries;
    assert es[k + 1].offset == es[k].offset + Padded(es[k].size) % width + BLOCK;
    CutExactly(es[k].size, width);
  }

  lemma CutExactly(size: nat, width: nat)
    requires width > 0 && width % BLOCK == 0
    ensures size <= Padded(size) % width <==> Padded(size) < width
  {
    if Padded(size) >= width { ModAtMost(Padded(size), width); }
  }

  lemma ModAtMost(n: nat, width: nat)
    requires width > 0 && n >= width
    ensures n % width <= n - width
  {
    assert n == n / width * width + n % width;
    assert n / width >= 1;
  }

  // ---------------------------------------------------------------- the width of an address

  lemma {:induction false} OctalBound(s: Bytes)
    requires AllOctal(s)
    ensures OctalValue(s) < Eights(|s|)
  {
    if s != [] { OctalBound(s[..|s| - 1]); }
  }

  function Eights(n: nat): nat {
    if n == 0 then 1 else Eights(n - 1) * 8
  }

  lemma {:induction false} EightsGrow(m: nat, n: nat)
    requires m <= n
    ensures Eights(m) <= Eights(n)
  {
    if m < n { EightsGrow(m, n - 1); }
  }

  lemma EightsOfTwelve()
    ensures Eights(12) == OCTAL_LIMIT
  {
    assert Eights(3) == 512;
    assert Eights(6) == 262144;
    assert Eights(9) == 134217728;
  }

  lemma {:induction false} UpToNulShorter(s: Bytes)
    ensures |UpToNul(s)| <= |s|
  {
    if s != [] && s[0] != 0 { UpToNulShorter(s[1..]); }
  }

  lemma {:induction false} TrimFrontShorter(s: Bytes)
    ensures |TrimFront(s)| <= |s|
  {
    if s != [] && IsBlank(s[0]) { TrimFrontShorter(s[1..]); }
  }

  lemma {:induction false} TrimBackShorter(s: Bytes)
    ensures |TrimBack(s)| <= |s|
  {
    if s != [] && IsBlank(s[|s| - 1]) { TrimBackShorter(s[..|s| - 1]); }
  }

  /** A twelve-byte field holds at most twelve octal digits. */
  lemma OctalFieldBound(field: Bytes)
    requires |field| <= 12
    ensures Octal(field).Some? ==> Octal(field).value < OCTAL_LIMIT
  {
    var nul := UpToNul(field);
    UpToNulShorter(field);
    TrimFrontShorter(nul);
    TrimBackShorter(TrimFront(nul));
    var text := TrimBack(TrimFront(nul));
    if Octal(field).Some? && text != [] {
      var digits := if text[0] == 0x2B then text[1..] else text;
      OctalBound(digits);
      EightsGrow(|digits|, 12);
    }
    EightsOfTwelve();
  }

  lemma SmallMod(n: nat, width: nat)
    requires n < width
    ensures n % width == n
  {}

  ghost predicate AllAddressable(es: seq<Entry>, width: nat) {
    forall k :: 0 <= k < |es| ==> Padded(es[k].size) < width
  }

  /** With addresses as wide as 64 bits the listing never overflows, and contents are always apart. */
  lemma {:induction false} WideEnoughNeverTraps(bytes: Bytes, width: nat, at: nat)
    requires |bytes| + OCTAL_LIMIT + 2 * BLOCK <= width && at + BLOCK < width
    ensures !ListFrom(bytes, width, at).Trapped?
    ensures ListFrom(bytes, width, at).Listed? ==> AllAddressable(ListFrom(bytes, width, at).entries, width)
    decreases if at <= |bytes| then |bytes| - at + 1 else 0
  {
    hide ListFrom, Padded;
    var e := Turn(bytes, width, at);
    if e.Some? {
      var next := NextAt(at, e.value.size, width);
      SmallMod(Padded(e.value.size), width);
      WideEnoughNeverTraps(bytes, width, next);
    }
  }

  /**
   The unchecked addition, for an entry with no header after it: the listing overflows exactly when
   stepping over the entry lands on one of the last addresses, less than a block from the end.
   */
  lemma OverflowsExactly(bytes: Bytes, width: nat, at: nat, e: Entry)
    requires at + BLOCK <= |bytes| < width && !Zero(bytes[at..at + BLOCK]) && HeaderEntry(bytes[at..at + BLOCK], at) == Some(e)
    requires NextAt(at, e.size, width) + BLOCK > |bytes|
    ensures var next := NextAt(at, e.size, width);
            (ListFrom(bytes, width, at) == Trapped <==> width - BLOCK <= next < width) &&
            (ListFrom(bytes, width, at) == Refused(at) <==> width <= next) &&
            (ListFrom(bytes, width, at) == Listed([e]) <==> next < width - BLOCK)
  {
    hide HeaderEntry, Padded, Zero;
    var next := NextAt(at, e.size, width);
    if next < width - BLOCK { assert ListFrom(bytes, width, next) == Listed([]); }
    assert [e] + [] == [e];
  }
}
