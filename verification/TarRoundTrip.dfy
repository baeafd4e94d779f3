/** Archives written from files list back in order, with offsets that find each content. */
module TarRoundTrip {
  import opened Wrappers
  import opened Utf8
  import opened Tar

  // ---------------------------------------------------------------- writing

  /** One member: its 512-byte header and its contents. */
  datatype Member = Member(header: Bytes, content: Bytes)

  datatype Meta = Meta(name: Bytes, mtime: nat, kind: Kind)

  /** The header says what the listing should find. */
  ghost predicate Describes(header: Bytes, meta: Meta, size: nat) {
    && |header| == BLOCK
    && header[257..262] == USTAR
    && UpToNul(header[..100]) == meta.name
    && Octal(header[124..136]) == Some(size)
    && Octal(header[136..148]) == Some(meta.mtime)
    && Flags(header[156], meta.kind)
  }

  /** '0' or NUL for a file, '1' and '2' for links, '5' for a directory. */
  predicate Flags(flag: Byte, kind: Kind) {
    match kind
    case File => flag in {0x30, 0}
    case Hardlink => flag == 0x31
    case Symlink => flag == 0x32
    case Dir => flag == 0x35
  }

  function Zeros(n: nat): (s: Bytes)
    ensures |s| == n && forall i :: 0 <= i < n ==> s[i] == 0
  {
    seq(n, _ => 0)
  }

  /** The contents padded to whole blocks. */
  function Blocks(content: Bytes): (s: Bytes)
    ensures |s| == Padded(|content|) && s[..|content|] == content
  {
    content + Zeros(Padded(|content|) - |content|)
  }

  function Archive(members: seq<Member>, trailer: Bytes): Bytes {
    if members == [] then trailer else members[0].header + (Blocks(members[0].content) + Archive(members[1..], trailer))
  }

  /** The end of an archive: a zero block, or less than a block. */
  predicate Ends(trailer: Bytes) {
    |trailer| < BLOCK || Zero(trailer[..BLOCK])
  }

  /** The entry lists the member: its fields, and its contents at its offset. */
  ghost predicate ListsMember(bytes: Bytes, e: Entry, m: Member, meta: Meta) {
    && e == Entry(meta.name, |m.content|, meta.mtime, meta.kind, e.offset)
    && e.offset + e.size <= |bytes| && bytes[e.offset..e.offset + e.size] == m.content
  }

  ghost predicate ListsAll(bytes: Bytes, r: Listing, members: seq<Member>, metas: seq<Meta>) {
    r.Listed? && |r.entries| == |members| == |metas| &&
    forall k :: 0 <= k < |members| ==> ListsMember(bytes, r.entries[k], members[k], metas[k])
  }

  ghost predicate Described(members: seq<Member>, metas: seq<Meta>) {
    |members| == |metas| && forall k :: 0 <= k < |members| ==> Describes(members[k].header, metas[k], |members[k].content|)
  }

  // ---------------------------------------------------------------- listing what was written

  lemma NotZero(header: Bytes)
    requires |header| == BLOCK && header[257..262] == USTAR
    ensures !Zero(header)
  {
    assert header[257] == header[257..262][0] == 0x75;
    assert header[257] in header;
  }

  /** Where the pieces of a member are. */
  lemma MemberSlices(bytes: Bytes, at: nat, header: Bytes, content: Bytes, blocks: Bytes, rest: Bytes)
    requires at <= |bytes| && bytes[at..] == header + (blocks + rest) && |header| == BLOCK
    requires |content| <= |blocks| && blocks[..|content|] == content
    ensures var next := at + BLOCK + |blocks|;
            next <= |bytes| && bytes[next..] == rest && bytes[at..at + BLOCK] == header &&
            bytes[at + BLOCK..at + BLOCK + |content|] == content
  {
    var here := bytes[at..];
    assert here[..BLOCK] == header && here[BLOCK..] == blocks + rest;
    assert bytes[at + BLOCK..] == here[BLOCK..];
    assert bytes[at + BLOCK + |blocks|..] == bytes[at + BLOCK..][|blocks|..] == rest;
    assert bytes[at + BLOCK..at + BLOCK + |content|] == bytes[at + BLOCK..][..|content|] == blocks[..|content|];
  }

  lemma DescribedEntry(header: Bytes, meta: Meta, size: nat, at: nat)
    requires Describes(header, meta, size)
    ensures !Zero(header) && HeaderEntry(header, at) == Some(Entry(meta.name, size, meta.mtime, meta.kind, at + BLOCK))
  {
    hide Octal, UpToNul, Zero;
    NotZero(header);
  }

  lemma ListedNext(bytes: Bytes, width: nat, at: nat, e: Entry)
    requires at + BLOCK + Padded(e.size) <= |bytes| < width && !Zero(bytes[at..at + BLOCK])
    requires HeaderEntry(bytes[at..at + BLOCK], at) == Some(e)
    ensures ListFrom(bytes, width, at) == Cons(e, ListFrom(bytes, width, at + BLOCK + Padded(e.size)))
  {
    hide Padded, HeaderEntry, Zero;
    SmallMod(Padded(e.size), width);
  }

  lemma MemberListed(bytes: Bytes, width: nat, at: nat, m: Member, meta: Meta, rest: Bytes)
    requires |bytes| < width && at <= |bytes|
    requires Describes(m.header, meta, |m.content|) && bytes[at..] == m.header + (Blocks(m.content) + rest)
    ensures var next := at + BLOCK + Padded(|m.content|);
            var e := Entry(meta.name, |m.content|, meta.mtime, meta.kind, at + BLOCK);
            next <= |bytes| && bytes[next..] == rest &&
            ListFrom(bytes, width, at) == Cons(e, ListFrom(bytes, width, next)) && ListsMember(bytes, e, m, meta)
  {
    hide ListFrom, Padded, Blocks, HeaderEntry, Zero, Octal, UpToNul;
    MemberSlices(bytes, at, m.header, m.content, Blocks(m.content), rest);
    DescribedEntry(m.header, meta, |m.content|, at);
    ListedNext(bytes, width, at, Entry(meta.name, |m.content|, meta.mtime, meta.kind, at + BLOCK));
  }

  /** The address after the last member has to have a whole block of addresses above it. */
  ghost predicate ListsOrTraps(bytes: Bytes, width: nat, end: int, r: Listing, members: seq<Member>, metas: seq<Meta>) {
    if end + BLOCK < width then ListsAll(bytes, r, members, metas) else r == Trapped
  }

  lemma EndListed(bytes: Bytes, width: nat, at: nat, members: seq<Member>, metas: seq<Meta>)
    requires |bytes| < width && at <= |bytes| && Ends(bytes[at..])
    requires members == [] && Described(members, metas)
    ensures ListsOrTraps(bytes, width, at, ListFrom(bytes, width, at), members, metas)
  {
    if at + BLOCK <= |bytes| { assert bytes[at..at + BLOCK] == bytes[at..][..BLOCK]; }
  }

  lemma ListsMore(bytes: Bytes, e: Entry, rest: Listing, members: seq<Member>, metas: seq<Meta>)
    requires members != [] && metas != [] && ListsMember(bytes, e, members[0], metas[0])
    requires ListsAll(bytes, rest, members[1..], metas[1..])
    ensures ListsAll(bytes, Cons(e, rest), members, metas)
  {
    var es := [e] + rest.entries;
    forall k | 0 <= k < |members| ensures ListsMember(bytes, es[k], members[k], metas[k]) {
      if k > 0 {
        assert es[k] == rest.entries[k - 1] && members[k] == members[1..][k - 1] && metas[k] == metas[1..][k - 1];
      }
    }
  }

  lemma DescribedRest(members: seq<Member>, metas: seq<Meta>)
    requires members != [] && Described(members, metas)
    ensures metas != [] && Describes(members[0].header, metas[0], |members[0].content|) && Described(members[1..], metas[1..])
  {
    hide Describes;
    forall k | 0 <= k < |members[1..]| ensures Describes(members[1..][k].header, metas[1..][k], |members[1..][k].content|) {
      assert members[1..][k] == members[k + 1] && metas[1..][k] == metas[k + 1];
    }
  }

  lemma ListsMoreOrTraps(bytes: Bytes, width: nat, end: int, e: Entry, rest: Listing, members: seq<Member>, metas: seq<Meta>)
    requires members != [] && metas != [] && ListsMember(bytes, e, members[0], metas[0])
    requires ListsOrTraps(bytes, width, end, rest, members[1..], metas[1..])
    ensures ListsOrTraps(bytes, width, end, Cons(e, rest), members, metas)
  {
    hide ListsAll, ListsMember;
    if end + BLOCK < width { ListsMore(bytes, e, rest, members, metas); }
  }

  lemma {:induction false} ArchiveListsFrom(bytes: Bytes, width: nat, at: nat, members: seq<Member>, metas: seq<Meta>, trailer: Bytes)
    requires |bytes| < width && at <= |bytes| && bytes[at..] == Archive(members, trailer)
    requires Described(members, metas) && Ends(trailer)
    ensures ListsOrTraps(bytes, width, |bytes| - |trailer|, ListFrom(bytes, width, at), members, metas)
    decreases |members|
  {
    hide ListFrom, Padded, Describes, Described, ListsMember, ListsAll, Blocks, Ends, ListsOrTraps;
    if members == [] {
      EndListed(bytes, width, at, members, metas);
    } else {
      var m, rest := members[0], Archive(members[1..], trailer);
      DescribedRest(members, metas);
      MemberListed(bytes, width, at, m, metas[0], rest);
      var next := at + BLOCK + Padded(|m.content|);
      ArchiveListsFrom(bytes, width, next, members[1..], metas[1..], trailer);
      var e := Entry(metas[0].name, |m.content|, metas[0].mtime, metas[0].kind, at + BLOCK);
      ListsMoreOrTraps(bytes, width, |bytes| - |trailer|, e, ListFrom(bytes, width, next), members, metas);
    }
  }

  /**
   Whatever the members, an archive of them that fits in memory lists each in order with its
   contents, or overflows; and it overflows exactly when less than a block of addresses is left
   after the last member.
   */
  lemma ArchiveListsExactly(width: nat, members: seq<Member>, metas: seq<Meta>, trailer: Bytes)
    requires Described(members, metas) && Ends(trailer) && |Archive(members, trailer)| < width
    ensures var bytes := Archive(members, trailer);
            var r := ListFrom(bytes, width, 0);
            (r == Trapped <==> |bytes| - |trailer| + BLOCK >= width) && (r != Trapped ==> ListsAll(bytes, r, members, metas))
  {
    var bytes := Archive(members, trailer);
    assert bytes[0..] == bytes;
    ArchiveListsFrom(bytes, width, 0, members, metas, trailer);
  }

  // ---------------------------------------------------------------- every file has a header

  function OctalText(n: nat, digits: nat): (s: Bytes)
    ensures |s| == digits && AllOctal(s)
  {
    if digits == 0 then [] else OctalText(n / 8, digits - 1) + [0x30 + n % 8]
  }

  lemma {:induction false} OctalTextReads(n: nat, digits: nat)
    requires n < Eights(digits)
    ensures OctalValue(OctalText(n, digits)) == n
  {
    if digits > 0 {
      OctalTextReads(n / 8, digits - 1);
      assert OctalText(n, digits)[..digits - 1] == OctalText(n / 8, digits - 1);
    }
  }

  lemma {:induction false} UpToNulReads(s: Bytes, rest: Bytes)
    requires (forall i :: 0 <= i < |s| ==> s[i] != 0) && (rest == [] || rest[0] == 0)
    ensures UpToNul(s + rest) == s
  {
    if s == [] {
      assert s + rest == rest;
    } else {
      assert (s + rest)[1..] == s[1..] + rest;
      UpToNulReads(s[1..], rest);
      assert s == [s[0]] + s[1..];
    }
  }

  lemma OctalFieldReads(n: nat)
    requires n < Eights(11)
    ensures Octal(OctalText(n, 11) + [0]) == Some(n)
  {
    hide OctalText, OctalValue, UpToNul;
    var text := OctalText(n, 11);
    UpToNulReads(text, [0]);
    assert !IsBlank(text[0]) && !IsBlank(text[|text| - 1]) && text[0] != 0x2B;
    OctalTextReads(n, 11);
  }

  function FlagOf(kind: Kind): Byte {
    match kind
    case File => 0x30
    case Hardlink => 0x31
    case Symlink => 0x32
    case Dir => 0x35
  }

  function HeaderOf(meta: Meta, size: nat): Bytes
    requires |meta.name| <= 100
  {
    meta.name + Zeros(124 - |meta.name|) +
    (OctalText(size, 11) + [0]) + (OctalText(meta.mtime, 11) + [0]) +
    (Zeros(8) + [FlagOf(meta.kind)] + Zeros(100)) + USTAR + Zeros(250)
  }

  /** Any name of at most 100 bytes without a NUL, any size and time below 8^11, has a header. */
  lemma HeaderOfDescribes(meta: Meta, size: nat)
    requires |meta.name| <= 100 && (forall i :: 0 <= i < |meta.name| ==> meta.name[i] != 0)
    requires size < Eights(11) && meta.mtime < Eights(11)
    ensures Describes(HeaderOf(meta, size), meta, size)
  {
    hide Octal, OctalText, UpToNul, Eights;
    var h := HeaderOf(meta, size);
    var pad := Zeros(100 - |meta.name|);
    assert h[..100] == meta.name + pad;
    UpToNulReads(meta.name, pad);
    OctalFieldReads(size);
    OctalFieldReads(meta.mtime);
    assert h[124..136] == OctalText(size, 11) + [0];
    assert h[136..148] == OctalText(meta.mtime, 11) + [0];
    assert h[156] == FlagOf(meta.kind);
    assert h[257..262] == USTAR;
  }

  /** A header a 32-bit guest traps on, whatever follows it: a size of 2^32 - 1024. */
  lemma ThirtyTwoBitsTrap(meta: Meta, rest: Bytes)
    requires |meta.name| <= 100 && (forall i :: 0 <= i < |meta.name| ==> meta.name[i] != 0) && meta.mtime < Eights(11)
    requires |rest| + BLOCK <= 0x8000_0000
    ensures ListFrom(HeaderOf(meta, 0xFFFF_FC00) + rest, 0x1_0000_0000, 0) == Trapped
  {
    hide ListFrom, HeaderOf, Padded, Describes, HeaderEntry, Zero;
    var size, width := 0xFFFF_FC00, 0x1_0000_0000;
    var header := HeaderOf(meta, size);
    var bytes := header + rest;
    EightsOfEleven();
    HeaderOfDescribes(meta, size);
    assert |header| == BLOCK by { HeaderIsABlock(header, meta, size); }
    assert bytes[0..BLOCK] == header;
    DescribedEntry(header, meta, size, 0);
    assert NextAt(0, size, width) == width - BLOCK by { PaddedWhole(0x7F_FFFE); SmallMod(size, width); }
    OverflowsExactly(bytes, width, 0, Entry(meta.name, size, meta.mtime, meta.kind, BLOCK));
  }

  lemma HeaderIsABlock(header: Bytes, meta: Meta, size: nat)
    requires Describes(header, meta, size)
    ensures |header| == BLOCK
  {}

  lemma PaddedWhole(blocks: nat)
    ensures Padded(blocks * BLOCK) == blocks * BLOCK
  {}

  lemma EightsOfEleven()
    ensures Eights(11) == 0x2_0000_0000
  {
    assert Eights(4) == 4096;
    assert Eights(8) == 0x100_0000;
  }
}
