/** UTF-8 as RFC 3629 defines it: encoding (section 3) and well-formed byte sequences (section 4). */
module Utf8 {

  type Byte = x: nat | x < 256

  type Bytes = seq<Byte>

  predicate In(b: Byte, lo: Byte, hi: Byte) { lo <= b <= hi }

  predicate Tail(b: Byte) { In(b, 0x80, 0xBF) }

  /** The second byte that section 4 allows after each lead byte of a longer sequence. */
  predicate SecondAfter(lead: Byte, b: Byte) {
    if lead == 0xE0 then In(b, 0xA0, 0xBF)
    else if lead == 0xED then In(b, 0x80, 0x9F)
    else if lead == 0xF0 then In(b, 0x90, 0xBF)
    else if lead == 0xF4 then In(b, 0x80, 0x8F)
    else Tail(b)
  }

  /** How many bytes a sequence starting with this byte has; 0 if none starts so. */
  function LengthOf(lead: Byte): (n: nat)
    ensures n <= 4
  {
    if lead <= 0x7F then 1
    else if In(lead, 0xC2, 0xDF) then 2
    else if In(lead, 0xE0, 0xEF) then 3
    else if In(lead, 0xF0, 0xF4) then 4
    else 0
  }

  /** The length of the well-formed character `s` starts with, or 0. */
  function CharLen(s: Bytes): (n: nat)
    ensures n <= 4 && n <= |s|
  {
    if s == [] || LengthOf(s[0]) > |s| then 0
    else
      var n := LengthOf(s[0]);
      if (n >= 2 ==> SecondAfter(s[0], s[1])) && (n >= 3 ==> Tail(s[2])) && (n >= 4 ==> Tail(s[3])) then n else 0
  }

  /** How far `s` consists of whole, well-formed characters. */
  function ValidUpTo(s: Bytes): (n: nat)
    ensures n <= |s|
  {
    if CharLen(s) == 0 then 0 else CharLen(s) + ValidUpTo(s[CharLen(s)..])
  }

  predicate Valid(s: Bytes) { ValidUpTo(s) == |s| }

  // ---------------------------------------------------------------- the encoding of a code point

  predicate IsScalar(cp: nat) { cp <= 0x10FFFF && !(0xD800 <= cp <= 0xDFFF) }

  /** The bytes of a code point, six bits to each trailing byte. */
  function Encode(cp: nat): (r: Bytes)
    requires IsScalar(cp)
    ensures 1 <= |r| <= 4
  {
    var (high, higher) := (cp / 64, cp / 64 / 64);
    if cp < 0x80 then [cp]
    else if cp < 0x800 then [0xC0 + high, 0x80 + cp % 64]
    else if cp < 0x1_0000 then [0xE0 + higher, 0x80 + high % 64, 0x80 + cp % 64]
    else [0xF0 + higher / 64, 0x80 + higher % 64, 0x80 + high % 64, 0x80 + cp % 64]
  }

  /** Six more bits. */
  function Shift(high: int, b: Byte): int {
    high * 64 + (b - 0x80)
  }

  /** The code point that well-formed bytes stand for. */
  function Decode(s: Bytes): int
    requires CharLen(s) > 0
  {
    match CharLen(s)
    case 1 => s[0]
    case 2 => Shift(s[0] - 0xC0, s[1])
    case 3 => Shift(Shift(s[0] - 0xE0, s[1]), s[2])
    case _ => Shift(Shift(Shift(s[0] - 0xF0, s[1]), s[2]), s[3])
  }

  lemma ShiftSplits(cp: nat)
    ensures 0x80 + cp % 64 <= 0xBF && Shift(cp / 64, 0x80 + cp % 64) == cp
  {}

  lemma ShiftJoins(high: nat, b: Byte)
    requires Tail(b)
    ensures Shift(high, b) >= 0 && Shift(high, b) / 64 == high && 0x80 + Shift(high, b) % 64 == b
  {}

  lemma EncodeShort(cp: nat, s: Bytes)
    requires IsScalar(cp) && cp < 0x800 && Encode(cp) <= s
    ensures CharLen(s) == |Encode(cp)| && Decode(s) == cp
  {
    ShiftSplits(cp);
    assert s[..|Encode(cp)|] == Encode(cp);
  }

  lemma EncodeThree(cp: nat, s: Bytes)
    requires IsScalar(cp) && 0x800 <= cp < 0x1_0000 && Encode(cp) <= s
    ensures CharLen(s) == |Encode(cp)| && Decode(s) == cp
  {
    ShiftSplits(cp);
    ShiftSplits(cp / 64);
    assert s[0] == 0xE0 + cp / 64 / 64 && s[1] == 0x80 + cp / 64 % 64 && s[2] == 0x80 + cp % 64;
  }

  lemma EncodeFour(cp: nat, s: Bytes)
    requires IsScalar(cp) && 0x1_0000 <= cp && Encode(cp) <= s
    ensures CharLen(s) == |Encode(cp)| && Decode(s) == cp
  {
    ShiftSplits(cp);
    ShiftSplits(cp / 64);
    ShiftSplits(cp / 64 / 64);
    assert s[0] == 0xF0 + cp / 64 / 64 / 64 && s[1] == 0x80 + cp / 64 / 64 % 64 &&
      s[2] == 0x80 + cp / 64 % 64 && s[3] == 0x80 + cp % 64;
  }

  /** A code point's bytes are one character, whatever follows, and decode to it. */
  lemma EncodeIsAChar(cp: nat, rest: Bytes)
    requires IsScalar(cp)
    ensures CharLen(Encode(cp) + rest) == |Encode(cp)|
    ensures Decode(Encode(cp) + rest) == cp
  {
    var s := Encode(cp) + rest;
    if cp < 0x800 {
      EncodeShort(cp, s);
    } else if cp < 0x1_0000 {
      EncodeThree(cp, s);
    } else {
      EncodeFour(cp, s);
    }
  }

  lemma ShortIsEncoded(s: Bytes)
    requires 1 <= CharLen(s) <= 2
    ensures Decode(s) >= 0 && IsScalar(Decode(s)) && s[..CharLen(s)] == Encode(Decode(s))
  {
    if CharLen(s) == 2 { ShiftJoins(s[0] - 0xC0, s[1]); }
  }

  lemma ThreeIsEncoded(s: Bytes)
    requires CharLen(s) == 3
    ensures Decode(s) >= 0 && IsScalar(Decode(s)) && s[..3] == Encode(Decode(s))
  {
    ShiftJoins(s[0] - 0xE0, s[1]);
    ShiftJoins(Shift(s[0] - 0xE0, s[1]), s[2]);
    assert s[..3] == [s[0], s[1], s[2]];
  }

  lemma FourIsEncoded(s: Bytes)
    requires CharLen(s) == 4
    ensures Decode(s) >= 0 && IsScalar(Decode(s)) && s[..4] == Encode(Decode(s))
  {
    ShiftJoins(s[0] - 0xF0, s[1]);
    ShiftJoins(Shift(s[0] - 0xF0, s[1]), s[2]);
    ShiftJoins(Shift(Shift(s[0] - 0xF0, s[1]), s[2]), s[3]);
    assert s[..4] == [s[0], s[1], s[2], s[3]];
  }

  /** A well-formed character is the encoding of a code point. */
  lemma CharIsEncoded(s: Bytes)
    requires CharLen(s) > 0
    ensures Decode(s) >= 0 && IsScalar(Decode(s)) && s[..CharLen(s)] == Encode(Decode(s))
  {
    if CharLen(s) <= 2 {
      ShortIsEncoded(s);
    } else if CharLen(s) == 3 {
      ThreeIsEncoded(s);
    } else {
      FourIsEncoded(s);
    }
  }

  ghost predicate Scalars(cps: seq<nat>) {
    forall i :: 0 <= i < |cps| ==> IsScalar(cps[i])
  }

  function EncodeAll(cps: seq<nat>): Bytes
    requires Scalars(cps)
  {
    if cps == [] then [] else Encode(cps[0]) + EncodeAll(cps[1..])
  }

  lemma {:induction false} EncodedIsValid(cps: seq<nat>)
    requires Scalars(cps)
    ensures Valid(EncodeAll(cps))
  {
    if cps != [] {
      EncodedIsValid(cps[1..]);
      EncodeIsAChar(cps[0], EncodeAll(cps[1..]));
      assert EncodeAll(cps)[|Encode(cps[0])|..] == EncodeAll(cps[1..]);
    }
  }

  lemma EncodeAllFirst(cp: nat, rest: seq<nat>)
    requires IsScalar(cp) && Scalars(rest)
    ensures Scalars([cp] + rest) && EncodeAll([cp] + rest) == Encode(cp) + EncodeAll(rest)
  {
    assert ([cp] + rest)[1..] == rest;
  }

  lemma FirstOfValid(s: Bytes) returns (cp: nat, rest: Bytes)
    requires Valid(s) && s != []
    ensures IsScalar(cp) && s == Encode(cp) + rest && Valid(rest) && |rest| < |s|
  {
    hide CharLen, Decode, Encode;
    var n := CharLen(s);
    CharIsEncoded(s);
    cp, rest := Decode(s), s[n..];
    assert s == s[..n] + s[n..];
  }

  lemma {:induction false} ValidIsEncoded(s: Bytes) returns (cps: seq<nat>)
    requires Valid(s)
    ensures Scalars(cps) && EncodeAll(cps) == s
    decreases |s|
  {
    if s == [] {
      cps := [];
    } else {
      var cp, rest := FirstOfValid(s);
      var others := ValidIsEncoded(rest);
      EncodeAllFirst(cp, others);
      cps := [cp] + others;
    }
  }

  ghost predicate Encodes(cps: seq<nat>, s: Bytes) {
    Scalars(cps) && EncodeAll(cps) == s
  }

  /** The well-formed byte sequences of section 4 are exactly the encodings of section 3. */
  lemma ValidExactly(s: Bytes)
    ensures Valid(s) <==> exists cps :: Encodes(cps, s)
  {
    if Valid(s) {
      var cps := ValidIsEncoded(s);
      assert Encodes(cps, s);
    }
    if cps :| Encodes(cps, s) { EncodedIsValid(cps); }
  }

  // ---------------------------------------------------------------- texts

  /** The bytes of a text. */
  function TextBytes(text: string): Bytes {
    if text == "" then [] else Encode(text[0] as nat) + TextBytes(text[1..])
  }

  lemma {:induction false} TextBytesTellTexts(a: string, b: string)
    requires TextBytes(a) == TextBytes(b)
    ensures a == b
    decreases |a|
  {
    hide Encode, CharLen, Decode;
    if a != "" { EncodeIsAChar(a[0] as nat, TextBytes(a[1..])); }
    if b != "" { EncodeIsAChar(b[0] as nat, TextBytes(b[1..])); }
    if a != "" && b != "" {
      var n := CharLen(TextBytes(a));
      assert TextBytes(a)[n..] == TextBytes(a[1..]) && TextBytes(b)[n..] == TextBytes(b[1..]);
      TextBytesTellTexts(a[1..], b[1..]);
      assert a == [a[0]] + a[1..] && b == [b[0]] + b[1..];
    }
  }

  // ---------------------------------------------------------------- cutting

  /** Only the bytes of the character itself decide whether one starts here. */
  lemma CharLenCut(s: Bytes, k: nat)
    requires k <= |s|
    ensures CharLen(s[..k]) == if CharLen(s) <= k then CharLen(s) else 0
  {}

  /** The cut stopped at `v`: everything before is valid, and no whole character fits between. */
  ghost predicate StopsAt(s: Bytes, k: nat, v: nat)
    requires k <= |s|
  {
    v <= k && Valid(s[..v]) && ValidUpTo(s) == v + ValidUpTo(s[v..]) && (CharLen(s[v..]) == 0 || v + CharLen(s[v..]) > k)
  }

  lemma StopsLater(s: Bytes, n: nat, k: nat, v: nat)
    requires n == CharLen(s) && 0 < n <= k <= |s| && StopsAt(s[n..], k - n, v)
    ensures StopsAt(s, k, n + v)
  {
    assert s[..n + v][n..] == s[n..][..v];
    assert s[n + v..] == s[n..][v..];
    CharLenCut(s, n + v);
  }

  lemma StopsHere(s: Bytes, k: nat)
    requires k <= |s| && (CharLen(s) == 0 || CharLen(s) > k)
    ensures ValidUpTo(s[..k]) == 0 && StopsAt(s, k, 0)
  {
    CharLenCut(s, k);
    assert s[0..] == s && s[..0] == [];
  }

  lemma CutNext(s: Bytes, k: nat)
    requires k <= |s| && 0 < CharLen(s) <= k
    ensures ValidUpTo(s[..k]) == CharLen(s) + ValidUpTo(s[CharLen(s)..][..k - CharLen(s)])
  {
    CharLenCut(s, k);
    assert s[..k][CharLen(s)..] == s[CharLen(s)..][..k - CharLen(s)];
  }

  /** What a cut at `k` leaves valid stops at `k` or before a character that does not fit. */
  lemma {:induction false} ValidUpToCut(s: Bytes, k: nat) returns (v: nat)
    requires k <= |s|
    ensures v == ValidUpTo(s[..k]) && StopsAt(s, k, v)
    decreases |s|
  {
    hide CharLen;
    var n := CharLen(s);
    if n > 0 && n <= k {
      var w := ValidUpToCut(s[n..], k - n);
      StopsLater(s, n, k, w);
      CutNext(s, k);
      v := n + w;
    } else {
      StopsHere(s, k);
      v := 0;
    }
  }

  /** `n` bytes are the longest valid beginning. */
  ghost predicate LongestValid(s: Bytes, n: nat) {
    n <= |s| && Valid(s[..n]) && forall k: nat :: n < k <= |s| ==> !Valid(s[..k])
  }

  lemma LongestValidExactly(s: Bytes, n: nat)
    ensures LongestValid(s, n) <==> n == ValidUpTo(s)
  {
    hide CharLen, ValidUpTo;
    forall k: nat | k <= |s| && Valid(s[..k]) ensures k <= ValidUpTo(s) {
      var v := ValidUpToCut(s, k);
    }
    var v := ValidUpToCut(s, |s|);
    assert s[..|s|] == s;
  }

  lemma {:induction false} ValidConcat(a: Bytes, b: Bytes)
    requires Valid(a) && Valid(b)
    ensures Valid(a + b)
    decreases |a|
  {
    if a == [] {
      assert a + b == b;
    } else {
      var n := CharLen(a);
      CharLenCut(a + b, |a|);
      assert (a + b)[..|a|] == a;
      assert (a + b)[n..] == a[n..] + b;
      ValidConcat(a[n..], b);
    }
  }
}
