/** The fingerprint that guards resuming: which graphs it tells apart, and which it does not. */
module Fingerprint {
  import opened Wrappers
  import opened Types
  import opened Utf8
  import opened Words
  import opened Graphs
  import opened GraphCheck
  import TypeCodec

  /** The digest of bytes, and a node's policy as text. */
  datatype Coding = Coding(digest: Bytes -> string, policy: CheckedNode -> string)

  function LengthPrefixed(part: Bytes): Bytes {
    BigEndian(|part|, 8) + part
  }

  /** What the hasher is fed, part by part. */
  function Stream(parts: seq<Bytes>): Bytes {
    if parts == [] then [] else LengthPrefixed(parts[0]) + Stream(parts[1..])
  }

  ghost predicate Short(parts: seq<Bytes>) {
    forall i :: 0 <= i < |parts| ==> |parts[i]| < U64
  }

  lemma PrefixReads(part: Bytes, rest: Bytes)
    requires |part| < U64
    ensures var s := LengthPrefixed(part) + rest;
            |s| == 8 + |part| + |rest| && FromBigEndian(s[..8]) == |part| && s[8..8 + |part|] == part && s[8 + |part|..] == rest
  {
    EightBytes();
    BigEndianReads(|part|, 8);
    var s := LengthPrefixed(part) + rest;
    assert s[..8] == BigEndian(|part|, 8);
  }

  /** Length prefixes need no delimiter: the parts can be told from the stream, and nothing else fits it. */
  lemma {:induction false} StreamTellsParts(a: seq<Bytes>, b: seq<Bytes>)
    requires Short(a) && Short(b) && Stream(a) == Stream(b)
    ensures a == b
    decreases |a|
  {
    hide LengthPrefixed;
    if a != [] { PrefixReads(a[0], Stream(a[1..])); }
    if b != [] { PrefixReads(b[0], Stream(b[1..])); }
    if a != [] && b != [] {
      forall i | 0 <= i < |a[1..]| ensures |a[1..][i]| < U64 { assert a[1..][i] == a[i + 1]; }
      forall i | 0 <= i < |b[1..]| ensures |b[1..][i]| < U64 { assert b[1..][i] == b[i + 1]; }
      StreamTellsParts(a[1..], b[1..]);
      assert a == [a[0]] + a[1..] && b == [b[0]] + b[1..];
    }
  }

  // ---------------------------------------------------------------- what goes in

  function OverOf(node: CheckedNode): string {
    if node.over.Some? then node.over.value else ""
  }

  /** Name, signature, manifest, policy. */
  function NodeTexts(coding: Coding, node: CheckedNode): (t: seq<string>)
    ensures |t| == 4
  {
    [node.name, TypeCodec.DescribeSignature(node.signature), OverOf(node), coding.policy(node)]
  }

  function PartsOf(coding: Coding, nodes: seq<CheckedNode>): seq<Bytes> {
    if nodes == [] then []
    else
      var t := NodeTexts(coding, nodes[0]);
      [TextBytes(t[0]), TextBytes(t[1]), TextBytes(t[2]), TextBytes(t[3])] + PartsOf(coding, nodes[1..])
  }

  function FingerprintOf(coding: Coding, nodes: seq<CheckedNode>): string {
    coding.digest(Stream(PartsOf(coding, nodes)))
  }

  lemma StreamFirst(part: Bytes, rest: seq<Bytes>)
    ensures Stream([part] + rest) == LengthPrefixed(part) + Stream(rest)
  {
    assert ([part] + rest)[1..] == rest;
  }

  lemma StreamFour(a: Bytes, b: Bytes, c: Bytes, d: Bytes, rest: seq<Bytes>)
    ensures Stream([a, b, c, d] + rest) == LengthPrefixed(a) + (LengthPrefixed(b) + (LengthPrefixed(c) + (LengthPrefixed(d) + Stream(rest))))
  {
    hide LengthPrefixed, Stream;
    assert [a, b, c, d] + rest == [a] + ([b] + ([c] + ([d] + rest)));
    StreamFirst(a, [b] + ([c] + ([d] + rest)));
    StreamFirst(b, [c] + ([d] + rest));
    StreamFirst(c, [d] + rest);
    StreamFirst(d, rest);
  }

  lemma Regroup(fed: Bytes, a: Bytes, b: Bytes, c: Bytes, d: Bytes, rest: Bytes)
    ensures fed + (a + (b + (c + (d + rest)))) == fed + a + b + c + d + rest
  {}

  /** One node's four parts. */
  method Feed(coding: Coding, node: CheckedNode, fed: Bytes, ghost rest: seq<CheckedNode>) returns (r: Bytes)
    ensures r + Stream(PartsOf(coding, rest)) == fed + Stream(PartsOf(coding, [node] + rest))
  {
    hide LengthPrefixed, Stream, NodeTexts;
    var t := NodeTexts(coding, node);
    r := fed + LengthPrefixed(TextBytes(t[0]));
    r := r + LengthPrefixed(TextBytes(t[1]));
    r := r + LengthPrefixed(TextBytes(t[2]));
    r := r + LengthPrefixed(TextBytes(t[3]));
    assert ([node] + rest)[1..] == rest;
    StreamFour(TextBytes(t[0]), TextBytes(t[1]), TextBytes(t[2]), TextBytes(t[3]), PartsOf(coding, rest));
    Regroup(fed, LengthPrefixed(TextBytes(t[0])), LengthPrefixed(TextBytes(t[1])), LengthPrefixed(TextBytes(t[2])),
            LengthPrefixed(TextBytes(t[3])), Stream(PartsOf(coding, rest)));
  }

  method GraphFingerprint(coding: Coding, nodes: seq<CheckedNode>) returns (r: string)
    ensures r == FingerprintOf(coding, nodes)
  {
    hide NodeTexts;
    var fed: Bytes := [];
    assert nodes[0..] == nodes;
    for i := 0 to |nodes|
      invariant fed + Stream(PartsOf(coding, nodes[i..])) == Stream(PartsOf(coding, nodes))
    {
      assert nodes[i..] == [nodes[i]] + nodes[i + 1..];
      fed := Feed(coding, nodes[i], fed, nodes[i + 1..]);
    }
    assert fed + [] == fed;
    return coding.digest(fed);
  }

  // ---------------------------------------------------------------- what it tells apart

  ghost predicate SameTexts(coding: Coding, a: seq<CheckedNode>, b: seq<CheckedNode>) {
    |a| == |b| && forall i :: 0 <= i < |a| ==> NodeTexts(coding, a[i]) == NodeTexts(coding, b[i])
  }

  /** The two nodes look the same to whoever resumes: name, printed signature, manifest, printed policy. */
  predicate LooksSame(coding: Coding, a: CheckedNode, b: CheckedNode) {
    && a.name == b.name && TypeCodec.DescribeSignature(a.signature) == TypeCodec.DescribeSignature(b.signature)
    && (a.over == b.over || (a.over in {None, Some("")} && b.over in {None, Some("")}))
    && coding.policy(a) == coding.policy(b)
  }

  ghost predicate AllLookSame(coding: Coding, a: seq<CheckedNode>, b: seq<CheckedNode>) {
    |a| == |b| && forall i :: 0 <= i < |a| ==> LooksSame(coding, a[i], b[i])
  }

  lemma TextsAreLooks(coding: Coding, a: CheckedNode, b: CheckedNode)
    ensures NodeTexts(coding, a) == NodeTexts(coding, b) <==> LooksSame(coding, a, b)
  {
    var (t, u) := (NodeTexts(coding, a), NodeTexts(coding, b));
    assert t == u ==> t[0] == u[0] && t[1] == u[1] && t[2] == u[2] && t[3] == u[3];
  }

  /** The digest fails to tell the two streams apart. */
  ghost predicate Collide(coding: Coding, a: seq<CheckedNode>, b: seq<CheckedNode>) {
    Stream(PartsOf(coding, a)) != Stream(PartsOf(coding, b)) && FingerprintOf(coding, a) == FingerprintOf(coding, b)
  }

  lemma {:induction false} PartsTellTexts(coding: Coding, a: seq<CheckedNode>, b: seq<CheckedNode>)
    requires PartsOf(coding, a) == PartsOf(coding, b)
    ensures SameTexts(coding, a, b)
    decreases |a|
  {
    hide NodeTexts;
    if a != [] && b != [] {
      var (p, q) := (PartsOf(coding, a), PartsOf(coding, b));
      var (t, u) := (NodeTexts(coding, a[0]), NodeTexts(coding, b[0]));
      assert p[4..] == PartsOf(coding, a[1..]) && q[4..] == PartsOf(coding, b[1..]);
      assert p[0] == q[0] && p[1] == q[1] && p[2] == q[2] && p[3] == q[3];
      PartsTellTexts(coding, a[1..], b[1..]);
      TextBytesTellTexts(t[0], u[0]);
      TextBytesTellTexts(t[1], u[1]);
      TextBytesTellTexts(t[2], u[2]);
      TextBytesTellTexts(t[3], u[3]);
      assert t == [t[0], t[1], t[2], t[3]] && u == [u[0], u[1], u[2], u[3]];
      forall i | 0 <= i < |a| ensures NodeTexts(coding, a[i]) == NodeTexts(coding, b[i]) {
        if i > 0 { assert a[i] == a[1..][i - 1] && b[i] == b[1..][i - 1]; }
      }
    }
  }

  lemma {:induction false} TextsMakeParts(coding: Coding, a: seq<CheckedNode>, b: seq<CheckedNode>)
    requires SameTexts(coding, a, b)
    ensures PartsOf(coding, a) == PartsOf(coding, b)
    decreases |a|
  {
    hide NodeTexts;
    if a != [] {
      forall i | 0 <= i < |a[1..]| ensures NodeTexts(coding, a[1..][i]) == NodeTexts(coding, b[1..][i]) {
        assert a[1..][i] == a[i + 1] && b[1..][i] == b[i + 1];
      }
      TextsMakeParts(coding, a[1..], b[1..]);
    }
  }

  /**
   Two graphs have one fingerprint exactly when, node by node, their names, printed signatures,
   manifests (none counting as the empty path) and printed policies are the same, unless the
   digest itself collides. The lengths are 64-bit numbers.
   */
  lemma FingerprintExactly(coding: Coding, a: seq<CheckedNode>, b: seq<CheckedNode>)
    requires Short(PartsOf(coding, a)) && Short(PartsOf(coding, b))
    ensures FingerprintOf(coding, a) == FingerprintOf(coding, b) <==> AllLookSame(coding, a, b) || Collide(coding, a, b)
  {
    forall x, y ensures NodeTexts(coding, x) == NodeTexts(coding, y) <==> LooksSame(coding, x, y) { TextsAreLooks(coding, x, y); }
    if Stream(PartsOf(coding, a)) == Stream(PartsOf(coding, b)) {
      StreamTellsParts(PartsOf(coding, a), PartsOf(coding, b));
      PartsTellTexts(coding, a, b);
    }
    if SameTexts(coding, a, b) { TextsMakeParts(coding, a, b); }
  }

  /** So it does not notice what feeds a node, or how often it may loop, being changed. */
  lemma InputsAreNotFingerprinted(coding: Coding, before: seq<CheckedNode>, node: CheckedNode, after: seq<CheckedNode>,
                                  input: Option<InputExpr>, limit: Option<nat>)
    requires coding.policy(node.(input := input, maxIterations := limit)) == coding.policy(node)
    ensures FingerprintOf(coding, before + [node] + after)
         == FingerprintOf(coding, before + [node.(input := input, maxIterations := limit)] + after)
  {
    var a, b := before + [node] + after, before + [node.(input := input, maxIterations := limit)] + after;
    forall i | 0 <= i < |a| ensures NodeTexts(coding, a[i]) == NodeTexts(coding, b[i]) {
      if i != |before| { assert a[i] == b[i]; }
    }
    TextsMakeParts(coding, a, b);
  }
}
