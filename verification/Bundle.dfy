/** The .cfbundle container: header, JSON manifest, then the stages' bytes end to end. */
module Bundle {
  import opened Wrappers
  import opened Types
  import opened Utf8
  import opened Words
  import TypeCodec

  const MAGIC: Bytes := [0x43, 0x46, 0x42, 0x44]
  const HEADER_LEN: nat := 12

  /** A JSON writer and reader. */
  datatype Json = Json(encode: Value -> Bytes, decode: Bytes -> Result<Value, string>)

  /** The codec reads this one value back as it was written. */
  predicate Keeps(json: Json, v: Value) {
    json.decode(json.encode(v)) == Ok(v)
  }

  datatype Stage = Stage(name: string, kind: string, resolved: Option<string>, signature: Signature, bytes: Bytes)

  // ---------------------------------------------------------------- building

  function KindOf(resolved: Option<string>): Value {
    match resolved
    case Some(s) => Str(s)
    case None => Null
  }

  function NodeValue(s: Stage, offset: nat): Value {
    match s
    case Stage(name, kind, resolved, signature, bytes) =>
      Object(map[
        "name" := Str(name),
        "kind" := Str(kind),
        "resolved" := KindOf(resolved),
        "signature" := Str(TypeCodec.DescribeSignature(signature)),
        "offset" := Num(offset as real),
        "len" := Num(|bytes| as real)])
  }

  function SignatureOf(s: Stage): Signature {
    match s
    case Stage(_, _, _, signature, _) => signature
  }

  function BytesOf(s: Stage): Bytes {
    match s
    case Stage(_, _, _, _, bytes) => bytes
  }

  /** How far into the body the stages after the first `i` start. */
  function OffsetOf(stages: seq<Stage>, i: nat): nat
    requires i <= |stages|
  {
    if i == 0 then 0 else OffsetOf(stages, i - 1) + |BytesOf(stages[i - 1])|
  }

  function NodeValues(stages: seq<Stage>, i: nat): (r: seq<Value>)
    requires i <= |stages|
    ensures |r| == i
  {
    if i == 0 then [] else NodeValues(stages, i - 1) + [NodeValue(stages[i - 1], OffsetOf(stages, i - 1))]
  }

  function Body(stages: seq<Stage>, i: nat): Bytes
    requires i <= |stages|
  {
    if i == 0 then [] else Body(stages, i - 1) + BytesOf(stages[i - 1])
  }

  /** The pipeline's own signature: its first stage's input, its last stage's output. */
  function Whole(stages: seq<Stage>): Signature
    requires stages != []
  {
    Signature(SignatureOf(stages[0]).input, SignatureOf(stages[|stages| - 1]).output)
  }

  function ManifestOf(stages: seq<Stage>): Value
    requires stages != []
  {
    Object(map[
      "manifest_version" := Num(1.0),
      "signature" := Str(TypeCodec.DescribeSignature(Whole(stages))),
      "nodes" := Array(NodeValues(stages, |stages|))])
  }

  function Container(manifest: Bytes, body: Bytes): Bytes {
    MAGIC + LittleEndian(|manifest|, 8) + manifest + body
  }

  /** The container of a pipeline's stages. */
  function Built(json: Json, stages: seq<Stage>): Bytes
    requires stages != []
  {
    Container(json.encode(ManifestOf(stages)), Body(stages, |stages|))
  }

  /** What one more stage adds to the manifest's nodes and to the body. */
  lemma StageNext(stages: seq<Stage>, i: nat, head: Bytes)
    requires i < |stages|
    ensures OffsetOf(stages, i + 1) == OffsetOf(stages, i) + |stages[i].bytes|
    ensures NodeValues(stages, i + 1) == NodeValues(stages, i) + [NodeValue(stages[i], OffsetOf(stages, i))]
    ensures head + Body(stages, i) + stages[i].bytes == head + Body(stages, i + 1)
  {
    hide NodeValue;
    JoinLater(head, Body(stages, i), stages[i].bytes);
  }

  lemma JoinLater(a: Bytes, b: Bytes, c: Bytes)
    ensures a + b + c == a + (b + c)
  {}

  lemma NoStages(stages: seq<Stage>, head: Bytes)
    ensures OffsetOf(stages, 0) == 0 && NodeValues(stages, 0) == [] && head + Body(stages, 0) == head
  {}

  lemma ManifestIs(stages: seq<Stage>, signature: string)
    requires stages != [] && signature == TypeCodec.DescribeSignature(Whole(stages))
    ensures Object(map["manifest_version" := Num(1.0), "signature" := Str(signature), "nodes" := Array(NodeValues(stages, |stages|))])
         == ManifestOf(stages)
  {}

  lemma WholeIs(stages: seq<Stage>)
    requires stages != []
    ensures Whole(stages) == Signature(stages[0].signature.input, stages[|stages| - 1].signature.output)
  {}

  method Build(json: Json, stages: seq<Stage>) returns (out: Bytes)
    requires stages != []
    ensures out == Built(json, stages)
  {
    hide OffsetOf, NodeValues, NodeValue, ManifestOf, Body, LittleEndian, Whole;
    var offset := 0;
    var nodes: seq<Value> := [];
    NoStages(stages, []);
    for i := 0 to |stages|
      invariant offset == OffsetOf(stages, i) && nodes == NodeValues(stages, i)
    {
      StageNext(stages, i, []);
      nodes := nodes + [NodeValue(stages[i], offset)];
      offset := offset + |stages[i].bytes|;
    }
    var signature := TypeCodec.DescribeSignature(Signature(stages[0].signature.input, stages[|stages| - 1].signature.output));
    var manifest := json.encode(Object(map["manifest_version" := Num(1.0), "signature" := Str(signature), "nodes" := Array(nodes)]));
    out := MAGIC;
    out := out + LittleEndian(|manifest|, 8);
    out := out + manifest;
    WholeIs(stages);
    ManifestIs(stages, signature);
    ghost var head := out;
    NoStages(stages, head);
    for i := 0 to |stages|
      invariant out == head + Body(stages, i)
    {
      StageNext(stages, i, head);
      out := out + stages[i].bytes;
    }
  }

  // ---------------------------------------------------------------- reading

  /** `as_u64`: a whole number that fits 64 bits. */
  function AsU64(v: Option<Value>): Option<nat> {
    if v.Some? && v.value.Num? && 0.0 <= v.value.number < U64 as real && v.value.number.Floor as real == v.value.number
    then Some(v.value.number.Floor)
    else None
  }

  /** `checked_add`: None past 64 bits. */
  function CheckedAdd(a: nat, b: nat): Option<nat> {
    if a + b < U64 then Some(a + b) else None
  }

  predicate InBounds(node: Value, bodyLen: nat) {
    var (offset, len) := (AsU64(node.Get("offset")), AsU64(node.Get("len")));
    offset.Some? && len.Some? && CheckedAdd(offset.value, len.value).Some? && offset.value + len.value <= bodyLen
  }

  ghost predicate AllInBounds(manifest: Value, bodyLen: nat) {
    manifest.Get("nodes").Some? && manifest.Get("nodes").value.Array? ==>
      forall i :: 0 <= i < |manifest.Get("nodes").value.items| ==> InBounds(manifest.Get("nodes").value.items[i], bodyLen)
  }

  function ManifestLen(bytes: Bytes): nat
    requires |bytes| >= HEADER_LEN
  {
    FromLittleEndian(bytes[4..HEADER_LEN])
  }

  /** The header and the manifest fit, and the manifest is JSON. */
  ghost predicate Opens(json: Json, bytes: Bytes) {
    |bytes| >= HEADER_LEN && HEADER_LEN + ManifestLen(bytes) < U64 && HEADER_LEN + ManifestLen(bytes) <= |bytes| &&
    json.decode(bytes[HEADER_LEN..HEADER_LEN + ManifestLen(bytes)]).Ok?
  }

  function ReadManifest(json: Json, bytes: Bytes): Value
    requires Opens(json, bytes)
  {
    json.decode(bytes[HEADER_LEN..HEADER_LEN + ManifestLen(bytes)]).value
  }

  method ReadSignature(json: Json, bytes: Bytes) returns (r: Result<string, string>)
    ensures r.Ok? <==> Opens(json, bytes) && AllInBounds(ReadManifest(json, bytes), |bytes| - HEADER_LEN - ManifestLen(bytes)) &&
                       ReadManifest(json, bytes).GetText("signature").Some?
    ensures r.Ok? ==> Some(r.value) == ReadManifest(json, bytes).GetText("signature")
  {
    if |bytes| < HEADER_LEN {
      return Err("shorter than the bundle header");
    }
    var manifestLen := FromLittleEndian(bytes[4..HEADER_LEN]);
    var end := CheckedAdd(HEADER_LEN, manifestLen);
    if end.None? || end.value > |bytes| {
      return Err("manifest_len exceeds the file's actual length");
    }
    var decoded := json.decode(bytes[HEADER_LEN..end.value]);
    if decoded.Err? {
      return Err("manifest is not valid JSON");
    }
    var manifest := decoded.value;
    var nodes := manifest.Get("nodes");
    if nodes.Some? && nodes.value.Array? {
      var bodyLen := |bytes| - HEADER_LEN - manifestLen;
      for i := 0 to |nodes.value.items|
        invariant forall k :: 0 <= k < i ==> InBounds(nodes.value.items[k], bodyLen)
      {
        if !InBounds(nodes.value.items[i], bodyLen) {
          return Err("a node does not fit within the stage-bytes region");
        }
      }
    }
    var signature := manifest.GetText("signature");
    if signature.None? {
      return Err("manifest has no string field signature");
    }
    return Ok(signature.value);
  }

  // ---------------------------------------------------------------- round trip

  lemma ContainerParts(manifest: Bytes, body: Bytes)
    requires |manifest| + HEADER_LEN < U64
    ensures var c := Container(manifest, body);
            |c| == HEADER_LEN + |manifest| + |body| && c[..4] == MAGIC && ManifestLen(c) == |manifest| &&
            c[HEADER_LEN..HEADER_LEN + |manifest|] == manifest && c[HEADER_LEN + |manifest|..] == body
  {
    var c := Container(manifest, body);
    EightBytes();
    LittleEndianReads(|manifest|, 8);
    assert c[4..HEADER_LEN] == LittleEndian(|manifest|, 8);
  }

  lemma {:induction false} OffsetIsBody(stages: seq<Stage>, i: nat)
    requires i <= |stages|
    ensures |Body(stages, i)| == OffsetOf(stages, i)
  {
    if i > 0 { OffsetIsBody(stages, i - 1); }
  }

  lemma {:induction false} StageInBody(stages: seq<Stage>, i: nat, n: nat)
    requires i < n <= |stages|
    ensures OffsetOf(stages, i) + |stages[i].bytes| <= OffsetOf(stages, n)
    ensures OffsetOf(stages, n) == |Body(stages, n)|
    ensures Body(stages, n)[OffsetOf(stages, i)..OffsetOf(stages, i) + |stages[i].bytes|] == stages[i].bytes
  {
    OffsetIsBody(stages, n);
    OffsetIsBody(stages, n - 1);
    if i < n - 1 {
      StageInBody(stages, i, n - 1);
      assert Body(stages, n)[..OffsetOf(stages, n - 1)] == Body(stages, n - 1);
    }
  }

  lemma {:induction false} NodeValueAt(stages: seq<Stage>, i: nat, n: nat)
    requires i < n <= |stages|
    ensures NodeValues(stages, n)[i] == NodeValue(stages[i], OffsetOf(stages, i))
  {
    if i < n - 1 { NodeValueAt(stages, i, n - 1); }
  }

  lemma NodeNumbers(s: Stage, offset: nat)
    requires offset + |s.bytes| < U64
    ensures AsU64(NodeValue(s, offset).Get("offset")) == Some(offset)
    ensures AsU64(NodeValue(s, offset).Get("len")) == Some(|s.bytes|)
  {}

  /** Small enough for its lengths to be 64-bit numbers. */
  predicate Fits(json: Json, stages: seq<Stage>)
    requires stages != []
  {
    HEADER_LEN + |json.encode(ManifestOf(stages))| + OffsetOf(stages, |stages|) < U64
  }

  /** Where a node recorded in the manifest says its bytes are, counted from the start of the container. */
  function NodeBytes(json: Json, bytes: Bytes, node: Value): Option<Bytes>
    requires Opens(json, bytes)
  {
    var (offset, len) := (AsU64(node.Get("offset")), AsU64(node.Get("len")));
    var start := HEADER_LEN + ManifestLen(bytes);
    if offset.Some? && len.Some? && start + offset.value + len.value <= |bytes|
    then Some(bytes[start + offset.value..start + offset.value + len.value])
    else None
  }

  /** What is built opens, and its manifest is the one written. */
  lemma BuiltOpens(json: Json, stages: seq<Stage>)
    requires stages != [] && Keeps(json, ManifestOf(stages)) && Fits(json, stages)
    ensures var built := Built(json, stages);
            Opens(json, built) && ReadManifest(json, built) == ManifestOf(stages) &&
            ManifestLen(built) == |json.encode(ManifestOf(stages))| &&
            |built| == HEADER_LEN + ManifestLen(built) + OffsetOf(stages, |stages|)
  {
    ContainerParts(json.encode(ManifestOf(stages)), Body(stages, |stages|));
    OffsetIsBody(stages, |stages|);
  }

  lemma NodeBytesAre(json: Json, bytes: Bytes, node: Value, offset: nat, len: nat)
    requires Opens(json, bytes) && AsU64(node.Get("offset")) == Some(offset) && AsU64(node.Get("len")) == Some(len)
    requires HEADER_LEN + ManifestLen(bytes) + offset + len <= |bytes|
    ensures NodeBytes(json, bytes, node) == Some(bytes[HEADER_LEN + ManifestLen(bytes)..][offset..offset + len])
  {
    hide Opens, ManifestLen, AsU64;
    SliceOfRest(bytes, HEADER_LEN + ManifestLen(bytes), offset, len);
  }

  lemma NodeInBounds(node: Value, offset: nat, len: nat, bodyLen: nat)
    requires AsU64(node.Get("offset")) == Some(offset) && AsU64(node.Get("len")) == Some(len)
    requires offset + len <= bodyLen < U64
    ensures InBounds(node, bodyLen)
  {
    hide AsU64;
  }

  /** The container opens, and the `i`-th node of its manifest says where these bytes are, inside the body. */
  ghost predicate HoldsAt(json: Json, bytes: Bytes, i: nat, content: Bytes) {
    Opens(json, bytes) &&
    var nodes := ReadManifest(json, bytes).Get("nodes");
    nodes.Some? && nodes.value.Array? && i < |nodes.value.items| &&
    NodeBytes(json, bytes, nodes.value.items[i]) == Some(content) &&
    InBounds(nodes.value.items[i], |bytes| - HEADER_LEN - ManifestLen(bytes))
  }

  /** Every node of a built bundle is found where the manifest puts it, whatever its bytes are. */
  lemma NodesFound(json: Json, stages: seq<Stage>, i: nat)
    requires i < |stages| && Keeps(json, ManifestOf(stages)) && Fits(json, stages)
    ensures HoldsAt(json, Built(json, stages), i, stages[i].bytes)
  {
    hide Body, NodeValues, NodeValue, ManifestOf, Container, ManifestLen, Opens, NodeBytes, InBounds, OffsetOf, AsU64;
    var manifest, body := json.encode(ManifestOf(stages)), Body(stages, |stages|);
    var node, offset, len := NodeValues(stages, |stages|)[i], OffsetOf(stages, i), |stages[i].bytes|;
    BuiltOpens(json, stages);
    ContainerParts(manifest, body);
    StageInBody(stages, i, |stages|);
    NodeValueAt(stages, i, |stages|);
    NodeNumbers(stages[i], offset);
    NodeBytesAre(json, Container(manifest, body), node, offset, len);
    NodeInBounds(node, offset, len, OffsetOf(stages, |stages|));
    NodesOfManifest(stages);
  }

  lemma NodesOfManifest(stages: seq<Stage>)
    requires stages != []
    ensures ManifestOf(stages).Get("nodes") == Some(Array(NodeValues(stages, |stages|)))
  {}

  /** The `i`-th node of the manifest tells a stage's name, kind, resolution and signature. */
  ghost predicate NamesStage(manifest: Value, i: nat, s: Stage) {
    var nodes := manifest.Get("nodes");
    nodes.Some? && nodes.value.Array? && i < |nodes.value.items| &&
    var node := nodes.value.items[i];
    && node.GetText("name") == Some(s.name) && node.GetText("kind") == Some(s.kind)
    && node.GetText("signature") == Some(TypeCodec.DescribeSignature(s.signature))
    && (s.resolved.Some? ==> node.GetText("resolved") == s.resolved) && (s.resolved.None? ==> node.Get("resolved") == Some(Null))
  }

  /** And tells what it is: one node for each stage, in order, under the manifest's first version. */
  lemma ManifestNamesStages(json: Json, stages: seq<Stage>)
    requires stages != [] && Keeps(json, ManifestOf(stages)) && Fits(json, stages)
    ensures var built := Built(json, stages);
            Opens(json, built) && built[..4] == [0x43, 0x46, 0x42, 0x44] &&
            var manifest := ReadManifest(json, built);
            manifest.Get("manifest_version") == Some(Num(1.0)) &&
            manifest.Get("nodes").Some? && manifest.Get("nodes").value.Array? && |manifest.Get("nodes").value.items| == |stages| &&
            forall i :: 0 <= i < |stages| ==> NamesStage(manifest, i, stages[i])
  {
    hide Fits, OffsetOf, Body, NodeValues, Opens, ManifestLen;
    BuiltOpens(json, stages);
    BuiltIsMarked(json, stages);
    NodesOfManifest(stages);
    forall i | 0 <= i < |stages| ensures NamesStage(ManifestOf(stages), i, stages[i]) {
      NodeValueAt(stages, i, |stages|);
      NodeNames(stages[i], OffsetOf(stages, i));
    }
  }

  lemma BuiltIsMarked(json: Json, stages: seq<Stage>)
    requires stages != []
    ensures |Built(json, stages)| >= 4 && Built(json, stages)[..4] == [0x43, 0x46, 0x42, 0x44]
  {
    hide ManifestOf, Body;
  }

  lemma NodeNames(s: Stage, offset: nat)
    ensures var node := NodeValue(s, offset);
            node.GetText("name") == Some(s.name) && node.GetText("kind") == Some(s.kind) &&
            node.GetText("signature") == Some(TypeCodec.DescribeSignature(s.signature)) &&
            (s.resolved.Some? ==> node.GetText("resolved") == s.resolved) && (s.resolved.None? ==> node.Get("resolved") == Some(Null))
  {}

  lemma SliceOfRest(s: Bytes, start: nat, offset: nat, len: nat)
    requires start + offset + len <= |s|
    ensures s[start + offset..start + offset + len] == s[start..][offset..offset + len]
  {}

  /** The reader accepts what the builder writes and returns the pipeline's signature. */
  lemma BuiltIsAccepted(json: Json, stages: seq<Stage>)
    requires stages != [] && Keeps(json, ManifestOf(stages)) && Fits(json, stages)
    ensures var built := Built(json, stages);
            Opens(json, built) && ReadManifest(json, built) == ManifestOf(stages) &&
            AllInBounds(ManifestOf(stages), |built| - HEADER_LEN - ManifestLen(built)) &&
            ManifestOf(stages).GetText("signature") == Some(TypeCodec.DescribeSignature(Whole(stages)))
  {
    BuiltOpens(json, stages);
    NodesOfManifest(stages);
    var nodes := NodeValues(stages, |stages|);
    forall i | 0 <= i < |nodes| ensures InBounds(nodes[i], OffsetOf(stages, |stages|)) { NodesFound(json, stages, i); }
  }

  /** Conversely, every node of any container the reader accepts lies inside its body. */
  lemma AcceptedNodesInside(json: Json, bytes: Bytes, i: nat)
    requires Opens(json, bytes) && AllInBounds(ReadManifest(json, bytes), |bytes| - HEADER_LEN - ManifestLen(bytes))
    requires var nodes := ReadManifest(json, bytes).Get("nodes"); nodes.Some? && nodes.value.Array? && i < |nodes.value.items|
    ensures var node := ReadManifest(json, bytes).Get("nodes").value.items[i];
            NodeBytes(json, bytes, node).Some? &&
            HEADER_LEN + ManifestLen(bytes) + AsU64(node.Get("offset")).value + AsU64(node.Get("len")).value <= |bytes|
  {
    var node := ReadManifest(json, bytes).Get("nodes").value.items[i];
    assert InBounds(node, |bytes| - HEADER_LEN - ManifestLen(bytes));
  }

  /** Building, reading back, and reading a bundle nested as a stage. */
  method BuildAndRead(json: Json, stages: seq<Stage>) returns (built: Bytes, signature: Result<string, string>)
    requires stages != [] && Keeps(json, ManifestOf(stages)) && Fits(json, stages)
    ensures signature == Ok(TypeCodec.DescribeSignature(Whole(stages)))
    ensures forall i :: 0 <= i < |stages| ==> HoldsAt(json, built, i, stages[i].bytes)
  {
    built := Build(json, stages);
    BuiltIsAccepted(json, stages);
    signature := ReadSignature(json, built);
    forall i | 0 <= i < |stages| ensures HoldsAt(json, built, i, stages[i].bytes) { NodesFound(json, stages, i); }
  }
}
