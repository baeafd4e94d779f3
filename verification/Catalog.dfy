/** The catalog's index: what adding and removing do to it, one transaction at a time. */
module Catalog {
  import opened Wrappers

  type Bytes = seq<bv8>

  datatype Kind = Block | Bundle | Script

  datatype Entry = Entry(hash: string, kind: Kind, signature: string, createdAt: string)

  /** `retired` keeps the hash each removed name@version was published with. */
  datatype Index = Index(entries: map<string, Entry>, retired: map<string, string>)

  const EMPTY_INDEX := Index(map[], map[])

  datatype CatalogError =
    | AlreadyExists(nameVersion: string)
    | RetiredWithDifferentContent(nameVersion: string, previousHash: string, newHash: string)
    | NotFound(nameVersion: string)

  datatype Op =
    | Add(nameVersion: string, bytes: Bytes, kind: Kind, signature: string, createdAt: string)
    | Rm(nameVersion: string)

  /** What stands for SHA-256 in hex. */
  type Digest = Bytes -> string

  /** Every digest is 64 lowercase hex digits. */
  ghost predicate InHex(sha: Digest) {
    forall a :: WellFormedHex(sha(a))
  }

  /** No two of these contents share a digest. */
  ghost predicate TellsApart(sha: Digest, contents: set<Bytes>) {
    forall a, b :: a in contents && b in contents && sha(a) == sha(b) ==> a == b
  }

  predicate WellFormedHex(hex: string) {
    |hex| == 64 && forall c :: c in hex ==> '0' <= c <= '9' || 'a' <= c <= 'f'
  }

  const PREFIX := "sha256:"

  function EntryFor(sha: Digest, op: Op): Entry
    requires op.Add?
  {
    Entry(PREFIX + sha(op.bytes), op.kind, op.signature, op.createdAt)
  }

  // ---------------------------------------------------------------- there are such digests

  function HexDigit(d: nat): char
    requires d < 16
  {
    "0123456789abcdef"[d]
  }

  function Hex(n: nat, digits: nat): (s: string)
    ensures |s| == digits
  {
    if digits == 0 then "" else Hex(n / 16, digits - 1) + [HexDigit(n % 16)]
  }

  function Sixteens(n: nat): nat {
    if n == 0 then 1 else Sixteens(n - 1) * 16
  }

  lemma {:induction false} HexIsWellFormed(n: nat, digits: nat)
    ensures forall c :: c in Hex(n, digits) ==> '0' <= c <= '9' || 'a' <= c <= 'f'
  {
    if digits > 0 { HexIsWellFormed(n / 16, digits - 1); }
  }

  lemma {:induction false} HexTellsApart(m: nat, n: nat, digits: nat)
    requires m < Sixteens(digits) && n < Sixteens(digits) && Hex(m, digits) == Hex(n, digits)
    ensures m == n
  {
    if digits > 0 {
      var (a, b) := (Hex(m, digits), Hex(n, digits));
      assert a[..digits - 1] == Hex(m / 16, digits - 1) && b[..digits - 1] == Hex(n / 16, digits - 1);
      assert a[digits - 1] == HexDigit(m % 16) && b[digits - 1] == HexDigit(n % 16);
      HexTellsApart(m / 16, n / 16, digits - 1);
    }
  }

  /** The first position of a content in a list, or its length. */
  function PositionOf(contents: seq<Bytes>, b: Bytes): (i: nat)
    ensures i <= |contents| && (b in contents ==> i < |contents| && contents[i] == b)
  {
    if contents == [] || contents[0] == b then 0 else 1 + PositionOf(contents[1..], b)
  }

  /** For any list of fewer than 16^64 contents there is a digest that is well formed and tells them apart. */
  lemma DigestExists(contents: seq<Bytes>) returns (sha: Digest)
    requires |contents| < Sixteens(64)
    ensures InHex(sha) && TellsApart(sha, set b | b in contents)
  {
    sha := (b: Bytes) => Hex(PositionOf(contents, b), 64);
    forall a ensures WellFormedHex(sha(a)) { HexIsWellFormed(PositionOf(contents, a), 64); }
    forall a, b | a in contents && b in contents && sha(a) == sha(b) ensures a == b {
      HexTellsApart(PositionOf(contents, a), PositionOf(contents, b), 64);
    }
  }

  // ---------------------------------------------------------------- one transaction

  function Apply(sha: Digest, index: Index, op: Op): Result<Index, CatalogError> {
    match op
    case Add(nv, bytes, _, _, _) =>
      var entry := EntryFor(sha, op);
      if nv in index.entries then Err(AlreadyExists(nv))
      else if nv in index.retired && index.retired[nv] != entry.hash then
        Err(RetiredWithDifferentContent(nv, index.retired[nv], entry.hash))
      else Ok(Index(index.entries[nv := entry], index.retired - {nv}))
    case Rm(nv) =>
      if nv in index.entries then Ok(Index(index.entries - {nv}, index.retired[nv := index.entries[nv].hash]))
      else Err(NotFound(nv))
  }

  /** The copy of the index a transaction works on. */
  class IndexFile {
    var entries: map<string, Entry>
    var retired: map<string, string>

    constructor (index: Index)
      ensures Contents() == index
    {
      entries, retired := index.entries, index.retired;
    }

    function Contents(): Index
      reads this
    {
      Index(entries, retired)
    }

    method Add(nameVersion: string, entry: Entry) returns (r: Result<(), CatalogError>)
      modifies this
      ensures r.Ok? <==> nameVersion !in old(entries) && (nameVersion in old(retired) ==> old(retired)[nameVersion] == entry.hash)
      ensures r.Ok? ==> entries == old(entries)[nameVersion := entry] && retired == old(retired) - {nameVersion}
      ensures r.Err? ==> Contents() == old(Contents())
      ensures r.Err? ==> r.error == if nameVersion in old(entries) then AlreadyExists(nameVersion)
                                    else RetiredWithDifferentContent(nameVersion, old(retired)[nameVersion], entry.hash)
    {
      if nameVersion in entries {
        return Err(AlreadyExists(nameVersion));
      }
      if nameVersion in retired {
        if retired[nameVersion] != entry.hash {
          return Err(RetiredWithDifferentContent(nameVersion, retired[nameVersion], entry.hash));
        }
        retired := retired - {nameVersion};
      }
      entries := entries[nameVersion := entry];
      assert retired == old(retired) - {nameVersion};
      return Ok(());
    }

    method Rm(nameVersion: string) returns (r: Result<(), CatalogError>)
      modifies this
      ensures r.Ok? <==> nameVersion in old(entries)
      ensures r.Ok? ==> entries == old(entries) - {nameVersion}
      ensures r.Ok? ==> retired == old(retired)[nameVersion := old(entries)[nameVersion].hash]
      ensures r.Err? ==> Contents() == old(Contents()) && r.error == NotFound(nameVersion)
    {
      if nameVersion in entries {
        retired := retired[nameVersion := entries[nameVersion].hash];
        entries := entries - {nameVersion};
        return Ok(());
      }
      return Err(NotFound(nameVersion));
    }
  }

  /** What a transaction does to its copy is what `Apply` says. */
  method Transact(sha: Digest, file: IndexFile, op: Op) returns (r: Result<(), CatalogError>)
    modifies file
    ensures var expected := Apply(sha, old(file.Contents()), op);
            r.Ok? == expected.Ok? && (r.Err? ==> r.error == expected.error) &&
            file.Contents() == if expected.Ok? then expected.value else old(file.Contents())
  {
    match op {
      case Add(nv, _, _, _, _) => r := file.Add(nv, EntryFor(sha, op));
      case Rm(nv) => r := file.Rm(nv);
    }
  }

  // ---------------------------------------------------------------- what transactions keep

  ghost predicate Disjoint(index: Index) {
    index.entries.Keys !! index.retired.Keys
  }

  /** The content a name@version stands for, published now or before it was removed. */
  function Claim(index: Index, nv: string): Option<string> {
    if nv in index.entries then Some(index.entries[nv].hash)
    else if nv in index.retired then Some(index.retired[nv])
    else None
  }

  /** The index after a sequence of transactions, the refused ones leaving it alone. */
  function Fold(sha: Digest, ops: seq<Op>): Index {
    if ops == [] then EMPTY_INDEX
    else
      var before := Fold(sha, ops[..|ops| - 1]);
      var after := Apply(sha, before, ops[|ops| - 1]);
      if after.Ok? then after.value else before
  }

  lemma ApplyKeepsDisjoint(sha: Digest, index: Index, op: Op)
    requires Disjoint(index)
    ensures Apply(sha, index, op).Ok? ==> Disjoint(Apply(sha, index, op).value)
  {}

  lemma {:induction false} FoldDisjoint(sha: Digest, ops: seq<Op>)
    ensures Disjoint(Fold(sha, ops))
  {
    if ops != [] {
      FoldDisjoint(sha, ops[..|ops| - 1]);
      ApplyKeepsDisjoint(sha, Fold(sha, ops[..|ops| - 1]), ops[|ops| - 1]);
    }
  }

  /** Once claimed, a name@version stands for the same content in every later index, removed or not. */
  lemma {:induction false} ClaimsNeverChange(sha: Digest, ops: seq<Op>, i: nat, nv: string)
    requires i <= |ops| && Claim(Fold(sha, ops[..i]), nv).Some?
    ensures Claim(Fold(sha, ops), nv) == Claim(Fold(sha, ops[..i]), nv)
    decreases |ops|
  {
    if i == |ops| {
      assert ops[..i] == ops;
    } else {
      var front := ops[..|ops| - 1];
      assert front[..i] == ops[..i];
      ClaimsNeverChange(sha, front, i, nv);
    }
  }

  /** The `i`-th transaction added the name, and was not refused. */
  ghost predicate AddedAt(sha: Digest, ops: seq<Op>, i: nat, nv: string) {
    i < |ops| && ops[i].Add? && ops[i].nameVersion == nv && Apply(sha, Fold(sha, ops[..i]), ops[i]).Ok?
  }

  lemma {:induction false} ClaimWasAdded(sha: Digest, ops: seq<Op>, nv: string) returns (i: nat)
    requires Claim(Fold(sha, ops), nv).Some?
    ensures AddedAt(sha, ops, i, nv)
    decreases |ops|
  {
    var front := ops[..|ops| - 1];
    if Claim(Fold(sha, front), nv).Some? {
      i := ClaimWasAdded(sha, front, nv);
      assert front[..i] == ops[..i];
    } else {
      i := |ops| - 1;
    }
  }

  lemma AddedIsClaimedFor(sha: Digest, ops: seq<Op>, i: nat, nv: string)
    requires AddedAt(sha, ops, i, nv)
    ensures Claim(Fold(sha, ops), nv) == Some(EntryFor(sha, ops[i]).hash)
  {
    assert ops[..i + 1][..i] == ops[..i];
    ClaimsNeverChange(sha, ops, i + 1, nv);
  }

  /**
   After any transactions, an add succeeds exactly when the name is not published and every add of
   it that ever succeeded was of the same content.
   */
  lemma AddSucceedsExactly(sha: Digest, ops: seq<Op>, op: Op)
    requires op.Add?
    ensures Apply(sha, Fold(sha, ops), op).Ok? <==>
              op.nameVersion !in Fold(sha, ops).entries &&
              forall i: nat :: AddedAt(sha, ops, i, op.nameVersion) ==> EntryFor(sha, ops[i]).hash == EntryFor(sha, op).hash
  {
    var nv := op.nameVersion;
    forall i: nat | AddedAt(sha, ops, i, nv) ensures Claim(Fold(sha, ops), nv) == Some(EntryFor(sha, ops[i]).hash) {
      AddedIsClaimedFor(sha, ops, i, nv);
    }
    if Claim(Fold(sha, ops), nv).Some? {
      var i := ClaimWasAdded(sha, ops, nv);
    }
    FoldDisjoint(sha, ops);
  }

  // ---------------------------------------------------------------- what an entry is

  ghost predicate TookEffect(sha: Digest, ops: seq<Op>, i: nat) {
    i < |ops| && Apply(sha, Fold(sha, ops[..i]), ops[i]).Ok?
  }

  /** The `i`-th transaction added the name, and nothing has happened to the name since. */
  ghost predicate LatestAdd(sha: Digest, ops: seq<Op>, nv: string, i: nat) {
    TookEffect(sha, ops, i) && ops[i].Add? && ops[i].nameVersion == nv &&
    forall j: nat :: i < j && TookEffect(sha, ops, j) ==> ops[j].nameVersion != nv
  }

  /** The entry is what that transaction brought, part by part. */
  ghost predicate Records(sha: Digest, e: Entry, op: Op) {
    op.Add? && e.hash == "sha256:" + sha(op.bytes) && e.kind == op.kind && e.signature == op.signature && e.createdAt == op.createdAt
  }

  lemma LatestLater(sha: Digest, ops: seq<Op>, last: Op, nv: string, i: nat)
    requires i < |ops|
    ensures TookEffect(sha, ops + [last], i) <==> TookEffect(sha, ops, i)
    ensures TookEffect(sha, ops + [last], |ops|) <==> Apply(sha, Fold(sha, ops), last).Ok?
    ensures LatestAdd(sha, ops + [last], nv, i) <==>
            LatestAdd(sha, ops, nv, i) && !(Apply(sha, Fold(sha, ops), last).Ok? && last.nameVersion == nv)
  {
    hide Apply, Fold;
    var longer := ops + [last];
    assert longer[..|ops|] == ops;
    forall j: nat | j < |ops| ensures TookEffect(sha, longer, j) <==> TookEffect(sha, ops, j) { assert longer[..j] == ops[..j]; }
    if LatestAdd(sha, longer, nv, i) {
      forall j: nat | i < j && TookEffect(sha, ops, j) ensures ops[j].nameVersion != nv { assert TookEffect(sha, longer, j); }
    }
  }

  /** A name's entry is what the latest transaction that took effect on it brought, if that was an add; else there is none. */
  lemma {:induction false} EntryExactly(sha: Digest, ops: seq<Op>, nv: string)
    ensures nv in Fold(sha, ops).entries <==> exists i: nat :: LatestAdd(sha, ops, nv, i)
    ensures forall i: nat :: LatestAdd(sha, ops, nv, i) ==> nv in Fold(sha, ops).entries && Records(sha, Fold(sha, ops).entries[nv], ops[i])
    decreases |ops|
  {
    if ops != [] {
      hide LatestAdd, TookEffect, Fold;
      var front, last := ops[..|ops| - 1], ops[|ops| - 1];
      assert ops == front + [last];
      EntryExactly(sha, front, nv);
      FoldStep(sha, front, last);
      forall i: nat | i < |front|
        ensures LatestAdd(sha, ops, nv, i) <==>
                LatestAdd(sha, front, nv, i) && !(Apply(sha, Fold(sha, front), last).Ok? && last.nameVersion == nv)
      {
        LatestLater(sha, front, last, nv, i);
      }
      forall i: nat ensures LatestAdd(sha, front, nv, i) ==> i < |front| { LatestIsInside(sha, front, nv, i); }
      LatestIsLast(sha, front, last, nv);
      if Apply(sha, Fold(sha, front), last).Ok? { EntryStep(sha, Fold(sha, front), last, nv); }
      forall i: nat ensures LatestAdd(sha, ops, nv, i) ==> i < |ops| { LatestIsInside(sha, ops, nv, i); }
      forall i: nat | LatestAdd(sha, ops, nv, i)
        ensures nv in Fold(sha, ops).entries && Records(sha, Fold(sha, ops).entries[nv], ops[i])
      {
        if i < |front| { assert front[i] == ops[i] && LatestAdd(sha, front, nv, i); } else { assert ops[i] == last; }
      }
      if i: nat :| LatestAdd(sha, front, nv, i) { assert LatestAdd(sha, ops, nv, i) || LatestAdd(sha, ops, nv, |front|) || nv !in Fold(sha, ops).entries; }
    }
  }

  lemma FoldStep(sha: Digest, ops: seq<Op>, last: Op)
    ensures var r := Apply(sha, Fold(sha, ops), last);
            Fold(sha, ops + [last]) == if r.Ok? then r.value else Fold(sha, ops)
  {
    assert (ops + [last])[..|ops|] == ops;
  }

  lemma LatestIsInside(sha: Digest, ops: seq<Op>, nv: string, i: nat)
    ensures LatestAdd(sha, ops, nv, i) ==> i < |ops|
  {}

  lemma LatestIsLast(sha: Digest, ops: seq<Op>, last: Op, nv: string)
    ensures LatestAdd(sha, ops + [last], nv, |ops|) <==>
            Apply(sha, Fold(sha, ops), last).Ok? && last.Add? && last.nameVersion == nv
  {
    assert (ops + [last])[..|ops|] == ops;
  }

  lemma EntryStep(sha: Digest, index: Index, op: Op, nv: string)
    requires Apply(sha, index, op).Ok?
    ensures var next := Apply(sha, index, op).value;
            (op.nameVersion != nv ==> (nv in next.entries <==> nv in index.entries) && (nv in next.entries ==> next.entries[nv] == index.entries[nv])) &&
            (op.nameVersion == nv ==> (nv in next.entries <==> op.Add?) && (nv in next.entries ==> Records(sha, next.entries[nv], op)))
  {}
}
