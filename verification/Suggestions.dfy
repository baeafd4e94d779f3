/** "Did you mean": which catalogued names are offered for one that is not there. */
module Suggestions {
  import opened Strings
  import opened EditDistance

  const MAX_DISTANCE := 2
  const LIMIT := 5

  /** What the index records of each name@version, as far as suggestions go: when it was added. */
  type CreatedAt = map<string, string>

  /** The part of a name before its version. */
  function BareName(nameVersion: string): (name: string)
    ensures '@' !in name
    ensures name <= nameVersion && (|name| < |nameVersion| ==> nameVersion[|name|] == '@')
  {
    if nameVersion == [] || nameVersion[0] == '@' then []
    else [nameVersion[0]] + BareName(nameVersion[1..])
  }

  predicate Close(target: string, nameVersion: string) {
    Distance(BareName(target), BareName(nameVersion)) <= MAX_DISTANCE
  }

  /** The newest version of its name among `keys`; of several equally new, the first in key order. */
  ghost predicate NewestAmong(entries: CreatedAt, keys: set<string>, nameVersion: string)
    requires keys <= entries.Keys
  {
    nameVersion in keys && forall k :: k in keys && BareName(k) == BareName(nameVersion) && k != nameVersion ==>
      Precedes(entries[k], entries[nameVersion], nameVersion, k)
  }

  /** Older, or as old and later in key order. */
  predicate Precedes(created: string, newest: string, nameVersion: string, k: string) {
    if created == newest then Less(nameVersion, k) else Less(created, newest)
  }

  // ---------------------------------------------------------------- collecting the names

  ghost predicate Chosen(target: string, entries: CreatedAt, keys: set<string>, name: string, nameVersion: string)
    requires keys <= entries.Keys
  {
    BareName(nameVersion) == name && Close(target, nameVersion) && NewestAmong(entries, keys, nameVersion)
  }

  /** The chosen version of every close name among the keys seen. */
  ghost predicate Collected(target: string, entries: CreatedAt, keys: set<string>, byName: map<string, string>)
    requires keys <= entries.Keys
  {
    && (forall n :: n in byName ==> Chosen(target, entries, keys, n, byName[n]))
    && (forall k :: k in keys && Close(target, k) ==> BareName(k) in byName)
  }

  /** The map once `k` has been looked at too. */
  function Take(target: string, entries: CreatedAt, byName: map<string, string>, k: string): map<string, string>
    requires k in entries && forall n :: n in byName ==> byName[n] in entries
  {
    var name := BareName(k);
    if Distance(BareName(target), name) > MAX_DISTANCE then byName
    else if name !in byName || Less(entries[byName[name]], entries[k]) then byName[name := k]
    else byName
  }

  lemma ChosenStays(target: string, entries: CreatedAt, keys: set<string>, k: string, name: string, chosen: string)
    requires k in entries && keys <= entries.Keys && Chosen(target, entries, keys, name, chosen)
    requires forall x :: x in keys ==> Less(x, k)
    requires BareName(k) == name ==> !Less(entries[chosen], entries[k])
    ensures Chosen(target, entries, keys + {k}, name, chosen)
  {
    LessTrichotomy(entries[chosen], entries[k]);
  }

  lemma ChosenChanges(target: string, entries: CreatedAt, keys: set<string>, k: string, chosen: string)
    requires k in entries && keys <= entries.Keys && Chosen(target, entries, keys, BareName(k), chosen)
    requires Close(target, k) && Less(entries[chosen], entries[k])
    ensures Chosen(target, entries, keys + {k}, BareName(k), k)
  {
    forall x | x in keys && BareName(x) == BareName(k) && x != k ensures Precedes(entries[x], entries[k], k, x) {
      if entries[x] != entries[chosen] { LessTransitive(entries[x], entries[chosen], entries[k]); }
      LessTrichotomy(entries[x], entries[k]);
    }
  }

  lemma TakeCollects(target: string, entries: CreatedAt, keys: set<string>, byName: map<string, string>, k: string)
    requires k in entries && keys <= entries.Keys && Collected(target, entries, keys, byName)
    requires forall x :: x in keys ==> Less(x, k)
    ensures Collected(target, entries, keys + {k}, Take(target, entries, byName, k))
  {
    var name, after := BareName(k), Take(target, entries, byName, k);
    LessTrichotomy(k, k);
    forall n | n in after ensures Chosen(target, entries, keys + {k}, n, after[n]) {
      if n == name && n in byName && after[n] != byName[n] {
        ChosenChanges(target, entries, keys, k, byName[n]);
      } else if n == name && n !in byName {
        assert forall x :: x in keys && BareName(x) == name ==> !Close(target, x);
      } else {
        ChosenStays(target, entries, keys, k, n, byName[n]);
      }
    }
  }

  ghost function SetOf(keys: seq<string>): set<string> {
    set k | k in keys
  }

  /** One turn of the loop over the index. */
  method Look(target: string, entries: CreatedAt, byName: map<string, string>, k: string) returns (after: map<string, string>)
    requires k in entries && forall n :: n in byName ==> byName[n] in entries
    ensures after == Take(target, entries, byName, k)
  {
    var name := BareName(k);
    var d := Levenshtein(BareName(target), name);
    if d > MAX_DISTANCE {
      return byName;
    }
    if name !in byName {
      after := byName[name := k];
    } else if Less(entries[byName[name]], entries[k]) {
      after := byName[name := k];
    } else {
      after := byName;
    }
  }

  lemma SetOfNext(keys: seq<string>, i: nat)
    requires i < |keys|
    ensures SetOf(keys[..i + 1]) == SetOf(keys[..i]) + {keys[i]}
  {}

  method Collect(target: string, entries: CreatedAt) returns (byName: map<string, string>)
    ensures Collected(target, entries, entries.Keys, byName)
  {
    var keys := SortedSeq(entries.Keys);
    SortedSeqSorted(entries.Keys);
    byName := map[];
    for i := 0 to |keys|
      invariant SetOf(keys[..i]) <= entries.Keys
      invariant Collected(target, entries, SetOf(keys[..i]), byName)
    {
      TakeCollects(target, entries, SetOf(keys[..i]), byName, keys[i]);
      SetOfNext(keys, i);
      byName := Look(target, entries, byName, keys[i]);
    }
    assert keys[..|keys|] == keys && SetOf(keys) == entries.Keys;
  }

  // ---------------------------------------------------------------- ranking them

  /** One name's entry to be offered. */
  datatype Candidate = Candidate(distance: nat, nameVersion: string, created: string)

  /** What the sort compares: closest first, then oldest first. */
  predicate Ranked(a: Candidate, b: Candidate) {
    a.distance < b.distance || (a.distance == b.distance && Less(a.created, b.created))
  }

  /** Equally close and equally old names come in name order. */
  predicate Ahead(a: Candidate, b: Candidate) {
    Ranked(a, b) ||
    (a.distance == b.distance && a.created == b.created && Less(BareName(a.nameVersion), BareName(b.nameVersion)))
  }

  ghost predicate InRankOrder(s: seq<Candidate>) {
    forall i, j :: 0 <= i < j < |s| ==> Ahead(s[i], s[j])
  }

  ghost predicate InNameOrder(s: seq<Candidate>) {
    forall i, j :: 0 <= i < j < |s| ==> Less(BareName(s[i].nameVersion), BareName(s[j].nameVersion))
  }

  /** After every candidate it does not outrank, as a stable sort places it. */
  function Insert(c: Candidate, sorted: seq<Candidate>): seq<Candidate> {
    if sorted == [] then [c]
    else if Ranked(c, sorted[0]) then [c] + sorted
    else [sorted[0]] + Insert(c, sorted[1..])
  }

  /** A stable sort: candidates of equal rank keep their order. */
  function StableSort(s: seq<Candidate>): seq<Candidate> {
    if s == [] then [] else Insert(s[|s| - 1], StableSort(s[..|s| - 1]))
  }

  lemma {:induction false} InsertMembers(c: Candidate, sorted: seq<Candidate>, x: Candidate)
    ensures x in Insert(c, sorted) <==> x == c || x in sorted
  {
    if sorted != [] && !Ranked(c, sorted[0]) { InsertMembers(c, sorted[1..], x); }
  }

  lemma {:induction false} SortMembers(s: seq<Candidate>, x: Candidate)
    ensures x in StableSort(s) <==> x in s
  {
    if s != [] {
      SortMembers(s[..|s| - 1], x);
      InsertMembers(s[|s| - 1], StableSort(s[..|s| - 1]), x);
    }
  }

  lemma RankedThenAhead(a: Candidate, b: Candidate, c: Candidate)
    requires Ranked(a, b) && Ahead(b, c)
    ensures Ranked(a, c)
  {
    if a.distance == b.distance == c.distance && b.created != c.created {
      LessTransitive(a.created, b.created, c.created);
    }
  }

  lemma NotOutranked(a: Candidate, c: Candidate)
    requires !Ranked(c, a) && Less(BareName(a.nameVersion), BareName(c.nameVersion))
    ensures Ahead(a, c)
  {
    LessTrichotomy(a.created, c.created);
  }

  lemma OrderedWith(first: Candidate, rest: seq<Candidate>)
    requires InRankOrder(rest) && forall x :: x in rest ==> Ahead(first, x)
    ensures InRankOrder([first] + rest)
  {}

  lemma {:induction false} InsertOrdered(c: Candidate, sorted: seq<Candidate>)
    requires InRankOrder(sorted) && forall x :: x in sorted ==> Less(BareName(x.nameVersion), BareName(c.nameVersion))
    ensures InRankOrder(Insert(c, sorted))
  {
    if sorted != [] {
      if Ranked(c, sorted[0]) {
        forall x | x in sorted ensures Ahead(c, x) {
          if x != sorted[0] { RankedThenAhead(c, sorted[0], x); }
        }
        OrderedWith(c, sorted);
      } else {
        var rest := Insert(c, sorted[1..]);
        InsertOrdered(c, sorted[1..]);
        NotOutranked(sorted[0], c);
        forall x | x in rest ensures Ahead(sorted[0], x) {
          InsertMembers(c, sorted[1..], x);
        }
        OrderedWith(sorted[0], rest);
      }
    }
  }

  lemma {:induction false} SortOrdered(s: seq<Candidate>)
    requires InNameOrder(s)
    ensures InRankOrder(StableSort(s))
  {
    if s != [] {
      var front, c := s[..|s| - 1], s[|s| - 1];
      SortOrdered(front);
      forall x | x in StableSort(front) ensures Less(BareName(x.nameVersion), BareName(c.nameVersion)) {
        SortMembers(front, x);
      }
      InsertOrdered(c, StableSort(front));
    }
  }

  // ---------------------------------------------------------------- the suggestions

  /** A close entry that is the newest of its name. */
  ghost predicate Offer(target: string, entries: CreatedAt, nameVersion: string) {
    Close(target, nameVersion) && NewestAmong(entries, entries.Keys, nameVersion)
  }

  function CandidateFor(target: string, entries: CreatedAt, nameVersion: string): Candidate
    requires nameVersion in entries
  {
    Candidate(Distance(BareName(target), BareName(nameVersion)), nameVersion, entries[nameVersion])
  }

  ghost predicate AllOffers(target: string, entries: CreatedAt, s: seq<Candidate>) {
    && (forall i :: 0 <= i < |s| ==>
          Offer(target, entries, s[i].nameVersion) && s[i] == CandidateFor(target, entries, s[i].nameVersion))
    && (forall nv :: Offer(target, entries, nv) ==> CandidateFor(target, entries, nv) in s)
  }

  ghost predicate Lists(target: string, entries: CreatedAt, byName: map<string, string>, names: seq<string>, s: seq<Candidate>) {
    |s| == |names| && forall j :: 0 <= j < |s| ==>
      names[j] in byName && byName[names[j]] in entries && s[j] == CandidateFor(target, entries, byName[names[j]])
  }

  method MakeCandidate(target: string, entries: CreatedAt, name: string, nameVersion: string) returns (c: Candidate)
    requires nameVersion in entries && BareName(nameVersion) == name
    ensures c == CandidateFor(target, entries, nameVersion)
  {
    var d := Levenshtein(BareName(target), name);
    c := Candidate(d, nameVersion, entries[nameVersion]);
  }

  lemma ListsNext(target: string, entries: CreatedAt, byName: map<string, string>, names: seq<string>, i: nat, s: seq<Candidate>, c: Candidate)
    requires i < |names| && Lists(target, entries, byName, names[..i], s)
    requires names[i] in byName && byName[names[i]] in entries && c == CandidateFor(target, entries, byName[names[i]])
    ensures Lists(target, entries, byName, names[..i + 1], s + [c])
  {}

  /** The candidates, one per name, in name order. */
  method ListCandidates(target: string, entries: CreatedAt, byName: map<string, string>) returns (s: seq<Candidate>)
    requires Collected(target, entries, entries.Keys, byName)
    ensures InNameOrder(s) && AllOffers(target, entries, s)
  {
    var names := SortedSeq(byName.Keys);
    SortedSeqSorted(byName.Keys);
    s := [];
    assert Lists(target, entries, byName, names[..0], s);
    hide Lists, CandidateFor, AllOffers, InNameOrder, SortedSeq, BareName;
    for i := 0 to |names|
      invariant Lists(target, entries, byName, names[..i], s)
    {
      assert names[i] in byName;
      assert Chosen(target, entries, entries.Keys, names[i], byName[names[i]]);
      var c := MakeCandidate(target, entries, names[i], byName[names[i]]);
      ListsNext(target, entries, byName, names, i, s, c);
      s := s + [c];
    }
    assert names[..|names|] == names;
    ListedAreOffers(target, entries, byName, names, s);
  }

  lemma ListedAreOffers(target: string, entries: CreatedAt, byName: map<string, string>, names: seq<string>, s: seq<Candidate>)
    requires Collected(target, entries, entries.Keys, byName) && Lists(target, entries, byName, names, s)
    requires Sorted(names) && forall n :: n in names <==> n in byName
    ensures InNameOrder(s) && AllOffers(target, entries, s)
  {
    forall j | 0 <= j < |s| ensures BareName(s[j].nameVersion) == names[j] && Offer(target, entries, s[j].nameVersion) {
      assert Chosen(target, entries, entries.Keys, names[j], byName[names[j]]);
    }
    forall nv | Offer(target, entries, nv) ensures CandidateFor(target, entries, nv) in s {
      var name := BareName(nv);
      assert name in names;
      var j :| 0 <= j < |names| && names[j] == name;
      assert Chosen(target, entries, entries.Keys, name, byName[name]);
      OneNewest(entries, nv, byName[name]);
      assert s[j] == CandidateFor(target, entries, nv);
    }
  }

  /** A name has one newest version. */
  lemma OneNewest(entries: CreatedAt, a: string, b: string)
    requires NewestAmong(entries, entries.Keys, a) && NewestAmong(entries, entries.Keys, b) && BareName(a) == BareName(b)
    ensures a == b
  {
    LessTrichotomy(entries[a], entries[b]);
    LessTrichotomy(a, b);
  }

  /** What is offered: the best few offers, in order, and nothing better left out. */
  ghost predicate Suggests(target: string, entries: CreatedAt, r: seq<string>) {
    && |r| <= LIMIT
    && (forall i :: 0 <= i < |r| ==> Offer(target, entries, r[i]))
    && (forall i, j :: 0 <= i < j < |r| ==> Ahead(CandidateFor(target, entries, r[i]), CandidateFor(target, entries, r[j])))
    && (forall nv :: Offer(target, entries, nv) && nv !in r ==> LeftOut(target, entries, r, nv))
  }

  ghost predicate LeftOut(target: string, entries: CreatedAt, r: seq<string>, nv: string)
    requires nv in entries && forall i :: 0 <= i < |r| ==> r[i] in entries
  {
    |r| == LIMIT && forall i :: 0 <= i < |r| ==> Ahead(CandidateFor(target, entries, r[i]), CandidateFor(target, entries, nv))
  }

  ghost predicate FirstNames(ranked: seq<Candidate>, r: seq<string>) {
    && |r| == (if |ranked| <= LIMIT then |ranked| else LIMIT)
    && forall j :: 0 <= j < |r| ==> r[j] == ranked[j].nameVersion
  }

  method FirstFew(ranked: seq<Candidate>) returns (r: seq<string>)
    ensures FirstNames(ranked, r)
  {
    r := [];
    for i := 0 to if |ranked| <= LIMIT then |ranked| else LIMIT
      invariant |r| == i && forall j :: 0 <= j < i ==> r[j] == ranked[j].nameVersion
    {
      r := r + [ranked[i].nameVersion];
    }
  }

  method PickDidYouMean(target: string, entries: CreatedAt) returns (r: seq<string>)
    ensures Suggests(target, entries, r)
  {
    var byName := Collect(target, entries);
    var listed := ListCandidates(target, entries, byName);
    SortOrdered(listed);
    SortKeepsOffers(target, entries, listed);
    r := FirstFew(StableSort(listed));
    FirstFewSuffice(target, entries, StableSort(listed), r);
  }

  lemma SortKeepsOffers(target: string, entries: CreatedAt, s: seq<Candidate>)
    requires AllOffers(target, entries, s)
    ensures AllOffers(target, entries, StableSort(s))
  {
    var r := StableSort(s);
    forall i | 0 <= i < |r| ensures r[i] in s {
      SortMembers(s, r[i]);
    }
    forall nv | Offer(target, entries, nv) ensures CandidateFor(target, entries, nv) in r {
      SortMembers(s, CandidateFor(target, entries, nv));
    }
  }

  lemma FirstFewSuffice(target: string, entries: CreatedAt, ranked: seq<Candidate>, r: seq<string>)
    requires InRankOrder(ranked) && AllOffers(target, entries, ranked) && FirstNames(ranked, r)
    ensures Suggests(target, entries, r)
  {
    forall nv | Offer(target, entries, nv) && nv !in r ensures LeftOut(target, entries, r, nv) {
      var c := CandidateFor(target, entries, nv);
      var k :| 0 <= k < |ranked| && ranked[k] == c;
      forall i | 0 <= i < |r| ensures ranked[i] != c { assert r[i] in r; }
    }
  }

  /** Of a close name that is not offered in any version, five names are at least as close. */
  lemma NoCloserLeftOut(target: string, entries: CreatedAt, r: seq<string>, k: string)
    requires Suggests(target, entries, r) && k in entries && Close(target, k)
    ensures (exists i :: 0 <= i < |r| && BareName(r[i]) == BareName(k)) ||
            (|r| == LIMIT && forall i :: 0 <= i < |r| ==>
               Distance(BareName(target), BareName(r[i])) <= Distance(BareName(target), BareName(k)))
  {
    var nv := NewestOf(entries, entries.Keys, k);
    assert Offer(target, entries, nv);
    if nv in r {
      var i :| 0 <= i < |r| && r[i] == nv;
      assert BareName(r[i]) == BareName(k);
    } else {
      assert LeftOut(target, entries, r, nv);
    }
  }

  lemma {:induction false} NewestOf(entries: CreatedAt, keys: set<string>, k: string) returns (nv: string)
    requires keys <= entries.Keys && k in keys
    ensures NewestAmong(entries, keys, nv) && BareName(nv) == BareName(k)
    decreases keys
  {
    if x :| x in keys && x != k && BareName(x) == BareName(k) {
      LessTrichotomy(entries[x], entries[k]);
      LessTrichotomy(x, k);
      // The one of the two that does not precede the other stays.
      var (better, worse) := if Precedes(entries[x], entries[k], k, x) then (k, x) else (x, k);
      nv := NewestOf(entries, keys - {worse}, better);
      if better != nv { PrecedesTransitive(entries, worse, better, nv); }
      forall y | y in keys && BareName(y) == BareName(nv) && y != nv ensures Precedes(entries[y], entries[nv], nv, y) {
        assert y != worse ==> y in keys - {worse};
      }
    } else {
      nv := k;
    }
  }

  lemma PrecedesTransitive(entries: CreatedAt, a: string, b: string, c: string)
    requires a in entries && b in entries && c in entries
    requires Precedes(entries[a], entries[b], b, a) && Precedes(entries[b], entries[c], c, b)
    ensures Precedes(entries[a], entries[c], c, a)
  {
    if entries[a] != entries[b] && entries[b] != entries[c] { LessTransitive(entries[a], entries[b], entries[c]); }
    if entries[a] == entries[b] == entries[c] { LessTransitive(c, b, a); }
    LessTrichotomy(entries[a], entries[c]);
  }
}
