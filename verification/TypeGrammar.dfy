/** What the type parser reads, text by text: which words, which brackets, and which field wins. */
module TypeGrammar {
  import opened Wrappers
  import opened Strings
  import opened Types
  import opened TypeCodec

  // ---------------------------------------------------------------- one way to cut

  /** The first piece is what stands before the first comma met at depth zero. */
  lemma FirstPiece(text: string, p: seq<string>)
    requires CutAtCommas(text, p)
    ensures var n := |p[0]|;
            n <= |text| && p[0] == text[..n] && (|p| == 1 ==> n == |text|) &&
            (|p| > 1 ==> n < |text| && text[n] == ',' && Net(text[..n]) == 0) &&
            forall i :: 0 <= i < n && text[i] == ',' ==> Net(text[..i]) != 0
  {
    hide Net;
    assert p[0] == text[..|p[0]|];
    forall i | 0 <= i < |p[0]| && text[i] == ',' ensures Net(text[..i]) != 0 { assert p[0][i] == text[i] && p[0][..i] == text[..i]; }
  }

  lemma {:induction false} CutOneWay(text: string, p: seq<string>, q: seq<string>)
    requires CutAtCommas(text, p) && CutAtCommas(text, q)
    ensures p == q
    decreases |p|
  {
    hide Net, Whole;
    FirstPiece(text, p);
    FirstPiece(text, q);
    assert |p[0]| == |q[0]|;
    if |p| > 1 && |q| > 1 {
      var rest := text[|p[0]| + 1..];
      CutRest(text, p);
      CutRest(text, q);
      CutOneWay(rest, p[1..], q[1..]);
      assert p == [p[0]] + p[1..] && q == [q[0]] + q[1..];
    }
  }

  lemma CutRest(text: string, p: seq<string>)
    requires CutAtCommas(text, p) && |p| > 1
    ensures |p[0]| + 1 <= |text| && CutAtCommas(text[|p[0]| + 1..], p[1..])
  {
    hide Net, Whole;
    var rest := p[1..];
    assert text == p[0] + "," + Commas(rest);
    assert text[|p[0]| + 1..] == Commas(rest);
    forall k | 0 <= k < |rest| ensures Whole(rest[k]) && (k < |rest| - 1 ==> Net(rest[k]) == 0) { assert rest[k] == p[k + 1]; }
  }

  // ---------------------------------------------------------------- fields

  /** The first colon of the part. */
  predicate ColonAt(part: string, c: nat) {
    c < |part| && part[c] == ':' && ':' !in part[..c]
  }

  /** A name, trimmed, and behind the first colon the text of a type. */
  ghost predicate IsField(part: string, name: string, ty: Ty) {
    exists c: nat :: ColonAt(part, c) && name == Trim(part[..c]) && Parse(part[c + 1..]) == Ok(ty)
  }

  predicate LastOfItsName(names: seq<string>, k: nat)
    requires k < |names|
  {
    forall j :: k < j < |names| ==> names[j] != names[k]
  }

  lemma ColonIs(part: string, c: nat)
    ensures ColonAt(part, c) <==> c < |part| && c == IndexOf(part, ':')
  {
    var i := IndexOf(part, ':');
    if ColonAt(part, c) {
      forall j | 0 <= j < c ensures part[j] != ':' { assert part[..c][j] == part[j]; }
    }
    if c < |part| && c == i {
      assert ':' !in part[..c];
    }
  }

  /** How a part is read. */
  lemma FieldIs(part: string, name: string, ty: Ty)
    ensures var c := IndexOf(part, ':');
            IsField(part, name, ty) <==> c < |part| && name == Trim(part[..c]) && Parse(part[c + 1..]) == Ok(ty)
  {
    hide Parse, ColonAt;
    var c := IndexOf(part, ':');
    ColonIs(part, c);
    forall k: nat | ColonAt(part, k) ensures k == c { ColonIs(part, k); }
  }

  /** Each part is a field; of fields of one name the last one counts, and any counts over one found before. */
  ghost predicate ReadsOnto(before: map<string, Ty>, parts: seq<string>, names: seq<string>, types: seq<Ty>, fields: map<string, Ty>) {
    |names| == |types| == |parts| &&
    (forall k :: 0 <= k < |parts| ==> IsField(parts[k], names[k], types[k])) &&
    (forall name :: name in fields <==> name in names || name in before) &&
    (forall k :: 0 <= k < |names| && LastOfItsName(names, k) ==> fields[names[k]] == types[k]) &&
    forall name :: name in before && name !in names ==> fields[name] == before[name]
  }

  lemma {:induction false} PartsReadOnto(before: map<string, Ty>, parts: seq<string>) returns (names: seq<string>, types: seq<Ty>)
    requires ParseParts(parts, before).Ok?
    ensures ReadsOnto(before, parts, names, types, ParseParts(parts, before).value)
    decreases |parts|
  {
    hide Parse, IsField, LastOfItsName;
    names, types := [], [];
    if parts != [] {
      var c := IndexOf(parts[0], ':');
      var name, ty := Trim(parts[0][..c]), Parse(parts[0][c + 1..]).value;
      FieldIs(parts[0], name, ty);
      var ns, ts := PartsReadOnto(before[name := ty], parts[1..]);
      names, types := [name] + ns, [ty] + ts;
      OneMoreField(before, parts, name, ty, ns, ts, ParseParts(parts, before).value);
    }
  }

  lemma LastBehind(name: string, names: seq<string>, k: nat)
    requires k < |names|
    ensures LastOfItsName([name] + names, k + 1) <==> LastOfItsName(names, k)
  {
    var all := [name] + names;
    if LastOfItsName(all, k + 1) {
      forall j | k < j < |names| ensures names[j] != names[k] { assert all[j + 1] == names[j]; }
    }
  }

  lemma LastFirst(name: string, names: seq<string>)
    ensures LastOfItsName([name] + names, 0) <==> name !in names
  {
    var all := [name] + names;
    if LastOfItsName(all, 0) {
      forall j | 0 <= j < |names| ensures names[j] != name { assert all[j + 1] == names[j]; }
    }
  }

  lemma OneMoreField(before: map<string, Ty>, parts: seq<string>, name: string, ty: Ty, names: seq<string>, types: seq<Ty>, fields: map<string, Ty>)
    requires parts != [] && IsField(parts[0], name, ty)
    requires ReadsOnto(before[name := ty], parts[1..], names, types, fields)
    ensures ReadsOnto(before, parts, [name] + names, [ty] + types, fields)
  {
    hide IsField, LastOfItsName;
    var ns, ts := [name] + names, [ty] + types;
    forall k | 0 <= k < |parts| ensures IsField(parts[k], ns[k], ts[k]) {
      if k > 0 { assert parts[k] == parts[1..][k - 1] && ns[k] == names[k - 1] && ts[k] == types[k - 1]; }
    }
    forall k | 0 <= k < |ns| && LastOfItsName(ns, k) ensures fields[ns[k]] == ts[k] {
      if k > 0 { LastBehind(name, names, k - 1); } else { LastFirst(name, names); }
    }
  }

  /** Parts that are all fields are read. */
  lemma {:induction false} FieldsAreRead(before: map<string, Ty>, parts: seq<string>, names: seq<string>, types: seq<Ty>)
    requires |names| == |types| == |parts| && forall k :: 0 <= k < |parts| ==> IsField(parts[k], names[k], types[k])
    ensures ParseParts(parts, before).Ok?
    decreases |parts|
  {
    hide Parse, IsField;
    if parts != [] {
      FieldIs(parts[0], names[0], types[0]);
      FieldsAreRead(before[names[0] := types[0]], parts[1..], names[1..], types[1..]);
    }
  }

  lemma {:induction false} LastNamed(names: seq<string>, name: string) returns (k: nat)
    requires name in names
    ensures k < |names| && names[k] == name && LastOfItsName(names, k)
    decreases |names|
  {
    var last := |names| - 1;
    if names[last] == name {
      k := last;
    } else {
      var front := names[..last];
      assert names == front + [names[last]];
      k := LastNamed(front, name);
      forall j | k < j < |names| ensures names[j] != name { if j < last { assert front[j] == names[j]; } }
    }
  }

  /** The same parts are the same fields. */
  lemma FieldsOnce(parts: seq<string>, names: seq<string>, types: seq<Ty>, fields: map<string, Ty>,
                   names': seq<string>, types': seq<Ty>, fields': map<string, Ty>)
    requires ReadsOnto(map[], parts, names, types, fields) && ReadsOnto(map[], parts, names', types', fields')
    ensures fields == fields'
  {
    hide IsField, LastOfItsName, Parse;
    forall k | 0 <= k < |parts| ensures names[k] == names'[k] && types[k] == types'[k] {
      FieldIs(parts[k], names[k], types[k]);
      FieldIs(parts[k], names'[k], types'[k]);
    }
    assert names == names' && types == types';
    forall name | name in fields ensures fields[name] == fields'[name] { var k := LastNamed(names, name); }
  }

  // ---------------------------------------------------------------- a whole type

  /** The parts of a record's text: cut at its commas, a blank one at the end left out. */
  ghost predicate PartsOf(inner: string, parts: seq<string>) {
    exists pieces :: CutInto(inner, pieces, parts)
  }

  ghost predicate CutInto(inner: string, pieces: seq<string>, parts: seq<string>) {
    CutAtCommas(inner, pieces) && parts == if Trim(pieces[|pieces| - 1]) == "" then pieces[..|pieces| - 1] else pieces
  }

  lemma PartsExactly(inner: string, parts: seq<string>)
    ensures PartsOf(inner, parts) <==> parts == Split(inner, 0, "")
  {
    hide Split, CutAtCommas;
    var cut := SplitMeans(inner);
    assert CutInto(inner, cut, Split(inner, 0, ""));
    if pieces :| CutInto(inner, pieces, parts) { CutOneWay(inner, cut, pieces); }
  }

  ghost predicate ReadsAs(inner: string, parts: seq<string>, names: seq<string>, types: seq<Ty>, fields: map<string, Ty>) {
    PartsOf(inner, parts) && ReadsOnto(map[], parts, names, types, fields)
  }

  lemma RecordReads(inner: string, fields: map<string, Ty>)
    ensures ParseParts(Split(inner, 0, ""), map[]) == Ok(fields) <==> exists parts, names, types :: ReadsAs(inner, parts, names, types, fields)
  {
    hide Parse, Split, PartsOf, ReadsOnto;
    var split := Split(inner, 0, "");
    PartsExactly(inner, split);
    if ParseParts(split, map[]).Ok? {
      var ns, ts := PartsReadOnto(map[], split);
      assert ReadsAs(inner, split, ns, ts, ParseParts(split, map[]).value);
    }
    if parts, names, types :| ReadsAs(inner, parts, names, types, fields) {
      PartsExactly(inner, parts);
      RecordReadOnce(split, names, types, fields);
    }
  }

  lemma RecordReadOnce(parts: seq<string>, names: seq<string>, types: seq<Ty>, fields: map<string, Ty>)
    requires ReadsOnto(map[], parts, names, types, fields)
    ensures ParseParts(parts, map[]) == Ok(fields)
  {
    hide Parse, IsField, LastOfItsName;
    FieldsAreRead(map[], parts, names, types);
    var ns, ts := PartsReadOnto(map[], parts);
    FieldsOnce(parts, ns, ts, ParseParts(parts, map[]).value, names, types, fields);
  }

  ghost predicate ReadsBraced(s: string, inner: string, fields: map<string, Ty>) {
    s == "{" + inner + "}" && exists parts, names, types :: ReadsAs(inner, parts, names, types, fields)
  }

  ghost predicate ReadsBracketed(s: string, inner: string, element: Ty) {
    s == "[" + inner + "]" && Parse(inner) == Ok(element)
  }

  lemma EnclosedIs(s: string, open: char, close: char, inner: string)
    ensures s == [open] + inner + [close] <==> Enclosed(s, open, close) && inner == Inside(s)
  {
    if Enclosed(s, open, close) { assert s == [open] + Inside(s) + [close]; }
    if s == [open] + inner + [close] { assert Inside(s) == inner; }
  }

  lemma BlankHasNoComma(inner: string)
    requires Trim(inner) == ""
    ensures ',' !in inner
  {
    TrimStartParts(inner);
    TrimEndParts(TrimStart(inner));
  }

  /** Blanks are no fields. */
  lemma BlankRecord(inner: string)
    requires Trim(inner) == ""
    ensures ParseParts(Split(inner, 0, ""), map[]) == Ok(map[])
  {
    hide Split, Trim;
    BlankHasNoComma(inner);
    CutNowhere(inner);
    assert CutInto(inner, [inner], []);
    PartsExactly(inner, []);
  }

  lemma BracedReads(s: string, fields: map<string, Ty>)
    ensures (exists inner :: ReadsBraced(s, inner, fields)) <==>
            Enclosed(s, '{', '}') && ParseParts(Split(Inside(s), 0, ""), map[]) == Ok(fields)
  {
    hide ReadsAs, Split, Parse;
    forall inner ensures s == "{" + inner + "}" <==> Enclosed(s, '{', '}') && inner == Inside(s) { EnclosedIs(s, '{', '}', inner); }
    if Enclosed(s, '{', '}') {
      RecordReads(Inside(s), fields);
      assert ReadsBraced(s, Inside(s), fields) <==> ParseParts(Split(Inside(s), 0, ""), map[]) == Ok(fields);
    }
  }

  lemma BracketedReads(s: string, element: Ty)
    ensures (exists inner :: ReadsBracketed(s, inner, element)) <==> Enclosed(s, '[', ']') && Parse(Inside(s)) == Ok(element)
  {
    hide Parse;
    forall inner ensures s == "[" + inner + "]" <==> Enclosed(s, '[', ']') && inner == Inside(s) { EnclosedIs(s, '[', ']', inner); }
    if Enclosed(s, '[', ']') { assert ReadsBracketed(s, Inside(s), element) <==> Parse(Inside(s)) == Ok(element); }
  }

  /** A record's text, without the shortcut for blanks. */
  lemma TrimmedReads(s: string, t: Ty)
    ensures ParseTrimmed(s) == Ok(t) <==>
            match t
            case List(element) => Enclosed(s, '[', ']') && Parse(Inside(s)) == Ok(element)
            case Record(fields) => Enclosed(s, '{', '}') && ParseParts(Split(Inside(s), 0, ""), map[]) == Ok(fields)
            case _ => s == WordOf(t)
  {
    hide Parse, Split, Trim, ParseParts;
    if Enclosed(s, '{', '}') && Trim(Inside(s)) == "" { BlankRecord(Inside(s)); }
  }

  /**
   What a text reads as, exactly: trimmed, it is one of the words; or brackets around the text of
   the element; or braces around parts, cut at the commas outside brackets, each a name, a colon
   and the text of a type, where the last of several fields with one name counts.
   */
  lemma ParsesExactly(text: string, t: Ty)
    ensures var s := Trim(text);
            Parse(text) == Ok(t) <==>
            match t
            case List(element) => exists inner :: ReadsBracketed(s, inner, element)
            case Record(fields) => exists inner :: ReadsBraced(s, inner, fields)
            case _ => s == WordOf(t)
  {
    hide Trim, Split, ReadsBraced, ReadsBracketed, ParseTrimmed, ParseParts;
    TrimmedReads(Trim(text), t);
    match t
    case List(element) => BracketedReads(Trim(text), element);
    case Record(fields) => BracedReads(Trim(text), fields);
    case _ =>
  }
}
