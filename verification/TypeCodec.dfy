/** The compact text of types and signatures: printing, parsing, and when they undo each other. */
module TypeCodec {
  import opened Wrappers
  import opened Strings
  import opened Types

  // ---------------------------------------------------------------- printing

  predicate IsWord(t: Ty) { !t.List? && !t.Record? }

  function WordOf(t: Ty): (w: string)
    requires IsWord(t)
    ensures BracketFree(w) && ',' !in w
  {
    match t
    case Text => "text"
    case Number => "number"
    case Bool => "bool"
    case Bytes => "bytes"
    case Image => "image"
    case Document => "document"
    case Json => "json"
  }

  function Describe(t: Ty): string
    decreases t
  {
    match t
    case List(inner) => "[" + Describe(inner) + "]"
    case Record(fields) => "{" + FieldsText(t, SortedSeq(fields.Keys)) + "}"
    case _ => WordOf(t)
  }

  /** The listed fields, `name: type` each, joined by a comma and a blank. */
  function FieldsText(t: Ty, names: seq<string>): string
    requires t.Record? && forall n :: n in names ==> n in t.fields
    decreases t, |names|
  {
    if names == [] then ""
    else
      names[0] + ": " + Describe(t.fields[names[0]]) +
      (if |names| == 1 then "" else ", " + FieldsText(t, names[1..]))
  }

  function DescribeSignature(s: Signature): string {
    Describe(s.input) + " -> " + Describe(s.output)
  }

  // ---------------------------------------------------------------- splitting

  function DepthStep(c: char): int {
    if c == '[' || c == '{' then 1 else if c == ']' || c == '}' then -1 else 0
  }

  /** What is left to emit at the end of the text: the last part, unless it is blank. */
  function LastPart(current: string): seq<string> {
    if Trim(current) == "" then [] else [current]
  }

  /** The parts' lengths added up: what parsing them decreases. */
  function Total(parts: seq<string>): nat {
    if parts == [] then 0 else |parts[0]| + Total(parts[1..])
  }

  lemma {:induction false} TotalPart(parts: seq<string>, i: nat)
    requires i < |parts|
    ensures |parts[i]| <= Total(parts)
  {
    if i > 0 { TotalPart(parts[1..], i - 1); }
  }

  /** Split on the commas met at bracket depth zero, `depth` and `current` being the state so far. */
  function Split(body: string, depth: int, current: string): (parts: seq<string>)
    ensures Total(parts) <= |current| + |body|
  {
    if body == "" then LastPart(current)
    else if body[0] == ',' && depth == 0 then
      var others := Split(body[1..], depth, "");
      assert ([current] + others)[1..] == others;
      [current] + others
    else
      Split(body[1..], depth + DepthStep(body[0]), current + [body[0]])
  }

  lemma SplitAt(body: string, i: nat, depth: int, current: string)
    requires i < |body|
    ensures var c := body[i];
            Split(body[i..], depth, current) ==
            if c == ',' && depth == 0 then [current] + Split(body[i + 1..], depth, "")
            else Split(body[i + 1..], depth + DepthStep(c), current + [c])
  {
    assert body[i..][1..] == body[i + 1..];
  }

  method SplitFields(body: string) returns (out: seq<string>)
    ensures out == Split(body, 0, "")
  {
    out := [];
    var depth, current := 0, "";
    for i := 0 to |body|
      invariant out + Split(body[i..], depth, current) == Split(body, 0, "")
    {
      var c := body[i];
      SplitAt(body, i, depth, current);
      if c == '[' || c == '{' {
        depth := depth + 1;
        current := current + [c];
      } else if c == ']' || c == '}' {
        depth := depth - 1;
        current := current + [c];
      } else if c == ',' && depth == 0 {
        out := out + [current];
        current := "";
      } else {
        current := current + [c];
      }
    }
    if Trim(current) != "" {
      out := out + [current];
    }
  }

  // ---------------------------------------------------------------- parsing

  function Word(s: string): Option<Ty> {
    if s == "text" then Some(Text)
    else if s == "number" then Some(Number)
    else if s == "bool" then Some(Bool)
    else if s == "bytes" then Some(Bytes)
    else if s == "image" then Some(Image)
    else if s == "document" then Some(Document)
    else if s == "json" then Some(Json)
    else None
  }

  predicate Enclosed(s: string, open: char, close: char) {
    |s| >= 2 && s[0] == open && s[|s| - 1] == close
  }

  function Inside(s: string): string
    requires |s| >= 2
  {
    s[1..|s| - 1]
  }

  function NotAType(s: string): string { "`" + s + "` is not a type" }

  function NotAField(part: string): string { "expected `name: type` in `" + part + "`" }

  function Parse(s: string): Result<Ty, string>
    decreases |s|, 1
  {
    ParseTrimmed(Trim(s))
  }

  function ParseTrimmed(s: string): Result<Ty, string>
    decreases |s|, 0
  {
    if Word(s).Some? then Ok(Word(s).value)
    else if Enclosed(s, '[', ']') then
      match Parse(Inside(s))
      case Ok(inner) => Ok(List(inner))
      case Err(e) => Err(e)
    else if Enclosed(s, '{', '}') then
      if Trim(Inside(s)) == "" then Ok(Record(map[]))
      else
        match ParseParts(Split(Inside(s), 0, ""), map[])
        case Ok(fields) => Ok(Record(fields))
        case Err(e) => Err(e)
    else Err(NotAType(s))
  }

  /** Read the parts in order into `fields`; a repeated name keeps its last type. */
  function ParseParts(parts: seq<string>, fields: map<string, Ty>): Result<map<string, Ty>, string>
    decreases Total(parts), 2, |parts|
  {
    if parts == [] then Ok(fields)
    else
      var part := parts[0];
      var colon := IndexOf(part, ':');
      if colon == |part| then Err(NotAField(part))
      else
        match Parse(part[colon + 1..])
        case Err(e) => Err(e)
        case Ok(ty) => ParseParts(parts[1..], fields[Trim(part[..colon]) := ty])
  }

  method ParseTy(text: string) returns (r: Result<Ty, string>)
    ensures r == Parse(text)
    decreases |text|
  {
    var s := Trim(text);
    if Word(s).Some? {
      return Ok(Word(s).value);
    }
    if Enclosed(s, '[', ']') {
      var inner := ParseTy(Inside(s));
      match inner
      case Ok(t) => return Ok(List(t));
      case Err(e) => return Err(e);
    }
    if Enclosed(s, '{', '}') {
      var fields: map<string, Ty> := map[];
      if Trim(Inside(s)) != "" {
        var parts := SplitFields(Inside(s));
        for i := 0 to |parts|
          invariant ParseParts(parts[i..], fields) == ParseParts(parts, map[])
        {
          assert parts[i..][0] == parts[i] && parts[i..][1..] == parts[i + 1..];
          var colon := IndexOf(parts[i], ':');
          if colon == |parts[i]| {
            return Err(NotAField(parts[i]));
          }
          TotalPart(parts, i);
          var ty := ParseTy(parts[i][colon + 1..]);
          match ty {
            case Err(e) => return Err(e);
            case Ok(t) => fields := fields[Trim(parts[i][..colon]) := t];
          }
        }
      }
      return Ok(Record(fields));
    }
    return Err(NotAType(s));
  }

  function ParseSignature(s: string): Result<Signature, string> {
    match Find(s, " -> ")
    case None => Err("`" + s + "` is not a signature (expected `input -> output`)")
    case Some(i) =>
      match Parse(s[..i])
      case Err(e) => Err(e)
      case Ok(input) =>
        match Parse(s[i + 4..])
        case Err(e) => Err(e)
        case Ok(output) => Ok(Signature(input, output))
  }

  // ---------------------------------------------------------------- bracket depth

  /** Opening brackets minus closing ones. */
  function Net(s: string): int {
    if s == "" then 0 else DepthStep(s[0]) + Net(s[1..])
  }

  lemma {:induction false} NetConcat(a: string, b: string)
    ensures Net(a + b) == Net(a) + Net(b)
  {
    if a == "" {
      assert a + b == b;
    } else {
      NetConcat(a[1..], b);
      assert (a + b)[1..] == a[1..] + b;
    }
  }

  // ---------------------------------------------------------------- where a text is split

  function Commas(pieces: seq<string>): string {
    if pieces == [] then "" else if |pieces| == 1 then pieces[0] else pieces[0] + "," + Commas(pieces[1..])
  }

  /** No comma of the piece stands outside brackets, opened or closed. */
  ghost predicate Whole(piece: string) {
    forall i :: 0 <= i < |piece| && piece[i] == ',' ==> Net(piece[..i]) != 0
  }

  /** The text, cut at just those commas before which as many brackets were closed as opened. */
  ghost predicate CutAtCommas(text: string, pieces: seq<string>) {
    pieces != [] && Commas(pieces) == text && (forall k :: 0 <= k < |pieces| ==> Whole(pieces[k])) &&
    forall k :: 0 <= k < |pieces| - 1 ==> Net(pieces[k]) == 0
  }

  lemma WholeNext(current: string, c: char)
    requires Whole(current) && (c == ',' ==> Net(current) != 0)
    ensures Whole(current + [c]) && Net(current + [c]) == Net(current) + DepthStep(c)
  {
    var longer := current + [c];
    forall i | 0 <= i < |longer| && longer[i] == ',' ensures Net(longer[..i]) != 0 {
      assert longer[..i] == current[..i];
      if i == |current| { assert current[..i] == current; }
    }
    NetConcat(current, [c]);
    assert [c][1..] == "";
  }

  lemma {:induction false} SplitFrom(body: string, depth: int, current: string) returns (pieces: seq<string>)
    requires Whole(current) && Net(current) == depth
    ensures pieces != [] && CutAtCommas(current + body, pieces)
    ensures Split(body, depth, current) == pieces[..|pieces| - 1] + LastPart(pieces[|pieces| - 1])
    decreases |body|
  {
    hide Whole, Net, LastPart, CutAtCommas;
    if body == "" {
      pieces := [current];
      CutNowhere(current);
      assert current + "" == current && pieces[..0] == [];
      assert [] + LastPart(current) == LastPart(current);
    } else if body[0] == ',' && depth == 0 {
      NothingIsWhole();
      var rest := SplitFrom(body[1..], depth, "");
      assert "" + body[1..] == body[1..];
      pieces := [current] + rest;
      CutOnce(current, body[1..], rest);
      assert current + body == current + "," + body[1..];
      assert pieces[..|pieces| - 1] == [current] + rest[..|rest| - 1];
    } else {
      WholeNext(current, body[0]);
      pieces := SplitFrom(body[1..], depth + DepthStep(body[0]), current + [body[0]]);
      assert current + [body[0]] + body[1..] == current + body;
    }
  }

  lemma CutNowhere(text: string)
    requires Whole(text)
    ensures CutAtCommas(text, [text])
  {}

  lemma CutOnce(first: string, text: string, rest: seq<string>)
    requires Whole(first) && Net(first) == 0 && CutAtCommas(text, rest)
    ensures CutAtCommas(first + "," + text, [first] + rest) && |rest| > 0
  {
    hide Whole, Net;
    var pieces := [first] + rest;
    assert pieces[1..] == rest;
    forall k | 0 <= k < |pieces| - 1 ensures Net(pieces[k]) == 0 {
      if k > 0 { assert pieces[k] == rest[k - 1]; }
    }
  }

  lemma NothingIsWhole()
    ensures Whole("") && Net("") == 0
  {}

  /** Splitting cuts at exactly those commas; a last piece that is blank is dropped. */
  lemma SplitMeans(body: string) returns (pieces: seq<string>)
    ensures CutAtCommas(body, pieces)
    ensures Split(body, 0, "") == if Trim(pieces[|pieces| - 1]) == "" then pieces[..|pieces| - 1] else pieces
  {
    NothingIsWhole();
    pieces := SplitFrom(body, 0, "");
    assert "" + body == body;
    assert pieces[..|pieces| - 1] + [] == pieces[..|pieces| - 1];
    assert pieces[..|pieces| - 1] + [pieces[|pieces| - 1]] == pieces;
  }

  /** The seven words. */
  lemma TypeWords()
    ensures Describe(Text) == "text" && Describe(Number) == "number" && Describe(Bool) == "bool" && Describe(Json) == "json"
    ensures Describe(Bytes) == "bytes" && Describe(Image) == "image" && Describe(Document) == "document"
  {}

  /** No comma of `x` is met at depth zero when the scan enters `x` at `depth`. */
  predicate Unsplit(x: string, depth: int) {
    x == "" || (!(x[0] == ',' && depth == 0) && Unsplit(x[1..], depth + DepthStep(x[0])))
  }

  lemma {:induction false} UnsplitConcat(a: string, b: string, depth: int)
    ensures Unsplit(a + b, depth) <==> Unsplit(a, depth) && Unsplit(b, depth + Net(a))
  {
    if a == "" {
      assert a + b == b;
    } else {
      assert (a + b)[1..] == a[1..] + b;
      UnsplitConcat(a[1..], b, depth + DepthStep(a[0]));
    }
  }

  lemma UnsplitPrefix(d: string, r: string, depth: int)
    requires Unsplit(d, depth) && |r| <= |d| && r == d[..|r|]
    ensures Unsplit(r, depth)
  {
    assert d == r + d[|r|..];
    UnsplitConcat(r, d[|r|..], depth);
  }

  lemma {:induction false} SplitThrough(x: string, depth: int, current: string, rest: string)
    requires Unsplit(x, depth)
    ensures Split(x + rest, depth, current) == Split(rest, depth + Net(x), current + x)
  {
    if x == "" {
      assert x + rest == rest && current + x == current;
    } else {
      assert (x + rest)[1..] == x[1..] + rest;
      assert current + x == (current + [x[0]]) + x[1..];
      SplitThrough(x[1..], depth + DepthStep(x[0]), current + [x[0]], rest);
    }
  }

  predicate BracketFree(name: string) {
    '[' !in name && ']' !in name && '{' !in name && '}' !in name
  }

  /** Text without brackets keeps the depth, and is not split unless a comma meets depth zero. */
  lemma {:induction false} Flat(s: string, depth: int)
    requires BracketFree(s) && (depth != 0 || ',' !in s)
    ensures Net(s) == 0 && Unsplit(s, depth)
  {
    if s != "" {
      assert s[0] in s;
      Flat(s[1..], depth);
    }
  }

  /** A piece the scan takes as a whole: entered and left at depth zero, not split in between. */
  predicate Closed(x: string) {
    Net(x) == 0 && Unsplit(x, 0)
  }

  lemma ClosedConcat(a: string, b: string)
    requires Closed(a) && Closed(b)
    ensures Closed(a + b)
  {
    NetConcat(a, b);
    UnsplitConcat(a, b, 0);
  }

  // ---------------------------------------------------------------- names

  /** Every field name in the type, at any depth, satisfies `p`. */
  ghost predicate AllNames(t: Ty, p: string -> bool) {
    match t
    case List(inner) => AllNames(inner, p)
    case Record(fields) => forall n :: n in fields ==> p(n) && AllNames(fields[n], p)
    case _ => true
  }

  ghost predicate BracketFreeNames(t: Ty) { AllNames(t, BracketFree) }

  predicate ReadableName(name: string) {
    ':' !in name && Trimmed(name)
  }

  /** What a name must avoid for the text to be read back: separators, and white space at its ends. */
  predicate CleanName(name: string) {
    ',' !in name && ':' !in name && Trimmed(name)
  }

  ghost predicate ReadableNames(t: Ty) { AllNames(t, ReadableName) }

  ghost predicate CleanNames(t: Ty) { AllNames(t, CleanName) }

  /** Printed types are entered and left at the same depth, and never split. */
  lemma {:induction false} DescribeUnsplit(t: Ty, depth: nat)
    requires BracketFreeNames(t)
    ensures Net(Describe(t)) == 0 && Unsplit(Describe(t), depth)
    decreases t
  {
    if t.List? {
      DescribeUnsplit(t.element, depth + 1);
      Wrapped("[", Describe(t.element), "]", depth);
    } else if t.Record? {
      FieldsUnsplit(t, SortedSeq(t.fields.Keys), depth + 1);
      Wrapped("{", FieldsText(t, SortedSeq(t.fields.Keys)), "}", depth);
    } else {
      Flat(Describe(t), depth);
    }
  }

  lemma Wrapped(open: string, s: string, close: string, depth: nat)
    requires (open == "[" && close == "]") || (open == "{" && close == "}")
    requires Net(s) == 0 && Unsplit(s, depth + 1)
    ensures Net(open + s + close) == 0 && Unsplit(open + s + close, depth)
  {
    assert open[1..] == "" && close[1..] == "";
    NetConcat(open, s);
    NetConcat(open + s, close);
    UnsplitConcat(open, s, depth);
    UnsplitConcat(open + s, close, depth);
  }

  lemma {:induction false} FieldsUnsplit(t: Ty, names: seq<string>, depth: nat)
    requires t.Record? && BracketFreeNames(t) && forall n :: n in names ==> n in t.fields
    requires depth >= 1
    ensures Net(FieldsText(t, names)) == 0 && Unsplit(FieldsText(t, names), depth)
    decreases t, |names|
  {
    if names != [] {
      DescribeUnsplit(t.fields[names[0]], depth);
      Flat(names[0] + ": ", depth);
      Chain(names[0] + ": ", Describe(t.fields[names[0]]), depth);
      if |names| > 1 {
        FieldsUnsplit(t, names[1..], depth);
        Flat(", ", depth);
        Chain(", ", FieldsText(t, names[1..]), depth);
        Chain(names[0] + ": " + Describe(t.fields[names[0]]), ", " + FieldsText(t, names[1..]), depth);
      } else {
        assert FieldsText(t, names) == names[0] + ": " + Describe(t.fields[names[0]]);
      }
    }
  }

  lemma Chain(a: string, b: string, depth: int)
    requires Net(a) == 0 && Net(b) == 0 && Unsplit(a, depth) && Unsplit(b, depth)
    ensures Net(a + b) == 0 && Unsplit(a + b, depth)
  {
    NetConcat(a, b);
    UnsplitConcat(a, b, depth);
  }

  lemma WordEdges(t: Ty)
    requires IsWord(t)
    ensures WordOf(t) != "" && Trimmed(WordOf(t)) && WordOf(t)[|WordOf(t)| - 1] != '>'
    ensures Word(WordOf(t)) == Some(t)
  {}

  lemma WrapEdges(open: string, s: string, close: string)
    requires (open == "[" && close == "]") || (open == "{" && close == "}")
    ensures var w := open + s + close;
            w != "" && Trimmed(w) && w[|w| - 1] != '>' && Word(w).None? && Enclosed(w, open[0], close[0])
  {
    var w := open + s + close;
    assert w[0] == open[0] && w[|w| - 1] == close[0];
    BracketIsNoWord(w);
  }

  lemma BracketIsNoWord(s: string)
    requires s != "" && (s[0] == '[' || s[0] == '{')
    ensures Word(s).None?
  {}

  lemma DescribeEdges(t: Ty)
    ensures Describe(t) != "" && Trimmed(Describe(t))
    ensures Describe(t)[|Describe(t)| - 1] != '>'
    ensures t.List? ==> Enclosed(Describe(t), '[', ']')
    ensures t.Record? ==> Enclosed(Describe(t), '{', '}')
    ensures t.List? || t.Record? ==> Word(Describe(t)).None?
  {
    if t.List? {
      WrapEdges("[", Describe(t.element), "]");
    } else if t.Record? {
      WrapEdges("{", FieldsText(t, SortedSeq(t.fields.Keys)), "}");
    } else {
      WordEdges(t);
    }
  }

  // ---------------------------------------------------------------- one record's parts

  function PartText(t: Ty, name: string): string
    requires t.Record? && name in t.fields
  {
    name + ": " + Describe(t.fields[name])
  }

  /** The parts a record's text should split into: every one but the first keeps the blank. */
  function PartTexts(t: Ty, names: seq<string>, lead: string): seq<string>
    requires t.Record? && forall n :: n in names ==> n in t.fields
  {
    if names == [] then []
    else [lead + PartText(t, names[0])] + PartTexts(t, names[1..], " ")
  }

  lemma NotBlank(s: string, i: nat)
    requires i < |s| && !IsSpace(s[i])
    ensures Trim(s) != ""
  {
    TrimStartParts(s);
    TrimEndParts(TrimStart(s));
    var r := TrimStart(s);
    assert r[i - (|s| - |r|)] == s[i];
  }

  lemma PartClosed(t: Ty, name: string, lead: string)
    requires t.Record? && BracketFreeNames(t) && name in t.fields && ',' !in name
    requires lead == "" || lead == " "
    ensures Closed(lead + PartText(t, name))
    ensures Trim(lead + PartText(t, name)) != ""
  {
    var head, value := lead + name + ": ", Describe(t.fields[name]);
    var part := lead + PartText(t, name);
    assert part == head + value;
    Flat(head, 0);
    DescribeUnsplit(t.fields[name], 0);
    ClosedConcat(head, value);
    assert part[|lead| + |name|] == ':';
    NotBlank(part, |lead| + |name|);
  }

  /** A closed piece is scanned as a whole. */
  lemma SplitClosed(x: string, rest: string)
    requires Closed(x)
    ensures Split(x + rest, 0, "") == Split(rest, 0, x)
  {
    SplitThrough(x, 0, "", rest);
    EmptyLeft(x);
  }

  lemma EmptyLeft(x: string)
    ensures "" + x == x
  {}

  lemma SplitAtComma(rest: string, current: string)
    requires rest != "" && rest[0] == ','
    ensures Split(rest, 0, current) == [current] + Split(rest[1..], 0, "")
  {}

  /** A closed piece at the end is the last part, unless it is blank. */
  lemma SplitLast(x: string)
    requires Closed(x)
    ensures Split(x, 0, "") == LastPart(x)
  {
    SplitClosed(x, "");
    assert x + "" == x;
  }

  /** A part followed by a comma is split off, and the blank stays with what follows. */
  lemma SplitPart(t: Ty, name: string, lead: string, others: string)
    requires t.Record? && BracketFreeNames(t) && name in t.fields && ',' !in name
    requires lead == "" || lead == " "
    ensures var part := lead + PartText(t, name);
            Split(part + (", " + others), 0, "") == [part] + Split(" " + others, 0, "")
  {
    var part := lead + PartText(t, name);
    PartClosed(t, name, lead);
    SplitClosed(part, ", " + others);
    SplitAtComma(", " + others, part);
    assert (", " + others)[1..] == " " + others;
  }

  lemma Assoc(a: string, b: string, c: string)
    ensures a + (b + c) == a + b + c
  {}

  lemma FieldsTextStep(t: Ty, names: seq<string>)
    requires t.Record? && |names| >= 2 && forall n :: n in names ==> n in t.fields
    ensures FieldsText(t, names) == PartText(t, names[0]) + (", " + FieldsText(t, names[1..]))
  {}

  lemma FieldsTextOne(t: Ty, names: seq<string>)
    requires t.Record? && |names| == 1 && names[0] in t.fields
    ensures FieldsText(t, names) == PartText(t, names[0])
  {}

  lemma FieldsTextCons(t: Ty, names: seq<string>, lead: string)
    requires t.Record? && |names| >= 2 && forall n :: n in names ==> n in t.fields
    ensures lead + FieldsText(t, names) == lead + PartText(t, names[0]) + (", " + FieldsText(t, names[1..]))
  {
    FieldsTextStep(t, names);
    Assoc(lead, PartText(t, names[0]), ", " + FieldsText(t, names[1..]));
  }

  lemma {:induction false} FieldsSplit(t: Ty, names: seq<string>, lead: string)
    requires t.Record? && BracketFreeNames(t) && names != []
    requires forall n :: n in names ==> n in t.fields && ',' !in n
    requires lead == "" || lead == " "
    ensures Split(lead + FieldsText(t, names), 0, "") == PartTexts(t, names, lead)
    decreases |names|
  {
    var part := lead + PartText(t, names[0]);
    PartClosed(t, names[0], lead);
    if |names| == 1 {
      assert FieldsText(t, names) == PartText(t, names[0]);
      SplitLast(part);
      assert PartTexts(t, names[1..], " ") == [];
    } else {
      FieldsTextCons(t, names, lead);
      SplitPart(t, names[0], lead, FieldsText(t, names[1..]));
      FieldsSplit(t, names[1..], " ");
    }
  }

  lemma FieldsNotBlank(t: Ty, names: seq<string>)
    requires t.Record? && names != [] && forall n :: n in names ==> n in t.fields
    ensures Trim(FieldsText(t, names)) != ""
  {
    var s := FieldsText(t, names);
    assert s[|names[0]|] == ':';
    NotBlank(s, |names[0]|);
  }

  /** A blank in front of printed text does not change how it parses. */
  lemma ParseAfterBlank(s: string)
    requires s == "" || !IsSpace(s[0])
    ensures Parse(" " + s) == Parse(s)
  {
    assert (" " + s)[1..] == s;
    assert TrimStart(" " + s) == TrimStart(s);
  }

  lemma ParseDescribed(t: Ty)
    ensures Parse(Describe(t)) == ParseTrimmed(Describe(t))
    ensures Parse(" " + Describe(t)) == ParseTrimmed(Describe(t))
  {
    DescribeEdges(t);
    TrimFixed(Describe(t));
    ParseAfterBlank(Describe(t));
  }

  lemma ColonAt(lead: string, name: string, rest: string)
    requires ':' !in name && (lead == "" || lead == " ")
    ensures var part := lead + (name + ": " + rest);
            IndexOf(part, ':') == |lead| + |name| &&
            part[..|lead| + |name|] == lead + name && part[|lead| + |name| + 1..] == " " + rest
  {
    var part := lead + (name + ": " + rest);
    var colon := |lead| + |name|;
    assert part[colon] == ':';
    forall j | 0 <= j < colon ensures part[j] != ':' {
      if j >= |lead| { assert part[j] == name[j - |lead|]; }
    }
  }

  /** How one well-formed part is read. */
  lemma PartColon(t: Ty, name: string, lead: string)
    requires t.Record? && name in t.fields && ReadableName(name)
    requires lead == "" || lead == " "
    ensures var part := lead + PartText(t, name);
            var colon := IndexOf(part, ':');
            colon < |part| && Trim(part[..colon]) == name &&
            part[colon + 1..] == " " + Describe(t.fields[name])
  {
    hide Describe, IndexOf, Trim;
    var rest := Describe(t.fields[name]);
    assert PartText(t, name) == name + ": " + rest;
    ColonAt(lead, name, rest);
    LeadTrimmed(lead, name);
  }

  lemma LeadTrimmed(lead: string, name: string)
    requires Trimmed(name) && (lead == "" || lead == " ")
    ensures Trim(lead + name) == name
  {
    hide TrimEnd;
    TrimFixed(name);
    if lead == " " {
      assert (lead + name)[1..] == name;
      assert TrimStart(lead + name) == TrimStart(name);
    } else {
      assert lead + name == name;
    }
  }

  /** One unfolding of the part reader. */
  lemma PartsStep(parts: seq<string>, acc: map<string, Ty>)
    requires parts != []
    requires IndexOf(parts[0], ':') < |parts[0]|
    ensures var colon := IndexOf(parts[0], ':');
            var read := Parse(parts[0][colon + 1..]);
            ParseParts(parts, acc) ==
            if read.Ok? then ParseParts(parts[1..], acc[Trim(parts[0][..colon]) := read.value])
            else Err(read.error)
  {}

  /** A well-formed part in front adds its field, if the field's own type can be read. */
  lemma ReadPart(t: Ty, name: string, lead: string, tail: seq<string>, acc: map<string, Ty>)
    requires t.Record? && name in t.fields && ReadableName(name)
    requires lead == "" || lead == " "
    ensures var read := ParseTrimmed(Describe(t.fields[name]));
            ParseParts([lead + PartText(t, name)] + tail, acc) ==
            if read.Ok? then ParseParts(tail, acc[name := read.value]) else Err(read.error)
  {
    var part := lead + PartText(t, name);
    assert ([part] + tail)[0] == part && ([part] + tail)[1..] == tail;
    PartColon(t, name, lead);
    ParseDescribed(t.fields[name]);
    PartsStep([part] + tail, acc);
  }

  /** One well-formed part adds its field, if the field's own type can be read. */
  lemma PartsCons(t: Ty, names: seq<string>, lead: string, acc: map<string, Ty>)
    requires t.Record? && names != []
    requires forall n :: n in names ==> n in t.fields
    requires ReadableName(names[0])
    requires lead == "" || lead == " "
    ensures var read := ParseTrimmed(Describe(t.fields[names[0]]));
            ParseParts(PartTexts(t, names, lead), acc) ==
            if read.Ok? then ParseParts(PartTexts(t, names[1..], " "), acc[names[0] := read.value])
            else Err(read.error)
  {
    ReadPart(t, names[0], lead, PartTexts(t, names[1..], " "), acc);
  }

  lemma SortedTail(names: seq<string>)
    requires Sorted(names) && names != []
    ensures Sorted(names[1..]) && names[0] !in names[1..]
    ensures forall n :: n in names <==> n == names[0] || n in names[1..]
  {
    forall n | n in names[1..] ensures n != names[0] {
      var k :| 1 <= k < |names| && names[k] == n;
      LessTrichotomy(names[0], n);
    }
  }

  lemma AddFirst(acc: map<string, Ty>, fields: map<string, Ty>, names: seq<string>)
    requires names != [] && forall n :: n in names ==> n in fields
    ensures acc[names[0] := fields[names[0]]] + (map n | n in names[1..] :: fields[n])
         == acc + (map n | n in names :: fields[n])
  {
    assert forall n :: n in names <==> n == names[0] || n in names[1..];
  }

  /** Parts that each read to their field's type read together to the fields. */
  lemma {:induction false} PartsReadBack(t: Ty, names: seq<string>, lead: string, acc: map<string, Ty>)
    requires t.Record?
    requires forall n :: n in names ==> n in t.fields && ReadableName(n)
    requires lead == "" || lead == " "
    requires forall n :: n in names ==> ParseTrimmed(Describe(t.fields[n])) == Ok(t.fields[n])
    ensures ParseParts(PartTexts(t, names, lead), acc) == Ok(acc + map n | n in names :: t.fields[n])
    decreases |names|
  {
    var all := map n | n in names :: t.fields[n];
    if names == [] {
      assert acc + all == acc;
    } else {
      PartsCons(t, names, lead, acc);
      var acc' := acc[names[0] := t.fields[names[0]]];
      PartsReadBack(t, names[1..], " ", acc');
      AddFirst(acc, t.fields, names);
    }
  }

  /** Conversely, whatever the parts read to, each field got what its own text reads to. */
  lemma {:induction false} PartsReadOnly(t: Ty, names: seq<string>, lead: string, acc: map<string, Ty>)
    requires t.Record? && Sorted(names)
    requires forall n :: n in names ==> n in t.fields && ReadableName(n) && n !in acc
    requires lead == "" || lead == " "
    ensures var r := ParseParts(PartTexts(t, names, lead), acc);
            r.Ok? ==>
              (forall n :: n in acc ==> n in r.value && r.value[n] == acc[n]) &&
              (forall n :: n in names ==> n in r.value && ParseTrimmed(Describe(t.fields[n])) == Ok(r.value[n]))
    decreases |names|
  {
    if names != [] {
      PartsCons(t, names, lead, acc);
      SortedTail(names);
      var read := ParseTrimmed(Describe(t.fields[names[0]]));
      if read.Ok? {
        var acc' := acc[names[0] := read.value];
        PartsReadOnly(t, names[1..], " ", acc');
        assert names[0] in acc' && acc'[names[0]] == read.value;
        forall n | n in acc ensures n in acc' && acc'[n] == acc[n] {}
      }
    }
  }

  // ---------------------------------------------------------------- what parsing can return

  lemma {:induction false} TrimKeeps(s: string, c: char)
    requires c !in s
    ensures c !in Trim(s) && Trimmed(Trim(s))
  {
    TrimParts(s);
  }

  /** A parsed record never has a name with a colon or with white space at an end. */
  lemma {:induction false} ParsedNames(s: string)
    ensures ParseTrimmed(s).Ok? ==> AllNames(ParseTrimmed(s).value, ReadableName)
    decreases |s|, 0
  {
    if Word(s).None? {
      if Enclosed(s, '[', ']') {
        ParsedNames(Trim(Inside(s)));
      } else if Enclosed(s, '{', '}') && Trim(Inside(s)) != "" {
        ParsedFieldNames(Split(Inside(s), 0, ""), map[]);
      }
    }
  }

  lemma {:induction false} ParsedFieldNames(parts: seq<string>, acc: map<string, Ty>)
    requires AllNames(Record(acc), ReadableName)
    ensures var r := ParseParts(parts, acc); r.Ok? ==> AllNames(Record(r.value), ReadableName)
    decreases Total(parts), 2, |parts|
  {
    hide IndexOf, Trim;
    if parts != [] {
      var part, rest := parts[0], parts[1..];
      var colon := IndexOf(part, ':');
      if colon < |part| {
        PartsStep(parts, acc);
        var read := Parse(part[colon + 1..]);
        if read.Ok? {
          ParsedNames(Trim(part[colon + 1..]));
          TrimKeeps(part[..colon], ':');
          ParsedFieldNames(rest, acc[Trim(part[..colon]) := read.value]);
        }
      }
    }
  }

  /** A name with a comma leaves a part without a colon, so the record is refused. */
  lemma {:induction false} CommaRefused(t: Ty, names: seq<string>, lead: string, text: string, acc: map<string, Ty>)
    requires t.Record? && BracketFreeNames(t) && names != []
    requires forall n :: n in names ==> n in t.fields && ':' !in n
    requires lead == "" || lead == " "
    requires ',' in names[0]
    requires |text| >= |names[0]| && text[..|names[0]|] == names[0]
    ensures ParseParts(Split(lead + text, 0, ""), acc).Err?
  {
    var comma := IndexOf(names[0], ',');
    var first := lead + names[0][..comma];
    var rest := text[comma..];
    assert rest[0] == ',' by {
      assert text[comma] == names[0][comma];
    }
    assert lead + text == first + rest by {
      assert text[..comma] == names[0][..comma];
    }
    assert BracketFree(names[0]);
    Flat(first, 0);
    SplitClosed(first, rest);
    SplitAtComma(rest, first);
    assert forall c :: c in names[0][..comma] ==> c in names[0];
    PartsStop([first] + Split(rest[1..], 0, ""), acc);
  }

  lemma PartsStop(parts: seq<string>, acc: map<string, Ty>)
    requires parts != [] && ':' !in parts[0]
    ensures ParseParts(parts, acc).Err?
  {
    assert IndexOf(parts[0], ':') == |parts[0]|;
  }

  // ---------------------------------------------------------------- round trip of types

  predicate CommaFree(name: string) { ',' !in name }

  /** One unfolding of the parser on braces around something. */
  lemma ParseEnclosed(s: string)
    requires Enclosed(s, '{', '}') && Trim(Inside(s)) != ""
    ensures ParseTrimmed(s) ==
            match ParseParts(Split(Inside(s), 0, ""), map[])
            case Ok(fields) => Ok(Record(fields))
            case Err(e) => Err(e)
  {
    BracketIsNoWord(s);
    assert |Inside(s)| == |s| - 2;
  }

  lemma InsideBraces(body: string)
    ensures Inside("{" + body + "}") == body && Enclosed("{" + body + "}", '{', '}')
  {}

  lemma ParseRecord(t: Ty)
    requires t.Record? && t.fields != map[]
    ensures var body := FieldsText(t, SortedSeq(t.fields.Keys));
            ParseTrimmed(Describe(t)) ==
            match ParseParts(Split(body, 0, ""), map[])
            case Ok(fields) => Ok(Record(fields))
            case Err(e) => Err(e)
  {
    SortedNonempty(t.fields);
    var body := FieldsText(t, SortedSeq(t.fields.Keys));
    FieldsNotBlank(t, SortedSeq(t.fields.Keys));
    InsideBraces(body);
    ParseEnclosed("{" + body + "}");
  }

  lemma ParseList(t: Ty)
    requires t.List?
    ensures ParseTrimmed(Describe(t)) ==
            match ParseTrimmed(Describe(t.element))
            case Ok(inner) => Ok(List(inner))
            case Err(e) => Err(e)
  {
    DescribeEdges(t);
    ParseDescribed(t.element);
    assert Inside(Describe(t)) == Describe(t.element);
  }

  lemma ParseEmptyRecord()
    ensures ParseTrimmed(Describe(Record(map[]))) == Ok(Record(map[]))
  {
    var names := SortedSeq({});
    assert Describe(Record(map[])) == "{}";
    assert Inside("{}") == "";
  }

  /** Clean names are enough, whatever the nesting. */
  lemma {:induction false} CleanRoundTrip(t: Ty)
    requires BracketFreeNames(t) && CleanNames(t)
    ensures ParseTrimmed(Describe(t)) == Ok(t)
    decreases t
  {
    if t.List? {
      CleanRoundTrip(t.element);
      ParseList(t);
    } else if t.Record? {
      if t.fields == map[] {
        ParseEmptyRecord();
      } else {
        forall n | n in t.fields ensures ParseTrimmed(Describe(t.fields[n])) == Ok(t.fields[n]) {
          CleanRoundTrip(t.fields[n]);
        }
        RecordRoundTrip(t);
      }
    }
  }

  /** A record without commas in its names is read part by part. */
  lemma ParseRecordParts(t: Ty)
    requires t.Record? && t.fields != map[] && BracketFreeNames(t)
    requires forall n :: n in t.fields ==> CommaFree(n)
    ensures var names := SortedSeq(t.fields.Keys);
            ParseTrimmed(Describe(t)) ==
            match ParseParts(PartTexts(t, names, ""), map[])
            case Ok(fields) => Ok(Record(fields))
            case Err(e) => Err(e)
  {
    var names := SortedSeq(t.fields.Keys);
    SortedNonempty(t.fields);
    ParseRecord(t);
    FieldsSplit(t, names, "");
    assert "" + FieldsText(t, names) == FieldsText(t, names);
  }

  lemma AllFields(fields: map<string, Ty>, names: seq<string>)
    requires forall n :: n in names <==> n in fields
    ensures map[] + (map n | n in names :: fields[n]) == fields
  {}

  lemma RecordRoundTrip(t: Ty)
    requires t.Record? && t.fields != map[] && BracketFreeNames(t)
    requires forall n :: n in t.fields ==> CleanName(n) && ParseTrimmed(Describe(t.fields[n])) == Ok(t.fields[n])
    ensures ParseTrimmed(Describe(t)) == Ok(t)
  {
    var names := SortedSeq(t.fields.Keys);
    ParseRecordParts(t);
    PartsReadBack(t, names, "", map[]);
    AllFields(t.fields, names);
  }

  lemma SortedNonempty(fields: map<string, Ty>)
    requires fields != map[]
    ensures SortedSeq(fields.Keys) != []
  {
    var n :| n in fields;
    assert n in SortedSeq(fields.Keys);
  }

  /** With one name that has a comma, the whole record is refused. */
  lemma {:induction false} SomeCommaRefused(t: Ty, names: seq<string>, lead: string, acc: map<string, Ty>)
    requires t.Record? && BracketFreeNames(t)
    requires forall n :: n in names ==> n in t.fields && ReadableName(n)
    requires exists n :: n in names && !CommaFree(n)
    requires lead == "" || lead == " "
    ensures ParseParts(Split(lead + FieldsText(t, names), 0, ""), acc).Err?
    decreases |names|
  {
    var text := FieldsText(t, names);
    if !CommaFree(names[0]) {
      assert text[..|names[0]|] == names[0];
      CommaRefused(t, names, lead, text, acc);
    } else {
      assert |names| >= 2;
      FieldsTextCons(t, names, lead);
      SplitPart(t, names[0], lead, FieldsText(t, names[1..]));
      ReadPart(t, names[0], lead, Split(" " + FieldsText(t, names[1..]), 0, ""), acc);
      var read := ParseTrimmed(Describe(t.fields[names[0]]));
      if read.Ok? {
        SomeCommaRefused(t, names[1..], " ", acc[names[0] := read.value]);
      }
    }
  }

  /** What comes back unchanged had clean names. */
  lemma {:induction false} RoundTripIsClean(t: Ty)
    requires BracketFreeNames(t) && ParseTrimmed(Describe(t)) == Ok(t)
    ensures CleanNames(t)
    decreases t
  {
    ParsedNames(Describe(t));
    if t.List? {
      ParseList(t);
      RoundTripIsClean(t.element);
    } else if t.Record? && t.fields != map[] {
      NoCommaReadBack(t);
      FieldsReadBack(t);
      forall n | n in t.fields ensures CleanName(n) && CleanNames(t.fields[n]) {
        assert CommaFree(n) && ReadableName(n);
        RoundTripIsClean(t.fields[n]);
      }
    }
  }

  lemma NoCommaReadBack(t: Ty)
    requires t.Record? && t.fields != map[] && BracketFreeNames(t) && ReadableNames(t)
    requires ParseTrimmed(Describe(t)).Ok?
    ensures forall n :: n in t.fields ==> CommaFree(n)
  {
    var names := SortedSeq(t.fields.Keys);
    var body := FieldsText(t, names);
    ParseRecord(t);
    assert "" + body == body;
    if exists n :: n in names && !CommaFree(n) {
      SomeCommaRefused(t, names, "", map[]);
    }
  }

  lemma FieldsReadBack(t: Ty)
    requires t.Record? && t.fields != map[] && BracketFreeNames(t) && ReadableNames(t)
    requires forall n :: n in t.fields ==> CommaFree(n)
    requires ParseTrimmed(Describe(t)) == Ok(t)
    ensures forall n :: n in t.fields ==> ParseTrimmed(Describe(t.fields[n])) == Ok(t.fields[n])
  {
    var names := SortedSeq(t.fields.Keys);
    SortedSeqSorted(t.fields.Keys);
    ParseRecordParts(t);
    PartsReadOnly(t, names, "", map[]);
    forall n | n in t.fields ensures ParseTrimmed(Describe(t.fields[n])) == Ok(t.fields[n]) {
      assert n in names;
    }
  }

  /**
   For names without brackets, printing and then parsing a type returns it
   exactly when no name, at any depth, has a comma, a colon, or white space at an end.
   */
  lemma TypeRoundTripExactly(t: Ty)
    requires BracketFreeNames(t)
    ensures Parse(Describe(t)) == Ok(t) <==> CleanNames(t)
  {
    ParseDescribed(t);
    if CleanNames(t) {
      CleanRoundTrip(t);
    } else if ParseTrimmed(Describe(t)) == Ok(t) {
      RoundTripIsClean(t);
    }
  }

  // ---------------------------------------------------------------- no proper prefix is a type

  lemma WordPrefix(d: string, s: string)
    requires Word(d).Some? && |s| < |d| && s == d[..|s|]
    ensures Word(s).None?
  {
    if |s| >= 2 {
      assert s[0] == d[0] && s[1] == d[1];
    }
  }

  lemma ListRefused(s: string)
    requires Enclosed(s, '[', ']') && Parse(Inside(s)).Err?
    ensures ParseTrimmed(s).Err?
  {
    BracketIsNoWord(s);
  }

  lemma OpenRefused(s: string)
    requires Word(s).None? && !Enclosed(s, '[', ']') && !Enclosed(s, '{', '}')
    ensures ParseTrimmed(s).Err?
  {}

  /** What is inside a cut of wrapped text is a cut of the text. */
  lemma InsideCut(open: string, d: string, close: string, s: string)
    requires |open| == |close| == 1
    requires 2 <= |s| < |open + d + close| && s == (open + d + close)[..|s|]
    ensures |Inside(s)| < |d| && Inside(s) == d[..|Inside(s)|]
    ensures Inside(s) + [s[|s| - 1]] == d[..|Inside(s)| + 1]
  {
    assert Inside(s) == (open + d + close)[1..1 + |Inside(s)|];
    assert s[1..] == (open + d + close)[1..|s|];
  }

  /** A proper prefix of a printed type is not itself a type. */
  lemma {:induction false} PrefixRefused(t: Ty, s: string)
    requires BracketFreeNames(t) && ReadableNames(t)
    requires |s| < |Describe(t)| && s == Describe(t)[..|s|]
    ensures ParseTrimmed(s).Err?
    decreases t, 4
  {
    if s == "" {
      OpenRefused(s);
    } else if !(t.List? || t.Record?) {
      assert Word(Describe(t)).Some?;
      WordPrefix(Describe(t), s);
      assert s[0] == Describe(t)[0];
      OpenRefused(s);
    } else {
      assert s[0] == Describe(t)[0];
      BracketIsNoWord(s);
      if t.List? && Enclosed(s, '[', ']') {
        InsideCut("[", Describe(t.element), "]", s);
        assert "" + Inside(s) == Inside(s);
        TrimPrefixRefused(t.element, "", Inside(s));
        ListRefused(s);
      } else if t.Record? && Enclosed(s, '{', '}') {
        RecordPrefixRefused(t, s);
      } else {
        OpenRefused(s);
      }
    }
  }

  lemma {:induction false} RecordPrefixRefused(t: Ty, s: string)
    requires t.Record? && BracketFreeNames(t) && ReadableNames(t)
    requires |s| < |Describe(t)| && s == Describe(t)[..|s|]
    requires Enclosed(s, '{', '}')
    ensures ParseTrimmed(s).Err?
    decreases t, 3
  {
    var names := SortedSeq(t.fields.Keys);
    InsideCut("{", FieldsText(t, names), "}", s);
    assert "" + Inside(s) == Inside(s);
    FieldsPrefixRefused(t, names, "", Inside(s), map[]);
    ParseEnclosed(s);
  }

  /** The same after the trimming that `parse` does, with or without a leading blank. */
  lemma {:induction false} TrimPrefixRefused(t: Ty, lead: string, r: string)
    requires BracketFreeNames(t) && ReadableNames(t)
    requires lead == "" || lead == " "
    requires |r| < |Describe(t)| && r == Describe(t)[..|r|]
    ensures Parse(lead + r).Err?
    decreases t, 5
  {
    DescribeEdges(t);
    assert r == "" || r[0] == Describe(t)[0];
    TrimCut(lead, r, Describe(t));
    PrefixRefused(t, Trim(r));
  }

  lemma TrimCut(lead: string, r: string, d: string)
    requires lead == "" || lead == " "
    requires r == "" || !IsSpace(r[0])
    requires |r| < |d| && r == d[..|r|]
    ensures Parse(lead + r) == ParseTrimmed(Trim(r))
    ensures |Trim(r)| < |d| && Trim(r) == d[..|Trim(r)|]
  {
    if lead == " " { ParseAfterBlank(r); }
    assert "" + r == r;
    TrimEndParts(r);
    assert TrimStart(r) == r;
  }

  /** A record's text cut off right before a closing brace has no readable last part. */
  lemma {:induction false} FieldsPrefixRefused(t: Ty, names: seq<string>, lead: string, q: string, acc: map<string, Ty>)
    requires t.Record? && BracketFreeNames(t) && ReadableNames(t)
    requires forall n :: n in names ==> n in t.fields
    requires lead == "" || lead == " "
    requires |q| + 1 <= |FieldsText(t, names)| && q + "}" == FieldsText(t, names)[..|q| + 1]
    ensures Trim(q) != ""
    ensures ParseParts(Split(lead + q, 0, ""), acc).Err?
    decreases t, 2, |names|
  {
    var name := names[0];
    CutPastName(t, names, q);
    NotBlank(q, |name|);
    if !CommaFree(name) {
      CommaRefused(t, names, lead, q, acc);
    } else if |q| < |PartText(t, name)| {
      LastFieldRefused(t, name, lead, q[|name| + 2..], acc);
    } else {
      var q' := CutAfterField(t, names, q);
      assert lead + q == lead + PartText(t, name) + (", " + q');
      SplitPart(t, name, lead, q');
      ReadPart(t, name, lead, Split(" " + q', 0, ""), acc);
      var read := ParseTrimmed(Describe(t.fields[name]));
      if read.Ok? {
        FieldsPrefixRefused(t, names[1..], " ", q', acc[name := read.value]);
      }
    }
  }

  /** A cut before a closing brace keeps the first name and its colon. */
  lemma CutPastName(t: Ty, names: seq<string>, q: string)
    requires t.Record? && BracketFreeNames(t) && names != [] && forall n :: n in names ==> n in t.fields
    requires |q| < |FieldsText(t, names)| && q + "}" == FieldsText(t, names)[..|q| + 1]
    ensures |q| >= |names[0]| + 2 && q[..|names[0]|] == names[0] && q[|names[0]|] == ':'
    ensures |q| < |PartText(t, names[0])| ==>
              var r := q[|names[0]| + 2..];
              q == names[0] + ": " + r && r == Describe(t.fields[names[0]])[..|r|]
  {
    var text, name := FieldsText(t, names), names[0];
    var head, value := name + ": ", Describe(t.fields[name]);
    assert text[..|head| + |value|] == head + value;
    assert text[|q|] == '}' && q == text[..|q|] by { CutBefore(text, q); }
    FirstChars(text, head, value, |q|);
    assert BracketFree(name) && '}' !in head;
    CutSecond(text, head, value, q);
    assert q[..|head|] == head;
    assert head[..|name|] == name && head[|name|] == ':';
    assert q[..|name|] == q[..|head|][..|name|];
  }

  lemma FirstChars(text: string, head: string, value: string, i: nat)
    requires |head| + |value| <= |text| && text[..|head| + |value|] == head + value
    ensures i < |head| ==> text[i] in head
  {
    if i < |head| {
      assert text[i] == (head + value)[i];
    }
  }

  lemma CutBefore(text: string, q: string)
    requires |q| < |text| && q + "}" == text[..|q| + 1]
    ensures text[|q|] == '}' && q == text[..|q|]
  {
    assert (q + "}")[|q|] == '}';
    assert q == (q + "}")[..|q|];
  }

  /** A cut that ends inside the second of two pieces. */
  lemma CutSecond(text: string, head: string, value: string, q: string)
    requires |head| + |value| <= |text| && text[..|head| + |value|] == head + value
    requires |head| <= |q| <= |text| && q == text[..|q|]
    ensures q == head + q[|head|..]
    ensures |q| < |head| + |value| ==> q[|head|..] == value[..|q| - |head|]
  {
    assert q[..|head|] == text[..|head| + |value|][..|head|];
    if |q| < |head| + |value| {
      assert q == text[..|head| + |value|][..|q|];
    }
  }

  /** A cut past the first field leaves that field whole, then a cut of the others. */
  lemma CutAfterField(t: Ty, names: seq<string>, q: string) returns (q': string)
    requires t.Record? && names != [] && forall n :: n in names ==> n in t.fields
    requires |PartText(t, names[0])| <= |q| < |FieldsText(t, names)|
    requires q + "}" == FieldsText(t, names)[..|q| + 1]
    ensures |names| >= 2 && q == PartText(t, names[0]) + (", " + q')
    ensures |q'| < |FieldsText(t, names[1..])| && q' + "}" == FieldsText(t, names[1..])[..|q'| + 1]
  {
    var first := PartText(t, names[0]);
    if |names| == 1 {
      FieldsTextOne(t, names);
    }
    FieldsTextStep(t, names);
    q' := CutThird(first, FieldsText(t, names[1..]), q);
  }

  lemma CutThird(first: string, others: string, q: string) returns (q': string)
    requires |first| <= |q| <= |first| + 1 + |others| && q + "}" == (first + (", " + others))[..|q| + 1]
    ensures q == first + (", " + q') && |q'| < |others| && q' + "}" == others[..|q'| + 1]
  {
    var text := first + (", " + others);
    CutBefore(text, q);
    assert text[|first|] == ',' && text[|first| + 1] == ' ';
    q' := q[|first| + 2..];
    assert q' + "}" == (q + "}")[|first| + 2..];
    assert text[|first| + 2..] == others;
    assert q' + "}" == others[..|q'| + 1];
  }

  /** The last field's type is cut short, so its part cannot be read. */
  lemma {:induction false} LastFieldRefused(t: Ty, name: string, lead: string, r: string, acc: map<string, Ty>)
    requires t.Record? && BracketFreeNames(t) && ReadableNames(t)
    requires name in t.fields && CommaFree(name)
    requires lead == "" || lead == " "
    requires |r| < |Describe(t.fields[name])| && r == Describe(t.fields[name])[..|r|]
    ensures ParseParts(Split(lead + (name + ": " + r), 0, ""), acc).Err?
    decreases t, 1
  {
    var part := lead + (name + ": " + r);
    LastFieldAlone(t, name, lead, r);
    ColonAt(lead, name, r);
    TrimPrefixRefused(t.fields[name], " ", r);
    OnePartRefused(part, acc);
  }

  lemma LastFieldAlone(t: Ty, name: string, lead: string, r: string)
    requires t.Record? && BracketFreeNames(t) && name in t.fields && CommaFree(name)
    requires lead == "" || lead == " "
    requires |r| < |Describe(t.fields[name])| && r == Describe(t.fields[name])[..|r|]
    ensures Split(lead + (name + ": " + r), 0, "") == [lead + (name + ": " + r)]
  {
    var head, part := lead + name + ": ", lead + (name + ": " + r);
    assert part == head + r;
    CutUnsplit(t.fields[name], head, r);
    assert part[|lead| + |name|] == ':';
    NotBlank(part, |lead| + |name|);
    SplitWhole(part);
  }

  lemma SplitWhole(x: string)
    requires Unsplit(x, 0) && Trim(x) != ""
    ensures Split(x, 0, "") == [x]
  {
    SplitThrough(x, 0, "", "");
    assert x + "" == x && "" + x == x;
  }

  lemma OnePartRefused(part: string, acc: map<string, Ty>)
    requires IndexOf(part, ':') < |part|
    requires Parse(part[IndexOf(part, ':') + 1..]).Err?
    ensures ParseParts([part], acc).Err?
  {
    PartsStep([part], acc);
  }

  lemma CutUnsplit(t: Ty, head: string, r: string)
    requires BracketFreeNames(t) && BracketFree(head) && ',' !in head
    requires |r| <= |Describe(t)| && r == Describe(t)[..|r|]
    ensures Unsplit(head + r, 0)
  {
    DescribeUnsplit(t, 0);
    UnsplitPrefix(Describe(t), r, 0);
    Flat(head, 0);
    UnsplitConcat(head, r, 0);
  }

  // ---------------------------------------------------------------- round trip of signatures

  /** The arrow cannot start inside `a` and end outside it. */
  lemma NoStraddle(a: string, b: string, p: nat)
    requires p < |a| && !OccursAt(a, " -> ", p) && a[|a| - 1] != '>'
    ensures !OccursAt(a + " -> " + b, " -> ", p)
  {
    var s := a + " -> " + b;
    var found := s[p..p + 4];
    if p + 4 <= |a| {
      assert found == a[p..p + 4];
    } else {
      var k := |a| - p;
      assert found[k - 1] == a[|a| - 1] && found[k] == ' ';
      assert " -> "[k - 1] == '>' || " -> "[k] != ' ';
    }
  }

  lemma ArrowAfter(a: string, b: string)
    requires !Contains(a, " -> ") && a != "" && a[|a| - 1] != '>'
    ensures Find(a + " -> " + b, " -> ") == Some(|a|)
  {
    var s := a + " -> " + b;
    assert OccursAt(s, " -> ", |a|) by { assert s[|a|..|a| + 4] == " -> "; }
    assert Contains(s, " -> ");
    forall p: nat | p < |a| ensures !OccursAt(s, " -> ", p) {
      NoStraddle(a, b, p);
    }
  }

  lemma ArrowInside(a: string, b: string)
    requires Contains(a, " -> ")
    ensures Find(a + " -> " + b, " -> ").Some?
    ensures var p := Find(a + " -> " + b, " -> ").value; p < |a| && (a + " -> " + b)[..p] == a[..p]
  {
    var s := a + " -> " + b;
    var j: nat :| j <= |a| && OccursAt(a, " -> ", j);
    assert s[j..j + 4] == a[j..j + 4];
    assert OccursAt(s, " -> ", j) && Contains(s, " -> ");
    var p := Find(s, " -> ").value;
    assert p <= j;
  }

  /**
   For names without brackets, a signature comes back from its text exactly when
   both sides do and the arrow does not already occur inside the input side.
   */
  lemma SignatureRoundTripExactly(sig: Signature)
    requires BracketFreeNames(sig.input) && BracketFreeNames(sig.output)
    ensures ParseSignature(DescribeSignature(sig)) == Ok(sig) <==>
            CleanNames(sig.input) && CleanNames(sig.output) && !Contains(Describe(sig.input), " -> ")
  {
    hide Describe, Contains;
    var a, b := Describe(sig.input), Describe(sig.output);
    var s := a + " -> " + b;
    DescribeEdges(sig.input);
    if !Contains(a, " -> ") {
      ArrowAfter(a, b);
      assert s[..|a|] == a && s[|a| + 4..] == b;
      TypeRoundTripExactly(sig.input);
      TypeRoundTripExactly(sig.output);
    } else {
      ArrowInside(a, b);
      var p := Find(s, " -> ").value;
      assert "" + a[..p] == a[..p];
      if ReadableNames(sig.input) {
        TrimPrefixRefused(sig.input, "", a[..p]);
      } else {
        ParsedNames(Trim(a[..p]));
      }
    }
  }

  /** The separator does occur in printed types: a field may be named so. */
  lemma ArrowInNameBreaksSignature()
    ensures var sig := Signature(Record(map["a -> b" := Text]), Text);
            CleanNames(sig.input) && Parse(Describe(sig.input)) == Ok(sig.input) &&
            ParseSignature(DescribeSignature(sig)) != Ok(sig)
  {
    var t := Record(map["a -> b" := Text]);
    ArrowIsClean();
    OneFieldText("a -> b");
    ArrowSeen(Describe(t));
    TypeRoundTripExactly(t);
    SignatureRoundTripExactly(Signature(t, Text));
  }

  /** A bracket in a field name can: cut before `: text}`, this type's text is that of another type. */
  lemma BracketInNameCutsShort()
    ensures var t, u := Record(map["a: text}" := Text]), Record(map["a" := Text]);
            |Describe(u)| < |Describe(t)| && Describe(u) == Describe(t)[..|Describe(u)|] && Parse(Describe(u)) == Ok(u)
  {
    hide Describe, Parse;
    OneFieldText("a: text}");
    OneFieldText("a");
    OneLetterReads();
    assert "{" + "a: text}" + ": text}" == "{a: text}: text}" && "{" + "a" + ": text}" == "{a: text}";
    assert "{a: text}: text}"[..9] == "{a: text}";
  }

  lemma OneLetterReads()
    ensures Parse(Describe(Record(map["a" := Text]))) == Ok(Record(map["a" := Text]))
  {
    hide Describe, Parse;
    LetterIsClean();
    TypeRoundTripExactly(Record(map["a" := Text]));
  }

  lemma LetterIsClean()
    ensures BracketFree("a") && CleanName("a")
  {}

  lemma ArrowIsClean()
    ensures BracketFree("a -> b") && CleanName("a -> b")
  {}

  lemma ArrowSeen(s: string)
    requires s == "{a -> b: text}"
    ensures Contains(s, " -> ")
  {
    assert s[2..6] == " -> ";
    assert OccursAt(s, " -> ", 2);
  }

  lemma OneFieldText(name: string)
    ensures Describe(Record(map[name := Text])) == "{" + name + ": text}"
  {
    var t := Record(map[name := Text]);
    assert t.fields.Keys == {name};
    OneKey(name);
    assert FieldsText(t, [name]) == name + ": " + "text";
    assert "{" + (name + ": " + "text") + "}" == "{" + name + ": text}";
  }

  lemma OneKey(k: string)
    ensures SortedSeq({k}) == [k]
  {
    var r := SortedSeq({k});
    SortedSeqSorted({k});
    assert r[0] in r;
  }
}
