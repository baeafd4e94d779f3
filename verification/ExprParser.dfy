/** Parsing a node's input expression from tokens. */
module ExprParser {
  import opened Wrappers
  import opened Strings
  import opened Graphs
  import opened Lexer
  import opened SpecText

  datatype ParseError = Expected(what: string, at: nat) | NotAReference(name: string)

  /** A parsed expression and the position just past it. */
  datatype Parsed = Parsed(expr: InputExpr, at: nat)

  const SUFFIX := ".out"

  function StripSuffix(name: string): Option<string> {
    if |name| >= |SUFFIX| && name[|name| - |SUFFIX|..] == SUFFIX then Some(name[..|name| - |SUFFIX|]) else None
  }

  function Peek(ts: seq<Tok>, at: nat): Option<Tok> {
    if at < |ts| then Some(ts[at]) else None
  }

  function SkipSemi(ts: seq<Tok>, at: nat): (r: nat)
    ensures at <= r <= at + 1 && (at <= |ts| ==> r <= |ts|)
  {
    if Peek(ts, at) == Some(Semicolon) then at + 1 else at
  }

  /** `node.out`, `{ field = expr; ... }` or `[ expr, ... ]`. */
  function ParseExpr(ts: seq<Tok>, at: nat): (r: Result<Parsed, ParseError>)
    requires at <= |ts|
    ensures r.Ok? ==> at < r.value.at <= |ts|
    decreases |ts| - at, 1
  {
    match Peek(ts, at)
    case Some(OpenBrace) => ParseFields(ts, at + 1, map[])
    case Some(OpenBracket) => ParseItems(ts, at + 1, [])
    case Some(Ident(name)) =>
      (match StripSuffix(name)
       case Some(node) => Ok(Parsed(FromNode(node), at + 1))
       case None => Err(NotAReference(name)))
    case _ => Err(Expected("an input expression", at))
  }

  function ParseFields(ts: seq<Tok>, at: nat, fields: map<string, InputExpr>): (r: Result<Parsed, ParseError>)
    requires at <= |ts|
    ensures r.Ok? ==> at < r.value.at <= |ts|
    decreases |ts| - at, 0
  {
    if Peek(ts, at) == Some(CloseBrace) then Ok(Parsed(Fields(fields), at + 1))
    else if at == |ts| || !ts[at].Ident? then Err(Expected("a name", at))
    else if Peek(ts, at + 1) != Some(Equals) then Err(Expected("`=`", at + 1))
    else
      match ParseExpr(ts, at + 2)
      case Err(e) => Err(e)
      case Ok(value) => ParseFields(ts, SkipSemi(ts, value.at), fields[ts[at].name := value.expr])
  }

  function ParseItems(ts: seq<Tok>, at: nat, items: seq<InputExpr>): (r: Result<Parsed, ParseError>)
    requires at <= |ts|
    ensures r.Ok? ==> at < r.value.at <= |ts|
    decreases |ts| - at, 2
  {
    if Peek(ts, at) == Some(CloseBracket) then Ok(Parsed(Items(items), at + 1))
    else
      match ParseExpr(ts, at)
      case Err(e) => Err(e)
      case Ok(value) =>
        if Peek(ts, value.at) == Some(Comma) then ParseItems(ts, value.at + 1, items + [value.expr])
        else if Peek(ts, value.at) == Some(CloseBracket) then Ok(Parsed(Items(items + [value.expr]), value.at + 1))
        else Err(Expected("`]`", value.at))
  }

  /** The recursive-descent parser, moving a cursor over the tokens. */
  class GraphParser {
    const tokens: seq<Tok>
    var at: nat

    constructor (tokens: seq<Tok>, at: nat)
      ensures this.tokens == tokens && this.at == at
    {
      this.tokens, this.at := tokens, at;
    }

    method Expect(want: Tok) returns (r: Result<(), ParseError>)
      modifies this
      ensures r.Ok? <==> Peek(tokens, old(at)) == Some(want)
      ensures at == if r.Ok? then old(at) + 1 else old(at)
      ensures r.Err? ==> r.error.Expected? && r.error.at == old(at)
    {
      if at < |tokens| && tokens[at] == want {
        at := at + 1;
        return Ok(());
      }
      return Err(Expected("another token", at));
    }

    method InputExpr() returns (r: Result<InputExpr, ParseError>)
      requires at <= |tokens|
      modifies this
      ensures at <= |tokens|
      ensures r.Ok? <==> ParseExpr(tokens, old(at)).Ok?
      ensures r.Ok? ==> Parsed(r.value, at) == ParseExpr(tokens, old(at)).value
      decreases |tokens| - at, 1
    {
      if at == |tokens| {
        return Err(Expected("an input expression", at));
      }
      match tokens[at] {
        case OpenBrace =>
          at := at + 1;
          r := RecordBody();
        case OpenBracket =>
          at := at + 1;
          r := ListBody();
        case Ident(name) =>
          at := at + 1;
          var node := StripSuffix(name);
          r := if node.Some? then Ok(FromNode(node.value)) else Err(NotAReference(name));
        case _ =>
          r := Err(Expected("an input expression", at));
      }
    }

    method RecordBody() returns (r: Result<InputExpr, ParseError>)
      requires at <= |tokens|
      modifies this
      ensures at <= |tokens|
      ensures r.Ok? <==> ParseFields(tokens, old(at), map[]).Ok?
      ensures r.Ok? ==> Parsed(r.value, at) == ParseFields(tokens, old(at), map[]).value
      decreases |tokens| - at, 0
    {
      var fields: map<string, Graphs.InputExpr> := map[];
      while !(at < |tokens| && tokens[at] == CloseBrace)
        invariant old(at) <= at <= |tokens|
        invariant ParseFields(tokens, old(at), map[]) == ParseFields(tokens, at, fields)
        decreases |tokens| - at
      {
        if at == |tokens| || !tokens[at].Ident? {
          return Err(Expected("a name", at));
        }
        var name := tokens[at].name;
        at := at + 1;
        var equals := Expect(Equals);
        if equals.Err? {
          return Err(equals.error);
        }
        var value := InputExpr();
        if value.Err? {
          return Err(value.error);
        }
        fields := fields[name := value.value];
        at := SkipSemi(tokens, at);
      }
      at := at + 1;
      return Ok(Fields(fields));
    }

    method ListBody() returns (r: Result<InputExpr, ParseError>)
      requires at <= |tokens|
      modifies this
      ensures at <= |tokens|
      ensures r.Ok? <==> ParseItems(tokens, old(at), []).Ok?
      ensures r.Ok? ==> Parsed(r.value, at) == ParseItems(tokens, old(at), []).value
      decreases |tokens| - at, 2
    {
      var items: seq<Graphs.InputExpr> := [];
      while !(at < |tokens| && tokens[at] == CloseBracket)
        invariant old(at) <= at <= |tokens|
        invariant ParseItems(tokens, old(at), []) == ParseItems(tokens, at, items)
        decreases |tokens| - at
      {
        var item := InputExpr();
        if item.Err? {
          return Err(item.error);
        }
        items := items + [item.value];
        if at < |tokens| && tokens[at] == Comma {
          at := at + 1;
        } else {
          var close := Expect(CloseBracket);
          if close.Err? {
            return Err(close.error);
          }
          return Ok(Items(items));
        }
      }
      at := at + 1;
      return Ok(Items(items));
    }
  }

  // ---------------------------------------------------------------- writing an expression

  function TokensOf(e: InputExpr): (ts: seq<Tok>)
    ensures ts != []
    decreases e
  {
    match e
    case FromNode(node) => [Ident(node + SUFFIX)]
    case Fields(fields) => [OpenBrace] + FieldTokens(e, SortedSeq(fields.Keys)) + [CloseBrace]
    case Items(items) => [OpenBracket] + ItemTokens(e, 0) + [CloseBracket]
  }

  function FieldTokens(e: InputExpr, names: seq<string>): seq<Tok>
    requires e.Fields? && forall f :: f in names ==> f in e.fields
    decreases e, |names|
  {
    if names == [] then []
    else [Ident(names[0]), Equals] + (TokensOf(e.fields[names[0]]) + ([Semicolon] + FieldTokens(e, names[1..])))
  }

  function ItemTokens(e: InputExpr, i: nat): seq<Tok>
    requires e.Items? && i <= |e.items|
    decreases e, |e.items| - i
  {
    if i == |e.items| then []
    else if i + 1 == |e.items| then TokensOf(e.items[i])
    else TokensOf(e.items[i]) + ([Comma] + ItemTokens(e, i + 1))
  }

  /** The tokens at `at` are `first`, then `rest`. */
  ghost predicate Next(ts: seq<Tok>, at: nat, first: seq<Tok>, rest: seq<Tok>) {
    at <= |ts| && ts[at..] == first + rest
  }

  /** `a` comes first and `b` after it. */
  lemma NextSplit(ts: seq<Tok>, at: nat, a: seq<Tok>, b: seq<Tok>, rest: seq<Tok>)
    requires Next(ts, at, a + b, rest)
    ensures Next(ts, at, a, b + rest) && Next(ts, at + |a|, b, rest)
  {
    assert (a + b) + rest == a + (b + rest);
    assert ts[at + |a|..] == ts[at..][|a|..];
  }

  /** One token comes first and `more` after it. */
  lemma NextHead(ts: seq<Tok>, at: nat, tok: Tok, more: seq<Tok>, rest: seq<Tok>)
    requires Next(ts, at, [tok] + more, rest)
    ensures Peek(ts, at) == Some(tok) && Next(ts, at + 1, more, rest)
  {
    assert ts[at..][0] == tok;
    assert ts[at + 1..] == ts[at..][1..] == more + rest;
  }

  lemma NextIs(ts: seq<Tok>, at: nat, a: seq<Tok>, b: seq<Tok>, rest: seq<Tok>)
    requires Next(ts, at, a, rest) && a == b
    ensures Next(ts, at, b, rest)
  {}

  // ---------------------------------------------------------------- reading it back

  ghost predicate ReadsAs(r: Result<Parsed, ParseError>, e: InputExpr, at: nat) {
    r == Ok(Parsed(e, at))
  }

  lemma ReferenceReadsBack(ts: seq<Tok>, at: nat, node: string, rest: seq<Tok>)
    requires Next(ts, at, TokensOf(FromNode(node)), rest)
    ensures ReadsAs(ParseExpr(ts, at), FromNode(node), at + |TokensOf(FromNode(node))|)
  {
    NextIs(ts, at, TokensOf(FromNode(node)), [Ident(node + SUFFIX)] + [], rest);
    NextHead(ts, at, Ident(node + SUFFIX), [], rest);
    assert (node + SUFFIX)[..|node|] == node && (node + SUFFIX)[|node|..] == SUFFIX;
  }

  lemma RecordOpens(ts: seq<Tok>, at: nat, e: InputExpr, rest: seq<Tok>)
    requires e.Fields? && Next(ts, at, TokensOf(e), rest)
    ensures var body := FieldTokens(e, SortedSeq(e.fields.Keys)) + [CloseBrace];
            |TokensOf(e)| == 1 + |body| && Next(ts, at + 1, body, rest)
    ensures at < |ts| && ParseExpr(ts, at) == ParseFields(ts, at + 1, map[])
  {
    var body := FieldTokens(e, SortedSeq(e.fields.Keys)) + [CloseBrace];
    assert TokensOf(e) == [OpenBrace] + body;
    NextHead(ts, at, OpenBrace, body, rest);
  }

  lemma ListOpens(ts: seq<Tok>, at: nat, e: InputExpr, rest: seq<Tok>)
    requires e.Items? && Next(ts, at, TokensOf(e), rest)
    ensures var body := ItemTokens(e, 0) + [CloseBracket];
            |TokensOf(e)| == 1 + |body| && Next(ts, at + 1, body, rest)
    ensures at < |ts| && ParseExpr(ts, at) == ParseItems(ts, at + 1, [])
  {
    var body := ItemTokens(e, 0) + [CloseBracket];
    assert TokensOf(e) == [OpenBracket] + body;
    NextHead(ts, at, OpenBracket, body, rest);
  }

  lemma NoItems(ts: seq<Tok>, at: nat, e: InputExpr, rest: seq<Tok>)
    requires e.Items? && e.items == [] && Next(ts, at, ItemTokens(e, 0) + [CloseBracket], rest)
    ensures ItemTokens(e, 0) == [] && ReadsAs(ParseItems(ts, at, []), e, at + 1)
  {
    NextIs(ts, at, ItemTokens(e, 0) + [CloseBracket], [CloseBracket] + [], rest);
    NextHead(ts, at, CloseBracket, [], rest);
  }

  lemma {:induction false} ExprReadsBack(ts: seq<Tok>, at: nat, e: InputExpr, rest: seq<Tok>)
    requires Next(ts, at, TokensOf(e), rest)
    ensures ReadsAs(ParseExpr(ts, at), e, at + |TokensOf(e)|)
    decreases e, 1
  {
    hide Next, TokensOf, ParseExpr, ParseFields, ParseItems, FieldTokens, ItemTokens, Picked;
    match e
    case FromNode(node) =>
      ReferenceReadsBack(ts, at, node, rest);
    case Fields(fields) =>
      RecordOpens(ts, at, e, rest);
      FieldsReadBack(ts, at + 1, e, SortedSeq(fields.Keys), map[], rest);
      AllPicked(e);
    case Items(items) =>
      ListOpens(ts, at, e, rest);
      if items == [] {
        NoItems(ts, at + 1, e, rest);
      } else {
        assert items[..0] == [];
        ItemsReadBack(ts, at + 1, e, 0, rest);
      }
  }

  lemma FieldStep(ts: seq<Tok>, at: nat, read: map<string, InputExpr>, name: string, value: InputExpr, j: nat)
    requires at + 1 < |ts| && ts[at] == Ident(name) && ts[at + 1] == Equals
    requires ReadsAs(ParseExpr(ts, at + 2), value, j) && Peek(ts, j) == Some(Semicolon)
    ensures ParseFields(ts, at, read) == ParseFields(ts, j + 1, read[name := value])
  {
    hide ParseExpr;
  }

  /** What follows a field's value up to the closing brace. */
  function AfterField(e: InputExpr, names: seq<string>): seq<Tok>
    requires e.Fields? && names != [] && forall f :: f in names ==> f in e.fields
  {
    [Semicolon] + (FieldTokens(e, names[1..]) + [CloseBrace])
  }

  lemma FieldTokensFirst(ts: seq<Tok>, at: nat, e: InputExpr, names: seq<string>, rest: seq<Tok>)
    requires e.Fields? && names != [] && forall f :: f in names ==> f in e.fields
    requires Next(ts, at, FieldTokens(e, names) + [CloseBrace], rest)
    ensures Peek(ts, at) == Some(Ident(names[0])) && Peek(ts, at + 1) == Some(Equals)
    ensures Next(ts, at + 2, TokensOf(e.fields[names[0]]) + AfterField(e, names), rest)
    ensures |FieldTokens(e, names)| == 3 + |TokensOf(e.fields[names[0]])| + |FieldTokens(e, names[1..])|
  {
    hide TokensOf;
    var more := TokensOf(e.fields[names[0]]) + AfterField(e, names);
    NextIs(ts, at, FieldTokens(e, names) + [CloseBrace], [Ident(names[0])] + ([Equals] + more), rest);
    NextHead(ts, at, Ident(names[0]), [Equals] + more, rest);
    NextHead(ts, at + 1, Equals, more, rest);
  }

  function Picked(e: InputExpr, names: seq<string>): map<string, InputExpr>
    requires e.Fields? && forall f :: f in names ==> f in e.fields
  {
    map f | f in names :: e.fields[f]
  }

  lemma AllPicked(e: InputExpr)
    requires e.Fields?
    ensures Fields(map[] + Picked(e, SortedSeq(e.fields.Keys))) == e
  {
    assert map[] + Picked(e, SortedSeq(e.fields.Keys)) == e.fields;
  }

  lemma NoFields(ts: seq<Tok>, at: nat, e: InputExpr, read: map<string, InputExpr>, rest: seq<Tok>)
    requires e.Fields? && Next(ts, at, FieldTokens(e, []) + [CloseBrace], rest)
    ensures FieldTokens(e, []) == [] && ReadsAs(ParseFields(ts, at, read), Fields(read + Picked(e, [])), at + 1)
  {
    NextIs(ts, at, FieldTokens(e, []) + [CloseBrace], [CloseBrace] + [], rest);
    NextHead(ts, at, CloseBrace, [], rest);
    assert read + Picked(e, []) == read;
  }

  lemma PickedFirst(e: InputExpr, names: seq<string>, read: map<string, InputExpr>)
    requires e.Fields? && names != [] && forall f :: f in names ==> f in e.fields
    ensures read[names[0] := e.fields[names[0]]] + Picked(e, names[1..]) == read + Picked(e, names)
  {
    assert forall f :: f in names <==> f == names[0] || f in names[1..];
  }

  lemma {:induction false} FieldsReadBack(ts: seq<Tok>, at: nat, e: InputExpr, names: seq<string>, read: map<string, InputExpr>, rest: seq<Tok>)
    requires e.Fields? && forall f :: f in names ==> f in e.fields
    requires Next(ts, at, FieldTokens(e, names) + [CloseBrace], rest)
    ensures ReadsAs(ParseFields(ts, at, read), Fields(read + Picked(e, names)), at + |FieldTokens(e, names)| + 1)
    decreases e, 0, |names|
  {
    hide Next, TokensOf, ParseExpr, ParseFields, FieldTokens, Picked;
    if names == [] {
      NoFields(ts, at, e, read, rest);
    } else {
      var name, value := names[0], e.fields[names[0]];
      FieldTokensFirst(ts, at, e, names, rest);
      NextSplit(ts, at + 2, TokensOf(value), AfterField(e, names), rest);
      ExprReadsBack(ts, at + 2, value, AfterField(e, names) + rest);
      var j := at + 2 + |TokensOf(value)|;
      NextHead(ts, j, Semicolon, FieldTokens(e, names[1..]) + [CloseBrace], rest);
      FieldStep(ts, at, read, name, value, j);
      FieldsReadBack(ts, j + 1, e, names[1..], read[name := value], rest);
      PickedFirst(e, names, read);
    }
  }

  lemma ItemStep(ts: seq<Tok>, at: nat, read: seq<InputExpr>, item: InputExpr, j: nat)
    requires at < |ts| && ts[at] != CloseBracket && ReadsAs(ParseExpr(ts, at), item, j)
    ensures Peek(ts, j) == Some(Comma) ==> ParseItems(ts, at, read) == ParseItems(ts, j + 1, read + [item])
    ensures Peek(ts, j) == Some(CloseBracket) ==> ReadsAs(ParseItems(ts, at, read), Items(read + [item]), j + 1)
  {
    hide ParseExpr;
  }

  /** What follows item `i` up to the closing bracket. */
  function AfterItem(e: InputExpr, i: nat): seq<Tok>
    requires e.Items? && i < |e.items|
  {
    if i + 1 == |e.items| then [CloseBracket] else [Comma] + (ItemTokens(e, i + 1) + [CloseBracket])
  }

  lemma ItemTokensFirst(ts: seq<Tok>, at: nat, e: InputExpr, i: nat, rest: seq<Tok>)
    requires e.Items? && i < |e.items| && Next(ts, at, ItemTokens(e, i) + [CloseBracket], rest)
    ensures Next(ts, at, TokensOf(e.items[i]) + AfterItem(e, i), rest)
    ensures |ItemTokens(e, i)| + 1 == |TokensOf(e.items[i])| + |AfterItem(e, i)|
  {
    hide TokensOf;
    NextIs(ts, at, ItemTokens(e, i) + [CloseBracket], TokensOf(e.items[i]) + AfterItem(e, i), rest);
  }

  lemma ItemStarts(ts: seq<Tok>, at: nat, item: InputExpr, rest: seq<Tok>)
    requires Next(ts, at, TokensOf(item), rest)
    ensures at < |ts| && ts[at] != CloseBracket
  {
    StartIsNoBracket(item);
    assert ts[at] == ts[at..][0] == TokensOf(item)[0];
  }

  lemma LastItem(ts: seq<Tok>, j: nat, e: InputExpr, i: nat, rest: seq<Tok>)
    requires e.Items? && i < |e.items| && Next(ts, j, AfterItem(e, i), rest)
    ensures i + 1 == |e.items| ==> Peek(ts, j) == Some(CloseBracket) && |AfterItem(e, i)| == 1
    ensures i + 1 < |e.items| ==> Peek(ts, j) == Some(Comma) && |AfterItem(e, i)| == 2 + |ItemTokens(e, i + 1)|
    ensures i + 1 < |e.items| ==> Next(ts, j + 1, ItemTokens(e, i + 1) + [CloseBracket], rest)
  {
    if i + 1 == |e.items| {
      NextIs(ts, j, AfterItem(e, i), [CloseBracket] + [], rest);
      NextHead(ts, j, CloseBracket, [], rest);
    } else {
      NextHead(ts, j, Comma, ItemTokens(e, i + 1) + [CloseBracket], rest);
    }
  }

  lemma {:induction false} ItemsReadBack(ts: seq<Tok>, at: nat, e: InputExpr, i: nat, rest: seq<Tok>)
    requires e.Items? && i < |e.items|
    requires Next(ts, at, ItemTokens(e, i) + [CloseBracket], rest)
    ensures ReadsAs(ParseItems(ts, at, e.items[..i]), e, at + |ItemTokens(e, i)| + 1)
    decreases e, 0, |e.items| - i
  {
    hide Next, TokensOf, ParseExpr, ParseItems, ItemTokens, AfterItem;
    var item := e.items[i];
    ItemTokensFirst(ts, at, e, i, rest);
    NextSplit(ts, at, TokensOf(item), AfterItem(e, i), rest);
    ExprReadsBack(ts, at, item, AfterItem(e, i) + rest);
    ItemStarts(ts, at, item, AfterItem(e, i) + rest);
    var j := at + |TokensOf(item)|;
    ItemStep(ts, at, e.items[..i], item, j);
    LastItem(ts, j, e, i, rest);
    assert e.items[..i + 1] == e.items[..i] + [item];
    if i + 1 < |e.items| {
      ItemsReadBack(ts, j + 1, e, i + 1, rest);
    } else {
      assert e.items[..i + 1] == e.items;
    }
  }

  lemma StartIsNoBracket(e: InputExpr)
    ensures TokensOf(e)[0] != CloseBracket
  {}

  /** An expression written anywhere among tokens is read back, and exactly what follows it is left. */
  lemma ExpressionRoundTrip(before: seq<Tok>, e: InputExpr, rest: seq<Tok>)
    ensures var ts := before + TokensOf(e) + rest;
            ParseExpr(ts, |before|) == Ok(Parsed(e, |before| + |TokensOf(e)|)) &&
            ts[|before| + |TokensOf(e)|..] == rest
  {
    hide TokensOf, ParseExpr;
    var ts := before + TokensOf(e) + rest;
    assert ts[|before|..] == TokensOf(e) + rest;
    ExprReadsBack(ts, |before|, e, rest);
  }

  // ---------------------------------------------------------------- from text to expression

  /** Each token after one space. */
  function SpacedOut(ts: seq<Tok>): seq<Part> {
    if ts == [] then [] else [Part(" ", ts[0])] + SpacedOut(ts[1..])
  }

  lemma {:induction false} SpacedOutIsSpaced(alnum: Alphabet, ts: seq<Tok>)
    requires Proper(alnum) && forall i :: 0 <= i < |ts| ==> Writable(alnum, ts[i])
    ensures Spaced(alnum, SpacedOut(ts), "") && Breaks(alnum, Written(SpacedOut(ts), ""))
    ensures ToksOf(SpacedOut(ts)) == ts
  {
    hide Proper, Writable, IsGap, Spaced;
    if ts == [] {
      NothingSpaced(alnum);
    } else {
      var parts, rest := SpacedOut(ts), SpacedOut(ts[1..]);
      forall i | 0 <= i < |ts[1..]| ensures Writable(alnum, ts[1..][i]) { assert ts[1..][i] == ts[i + 1]; }
      SpacedOutIsSpaced(alnum, ts[1..]);
      assert parts[1..] == rest && parts[0] == Part(" ", ts[0]);
      SpaceIsAGap(alnum);
      SpacedFirst(alnum, parts, "");
      assert Written(parts, "")[0] == ' ';
      assert ts == [ts[0]] + ts[1..];
    }
  }

  lemma NothingSpaced(alnum: Alphabet)
    ensures Spaced(alnum, [], "") && Breaks(alnum, "")
  {}

  lemma SpaceIsAGap(alnum: Alphabet)
    requires Proper(alnum)
    ensures IsGap(" ") && !InWord(alnum, ' ')
  {
    assert IsSpace(' ') && " "[1..] == "";
  }

  lemma SpacedFirst(alnum: Alphabet, parts: seq<Part>, tail: string)
    requires parts != [] && Writable(alnum, parts[0].tok) && IsGap(parts[0].gap)
    requires Spaced(alnum, parts[1..], tail) && Breaks(alnum, Written(parts[1..], tail))
    ensures Spaced(alnum, parts, tail)
  {
    forall i | 0 <= i < |parts| ensures Writable(alnum, parts[i].tok) {
      if i > 0 { assert parts[i] == parts[1..][i - 1]; }
    }
  }

  /** An expression written as text, its names being words, lexes and parses back to itself. */
  lemma TextRoundTrip(alnum: Alphabet, e: InputExpr)
    requires Proper(alnum) && forall i :: 0 <= i < |TokensOf(e)| ==> Writable(alnum, TokensOf(e)[i])
    ensures var read := LexFrom(alnum, Written(SpacedOut(TokensOf(e)), ""), 0);
            read.Ok? && ParseExpr(Toks(read.value), 0) == Ok(Parsed(e, |TokensOf(e)|))
  {
    hide LexFrom, ParseExpr, Spaced, Written, SpacedOut, TokensOf, Toks, ToksOf, Writable, Breaks;
    var ts := TokensOf(e);
    SpacedOutIsSpaced(alnum, ts);
    WrittenReadsBack(alnum, SpacedOut(ts), "");
    ExpressionRoundTrip([], e, []);
    assert [] + ts + [] == ts;
  }
}
