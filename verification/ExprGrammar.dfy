/** The grammar of input expressions, and that the parser reads exactly its sentences. */
module ExprGrammar {
  import opened Wrappers
  import opened Graphs
  import opened Lexer
  import opened ExprParser

  /** An expression as written: `node.out`, `{ name = expr; ... }`, `[ expr, ... ]`. */
  datatype Tree = Ref(node: string) | Braces(members: Members) | Brackets(list: Listing)

  /** The members up to the closing brace, each with a semicolon after it or not. */
  datatype Members = EndBrace | Member(name: string, value: Tree, semicolon: bool, rest: Members)

  /** The items up to the closing bracket; a comma may stand before it. */
  datatype Listing = EndBracket | LastItem(value: Tree) | Item(value: Tree, rest: Listing)

  function Sentence(t: Tree): seq<Tok> {
    match t
    case Ref(node) => [Ident(node + ".out")]
    case Braces(members) => [OpenBrace] + MembersText(members)
    case Brackets(list) => [OpenBracket] + ListingText(list)
  }

  function MembersText(m: Members): seq<Tok> {
    match m
    case EndBrace => [CloseBrace]
    case Member(name, value, semicolon, rest) =>
      [Ident(name), Equals] + (Sentence(value) + ((if semicolon then [Semicolon] else []) + MembersText(rest)))
  }

  function ListingText(l: Listing): seq<Tok> {
    match l
    case EndBracket => [CloseBracket]
    case LastItem(value) => Sentence(value) + [CloseBracket]
    case Item(value, rest) => Sentence(value) + ([Comma] + ListingText(rest))
  }

  /** What it stands for; a name given twice stands for the last value given. */
  function Meaning(t: Tree): InputExpr {
    match t
    case Ref(node) => FromNode(node)
    case Braces(members) => Fields(FieldsOf(members))
    case Brackets(list) => Items(ItemsOf(list))
  }

  function FieldsOf(m: Members): map<string, InputExpr> {
    match m
    case EndBrace => map[]
    case Member(name, value, _, rest) => map[name := Meaning(value)] + FieldsOf(rest)
  }

  function ItemsOf(l: Listing): seq<InputExpr> {
    match l
    case EndBracket => []
    case LastItem(value) => [Meaning(value)]
    case Item(value, rest) => [Meaning(value)] + ItemsOf(rest)
  }

  /** These tokens, from one position up to another, are the sentence. */
  predicate Stands(ts: seq<Tok>, at: nat, text: seq<Tok>, end: nat) {
    at <= end <= |ts| && ts[at..end] == text
  }

  lemma StandsFirst(ts: seq<Tok>, at: nat, a: seq<Tok>, b: seq<Tok>, end: nat)
    requires Stands(ts, at, a + b, end)
    ensures Stands(ts, at, a, at + |a|) && Stands(ts, at + |a|, b, end)
  {
    assert ts[at..at + |a|] == ts[at..end][..|a|];
    assert ts[at + |a|..end] == ts[at..end][|a|..];
  }

  lemma StandsBoth(ts: seq<Tok>, at: nat, a: seq<Tok>, mid: nat, b: seq<Tok>, end: nat)
    requires Stands(ts, at, a, mid) && Stands(ts, mid, b, end)
    ensures Stands(ts, at, a + b, end)
  {
    assert ts[at..end] == ts[at..mid] + ts[mid..end];
  }

  lemma StandsOne(ts: seq<Tok>, at: nat, tok: Tok, end: nat)
    ensures Stands(ts, at, [tok], end) <==> end == at + 1 && Peek(ts, at) == Some(tok)
  {
    if Stands(ts, at, [tok], end) { assert ts[at..end][0] == tok; }
  }

  lemma SuffixReads(node: string)
    ensures StripSuffix(node + ".out") == Some(node)
  {
    assert (node + ".out")[|node|..] == ".out";
  }

  lemma SuffixRead(name: string)
    requires StripSuffix(name).Some?
    ensures name == StripSuffix(name).value + ".out"
  {
    assert name == name[..|name| - 4] + name[|name| - 4..];
  }

  // ---------------------------------------------------------------- every sentence is read

  lemma {:induction false} SentenceReads(t: Tree, ts: seq<Tok>, at: nat, end: nat)
    requires Stands(ts, at, Sentence(t), end)
    ensures ParseExpr(ts, at) == Ok(Parsed(Meaning(t), end))
    decreases t, 1
  {
    hide Stands;
    match t
    case Ref(node) =>
      StandsOne(ts, at, Ident(node + ".out"), end);
      SuffixReads(node);
    case Braces(members) =>
      StandsFirst(ts, at, [OpenBrace], MembersText(members), end);
      StandsOne(ts, at, OpenBrace, at + 1);
      MembersRead(members, ts, at + 1, end, map[]);
      assert map[] + FieldsOf(members) == FieldsOf(members);
    case Brackets(list) =>
      StandsFirst(ts, at, [OpenBracket], ListingText(list), end);
      StandsOne(ts, at, OpenBracket, at + 1);
      ListingReads(list, ts, at + 1, end, []);
      assert [] + ItemsOf(list) == ItemsOf(list);
  }

  /** A member's text does not begin with a semicolon. */
  lemma NoSemicolonFirst(m: Members, ts: seq<Tok>, at: nat, end: nat)
    requires Stands(ts, at, MembersText(m), end)
    ensures at < |ts| && ts[at] != Semicolon && SkipSemi(ts, at) == at
  {
    assert ts[at..end][0] == ts[at];
  }

  /** One member read: the parser goes on behind it with its value found. */
  lemma MemberStep(ts: seq<Tok>, at: nat, found: map<string, InputExpr>, name: string, value: Parsed)
    requires at + 2 <= |ts| && ts[at] == Ident(name) && ts[at + 1] == Equals
    requires ParseExpr(ts, at + 2) == Ok(value)
    ensures value.at <= |ts|
    ensures ParseFields(ts, at, found) == ParseFields(ts, SkipSemi(ts, value.at), found[name := value.expr])
  {
    hide ParseExpr, SkipSemi;
  }

  lemma FieldGathered(found: map<string, InputExpr>, m: Members)
    requires m.Member?
    ensures found[m.name := Meaning(m.value)] + FieldsOf(m.rest) == found + FieldsOf(m)
  {
    hide Meaning;
  }

  lemma {:induction false} MembersRead(m: Members, ts: seq<Tok>, at: nat, end: nat, found: map<string, InputExpr>)
    requires Stands(ts, at, MembersText(m), end) && at <= |ts|
    ensures ParseFields(ts, at, found) == Ok(Parsed(Fields(found + FieldsOf(m)), end))
    decreases m, 1
  {
    hide Stands;
    if m.EndBrace? {
      StandsOne(ts, at, CloseBrace, end);
      assert found + map[] == found;
    } else {
      MemberRead(m, ts, at, end, found);
    }
  }

  lemma {:induction false} MemberRead(m: Members, ts: seq<Tok>, at: nat, end: nat, found: map<string, InputExpr>)
    requires m.Member? && Stands(ts, at, MembersText(m), end) && at <= |ts|
    ensures ParseFields(ts, at, found) == Ok(Parsed(Fields(found + FieldsOf(m)), end))
    decreases m, 0
  {
    hide *;
    var after, next := MemberApart(m, ts, at, end);
    SentenceReads(m.value, ts, at + 2, after);
    MemberStep(ts, at, found, m.name, Parsed(Meaning(m.value), after));
    MembersRead(m.rest, ts, next, end, found[m.name := Meaning(m.value)]);
    FieldGathered(found, m);
  }

  /** Where the parts of a member stand. */
  lemma MemberApart(m: Members, ts: seq<Tok>, at: nat, end: nat) returns (after: nat, next: nat)
    requires m.Member? && Stands(ts, at, MembersText(m), end)
    ensures at + 2 <= after <= next <= |ts| && ts[at] == Ident(m.name) && ts[at + 1] == Equals
    ensures Stands(ts, at + 2, Sentence(m.value), after)
    ensures next == SkipSemi(ts, after) && Stands(ts, next, MembersText(m.rest), end)
  {
    hide Stands, Sentence, SkipSemi;
    var mark := if m.semicolon then [Semicolon] else [];
    StandsFirst(ts, at, [Ident(m.name), Equals], Sentence(m.value) + (mark + MembersText(m.rest)), end);
    MemberStarts(ts, at, m.name);
    StandsFirst(ts, at + 2, Sentence(m.value), mark + MembersText(m.rest), end);
    after := at + 2 + |Sentence(m.value)|;
    StandsFirst(ts, after, mark, MembersText(m.rest), end);
    MarkSkipped(m.rest, m.semicolon, ts, after, end);
    next := after + |mark|;
  }

  lemma MarkSkipped(m: Members, semicolon: bool, ts: seq<Tok>, at: nat, end: nat)
    requires var mark := if semicolon then [Semicolon] else [];
      Stands(ts, at, mark, at + |mark|) && Stands(ts, at + |mark|, MembersText(m), end)
    ensures SkipSemi(ts, at) == at + (if semicolon then 1 else 0) <= |ts|
  {
    if semicolon { StandsOne(ts, at, Semicolon, at + 1); } else { NoSemicolonFirst(m, ts, at, end); }
  }

  lemma MemberStarts(ts: seq<Tok>, at: nat, name: string)
    requires Stands(ts, at, [Ident(name), Equals], at + 2)
    ensures at + 2 <= |ts| && ts[at] == Ident(name) && ts[at + 1] == Equals
  {
    assert ts[at..at + 2][0] == ts[at] && ts[at..at + 2][1] == ts[at + 1];
  }

  lemma SentenceStarts(t: Tree, ts: seq<Tok>, at: nat, end: nat)
    requires Stands(ts, at, Sentence(t), end)
    ensures at < |ts| && ts[at] != CloseBracket
  {
    assert ts[at..end][0] == ts[at];
  }

  /** One item read: it ends the list or the parser goes on behind the comma. */
  lemma ItemStep(ts: seq<Tok>, at: nat, found: seq<InputExpr>, value: Parsed)
    requires at < |ts| && ts[at] != CloseBracket && ParseExpr(ts, at) == Ok(value)
    ensures value.at <= |ts|
    ensures Peek(ts, value.at) == Some(Comma) ==> ParseItems(ts, at, found) == ParseItems(ts, value.at + 1, found + [value.expr])
    ensures Peek(ts, value.at) == Some(CloseBracket) ==> ParseItems(ts, at, found) == Ok(Parsed(Items(found + [value.expr]), value.at + 1))
    ensures Peek(ts, value.at) !in {Some(Comma), Some(CloseBracket)} ==> ParseItems(ts, at, found).Err?
  {
    hide ParseExpr;
  }

  lemma ItemGathered(found: seq<InputExpr>, l: Listing)
    requires !l.EndBracket?
    ensures var value := found + [Meaning(l.value)];
            found + ItemsOf(l) == if l.Item? then value + ItemsOf(l.rest) else value
  {
    hide Meaning;
  }

  lemma {:induction false} ListingReads(l: Listing, ts: seq<Tok>, at: nat, end: nat, found: seq<InputExpr>)
    requires Stands(ts, at, ListingText(l), end) && at <= |ts|
    ensures ParseItems(ts, at, found) == Ok(Parsed(Items(found + ItemsOf(l)), end))
    decreases l, 1
  {
    hide Stands;
    if l.EndBracket? {
      StandsOne(ts, at, CloseBracket, end);
      assert found + [] == found;
    } else {
      ItemReads(l, ts, at, end, found);
    }
  }

  lemma {:induction false} ItemReads(l: Listing, ts: seq<Tok>, at: nat, end: nat, found: seq<InputExpr>)
    requires !l.EndBracket? && Stands(ts, at, ListingText(l), end) && at <= |ts|
    ensures ParseItems(ts, at, found) == Ok(Parsed(Items(found + ItemsOf(l)), end))
    decreases l, 0
  {
    hide *;
    var after := ItemApart(l, ts, at, end);
    SentenceStarts(l.value, ts, at, after);
    SentenceReads(l.value, ts, at, after);
    ItemStep(ts, at, found, Parsed(Meaning(l.value), after));
    ItemGathered(found, l);
    if l.Item? { ListingReads(l.rest, ts, after + 1, end, found + [Meaning(l.value)]); }
  }

  /** Where the parts of an item stand. */
  lemma ItemApart(l: Listing, ts: seq<Tok>, at: nat, end: nat) returns (after: nat)
    requires !l.EndBracket? && Stands(ts, at, ListingText(l), end)
    ensures Stands(ts, at, Sentence(l.value), after) && Peek(ts, after) == Some(if l.Item? then Comma else CloseBracket)
    ensures after < |ts| && (if l.Item? then Stands(ts, after + 1, ListingText(l.rest), end) else end == after + 1)
  {
    hide Stands, Sentence;
    after := at + |Sentence(l.value)|;
    if l.Item? {
      StandsFirst(ts, at, Sentence(l.value), [Comma] + ListingText(l.rest), end);
      StandsFirst(ts, after, [Comma], ListingText(l.rest), end);
      StandsOne(ts, after, Comma, after + 1);
    } else {
      StandsFirst(ts, at, Sentence(l.value), [CloseBracket], end);
      StandsOne(ts, after, CloseBracket, end);
    }
  }

  // ---------------------------------------------------------------- nothing else is

  lemma {:induction false} TreeOf(ts: seq<Tok>, at: nat) returns (t: Tree)
    requires at <= |ts| && ParseExpr(ts, at).Ok?
    ensures Stands(ts, at, Sentence(t), ParseExpr(ts, at).value.at) && Meaning(t) == ParseExpr(ts, at).value.expr
    decreases |ts| - at, 1
  {
    hide Stands;
    var end := ParseExpr(ts, at).value.at;
    match ts[at]
    case OpenBrace =>
      var members := MembersOf(ts, at + 1, map[]);
      StandsOne(ts, at, OpenBrace, at + 1);
      StandsBoth(ts, at, [OpenBrace], at + 1, MembersText(members), end);
      assert map[] + FieldsOf(members) == FieldsOf(members);
      t := Braces(members);
    case OpenBracket =>
      var list := ListingOf(ts, at + 1, []);
      StandsOne(ts, at, OpenBracket, at + 1);
      StandsBoth(ts, at, [OpenBracket], at + 1, ListingText(list), end);
      assert [] + ItemsOf(list) == ItemsOf(list);
      t := Brackets(list);
    case Ident(name) =>
      SuffixRead(name);
      StandsOne(ts, at, Ident(name), at + 1);
      t := Ref(StripSuffix(name).value);
  }

  lemma {:induction false} MembersOf(ts: seq<Tok>, at: nat, found: map<string, InputExpr>) returns (m: Members)
    requires at <= |ts| && ParseFields(ts, at, found).Ok?
    ensures Stands(ts, at, MembersText(m), ParseFields(ts, at, found).value.at)
    ensures ParseFields(ts, at, found).value.expr == Fields(found + FieldsOf(m))
    decreases |ts| - at, 0
  {
    if Peek(ts, at) == Some(CloseBrace) {
      m := EndBrace;
      StandsOne(ts, at, CloseBrace, at + 1);
      assert found + map[] == found;
    } else {
      var name := ts[at].name;
      var parsed := ParseExpr(ts, at + 2).value;
      MemberStep(ts, at, found, name, parsed);
      hide *;
      var value := TreeOf(ts, at + 2);
      var next := SkipSemi(ts, parsed.at);
      var rest := MembersOf(ts, next, found[name := Meaning(value)]);
      m := Member(name, value, next > parsed.at, rest);
      MemberStands(ts, at, m, parsed.at, next, ParseFields(ts, at, found).value.at);
      FieldGathered(found, m);
    }
  }

  lemma MemberStands(ts: seq<Tok>, at: nat, m: Members, after: nat, next: nat, end: nat)
    requires m.Member? && at + 1 < |ts| && ts[at] == Ident(m.name) && ts[at + 1] == Equals
    requires Stands(ts, at + 2, Sentence(m.value), after) && after <= |ts|
    requires next == SkipSemi(ts, after) && m.semicolon == (next > after)
    requires Stands(ts, next, MembersText(m.rest), end)
    ensures Stands(ts, at, MembersText(m), end)
  {
    hide Stands, Sentence;
    var mark := if m.semicolon then [Semicolon] else [];
    MarkStands(ts, after);
    StartStands(ts, at);
    StandsBoth(ts, after, mark, next, MembersText(m.rest), end);
    StandsBoth(ts, at + 2, Sentence(m.value), after, mark + MembersText(m.rest), end);
    StandsBoth(ts, at, [Ident(m.name), Equals], at + 2, Sentence(m.value) + (mark + MembersText(m.rest)), end);
  }

  lemma MarkStands(ts: seq<Tok>, at: nat)
    requires at <= |ts|
    ensures var next := SkipSemi(ts, at); Stands(ts, at, if next > at then [Semicolon] else [], next)
  {}

  lemma StartStands(ts: seq<Tok>, at: nat)
    requires at + 1 < |ts| && ts[at].Ident? && ts[at + 1] == Equals
    ensures Stands(ts, at, [Ident(ts[at].name), Equals], at + 2)
  {}

  lemma {:induction false} ListingOf(ts: seq<Tok>, at: nat, found: seq<InputExpr>) returns (l: Listing)
    requires at <= |ts| && ParseItems(ts, at, found).Ok?
    ensures Stands(ts, at, ListingText(l), ParseItems(ts, at, found).value.at)
    ensures ParseItems(ts, at, found).value.expr == Items(found + ItemsOf(l))
    decreases |ts| - at, 2
  {
    if Peek(ts, at) == Some(CloseBracket) {
      l := EndBracket;
      StandsOne(ts, at, CloseBracket, at + 1);
      assert found + [] == found;
    } else {
      var parsed := ParseExpr(ts, at).value;
      ItemStep(ts, at, found, parsed);
      var more := Peek(ts, parsed.at) == Some(Comma);
      hide *;
      var value := TreeOf(ts, at);
      if more {
        var rest := ListingOf(ts, parsed.at + 1, found + [parsed.expr]);
        l := Item(value, rest);
      } else {
        l := LastItem(value);
      }
      ItemStands(ts, at, l, parsed.at, ParseItems(ts, at, found).value.at);
      ItemGathered(found, l);
    }
  }

  lemma ItemStands(ts: seq<Tok>, at: nat, l: Listing, after: nat, end: nat)
    requires !l.EndBracket? && Stands(ts, at, Sentence(l.value), after)
    requires Peek(ts, after) == Some(if l.Item? then Comma else CloseBracket)
    requires if l.Item? then Stands(ts, after + 1, ListingText(l.rest), end) else end == after + 1
    ensures Stands(ts, at, ListingText(l), end)
  {
    hide Stands, Sentence;
    if l.Item? {
      StandsOne(ts, after, Comma, after + 1);
      StandsBoth(ts, after, [Comma], after + 1, ListingText(l.rest), end);
      StandsBoth(ts, at, Sentence(l.value), after, [Comma] + ListingText(l.rest), end);
    } else {
      StandsOne(ts, after, CloseBracket, end);
      StandsBoth(ts, at, Sentence(l.value), after, [CloseBracket], end);
    }
  }

  ghost predicate Writes(ts: seq<Tok>, at: nat, t: Tree, e: InputExpr, end: nat) {
    Stands(ts, at, Sentence(t), end) && Meaning(t) == e
  }

  /** The parser reads an expression exactly where the tokens are a sentence of the grammar that stands for it. */
  lemma ParsesExactly(ts: seq<Tok>, at: nat, e: InputExpr, end: nat)
    requires at <= |ts|
    ensures ParseExpr(ts, at) == Ok(Parsed(e, end)) <==> exists t :: Writes(ts, at, t, e, end)
  {
    if ParseExpr(ts, at).Ok? {
      var t := TreeOf(ts, at);
      assert Writes(ts, at, t, ParseExpr(ts, at).value.expr, ParseExpr(ts, at).value.at);
    }
    if t :| Writes(ts, at, t, e, end) { SentenceReads(t, ts, at, end); }
  }
}
