/** Turning spec text into tokens with positions. */
module Lexer {
  import opened Wrappers
  import opened Strings

  datatype Tok =
    | Ident(name: string)
    | Text(value: string)
    | Equals
    | OpenBrace
    | CloseBrace
    | OpenBracket
    | CloseBracket
    | Comma
    | Semicolon
    | Arrow

  datatype Span = Span(line: nat, column: nat)
  datatype Token = Token(tok: Tok, span: Span)

  datatype Problem = UnterminatedString | UnexpectedChar(ch: char) | UnknownEscape(ch: char)
  datatype LexError = LexError(problem: Problem, span: Span)

  /** Which characters are letters or digits; Unicode decides. */
  type Alphabet = char -> bool

  /** No white space and none of the grammar's punctuation is a letter or digit. */
  ghost predicate Proper(alnum: Alphabet) {
    forall c :: alnum(c) ==> !IsSpace(c) && c !in "\"#-={}[],;"
  }

  predicate StartsWord(alnum: Alphabet, c: char) { alnum(c) || c in "_./" }

  predicate InWord(alnum: Alphabet, c: char) { alnum(c) || c in "_./:" }

  // ---------------------------------------------------------------- positions

  function Advance(span: Span, c: char): Span {
    if c == '\n' then Span(span.line + 1, 1) else Span(span.line, span.column + 1)
  }

  /** The line and column of the character at an offset, both counted from 1. */
  function SpanAt(src: string, offset: nat): Span
    requires offset <= |src|
  {
    if offset == 0 then Span(1, 1) else Advance(SpanAt(src, offset - 1), src[offset - 1])
  }

  // ---------------------------------------------------------------- one piece of text

  function LineLen(s: string): (n: nat)
    ensures n <= |s|
  {
    if s == [] || s[0] == '\n' then 0 else 1 + LineLen(s[1..])
  }

  function WordLen(alnum: Alphabet, s: string): (n: nat)
    ensures n <= |s|
  {
    if s == [] || !InWord(alnum, s[0]) then 0 else 1 + WordLen(alnum, s[1..])
  }

  /** What follows an opening quote. */
  datatype Body = Closed(value: string, len: nat) | Unclosed | BadEscape(ch: char, at: nat)

  function Unescape(c: char): Option<char> {
    if c == '"' then Some('"') else if c == '\\' then Some('\\') else if c == 'n' then Some('\n') else if c == 't' then Some('\t') else None
  }

  function Before(value: string, len: nat, rest: Body): Body {
    match rest
    case Closed(v, n) => Closed(value + v, len + n)
    case Unclosed => Unclosed
    case BadEscape(c, at) => BadEscape(c, len + at)
  }

  function BodyOf(s: string): (b: Body)
    ensures b.Closed? ==> 1 <= b.len <= |s|
    ensures b.BadEscape? ==> b.at < |s|
  {
    if s == [] then Unclosed
    else if s[0] == '"' then Closed("", 1)
    else if s[0] != '\\' then Before([s[0]], 1, BodyOf(s[1..]))
    else if |s| == 1 then Unclosed
    else if Unescape(s[1]).None? then BadEscape(s[1], 1)
    else Before([Unescape(s[1]).value], 2, BodyOf(s[2..]))
  }

  function Symbol(c: char): Option<Tok> {
    if c == '=' then Some(Equals)
    else if c == '{' then Some(OpenBrace)
    else if c == '}' then Some(CloseBrace)
    else if c == '[' then Some(OpenBracket)
    else if c == ']' then Some(CloseBracket)
    else if c == ',' then Some(Comma)
    else if c == ';' then Some(Semicolon)
    else None
  }

  datatype Piece = Skipped(len: nat) | Lexed(tok: Tok, len: nat) | Bad(problem: Problem, at: nat)

  predicate StartsComment(s: string) {
    s != [] && (s[0] == '#' || (|s| > 1 && s[0] == '/' && s[1] == '/'))
  }

  /** The first piece of nonempty text: white space, a comment, a token, or a mistake. */
  function PieceOf(alnum: Alphabet, s: string): (p: Piece)
    requires s != []
    ensures p.Skipped? || p.Lexed? ==> 1 <= p.len <= |s|
    ensures p.Bad? ==> p.at < |s|
  {
    var c := s[0];
    if IsSpace(c) then Skipped(1)
    else if StartsComment(s) then Skipped(1 + LineLen(s[1..]))
    else if c == '"' then
      match BodyOf(s[1..])
      case Closed(value, n) => Lexed(Text(value), 1 + n)
      case Unclosed => Bad(UnterminatedString, 0)
      case BadEscape(ch, at) => Bad(UnknownEscape(ch), 1 + at)
    else if c == '-' then
      if |s| > 1 && s[1] == '>' then Lexed(Arrow, 2) else Bad(UnexpectedChar('-'), 0)
    else if StartsWord(alnum, c) then
      var n := 1 + WordLen(alnum, s[1..]);
      Lexed(Ident(s[..n]), n)
    else
      match Symbol(c)
      case Some(tok) => Lexed(tok, 1)
      case None => Bad(UnexpectedChar(c), 0)
  }

  datatype Placed = Placed(tok: Tok, offset: nat)
  datatype Mistake = Mistake(problem: Problem, offset: nat)

  function Cons(first: Placed, rest: Result<seq<Placed>, Mistake>): Result<seq<Placed>, Mistake> {
    match rest
    case Ok(more) => Ok([first] + more)
    case Err(e) => Err(e)
  }

  /** The tokens of the text from `offset` on, each with the offset it starts at. */
  function LexFrom(alnum: Alphabet, src: string, offset: nat): Result<seq<Placed>, Mistake>
    requires offset <= |src|
    decreases |src| - offset
  {
    if offset == |src| then Ok([])
    else
      match PieceOf(alnum, src[offset..])
      case Skipped(n) => LexFrom(alnum, src, offset + n)
      case Lexed(tok, n) => Cons(Placed(tok, offset), LexFrom(alnum, src, offset + n))
      case Bad(problem, at) => Err(Mistake(problem, offset + at))
  }

  // ---------------------------------------------------------------- the character stream

  /** The stream of characters, keeping line and column right in one place. */
  class Cursor {
    const src: string
    var at: nat
    var line: nat
    var column: nat

    ghost predicate Valid()
      reads this
    {
      at <= |src| && Span(line, column) == SpanAt(src, at)
    }

    constructor (src: string)
      ensures Valid() && this.src == src && at == 0
    {
      this.src := src;
      at, line, column := 0, 1, 1;
    }

    function Here(): Span
      reads this
    {
      Span(line, column)
    }

    method Bump() returns (c: char)
      requires Valid() && at < |src|
      modifies this
      ensures Valid() && at == old(at) + 1 && c == src[old(at)]
    {
      c := src[at];
      if c == '\n' {
        line, column := line + 1, 1;
      } else {
        column := column + 1;
      }
      at := at + 1;
    }

    method SkipToEndOfLine()
      requires Valid()
      modifies this
      ensures Valid() && at == old(at) + LineLen(src[old(at)..])
    {
      while at < |src| && src[at] != '\n'
        invariant Valid() && old(at) <= at
        invariant LineLen(src[old(at)..]) == at - old(at) + LineLen(src[at..])
        decreases |src| - at
      {
        assert src[at..][1..] == src[at + 1..];
        var _ := Bump();
      }
    }

    method Word(alnum: Alphabet) returns (word: string)
      requires Valid()
      modifies this
      ensures Valid() && at == old(at) + WordLen(alnum, src[old(at)..]) && word == src[old(at)..at]
    {
      word := "";
      while at < |src| && InWord(alnum, src[at])
        invariant Valid() && old(at) <= at && word == src[old(at)..at]
        invariant WordLen(alnum, src[old(at)..]) == at - old(at) + WordLen(alnum, src[at..])
        decreases |src| - at
      {
        assert src[at..][1..] == src[at + 1..];
        var c := Bump();
        word := word + [c];
      }
    }

    /** The rest of a string, its opening quote being behind; on a mistake, where it is. */
    method StringBody() returns (b: Body)
      requires Valid()
      modifies this
      ensures Valid() && b == BodyOf(src[old(at)..])
      ensures b.Closed? ==> at == old(at) + b.len
    {
      hide Unescape, SpanAt, BodyOf;
      var start := at;
      var value := "";
      BeforeNone(BodyOf(src[start..]));
      while true
        invariant Valid() && start <= at
        invariant BodyOf(src[start..]) == Before(value, at - start, BodyOf(src[at..]))
        decreases |src| - at
      {
        if at == |src| {
          NoMoreBody(src);
          return Unclosed;
        }
        NextOfBody(src, at);
        ghost var here := at;
        var c := Bump();
        if c == '"' {
          return Closed(value, at - start);
        } else if c == '\\' {
          if at == |src| {
            return Unclosed;
          }
          var escaped := Bump();
          var meant := Unescape(escaped);
          if meant.None? {
            return BadEscape(escaped, at - 1 - start);
          }
          BeforeTwice(value, here - start, [meant.value], 2, BodyOf(src[at..]));
          value := value + [meant.value];
        } else {
          BeforeTwice(value, here - start, [c], 1, BodyOf(src[at..]));
          value := value + [c];
        }
      }
    }
  }

  lemma NoMoreBody(src: string)
    ensures BodyOf(src[|src|..]) == Unclosed
  {}

  /** One turn of the loop over a string's content. */
  lemma NextOfBody(src: string, at: nat)
    requires at < |src|
    ensures src[at] == '"' ==> BodyOf(src[at..]) == Closed("", 1)
    ensures src[at] != '"' && src[at] != '\\' ==> BodyOf(src[at..]) == Before([src[at]], 1, BodyOf(src[at + 1..]))
    ensures src[at] == '\\' ==>
              BodyOf(src[at..]) ==
              if at + 1 == |src| then Unclosed
              else if Unescape(src[at + 1]).None? then BadEscape(src[at + 1], 1)
              else Before([Unescape(src[at + 1]).value], 2, BodyOf(src[at + 2..]))
  {
    hide Unescape;
    var s := src[at..];
    assert s[0] == src[at] && s[1..] == src[at + 1..];
    if at + 1 < |src| { assert s[1] == src[at + 1] && s[2..] == src[at + 2..]; }
  }

  lemma BeforeNone(b: Body)
    ensures Before("", 0, b) == b
  {
    if b.Closed? { assert "" + b.value == b.value; }
  }

  lemma BeforeTwice(v: string, m: nat, w: string, n: nat, rest: Body)
    ensures Before(v, m, Before(w, n, rest)) == Before(v + w, m + n, rest)
  {
    if rest.Closed? { assert v + (w + rest.value) == v + w + rest.value; }
  }

  // ---------------------------------------------------------------- the lexer

  predicate IsTokenOf(src: string, t: Token, p: Placed) {
    p.offset <= |src| && t == Token(p.tok, SpanAt(src, p.offset))
  }

  /** The result is the tokens, or the mistake, at the right line and column. */
  ghost predicate Reports(src: string, r: Result<seq<Token>, LexError>, placed: Result<seq<Placed>, Mistake>) {
    match placed
    case Ok(ps) => r.Ok? && |r.value| == |ps| && forall i :: 0 <= i < |ps| ==> IsTokenOf(src, r.value[i], ps[i])
    case Err(m) => r.Err? && m.offset <= |src| && r.error == LexError(m.problem, SpanAt(src, m.offset))
  }

  function Prefixed(before: seq<Placed>, rest: Result<seq<Placed>, Mistake>): Result<seq<Placed>, Mistake> {
    match rest
    case Ok(more) => Ok(before + more)
    case Err(e) => Err(e)
  }

  lemma PrefixedCons(before: seq<Placed>, p: Placed, rest: Result<seq<Placed>, Mistake>)
    ensures Prefixed(before, Cons(p, rest)) == Prefixed(before + [p], rest)
  {
    if rest.Ok? { assert before + ([p] + rest.value) == before + [p] + rest.value; }
  }

  lemma PrefixedEnds(before: seq<Placed>, rest: Result<seq<Placed>, Mistake>)
    ensures Prefixed([], rest) == rest && Prefixed(before, Ok([])) == Ok(before)
  {
    if rest.Ok? { assert [] + rest.value == rest.value; }
    assert before + [] == before;
  }

  datatype Read = Nothing | Got(tok: Tok) | Wrong(error: LexError)

  /** One turn of the loop: consume the piece at the cursor. */
  method NextPiece(alnum: Alphabet, cursor: Cursor) returns (r: Read)
    requires cursor.Valid() && cursor.at < |cursor.src|
    modifies cursor
    ensures cursor.Valid()
    ensures var p := PieceOf(alnum, cursor.src[old(cursor.at)..]);
            match p
            case Skipped(n) => r == Nothing && cursor.at == old(cursor.at) + n
            case Lexed(tok, n) => r == Got(tok) && cursor.at == old(cursor.at) + n
            case Bad(problem, at) => r == Wrong(LexError(problem, SpanAt(cursor.src, old(cursor.at) + at)))
  {
    hide SpanAt, LineLen, WordLen, BodyOf;
    var start := cursor.at;
    var src := cursor.src;
    ghost var s := src[start..];
    assert s[1..] == src[start + 1..];
    var span := cursor.Here();
    var c := src[start];
    if IsSpace(c) {
      var _ := cursor.Bump();
      return Nothing;
    }
    if c == '#' || (c == '/' && start + 1 < |src| && src[start + 1] == '/') {
      var _ := cursor.Bump();
      cursor.SkipToEndOfLine();
      return Nothing;
    }
    if c == '"' {
      var _ := cursor.Bump();
      var body := cursor.StringBody();
      match body {
        case Closed(value, _) => return Got(Text(value));
        case Unclosed => return Wrong(LexError(UnterminatedString, span));
        case BadEscape(ch, at) => return Wrong(LexError(UnknownEscape(ch), SpanAt(src, start + 1 + at)));
      }
    }
    if c == '-' {
      if start + 1 < |src| && src[start + 1] == '>' {
        var _ := cursor.Bump();
        var _ := cursor.Bump();
        return Got(Arrow);
      }
      return Wrong(LexError(UnexpectedChar('-'), span));
    }
    if StartsWord(alnum, c) {
      var first := cursor.Bump();
      var rest := cursor.Word(alnum);
      assert [first] + rest == s[..1 + |rest|];
      return Got(Ident([first] + rest));
    }
    var symbol := Symbol(c);
    if symbol.None? {
      return Wrong(LexError(UnexpectedChar(c), span));
    }
    var _ := cursor.Bump();
    return Got(symbol.value);
  }

  method Lex(alnum: Alphabet, src: string) returns (r: Result<seq<Token>, LexError>)
    ensures Reports(src, r, LexFrom(alnum, src, 0))
  {
    hide PieceOf, SpanAt;
    var cursor := new Cursor(src);
    var tokens: seq<Token> := [];
    ghost var placed: seq<Placed> := [];
    PrefixedEnds([], LexFrom(alnum, src, 0));
    while cursor.at < |src|
      invariant cursor.Valid() && fresh(cursor) && cursor.src == src
      invariant LexFrom(alnum, src, 0) == Prefixed(placed, LexFrom(alnum, src, cursor.at))
      invariant Reports(src, Ok(tokens), Ok(placed))
      decreases |src| - cursor.at
    {
      ghost var start := cursor.at;
      var span := cursor.Here();
      var read := NextPiece(alnum, cursor);
      match read {
        case Nothing =>
        case Got(tok) =>
          PrefixedCons(placed, Placed(tok, start), LexFrom(alnum, src, cursor.at));
          tokens := tokens + [Token(tok, span)];
          placed := placed + [Placed(tok, start)];
        case Wrong(error) => return Err(error);
      }
    }
    PrefixedEnds(placed, LexFrom(alnum, src, cursor.at));
    return Ok(tokens);
  }
}
