/** Writing tokens out as text, which lexes back to the same tokens. */
module SpecText {
  import opened Wrappers
  import opened Strings
  import opened Lexer

  // ---------------------------------------------------------------- writing

  function EscapeChar(c: char): string {
    if c == '"' then "\\\"" else if c == '\\' then "\\\\" else [c]
  }

  function Escaped(value: string): string {
    if value == [] then "" else EscapeChar(value[0]) + Escaped(value[1..])
  }

  function TokText(tok: Tok): string {
    match tok
    case Ident(name) => name
    case Text(value) => "\"" + Escaped(value) + "\""
    case Equals => "="
    case OpenBrace => "{"
    case CloseBrace => "}"
    case OpenBracket => "["
    case CloseBracket => "]"
    case Comma => ","
    case Semicolon => ";"
    case Arrow => "->"
  }

  /** A bare word the lexer reads as one token. */
  ghost predicate IsWord(alnum: Alphabet, w: string) {
    && w != [] && StartsWord(alnum, w[0])
    && (forall i :: 0 <= i < |w| ==> InWord(alnum, w[i]))
    && !(|w| > 1 && w[0] == '/' && w[1] == '/')
  }

  /** White space and comments, every comment ended by a line break. */
  predicate IsGap(s: string) {
    s == [] || (IsSpace(s[0]) && IsGap(s[1..])) ||
    (StartsComment(s) && LineLen(s) < |s| && 0 < LineLen(s) && IsGap(s[LineLen(s)..]))
  }

  /** White space and comments up to the end of the text. */
  predicate IsTail(s: string) {
    s == [] || (IsSpace(s[0]) && IsTail(s[1..])) ||
    (StartsComment(s) && 0 < LineLen(s) && IsTail(s[LineLen(s)..]))
  }

  /** A token with what is written before it. */
  datatype Part = Part(gap: string, tok: Tok)

  ghost predicate Writable(alnum: Alphabet, tok: Tok) {
    tok.Ident? ==> IsWord(alnum, tok.name)
  }

  function Written(parts: seq<Part>, tail: string): string {
    if parts == [] then tail else parts[0].gap + (TokText(parts[0].tok) + Written(parts[1..], tail))
  }

  /** No word runs on into what follows. */
  predicate Breaks(alnum: Alphabet, rest: string) {
    rest == [] || !InWord(alnum, rest[0])
  }

  ghost predicate Spaced(alnum: Alphabet, parts: seq<Part>, tail: string)
    decreases |parts|
  {
    && (forall i :: 0 <= i < |parts| ==> Writable(alnum, parts[i].tok))
    && if parts == [] then IsTail(tail)
       else
         && IsGap(parts[0].gap)
         && Spaced(alnum, parts[1..], tail)
         && (parts[0].tok.Ident? ==> Breaks(alnum, Written(parts[1..], tail)))
  }

  // ---------------------------------------------------------------- reading back

  lemma EscapedCharReads(c: char, more: string)
    ensures BodyOf(EscapeChar(c) + more) == Before([c], |EscapeChar(c)|, BodyOf(more))
  {
    var s := EscapeChar(c) + more;
    if c == '"' || c == '\\' {
      assert s[0] == '\\' && s[1] == c && s[2..] == more;
    } else {
      assert s[0] == c && s[1..] == more;
    }
  }

  lemma {:induction false} EscapedReads(value: string, quoteOn: string)
    requires quoteOn != [] && quoteOn[0] == '"'
    ensures BodyOf(Escaped(value) + quoteOn) == Closed(value, |Escaped(value)| + 1)
  {
    if value == [] {
      assert Escaped(value) + quoteOn == quoteOn;
    } else {
      hide BodyOf, EscapeChar;
      var first, others := EscapeChar(value[0]), Escaped(value[1..]);
      EscapedReads(value[1..], quoteOn);
      EscapedCharReads(value[0], others + quoteOn);
      assert (first + others) + quoteOn == first + (others + quoteOn);
      assert value == [value[0]] + value[1..];
    }
  }

  lemma {:induction false} WordReads(alnum: Alphabet, w: string, rest: string)
    requires (forall i :: 0 <= i < |w| ==> InWord(alnum, w[i])) && Breaks(alnum, rest)
    ensures WordLen(alnum, w + rest) == |w|
  {
    if w == [] {
      assert w + rest == rest;
    } else {
      assert (w + rest)[1..] == w[1..] + rest;
      WordReads(alnum, w[1..], rest);
    }
  }

  lemma WordIsNoMark(alnum: Alphabet, c: char)
    requires Proper(alnum) && StartsWord(alnum, c)
    ensures !IsSpace(c) && c != '"' && c != '#' && c != '-'
  {}

  lemma IdentReads(alnum: Alphabet, w: string, rest: string)
    requires Proper(alnum) && IsWord(alnum, w) && Breaks(alnum, rest)
    ensures PieceOf(alnum, w + rest) == Lexed(Ident(w), |w|)
  {
    hide BodyOf, LineLen, Symbol;
    var s := w + rest;
    assert s[0] == w[0] && s[1..] == w[1..] + rest;
    forall i | 0 <= i < |w[1..]| ensures InWord(alnum, w[1..][i]) { assert w[1..][i] == w[i + 1]; }
    WordReads(alnum, w[1..], rest);
    assert s[..|w|] == w;
    WordIsNoMark(alnum, w[0]);
    if |s| > 1 && s[0] == '/' {
      assert s[1] != '/' by {
        if |w| == 1 { assert s[1] == rest[0]; }
      }
    }
    assert !StartsComment(s);
  }

  lemma TextReads(alnum: Alphabet, value: string, rest: string)
    ensures PieceOf(alnum, TokText(Text(value)) + rest) == Lexed(Text(value), |TokText(Text(value))|)
  {
    hide BodyOf, Escaped;
    var s, body := TokText(Text(value)) + rest, Escaped(value) + ("\"" + rest);
    EscapedReads(value, "\"" + rest);
    assert s == ['"'] + body;
    assert s[0] == '"' && s[1..] == body;
  }

  /** A written token is the first piece of the text, and is read as itself. */
  lemma TokReads(alnum: Alphabet, tok: Tok, rest: string)
    requires Proper(alnum) && Writable(alnum, tok) && (tok.Ident? ==> Breaks(alnum, rest))
    ensures TokText(tok) != [] && PieceOf(alnum, TokText(tok) + rest) == Lexed(tok, |TokText(tok)|)
  {
    var s := TokText(tok) + rest;
    if tok.Ident? {
      IdentReads(alnum, tok.name, rest);
    } else if tok.Text? {
      TextReads(alnum, tok.value, rest);
    } else if tok.Arrow? {
      assert s[0] == '-' && s[1] == '>';
    } else {
      assert s[0] == TokText(tok)[0];
      assert !alnum(s[0]);
    }
  }

  lemma {:induction false} LineLenThen(s: string, rest: string)
    requires LineLen(s) < |s|
    ensures LineLen(s + rest) == LineLen(s)
  {
    if s[0] != '\n' {
      assert (s + rest)[1..] == s[1..] + rest;
      LineLenThen(s[1..], rest);
    }
  }

  function GapStep(gap: string): nat
    requires gap != []
  {
    if IsSpace(gap[0]) then 1 else LineLen(gap)
  }

  lemma GapFirst(alnum: Alphabet, gap: string, rest: string)
    requires gap != [] && IsGap(gap)
    ensures var n := GapStep(gap);
            0 < n <= |gap| && IsGap(gap[n..]) && PieceOf(alnum, gap + rest) == Skipped(n)
  {
    var s := gap + rest;
    assert s[0] == gap[0];
    if !IsSpace(gap[0]) {
      LineLenThen(gap, rest);
      assert LineLen(s) == 1 + LineLen(s[1..]);
      assert StartsComment(s);
    }
  }

  lemma LexSkip(alnum: Alphabet, src: string, offset: nat, n: nat)
    requires offset < |src| && PieceOf(alnum, src[offset..]) == Skipped(n)
    ensures offset + n <= |src| && LexFrom(alnum, src, offset) == LexFrom(alnum, src, offset + n)
  {
    hide PieceOf;
  }

  /** A gap is passed over. */
  lemma {:induction false} GapSkipped(alnum: Alphabet, src: string, offset: nat, gap: string, rest: string)
    requires offset <= |src| && src[offset..] == gap + rest && IsGap(gap)
    ensures LexFrom(alnum, src, offset) == LexFrom(alnum, src, offset + |gap|)
    decreases |gap|
  {
    hide LexFrom, PieceOf, IsGap, GapStep;
    if gap != [] {
      var n := GapStep(gap);
      GapFirst(alnum, gap, rest);
      LexSkip(alnum, src, offset, n);
      assert src[offset + n..] == src[offset..][n..] == gap[n..] + rest;
      GapSkipped(alnum, src, offset + n, gap[n..], rest);
    }
  }

  lemma LexTok(alnum: Alphabet, src: string, offset: nat, tok: Tok, n: nat)
    requires offset < |src| && PieceOf(alnum, src[offset..]) == Lexed(tok, n)
    ensures offset + n <= |src| && LexFrom(alnum, src, offset) == Cons(Placed(tok, offset), LexFrom(alnum, src, offset + n))
  {
    hide PieceOf;
  }

  lemma LexNothing(alnum: Alphabet, src: string, offset: nat)
    requires offset == |src|
    ensures LexFrom(alnum, src, offset) == Ok([])
  {}

  lemma {:induction false} TailSkipped(alnum: Alphabet, src: string, offset: nat)
    requires offset <= |src| && IsTail(src[offset..])
    ensures LexFrom(alnum, src, offset) == Ok([])
    decreases |src| - offset
  {
    hide LexFrom, BodyOf;
    var s := src[offset..];
    if s == [] {
      LexNothing(alnum, src, offset);
    } else {
      if IsSpace(s[0]) {
        LexSkip(alnum, src, offset, 1);
        assert src[offset + 1..] == s[1..];
        assert IsTail(src[offset + 1..]);
        TailSkipped(alnum, src, offset + 1);
      } else {
        var n := LineLen(s);
        assert src[offset + n..] == s[n..];
        assert PieceOf(alnum, s) == Skipped(n);
        LexSkip(alnum, src, offset, n);
        TailSkipped(alnum, src, offset + n);
      }
    }
  }

  function Toks(placed: seq<Placed>): seq<Tok> {
    if placed == [] then [] else [placed[0].tok] + Toks(placed[1..])
  }

  function ToksOf(parts: seq<Part>): seq<Tok> {
    if parts == [] then [] else [parts[0].tok] + ToksOf(parts[1..])
  }

  lemma {:induction false} WrittenReadsFrom(alnum: Alphabet, src: string, offset: nat, parts: seq<Part>, tail: string)
    requires Proper(alnum) && Spaced(alnum, parts, tail) && offset <= |src| && src[offset..] == Written(parts, tail)
    ensures var r := LexFrom(alnum, src, offset); r.Ok? && Toks(r.value) == ToksOf(parts)
    decreases |parts|
  {
    hide LexFrom, PieceOf, IsGap, TokText, Breaks, Writable;
    if parts == [] {
      TailSkipped(alnum, src, offset);
    } else {
      var (gap, tok, more) := (parts[0].gap, parts[0].tok, Written(parts[1..], tail));
      GapSkipped(alnum, src, offset, gap, TokText(tok) + more);
      var here := offset + |gap|;
      assert src[here..] == src[offset..][|gap|..] == TokText(tok) + more;
      TokReads(alnum, tok, more);
      LexTok(alnum, src, here, tok, |TokText(tok)|);
      var next := here + |TokText(tok)|;
      assert src[next..] == src[here..][|TokText(tok)|..] == more;
      WrittenReadsFrom(alnum, src, next, parts[1..], tail);
      ConsToks(Placed(tok, here), LexFrom(alnum, src, next));
    }
  }

  lemma ConsToks(p: Placed, rest: Result<seq<Placed>, Mistake>)
    requires rest.Ok?
    ensures Cons(p, rest).Ok? && Toks(Cons(p, rest).value) == [p.tok] + Toks(rest.value)
  {
    assert ([p] + rest.value)[1..] == rest.value;
  }

  /**
   Tokens written with gaps between them, strings of any content included, lex back to the
   same tokens.
   */
  lemma WrittenReadsBack(alnum: Alphabet, parts: seq<Part>, tail: string)
    requires Proper(alnum) && Spaced(alnum, parts, tail)
    ensures var r := LexFrom(alnum, Written(parts, tail), 0); r.Ok? && Toks(r.value) == ToksOf(parts)
  {
    var src := Written(parts, tail);
    assert src[0..] == src;
    WrittenReadsFrom(alnum, src, 0, parts, tail);
  }

  // ---------------------------------------------------------------- exactly which writings read back

  predicate BeginsWith(s: string, c: char) {
    s != [] && s[0] == c
  }

  /** Tokens that can be written, gaps between them, and no word `/` directly before another slash: that is a comment. */
  ghost predicate LaidOut(alnum: Alphabet, parts: seq<Part>, tail: string)
    decreases |parts|
  {
    if parts == [] then IsTail(tail)
    else
      Writable(alnum, parts[0].tok) && IsGap(parts[0].gap) && LaidOut(alnum, parts[1..], tail) &&
      !(parts[0].tok == Ident("/") && BeginsWith(Written(parts[1..], tail), '/'))
  }

  predicate AllBreak(alnum: Alphabet, parts: seq<Part>, tail: string) {
    parts == [] || ((parts[0].tok.Ident? ==> Breaks(alnum, Written(parts[1..], tail))) && AllBreak(alnum, parts[1..], tail))
  }

  lemma {:induction false} LaidOutIsSpaced(alnum: Alphabet, parts: seq<Part>, tail: string)
    requires LaidOut(alnum, parts, tail) && AllBreak(alnum, parts, tail)
    ensures Spaced(alnum, parts, tail)
    decreases |parts|
  {
    hide IsGap, IsTail, Breaks, Writable;
    if parts != [] {
      LaidOutIsSpaced(alnum, parts[1..], tail);
      forall i | 0 <= i < |parts| ensures Writable(alnum, parts[i].tok) {
        if i > 0 { assert parts[i] == parts[1..][i - 1]; }
      }
    }
  }

  lemma {:induction false} WordRunsOn(alnum: Alphabet, w: string, rest: string)
    requires (forall i :: 0 <= i < |w| ==> InWord(alnum, w[i])) && !Breaks(alnum, rest)
    ensures WordLen(alnum, w + rest) > |w|
  {
    if w == [] {
      assert w + rest == rest;
    } else {
      assert (w + rest)[1..] == w[1..] + rest;
      WordRunsOn(alnum, w[1..], rest);
    }
  }

  /** A word directly before a word character is read as a longer one. */
  lemma IdentRunsOn(alnum: Alphabet, w: string, rest: string)
    requires Proper(alnum) && IsWord(alnum, w) && !Breaks(alnum, rest) && !(w == "/" && BeginsWith(rest, '/'))
    ensures var p := PieceOf(alnum, w + rest); p.Lexed? && p.tok.Ident? && |p.tok.name| > |w|
  {
    hide BodyOf, LineLen, Symbol;
    var s := w + rest;
    assert s[0] == w[0] && s[1..] == w[1..] + rest;
    forall i | 0 <= i < |w[1..]| ensures InWord(alnum, w[1..][i]) { assert w[1..][i] == w[i + 1]; }
    WordRunsOn(alnum, w[1..], rest);
    WordIsNoMark(alnum, w[0]);
    assert s[1] == if |w| > 1 then w[1] else rest[0];
    if w[0] == '/' && |w| == 1 { assert w == "/"; }
    assert !StartsComment(s);
  }

  lemma {:induction false} MisreadFrom(alnum: Alphabet, src: string, offset: nat, parts: seq<Part>, tail: string)
    requires Proper(alnum) && LaidOut(alnum, parts, tail) && !AllBreak(alnum, parts, tail)
    requires offset <= |src| && src[offset..] == Written(parts, tail)
    ensures var r := LexFrom(alnum, src, offset); r.Ok? ==> Toks(r.value) != ToksOf(parts)
    decreases |parts|
  {
    hide LexFrom, PieceOf, IsGap, TokText, Breaks, IsWord;
    var (gap, tok, more) := (parts[0].gap, parts[0].tok, Written(parts[1..], tail));
    GapSkipped(alnum, src, offset, gap, TokText(tok) + more);
    var here := offset + |gap|;
    assert src[here..] == src[offset..][|gap|..] == TokText(tok) + more;
    if tok.Ident? && !Breaks(alnum, more) {
      assert TokText(tok) == tok.name by { WordText(tok); }
      IdentRunsOn(alnum, tok.name, more);
      var p := PieceOf(alnum, src[here..]);
      LexTok(alnum, src, here, p.tok, p.len);
      var rest := LexFrom(alnum, src, here + p.len);
      assert ToksOf(parts)[0] == tok && p.tok != tok;
      if rest.Ok? {
        ConsToks(Placed(p.tok, here), rest);
        assert ([p.tok] + Toks(rest.value))[0] == p.tok;
      }
    } else {
      TokReads(alnum, tok, more);
      LexTok(alnum, src, here, tok, |TokText(tok)|);
      var next := here + |TokText(tok)|;
      assert src[next..] == src[here..][|TokText(tok)|..] == more;
      MisreadFrom(alnum, src, next, parts[1..], tail);
      var rest := LexFrom(alnum, src, next);
      if rest.Ok? {
        ConsToks(Placed(tok, here), rest);
        assert ([tok] + Toks(rest.value))[1..] == Toks(rest.value) && ToksOf(parts)[1..] == ToksOf(parts[1..]);
      }
    }
  }

  lemma WordText(tok: Tok)
    requires tok.Ident?
    ensures TokText(tok) == tok.name
  {}

  /** Tokens laid out as text read back exactly when every word is followed by something that is not part of a word. */
  lemma ReadsBackExactly(alnum: Alphabet, parts: seq<Part>, tail: string)
    requires Proper(alnum) && LaidOut(alnum, parts, tail)
    ensures var r := LexFrom(alnum, Written(parts, tail), 0);
            (r.Ok? && Toks(r.value) == ToksOf(parts)) <==> AllBreak(alnum, parts, tail)
  {
    hide LexFrom, LaidOut, AllBreak, Spaced, Written, Toks, ToksOf;
    var src := Written(parts, tail);
    assert src[0..] == src;
    if AllBreak(alnum, parts, tail) {
      LaidOutIsSpaced(alnum, parts, tail);
      WrittenReadsBack(alnum, parts, tail);
    } else {
      MisreadFrom(alnum, src, 0, parts, tail);
    }
  }

  /** A comment right after a bare word is taken into the word. */
  lemma CommentRunsIntoWord(alnum: Alphabet)
    requires alnum('a')
    ensures LexFrom(alnum, "a//a", 0) == Ok([Placed(Ident("a//a"), 0)])
  {
    var s := "a//a";
    assert s[0..] == s && s[1..] == "//a" && "//a"[1..] == "/a" && "/a"[1..] == "a" && "a"[1..] == "";
    assert WordLen(alnum, "") == 0;
    assert WordLen(alnum, "a") == 1;
    assert WordLen(alnum, "/a") == 2;
    assert WordLen(alnum, "//a") == 3;
    assert s[..4] == s;
    assert PieceOf(alnum, s) == Lexed(Ident("a//a"), 4);
    LexTok(alnum, s, 0, Ident("a//a"), 4);
    assert LexFrom(alnum, s, 4) == Ok([]);
    assert [Placed(Ident("a//a"), 0)] + [] == [Placed(Ident("a//a"), 0)];
  }
}
