/** The tokens of spec text: how each is spelled, and that the lexer reads exactly those. */
module LexGrammar {
  import opened Wrappers
  import opened Strings
  import opened Lexer
  import opened SpecText
  import opened Spans

  // ---------------------------------------------------------------- one piece

  /** The characters of a token. */
  ghost predicate SpelledAs(alnum: Alphabet, tok: Tok, text: string) {
    match tok
    case Ident(name) => text == name && text != "" && StartsWord(alnum, text[0]) && forall i :: 0 <= i < |text| ==> InWord(alnum, text[i])
    case Text(value) => exists pieces :: SpellsAll(pieces, value) && text == "\"" + Join(pieces) + "\""
    case Equals => text == "="
    case OpenBrace => text == "{"
    case CloseBrace => text == "}"
    case OpenBracket => text == "["
    case CloseBracket => text == "]"
    case Comma => text == ","
    case Semicolon => text == ";"
    case Arrow => text == "->"
  }

  /** The text begins with this token, `n` characters long; a word is as long as it can be, and no comment. */
  ghost predicate BeginsWith(alnum: Alphabet, s: string, tok: Tok, n: nat) {
    n <= |s| && SpelledAs(alnum, tok, s[..n]) &&
    (tok.Ident? ==> !StartsComment(s) && (n == |s| || !InWord(alnum, s[n])))
  }

  /** The text begins with a white-space character, or with a comment that reaches to the end of its line. */
  predicate SkipsOver(s: string, n: nat) {
    1 <= n <= |s| &&
    ((n == 1 && IsSpace(s[0])) || (StartsComment(s) && '\n' !in s[..n] && (n == |s| || s[n] == '\n')))
  }

  lemma {:induction false} LineLenExactly(s: string, n: nat)
    ensures n == LineLen(s) <==> n <= |s| && '\n' !in s[..n] && (n == |s| || s[n] == '\n')
    decreases |s|
  {
    if s != "" && s[0] != '\n' {
      if n > 0 {
        LineLenExactly(s[1..], n - 1);
        if n <= |s| { assert s[..n] == [s[0]] + s[1..][..n - 1]; }
      } else {
        assert LineLen(s) > 0;
      }
    }
    if s != "" && s[0] == '\n' && 0 < n <= |s| { assert s[..n][0] == '\n'; }
  }

  lemma SkipExactly(alnum: Alphabet, s: string, n: nat)
    requires s != ""
    ensures PieceOf(alnum, s) == Skipped(n) <==> SkipsOver(s, n)
  {
    hide BodyOf, Symbol, StartsWord, WordLen;
    if StartsComment(s) {
      assert !IsSpace(s[0]);
      LineLenExactly(s[1..], LineLen(s[1..]));
      if 1 <= n <= |s| {
        LineLenExactly(s[1..], n - 1);
        assert s[..n] == [s[0]] + s[1..][..n - 1];
      }
    }
  }

  lemma {:induction false} WordLenExactly(alnum: Alphabet, s: string)
    ensures var n := WordLen(alnum, s); (forall i :: 0 <= i < n ==> InWord(alnum, s[i])) && (n == |s| || !InWord(alnum, s[n]))
  {
    hide InWord;
    if s != "" && InWord(alnum, s[0]) {
      WordLenExactly(alnum, s[1..]);
      forall i | 0 <= i < WordLen(alnum, s) ensures InWord(alnum, s[i]) { if i > 0 { assert s[i] == s[1..][i - 1]; } }
    }
  }

  /** What begins with a token lexes to it. */
  lemma TokenReads(alnum: Alphabet, s: string, tok: Tok, n: nat)
    requires Proper(alnum) && s != "" && BeginsWith(alnum, s, tok, n)
    ensures PieceOf(alnum, s) == Lexed(tok, n)
  {
    hide PieceOf, InWord, StartsWord, SpellsAll, BodyOf;
    var rest := s[n..];
    assert s == s[..n] + rest;
    match tok
    case Ident(name) =>
      assert n < |s| ==> rest[0] == s[n];
      if n > 1 { assert s[0] == name[0] && s[1] == name[1]; }
      IdentReads(alnum, name, rest);
    case Text(value) =>
      var pieces :| SpellsAll(pieces, value) && s[..n] == "\"" + Join(pieces) + "\"";
      SpelledReads(pieces, value, rest);
      QuotedReads(alnum, Join(pieces) + ("\"" + rest), value, |Join(pieces)| + 1);
      assert s == "\"" + (Join(pieces) + ("\"" + rest));
    case _ => MarksRead(alnum, rest);
  }

  lemma QuotedReads(alnum: Alphabet, body: string, value: string, n: nat)
    requires BodyOf(body) == Closed(value, n)
    ensures PieceOf(alnum, "\"" + body) == Lexed(Text(value), 1 + n)
  {
    assert ("\"" + body)[0] == '"' && ("\"" + body)[1..] == body;
  }

  /** And what lexes to a token begins with it. */
  lemma TokenRead(alnum: Alphabet, s: string, tok: Tok, n: nat)
    requires Proper(alnum) && s != "" && PieceOf(alnum, s) == Lexed(tok, n)
    ensures BeginsWith(alnum, s, tok, n)
  {
    hide InWord, StartsWord, BodyOf, SpellsAll;
    match tok
    case Ident(name) =>
      WordLenExactly(alnum, s[1..]);
      WordStarts(alnum, s[0]);
      forall i | 0 <= i < n ensures InWord(alnum, s[..n][i]) { if i > 0 { assert s[..n][i] == s[1..][i - 1]; } }
      if n < |s| { assert s[n] == s[1..][n - 1]; }
    case Text(value) =>
      var pieces := ReadWasSpelled(s[1..]);
      assert s[..n] == "\"" + s[1..][..n - 1];
      assert s[..n] == "\"" + Join(pieces) + "\"";
    case _ => MarkRead(alnum, s, tok, n);
  }

  lemma WordStarts(alnum: Alphabet, c: char)
    ensures StartsWord(alnum, c) ==> InWord(alnum, c)
  {}

  lemma MarkRead(alnum: Alphabet, s: string, tok: Tok, n: nat)
    requires s != "" && PieceOf(alnum, s) == Lexed(tok, n) && !tok.Ident? && !tok.Text?
    ensures SpelledAs(alnum, tok, s[..n])
  {
    hide InWord, StartsWord, BodyOf, SpellsAll;
    assert s[..1] == [s[0]];
    if |s| > 1 { assert s[..2] == [s[0], s[1]]; }
  }

  // ---------------------------------------------------------------- the whole text

  datatype Step = Skip(len: nat) | Take(tok: Tok, len: nat)

  /** One step of the reading, at `at`. */
  ghost predicate StepsFrom(alnum: Alphabet, src: string, at: nat, step: Step, next: nat) {
    at < |src| && next == at + step.len &&
    match step
    case Skip(n) => SkipsOver(src[at..], n)
    case Take(tok, n) => BeginsWith(alnum, src[at..], tok, n)
  }

  /** Steps from the beginning of the text to its end, without a gap. */
  ghost predicate Covers(alnum: Alphabet, src: string, ats: seq<nat>, steps: seq<Step>) {
    |ats| == |steps| + 1 && ats[|steps|] == |src| && forall k :: 0 <= k < |steps| ==> StepsFrom(alnum, src, ats[k], steps[k], ats[k + 1])
  }

  /** The tokens taken, each with where it begins. */
  function Taken(ats: seq<nat>, steps: seq<Step>): seq<Placed>
    requires |ats| == |steps| + 1
  {
    if steps == [] then []
    else if steps[0].Take? then [Placed(steps[0].tok, ats[0])] + Taken(ats[1..], steps[1..])
    else Taken(ats[1..], steps[1..])
  }

  ghost predicate ReadsAs(alnum: Alphabet, src: string, at: nat, ats: seq<nat>, steps: seq<Step>, ps: seq<Placed>) {
    Covers(alnum, src, ats, steps) && ats[0] == at && ps == Taken(ats, steps)
  }

  lemma StepIsPiece(alnum: Alphabet, src: string, at: nat, step: Step, next: nat)
    requires Proper(alnum) && at < |src|
    ensures StepsFrom(alnum, src, at, step, next) <==>
            next == at + step.len && PieceOf(alnum, src[at..]) == if step.Skip? then Skipped(step.len) else Lexed(step.tok, step.len)
  {
    hide PieceOf, SkipsOver, BeginsWith;
    var s := src[at..];
    match step
    case Skip(n) => SkipExactly(alnum, s, n);
    case Take(tok, n) =>
      if PieceOf(alnum, s) == Lexed(tok, n) { TokenRead(alnum, s, tok, n); }
      if BeginsWith(alnum, s, tok, n) { TokenReads(alnum, s, tok, n); }
  }

  lemma CoversMore(alnum: Alphabet, src: string, at: nat, step: Step, ats: seq<nat>, steps: seq<Step>)
    requires Covers(alnum, src, ats, steps) && StepsFrom(alnum, src, at, step, ats[0])
    ensures Covers(alnum, src, [at] + ats, [step] + steps)
    ensures Taken([at] + ats, [step] + steps) == (if step.Take? then [Placed(step.tok, at)] else []) + Taken(ats, steps)
  {
    hide StepsFrom;
    var ats', steps' := [at] + ats, [step] + steps;
    forall k | 0 <= k < |steps'| ensures StepsFrom(alnum, src, ats'[k], steps'[k], ats'[k + 1]) {
      if k > 0 { assert ats'[k] == ats[k - 1] && steps'[k] == steps[k - 1] && ats'[k + 1] == ats[k]; }
    }
    assert ats'[1..] == ats && steps'[1..] == steps;
  }

  lemma CoversRest(alnum: Alphabet, src: string, ats: seq<nat>, steps: seq<Step>)
    requires Covers(alnum, src, ats, steps) && steps != []
    ensures StepsFrom(alnum, src, ats[0], steps[0], ats[1]) && Covers(alnum, src, ats[1..], steps[1..])
  {
    hide StepsFrom;
    var ats', steps' := ats[1..], steps[1..];
    forall k | 0 <= k < |steps'| ensures StepsFrom(alnum, src, ats'[k], steps'[k], ats'[k + 1]) {
      assert ats'[k] == ats[k + 1] && steps'[k] == steps[k + 1] && ats'[k + 1] == ats[k + 2];
    }
  }

  lemma {:induction false} StepsOf(alnum: Alphabet, src: string, at: nat) returns (ats: seq<nat>, steps: seq<Step>)
    requires Proper(alnum) && at <= |src| && LexFrom(alnum, src, at).Ok?
    ensures ReadsAs(alnum, src, at, ats, steps, LexFrom(alnum, src, at).value)
    decreases |src| - at
  {
    hide PieceOf, StepsFrom, Covers, Taken;
    if at == |src| {
      ats, steps := [at], [];
      NoSteps(alnum, src);
    } else {
      var p := PieceOf(alnum, src[at..]);
      var step := if p.Skipped? then Skip(p.len) else Take(p.tok, p.len);
      StepIsPiece(alnum, src, at, step, at + p.len);
      var more, rest := StepsOf(alnum, src, at + p.len);
      CoversMore(alnum, src, at, step, more, rest);
      ats, steps := [at] + more, [step] + rest;
    }
  }

  lemma NoSteps(alnum: Alphabet, src: string)
    ensures Covers(alnum, src, [|src|], []) && Taken([|src|], []) == []
  {}

  lemma {:induction false} StepsRead(alnum: Alphabet, src: string, at: nat, ats: seq<nat>, steps: seq<Step>, ps: seq<Placed>)
    requires Proper(alnum) && ReadsAs(alnum, src, at, ats, steps, ps) && at <= |src|
    ensures LexFrom(alnum, src, at) == Ok(ps)
    decreases |steps|
  {
    hide PieceOf, StepsFrom;
    if steps != [] {
      CoversRest(alnum, src, ats, steps);
      StepStays(alnum, src, at, steps[0], ats[1]);
      StepIsPiece(alnum, src, at, steps[0], ats[1]);
      StepsRead(alnum, src, ats[1], ats[1..], steps[1..], Taken(ats[1..], steps[1..]));
    }
  }

  lemma StepStays(alnum: Alphabet, src: string, at: nat, step: Step, next: nat)
    requires StepsFrom(alnum, src, at, step, next)
    ensures at < |src| && next <= |src|
  {
    hide SpelledAs, StartsComment, IsSpace;
  }

  /**
   What a text lexes to, exactly: it is covered, from beginning to end, by white space, comments and
   tokens, each word as long as it can be, and the result are the tokens with where they begin.
   */
  lemma LexesExactly(alnum: Alphabet, src: string, ps: seq<Placed>)
    requires Proper(alnum)
    ensures LexFrom(alnum, src, 0) == Ok(ps) <==> exists ats, steps :: ReadsAs(alnum, src, 0, ats, steps, ps)
  {
    hide LexFrom, ReadsAs;
    if LexFrom(alnum, src, 0).Ok? { var ats, steps := StepsOf(alnum, src, 0); }
    if ats, steps :| ReadsAs(alnum, src, 0, ats, steps, ps) { StepsRead(alnum, src, 0, ats, steps, ps); }
  }
}
