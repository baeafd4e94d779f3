/** Where the lexer says things are, what strings it reads, and what its mistakes stand for. */
module Spans {
  import opened Wrappers
  import opened Strings
  import opened Lexer

  // ---------------------------------------------------------------- lines and columns

  function NewlinesBefore(src: string, offset: nat): set<nat> {
    set i | 0 <= i < offset && i < |src| && src[i] == '\n'
  }

  /** The line that `offset` is on starts at `start`. */
  ghost predicate LineStarts(src: string, offset: nat, start: nat)
    requires offset <= |src|
  {
    start <= offset && (start > 0 ==> src[start - 1] == '\n') && forall i :: start <= i < offset ==> src[i] != '\n'
  }

  /** The line is one more than the line breaks before, the column one more than the characters since the last of them. */
  lemma {:induction false} SpanExactly(src: string, offset: nat) returns (start: nat)
    requires offset <= |src|
    ensures LineStarts(src, offset, start)
    ensures SpanAt(src, offset) == Span(|NewlinesBefore(src, offset)| + 1, offset - start + 1)
  {
    start := 0;
    if offset == 0 {
      assert NewlinesBefore(src, 0) == {};
    } else {
      start := SpanExactly(src, offset - 1);
      var before := NewlinesBefore(src, offset - 1);
      if src[offset - 1] == '\n' {
        start := offset;
        assert NewlinesBefore(src, offset) == before + {offset - 1};
      } else {
        assert NewlinesBefore(src, offset) == before;
      }
    }
  }

  // ---------------------------------------------------------------- strings

  /** The ways to write one character inside quotes. */
  predicate Spells(piece: string, c: char) {
    (piece == [c] && c != '"' && c != '\\') ||
    (piece == "\\\"" && c == '"') || (piece == "\\\\" && c == '\\') || (piece == "\\n" && c == '\n') || (piece == "\\t" && c == '\t')
  }

  ghost predicate SpellsAll(pieces: seq<string>, value: string) {
    |pieces| == |value| && forall i :: 0 <= i < |pieces| ==> Spells(pieces[i], value[i])
  }

  function Join(pieces: seq<string>): string {
    if pieces == [] then "" else pieces[0] + Join(pieces[1..])
  }

  lemma PieceReads(piece: string, c: char, more: string)
    requires Spells(piece, c)
    ensures BodyOf(piece + more) == Before([c], |piece|, BodyOf(more))
  {
    var s := piece + more;
    if piece == [c] {
      assert s[0] == c && s[1..] == more;
    } else {
      var d := piece[1];
      assert piece == ['\\', d] && Unescape(d) == Some(c);
      assert s[0] == '\\' && s[1] == d && s[2..] == more;
    }
  }

  lemma {:induction false} SpelledReads(pieces: seq<string>, value: string, rest: string)
    requires SpellsAll(pieces, value)
    ensures BodyOf(Join(pieces) + ("\"" + rest)) == Closed(value, |Join(pieces)| + 1)
    decreases |pieces|
  {
    if pieces == [] {
      assert "" + ("\"" + rest) == "\"" + rest;
    } else {
      hide BodyOf, Spells;
      forall i | 0 <= i < |pieces[1..]| ensures Spells(pieces[1..][i], value[1..][i]) { assert Spells(pieces[i + 1], value[i + 1]); }
      SpelledReads(pieces[1..], value[1..], rest);
      assert Spells(pieces[0], value[0]);
      PieceReads(pieces[0], value[0], Join(pieces[1..]) + ("\"" + rest));
      assert pieces[0] + Join(pieces[1..]) + ("\"" + rest) == pieces[0] + (Join(pieces[1..]) + ("\"" + rest));
      assert value == [value[0]] + value[1..];
    }
  }

  lemma EscapeSpells(d: char)
    requires Unescape(d).Some?
    ensures Spells(['\\', d], Unescape(d).value)
  {}

  lemma PlainSpells(c: char)
    ensures c != '"' && c != '\\' ==> Spells([c], c)
  {}

  lemma BodyUnfolds(s: string) returns (c: char)
    requires s != "" && s[0] != '"' && (s[0] == '\\' ==> |s| > 1 && Unescape(s[1]).Some?)
    ensures var n := if s[0] == '\\' then 2 else 1;
            Spells(s[..n], c) && BodyOf(s) == Before([c], n, BodyOf(s[n..]))
  {
    hide Spells;
    if s[0] == '\\' {
      c := Unescape(s[1]).value;
      EscapeSpells(s[1]);
      assert s[..2] == ['\\', s[1]];
    } else {
      hide Unescape;
      c := s[0];
      PlainSpells(s[0]);
      assert s[..1] == [s[0]];
    }
  }

  /** And every string that is read was written so. */
  lemma {:induction false} ReadWasSpelled(s: string) returns (pieces: seq<string>)
    requires BodyOf(s).Closed?
    ensures SpellsAll(pieces, BodyOf(s).value) && Join(pieces) + "\"" == s[..BodyOf(s).len]
    decreases |s|
  {
    if s[0] == '"' {
      pieces := [];
      assert s[..1] == "\"";
    } else {
      var c := BodyUnfolds(s);
      var n := if s[0] == '\\' then 2 else 1;
      var rest := ReadWasSpelled(s[n..]);
      pieces := [s[..n]] + rest;
      assert Join(pieces) == s[..n] + Join(rest);
      assert s[..BodyOf(s).len] == s[..n] + s[n..][..BodyOf(s[n..]).len];
    }
  }

  // ---------------------------------------------------------------- mistakes

  /** What stands where a mistake is reported. */
  ghost predicate StandsThere(alnum: Alphabet, src: string, m: Mistake) {
    m.offset < |src| &&
    match m.problem
    case UnexpectedChar(c) =>
      src[m.offset] == c && !IsSpace(c) && c !in "#\"={}[],;" && (c != '-' ==> !StartsWord(alnum, c)) &&
      (c == '-' ==> m.offset + 1 == |src| || src[m.offset + 1] != '>')
    case UnterminatedString => src[m.offset] == '"' && BodyOf(src[m.offset + 1..]) == Unclosed
    case UnknownEscape(c) => src[m.offset] == c && c !in "\"\\nt" && m.offset > 0 && src[m.offset - 1] == '\\'
  }

  lemma {:induction false} BadEscapeIs(s: string)
    ensures BodyOf(s).BadEscape? ==>
              BodyOf(s).ch !in "\"\\nt" && 0 < BodyOf(s).at < |s| && s[BodyOf(s).at] == BodyOf(s).ch && s[BodyOf(s).at - 1] == '\\'
    decreases |s|
  {
    if s != "" && s[0] != '"' {
      if s[0] != '\\' {
        BadEscapeIs(s[1..]);
      } else if |s| > 1 && Unescape(s[1]).Some? {
        BadEscapeIs(s[2..]);
      }
    }
  }

  lemma BadPieceStands(alnum: Alphabet, src: string, offset: nat)
    requires offset < |src| && PieceOf(alnum, src[offset..]).Bad?
    ensures var p := PieceOf(alnum, src[offset..]); StandsThere(alnum, src, Mistake(p.problem, offset + p.at))
  {
    hide BodyOf;
    var s := src[offset..];
    assert s[1..] == src[offset + 1..] && s[0] == src[offset] && (|s| > 1 ==> s[1] == src[offset + 1]);
    BadEscapeIs(s[1..]);
    var p := PieceOf(alnum, s);
    match p.problem
    case UnknownEscape(_) =>
      assert src[offset + 1..][p.at - 1] == src[offset + p.at] && src[offset + 1..][p.at - 2] == src[offset + p.at - 1];
    case UnexpectedChar(c) => assert c != '#' && c != '"' && Symbol(c).None?;
    case UnterminatedString =>
  }

  lemma {:induction false} MistakeStands(alnum: Alphabet, src: string, offset: nat)
    requires offset <= |src|
    ensures LexFrom(alnum, src, offset).Err? ==> StandsThere(alnum, src, LexFrom(alnum, src, offset).error)
    decreases |src| - offset
  {
    hide PieceOf, StandsThere;
    if offset < |src| {
      var p := PieceOf(alnum, src[offset..]);
      match p
      case Bad(_, _) => BadPieceStands(alnum, src, offset);
      case Skipped(n) => MistakeStands(alnum, src, offset + n);
      case Lexed(_, n) => MistakeStands(alnum, src, offset + n);
    }
  }

  // ---------------------------------------------------------------- punctuation

  /** Each mark is its own token. */
  lemma MarksRead(alnum: Alphabet, rest: string)
    requires forall c :: alnum(c) ==> c !in "={}[],;-"
    ensures PieceOf(alnum, "=" + rest) == Lexed(Equals, 1)
    ensures PieceOf(alnum, "{" + rest) == Lexed(OpenBrace, 1) && PieceOf(alnum, "}" + rest) == Lexed(CloseBrace, 1)
    ensures PieceOf(alnum, "[" + rest) == Lexed(OpenBracket, 1) && PieceOf(alnum, "]" + rest) == Lexed(CloseBracket, 1)
    ensures PieceOf(alnum, "," + rest) == Lexed(Comma, 1) && PieceOf(alnum, ";" + rest) == Lexed(Semicolon, 1)
    ensures PieceOf(alnum, "->" + rest) == Lexed(Arrow, 2)
  {
    hide PieceOf;
    MarkReads(alnum, '=', rest);
    MarkReads(alnum, '{', rest);
    MarkReads(alnum, '}', rest);
    MarkReads(alnum, '[', rest);
    MarkReads(alnum, ']', rest);
    MarkReads(alnum, ',', rest);
    MarkReads(alnum, ';', rest);
    ArrowReads(alnum, rest);
  }

  lemma MarkReads(alnum: Alphabet, c: char, rest: string)
    requires Symbol(c).Some? && !alnum(c)
    ensures PieceOf(alnum, [c] + rest) == Lexed(Symbol(c).value, 1)
  {
    assert ([c] + rest)[0] == c;
  }

  lemma ArrowReads(alnum: Alphabet, rest: string)
    ensures PieceOf(alnum, "->" + rest) == Lexed(Arrow, 2)
  {
    var s := "->" + rest;
    assert s[0] == '-' && s[1] == '>';
  }
}
