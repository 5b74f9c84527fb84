/**
 Well-formed JSON text as a sequence of lexemes, independent of the scanner,
 and the proof that the scanner reads it back with exact lines.
 */
module Lexemes {
  import opened Order
  import opened Chars
  import opened Json
  import opened Scan

  datatype Lexeme = Space(c: nat) | Punct(c: nat) | Literal(body: Text) | Word(text: Text)

  /** The inside of a string literal: no control character, no bare quote, no
      backslash without its escaped character. */
  predicate Closed(body: Text) {
    if body == [] then true
    else if body[0] == BACKSLASH then |body| >= 2 && body[1] >= 32 && Closed(body[2..])
    else body[0] != QUOTE && body[0] >= 32 && Closed(body[1..])
  }

  /** White space of section 2 of RFC 8259: space, tab, line feed and carriage return. */
  predicate White(c: nat) { c in T(" \t\n\r") }

  /** The structural characters of section 2 of RFC 8259. */
  predicate Structural(c: nat) { c in T("[]{}:,") }

  /** A character of a number or of a bare word. */
  predicate WordChar(c: nat) { !White(c) && !Structural(c) && c != QUOTE }

  predicate Good(l: Lexeme) {
    match l
    case Space(c) => White(c)
    case Punct(c) => Structural(c)
    case Literal(body) => Closed(body)
    case Word(text) => text != [] && forall i :: 0 <= i < |text| ==> WordChar(text[i])
  }

  /** The scanner's tests are those of the grammar. */
  lemma CharactersAgree(c: nat)
    ensures White(c) <==> IsBlank(c) || c == NEWLINE
    ensures Structural(c) <==> IsPunct(c)
    ensures WordChar(c) <==> !IsDelimiter(c)
  {
    assert T(" \t\n\r") == [32, 9, 10, 13];
    assert T("[]{}:,") == [91, 93, 123, 125, 58, 44];
  }

  lemma WordCharacters(text: Text)
    ensures (forall i :: 0 <= i < |text| ==> WordChar(text[i])) <==>
            forall i :: 0 <= i < |text| ==> !IsDelimiter(text[i])
  {
    hide WordChar, IsDelimiter;
    forall i | 0 <= i < |text| ensures WordChar(text[i]) <==> !IsDelimiter(text[i]) { CharactersAgree(text[i]); }
  }

  /** A lexeme is good exactly when the scanner's tests say so. */
  lemma GoodByScanner(l: Lexeme)
    ensures Good(l) <==> (match l
                          case Space(c) => IsBlank(c) || c == NEWLINE
                          case Punct(c) => IsPunct(c)
                          case Literal(body) => Closed(body)
                          case Word(text) => text != [] && forall i :: 0 <= i < |text| ==> !IsDelimiter(text[i]))
  {
    hide White, Structural, WordChar, IsBlank, IsPunct, IsDelimiter, Closed;
    match l
    case Space(c) => CharactersAgree(c);
    case Punct(c) => CharactersAgree(c);
    case Literal(_) =>
    case Word(text) => WordCharacters(text);
  }

  /** The characters that JSON text is made of. */
  lemma JsonCharacters()
    ensures T("\"") == [QUOTE] && T("\\") == [BACKSLASH] && T("\n") == [NEWLINE]
    ensures T("[]{}:,") == [LBRACKET, RBRACKET, LBRACE, RBRACE, COLON, COMMA]
  {
  }

  /** Good lexemes, with something between any two words. */
  predicate WellFormed(ls: seq<Lexeme>) {
    && (forall i :: 0 <= i < |ls| ==> Good(ls[i]))
    && (forall i :: 0 <= i < |ls| - 1 ==> !(ls[i].Word? && ls[i + 1].Word?))
  }

  function Render(l: Lexeme): Text {
    match l
    case Space(c) => [c]
    case Punct(c) => [c]
    case Literal(body) => [QUOTE] + body + [QUOTE]
    case Word(text) => text
  }

  function RenderAll(ls: seq<Lexeme>): Text {
    if ls == [] then [] else Render(ls[0]) + RenderAll(ls[1..])
  }

  lemma {:induction false} RenderConcat(a: seq<Lexeme>, b: seq<Lexeme>)
    ensures RenderAll(a + b) == RenderAll(a) + RenderAll(b)
  {
    hide Render;
    if a == [] {
      assert a + b == b;
    } else {
      assert (a + b)[1..] == a[1..] + b;
      RenderConcat(a[1..], b);
    }
  }

  function Newlines(s: Text): nat {
    if s == [] then 0 else (if s[0] == NEWLINE then 1 else 0) + Newlines(s[1..])
  }

  /** The value of a literal: what the decoder makes of it, else its raw inside. */
  function BodyValue(body: Text): Text {
    match DecodeBody(body)
    case Some(v) => v
    case None => body
  }

  function LexemeTokens(l: Lexeme, line: int): seq<Token> {
    match l
    case Space(_) => []
    case Punct(c) => [Token(PunctToken, [c], line)]
    case Literal(body) => [Token(StrToken, BodyValue(body), line)]
    case Word(text) => [Token(OtherToken, text, line)]
  }

  /** The tokens of a lexeme list that starts after `before`: each carries one
      plus the number of newlines in front of it. */
  function TokensOf(before: Text, ls: seq<Lexeme>): seq<Token>
    decreases |ls|
  {
    if ls == [] then []
    else LexemeTokens(ls[0], 1 + Newlines(before)) + TokensOf(before + Render(ls[0]), ls[1..])
  }

  lemma {:induction false} LiteralSpan(body: Text, rest: Text)
    requires Closed(body)
    ensures StringSpan(body + ([QUOTE] + rest)) == |body| + 1
    ensures StringLines(body + ([QUOTE] + rest)) == 0
  {
    var s := body + ([QUOTE] + rest);
    if body == [] {
    } else if body[0] == BACKSLASH {
      LiteralSpan(body[2..], rest);
      assert s[2..] == body[2..] + ([QUOTE] + rest);
    } else {
      LiteralSpan(body[1..], rest);
      assert s[1..] == body[1..] + ([QUOTE] + rest);
    }
  }

  /** Between two quotes without escapes, the string loop counts every newline and stops after the second quote. */
  lemma {:induction false} RawSpan(body: Text, rest: Text)
    requires QUOTE !in body && BACKSLASH !in body
    ensures StringSpan(body + ([QUOTE] + rest)) == |body| + 1
    ensures StringLines(body + ([QUOTE] + rest)) == Newlines(body)
  {
    var s := body + ([QUOTE] + rest);
    if body != [] {
      assert s[0] == body[0] && body[0] in body && s[1..] == body[1..] + ([QUOTE] + rest);
      RawSpan(body[1..], rest);
    }
  }

  lemma LiteralValue(body: Text, rest: Text)
    ensures StringValue(body + ([QUOTE] + rest), |body| + 1) == BodyValue(body)
  {
    var s := body + ([QUOTE] + rest);
    assert Clip(s, |body| + 1) == body + [QUOTE];
    assert (body + [QUOTE])[..|body|] == body;
    assert Clip(s, |body|) == body;
  }

  lemma {:induction false} WordSpan(text: Text, rest: Text)
    requires forall i :: 0 <= i < |text| ==> !IsDelimiter(text[i])
    requires rest == [] || IsDelimiter(rest[0])
    ensures OtherSpan(text + rest) == |text|
  {
    if text == [] {
      assert text + rest == rest;
    } else {
      assert (text + rest)[1..] == text[1..] + rest;
      WordSpan(text[1..], rest);
    }
  }

  lemma TurnReadsLiteral(body: Text, rest: Text, line: int)
    requires Closed(body)
    ensures NextTurn([QUOTE] + body + [QUOTE] + rest, line)
         == Turn([Token(StrToken, BodyValue(body), line)], |body| + 2, line)
  {
    hide DecodeBody, StringSpan, StringLines, OtherSpan, Closed, StringValue, BodyValue;
    var s := [QUOTE] + body + [QUOTE] + rest;
    assert s[1..] == body + ([QUOTE] + rest);
    LiteralSpan(body, rest);
    LiteralValue(body, rest);
  }

  lemma TurnReadsWord(text: Text, rest: Text, line: int)
    requires Good(Word(text)) && (rest == [] || IsDelimiter(rest[0]))
    ensures NextTurn(text + rest, line) == Turn([Token(OtherToken, text, line)], |text|, line)
  {
    hide Good;
    GoodByScanner(Word(text));
    WordSpan(text, rest);
    assert (text + rest)[..|text|] == text;
    assert !IsDelimiter(text[0]);
  }

  /** One turn of the scanner's loop reads exactly one lexeme. */
  lemma TurnReadsLexeme(l: Lexeme, rest: Text, line: int)
    requires Good(l) && (l.Word? ==> rest == [] || IsDelimiter(rest[0]))
    ensures NextTurn(Render(l) + rest, line)
         == Turn(LexemeTokens(l, line), |Render(l)|, line + Newlines(Render(l)))
  {
    hide Good;
    GoodByScanner(l);
    if l.Literal? {
      hide NextTurn;
      TurnReadsLiteral(l.body, rest, line);
      LiteralNewlines(l.body);
    } else if l.Word? {
      hide NextTurn;
      TurnReadsWord(l.text, rest, line);
      WordNewlines(l.text);
    }
  }

  lemma {:induction false} NewlinesConcat(s: Text, t: Text)
    ensures Newlines(s + t) == Newlines(s) + Newlines(t)
  {
    if s == [] {
      assert s + t == t;
    } else {
      assert (s + t)[1..] == s[1..] + t;
      NewlinesConcat(s[1..], t);
    }
  }

  lemma {:induction false} WordNewlines(text: Text)
    requires forall i :: 0 <= i < |text| ==> text[i] != NEWLINE
    ensures Newlines(text) == 0
  {
    if text != [] { WordNewlines(text[1..]); }
  }

  lemma {:induction false} ClosedNoControl(body: Text)
    requires Closed(body)
    ensures forall i :: 0 <= i < |body| ==> body[i] >= 32
  {
    if body == [] {
    } else if body[0] == BACKSLASH {
      ClosedNoControl(body[2..]);
      assert forall i :: 2 <= i < |body| ==> body[i] == body[2..][i - 2];
    } else {
      ClosedNoControl(body[1..]);
      assert forall i :: 1 <= i < |body| ==> body[i] == body[1..][i - 1];
    }
  }

  lemma LiteralNewlines(body: Text)
    requires Closed(body)
    ensures Newlines([QUOTE] + body + [QUOTE]) == 0
  {
    ClosedNoControl(body);
    WordNewlines([QUOTE] + body + [QUOTE]);
  }

  lemma RenderedHead(ls: seq<Lexeme>)
    requires WellFormed(ls) && ls != []
    ensures ls[0].Word? && |ls| > 1 ==> RenderAll(ls[1..]) != [] && IsDelimiter(RenderAll(ls[1..])[0])
  {
    hide Good;
    if |ls| > 1 {
      assert ls[1..][0] == ls[1];
      GoodByScanner(ls[1]);
    }
  }

  lemma ReadLexeme(l: Lexeme, rest: Text, line: int)
    requires Good(l) && (l.Word? ==> rest == [] || IsDelimiter(rest[0]))
    ensures Tokens(Render(l) + rest, line) == LexemeTokens(l, line) + Tokens(rest, line + Newlines(Render(l)))
  {
    hide Good, Tokens, NextTurn, Newlines, LexemeTokens;
    TurnReadsLexeme(l, rest, line);
    assert |Render(l)| > 0 by { GoodByScanner(l); }
    assert (Render(l) + rest)[|Render(l)|..] == rest;
    TurnThenRest(Render(l) + rest, line, Turn(LexemeTokens(l, line), |Render(l)|, line + Newlines(Render(l))));
  }

  lemma NoTokens(line: int)
    ensures Tokens([], line) == []
  {
  }

  lemma TurnThenRest(s: Text, line: int, t: Turn)
    requires s != [] && t == NextTurn(s, line) && t.used <= |s|
    ensures Tokens(s, line) == t.out + Tokens(s[t.used..], t.line)
  {
  }

  lemma WellFormedTail(ls: seq<Lexeme>)
    requires WellFormed(ls) && ls != []
    ensures WellFormed(ls[1..])
  {
    assert forall i :: 0 <= i < |ls[1..]| ==> ls[1..][i] == ls[i + 1];
  }

  /** The scanner reads a well-formed text back exactly. */
  lemma {:induction false} TokensOfRendered(before: Text, ls: seq<Lexeme>)
    requires WellFormed(ls)
    ensures Tokens(RenderAll(ls), 1 + Newlines(before)) == TokensOf(before, ls)
    decreases |ls|
  {
    hide Tokens, Newlines, LexemeTokens, Render;
    if ls == [] {
      NoTokens(1 + Newlines(before));
    } else {
      RenderedHead(ls);
      ReadLexeme(ls[0], RenderAll(ls[1..]), 1 + Newlines(before));
      NewlinesConcat(before, Render(ls[0]));
      WellFormedTail(ls);
      TokensOfRendered(before + Render(ls[0]), ls[1..]);
    }
  }
}
