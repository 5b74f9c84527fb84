/** The serializer and the scanner meet. */
module Canonical {
  // Canonical JSON is injective on normalized values: printer against reader.

  import opened Order
  import opened Chars
  import opened Encoding
  import opened Json
  import opened Scan
  import opened Lexemes

  // ------------------------------------------------- printing as lexemes

  /** The lexemes of a value, members in the order given. */
  function LexemesOf(v: Json): seq<Lexeme>
    decreases v
  {
    match v
    case Null => [Word(T("null"))]
    case Bool(b) => [Word(if b then T("true") else T("false"))]
    case Int(n) => [Word(IntText(n))]
    case Str(s) => [Literal(Escape(s))]
    case Arr(items) =>
      [Punct(LBRACKET)] + Join(seq(|items|, i requires 0 <= i < |items| => LexemesOf(items[i])), [Punct(COMMA)])
      + [Punct(RBRACKET)]
    case Obj(ms) =>
      [Punct(LBRACE)]
      + Join(seq(|ms|, i requires 0 <= i < |ms| =>
               [Literal(Escape(ms[i].key)), Punct(COLON)] + LexemesOf(ms[i].value)), [Punct(COMMA)])
      + [Punct(RBRACE)]
    case Float => []
    case Unsupported => []
  }

  function ItemLexemes(items: seq<Json>): seq<seq<Lexeme>> {
    seq(|items|, i requires 0 <= i < |items| => LexemesOf(items[i]))
  }

  function MemberLexeme(m: Member): seq<Lexeme> {
    [Literal(Escape(m.key)), Punct(COLON)] + LexemesOf(m.value)
  }

  function MemberLexemes(ms: seq<Member>): seq<seq<Lexeme>> {
    seq(|ms|, i requires 0 <= i < |ms| => MemberLexeme(ms[i]))
  }

  lemma ObjectLexemes(ms: seq<Member>)
    ensures LexemesOf(Obj(ms)) == [Punct(LBRACE)] + Join(MemberLexemes(ms), [Punct(COMMA)]) + [Punct(RBRACE)]
  {
    assert MemberLexemes(ms) == seq(|ms|, i requires 0 <= i < |ms| =>
      [Literal(Escape(ms[i].key)), Punct(COLON)] + LexemesOf(ms[i].value));
  }

  lemma RenderOne(l: Lexeme)
    ensures RenderAll([l]) == Render(l)
  {
    assert [l][1..] == [];
    assert RenderAll([l]) == Render(l) + RenderAll([]);
  }

  function Rendered(parts: seq<seq<Lexeme>>): seq<Text> {
    seq(|parts|, i requires 0 <= i < |parts| => RenderAll(parts[i]))
  }

  lemma {:induction false} RenderJoin(parts: seq<seq<Lexeme>>)
    ensures RenderAll(Join(parts, [Punct(COMMA)])) == Join(Rendered(parts), [COMMA])
  {
    hide RenderAll;
    if parts == [] {
      RenderNothing();
    } else if |parts| > 1 {
      RenderJoin(parts[1..]);
      RenderOne(Punct(COMMA));
      assert Rendered(parts)[1..] == Rendered(parts[1..]);
      RenderConcat(parts[0] + [Punct(COMMA)], Join(parts[1..], [Punct(COMMA)]));
      RenderConcat(parts[0], [Punct(COMMA)]);
    }
  }

  lemma RenderNothing()
    ensures RenderAll([]) == []
  {
  }

  lemma RenderBracketed(open: nat, parts: seq<seq<Lexeme>>, close: nat)
    ensures RenderAll([Punct(open)] + Join(parts, [Punct(COMMA)]) + [Punct(close)])
         == [open] + Join(Rendered(parts), [COMMA]) + [close]
  {
    hide RenderAll, Join;
    RenderJoin(parts);
    RenderOne(Punct(open));
    RenderOne(Punct(close));
    RenderConcat([Punct(open)], Join(parts, [Punct(COMMA)]));
    RenderConcat([Punct(open)] + Join(parts, [Punct(COMMA)]), [Punct(close)]);
  }

  lemma RenderMember(m: Member)
    ensures RenderAll(MemberLexeme(m)) == Quote(m.key) + [COLON] + RenderAll(LexemesOf(m.value))
  {
    hide RenderAll, LexemesOf;
    RenderOne(Literal(Escape(m.key)));
    RenderOne(Punct(COLON));
    RenderConcat([Literal(Escape(m.key))], [Punct(COLON)]);
    assert [Literal(Escape(m.key))] + [Punct(COLON)] == [Literal(Escape(m.key)), Punct(COLON)];
    RenderConcat([Literal(Escape(m.key)), Punct(COLON)], LexemesOf(m.value));
  }

  /** A canonical member printed. */
  function PrintMember(m: Member): Printed {
    Printed(m.key, RenderAll(LexemesOf(m.value)))
  }

  function PrintMembers(ms: seq<Member>): seq<Printed> {
    seq(|ms|, i requires 0 <= i < |ms| => PrintMember(ms[i]))
  }

  lemma {:induction false} InsertPrinted(m: Member, ms: seq<Member>)
    ensures Insert(PrintMember(m), PrintMembers(ms), PrintedKey) == PrintMembers(Insert(m, ms, MemberKey))
  {
    hide RenderAll, LexemesOf, KeyLe, Utf16Be;
    if ms != [] && !KeyLe(MemberKey(m), MemberKey(ms[0])) {
      InsertPrinted(m, ms[1..]);
      assert PrintMembers(ms)[1..] == PrintMembers(ms[1..]);
    }
  }

  /** Printing members and sorting them commute. */
  lemma {:induction false} SortPrinted(ms: seq<Member>)
    ensures Sort(PrintMembers(ms), PrintedKey) == PrintMembers(Sort(ms, MemberKey))
  {
    hide RenderAll, LexemesOf, Insert, PrintMember;
    if ms != [] {
      SortPrinted(ms[1..]);
      assert PrintMembers(ms)[1..] == PrintMembers(ms[1..]);
      InsertPrinted(ms[0], Sort(ms[1..], MemberKey));
    }
  }

  /** The serializer prints the lexemes of the canonical form. */
  lemma {:induction false} SerializeRenders(v: Json)
    ensures Serialize(v) == RenderAll(LexemesOf(Canon(v)))
    decreases v
  {
    hide RenderAll, Join, Sort, T;
    match v
    case Null => RenderOne(Word(T("null")));
    case Bool(b) => RenderOne(Word(if b then T("true") else T("false")));
    case Int(n) => RenderOne(Word(IntText(n)));
    case Str(s) => RenderOne(Literal(Escape(s)));
    case Arr(items) =>
      var c := Canon(v).items;
      forall i | 0 <= i < |items| ensures Serialize(items[i]) == RenderAll(LexemesOf(c[i])) {
        SerializeRenders(items[i]);
      }
      RenderBracketed(LBRACKET, ItemLexemes(c), RBRACKET);
      assert Rendered(ItemLexemes(c)) == seq(|items|, i requires 0 <= i < |items| => Serialize(items[i]));
    case Obj(ms) =>
      forall i | 0 <= i < |ms| { SerializeRenders(ms[i].value); }
      SerializeRendersObject(ms);
    case Float => RenderNothing();
    case Unsupported => RenderNothing();
  }

  lemma SerializeRendersObject(ms: seq<Member>)
    requires forall i :: 0 <= i < |ms| ==> Serialize(ms[i].value) == RenderAll(LexemesOf(Canon(ms[i].value)))
    ensures Serialize(Obj(ms)) == RenderAll(LexemesOf(Canon(Obj(ms))))
  {
    hide RenderAll, Join, Sort, Quote, Escape;
    var c := CanonMembers(ms);
    var sorted := Sort(c, MemberKey);
    assert Canon(Obj(ms)) == Obj(sorted);
    var printed := seq(|ms|, i requires 0 <= i < |ms| => Printed(ms[i].key, Serialize(ms[i].value)));
    assert printed == PrintMembers(c);
    SortPrinted(c);
    var p := Sort(printed, PrintedKey);
    forall i | 0 <= i < |sorted| ensures Rendered(MemberLexemes(sorted))[i] == PrintedText(p[i]) {
      RenderMember(sorted[i]);
    }
    assert Rendered(MemberLexemes(sorted)) == seq(|p|, i requires 0 <= i < |p| => PrintedText(p[i]));
    RenderBracketed(LBRACE, MemberLexemes(sorted), RBRACE);
    ObjectLexemes(sorted);
  }

  // ------------------------------------------------- the text is well formed

  lemma {:induction false} EscapeClosed(s: Text)
    ensures Closed(Escape(s))
  {
    if s != [] {
      EscapeClosed(s[1..]);
      ClosedAfterEscape(s[0], Escape(s[1..]));
    }
  }

  lemma ClosedAfterEscape(c: nat, rest: Text)
    requires Closed(rest)
    ensures Closed(EscapeChar(c) + rest)
  {
    var e := EscapeChar(c);
    var s := e + rest;
    if |e| == 1 {
      assert s[1..] == rest;
    } else if |e| == 2 {
      assert s[2..] == rest;
    } else {
      assert s[2..] == [48, 48, HexDigit(c / 16), HexDigit(c % 16)] + rest;
      PlainPrefixClosed([48, 48, HexDigit(c / 16), HexDigit(c % 16)], rest);
    }
  }

  lemma {:induction false} PlainPrefixClosed(p: Text, rest: Text)
    requires Closed(rest) && forall i :: 0 <= i < |p| ==> 48 <= p[i] && p[i] != QUOTE && p[i] != BACKSLASH
    ensures Closed(p + rest)
  {
    if p == [] {
      assert p + rest == rest;
    } else {
      assert (p + rest)[1..] == p[1..] + rest;
      PlainPrefixClosed(p[1..], rest);
    }
  }

  /** A lexeme the serializer can print. */
  ghost predicate Printable(l: Lexeme) {
    match l
    case Literal(body) => exists s :: body == Escape(s)
    case Space(_) => false
    case _ => true
  }

  ghost predicate Clean(ls: seq<Lexeme>) {
    WellFormed(ls) && forall i :: 0 <= i < |ls| ==> Printable(ls[i])
  }

  lemma CleanConcat(a: seq<Lexeme>, b: seq<Lexeme>)
    requires Clean(a) && Clean(b)
    requires a == [] || b == [] || !a[|a| - 1].Word? || !b[0].Word?
    ensures Clean(a + b)
  {
    hide Good, Printable;
    var c := a + b;
    forall i | 0 <= i < |c| - 1 ensures !(c[i].Word? && c[i + 1].Word?) {
      if i + 1 < |a| {
        assert c[i] == a[i] && c[i + 1] == a[i + 1];
      } else if i >= |a| {
        assert c[i] == b[i - |a|] && c[i + 1] == b[i - |a| + 1];
      }
    }
  }

  lemma CleanPunct(c: nat)
    requires IsPunct(c)
    ensures Clean([Punct(c)])
  {
    hide Good;
    GoodByScanner(Punct(c));
  }

  lemma {:induction false} CleanJoin(parts: seq<seq<Lexeme>>)
    requires forall i :: 0 <= i < |parts| ==> Clean(parts[i])
    ensures Clean(Join(parts, [Punct(COMMA)]))
  {
    hide Clean;
    if parts == [] {
      assert Clean([]) by { NothingClean(); }
    } else if |parts| > 1 {
      CleanJoin(parts[1..]);
      CleanPunct(COMMA);
      LastOfConcat(parts[0], Punct(COMMA));
      CleanConcat(parts[0], [Punct(COMMA)]);
      CleanConcat(parts[0] + [Punct(COMMA)], Join(parts[1..], [Punct(COMMA)]));
    }
  }

  lemma NothingClean()
    ensures Clean([])
  {
  }

  lemma LastOfConcat(a: seq<Lexeme>, l: Lexeme)
    ensures (a + [l])[|a + [l]| - 1] == l
  {
  }

  lemma CleanBracketed(open: nat, parts: seq<seq<Lexeme>>, close: nat)
    requires IsPunct(open) && IsPunct(close)
    requires forall i :: 0 <= i < |parts| ==> Clean(parts[i])
    ensures Clean([Punct(open)] + Join(parts, [Punct(COMMA)]) + [Punct(close)])
  {
    hide Join, Clean;
    CleanJoin(parts);
    CleanPunct(open);
    CleanPunct(close);
    CleanConcat([Punct(open)], Join(parts, [Punct(COMMA)]));
    CleanConcat([Punct(open)] + Join(parts, [Punct(COMMA)]), [Punct(close)]);
  }

  lemma IntWordGood(n: int)
    ensures Good(Word(IntText(n)))
  {
    hide Good;
    GoodByScanner(Word(IntText(n)));
    var t := IntText(n);
    assert forall i :: 0 <= i < |t| ==> t[i] == 45 || t[i] in Digits(if n < 0 then -n else n);
  }

  lemma CleanOne(l: Lexeme)
    requires Good(l) && Printable(l)
    ensures Clean([l])
  {
    hide Good, Printable;
  }

  lemma CleanLiteral(s: Text)
    ensures Clean([Literal(Escape(s))])
  {
    hide Clean;
    EscapeClosed(s);
    CleanOne(Literal(Escape(s)));
  }

  lemma CleanWord(s: string)
    requires s == "null" || s == "true" || s == "false"
    ensures Clean([Word(T(s))])
  {
    hide Clean;
    GoodByScanner(Word(T(s)));
    CleanOne(Word(T(s)));
  }

  lemma {:induction false} LexemesClean(v: Json)
    ensures Clean(LexemesOf(v))
    decreases v
  {
    hide Join, Closed, Clean, T;
    match v
    case Null => CleanWord("null");
    case Bool(b) => CleanWord(if b then "true" else "false");
    case Int(n) =>
      IntWordGood(n);
      CleanOne(Word(IntText(n)));
    case Str(s) => CleanLiteral(s);
    case Arr(items) =>
      forall i | 0 <= i < |items| { LexemesClean(items[i]); }
      CleanBracketed(LBRACKET, ItemLexemes(items), RBRACKET);
    case Obj(ms) =>
      forall i | 0 <= i < |ms| ensures Clean(MemberLexeme(ms[i])) {
        CleanLiteral(ms[i].key);
        CleanPunct(COLON);
        CleanConcat([Literal(Escape(ms[i].key))], [Punct(COLON)]);
        assert [Literal(Escape(ms[i].key))] + [Punct(COLON)] == [Literal(Escape(ms[i].key)), Punct(COLON)];
        LexemesClean(ms[i].value);
        CleanConcat([Literal(Escape(ms[i].key)), Punct(COLON)], LexemesOf(ms[i].value));
      }
      CleanBracketed(LBRACE, MemberLexemes(ms), RBRACE);
      ObjectLexemes(ms);
    case _ => NothingClean();
  }

  // ------------------------------------------------- reading back

  /** Decoding undoes escaping. */
  lemma {:induction false} DecodeEscape(s: Text)
    ensures DecodeBody(Escape(s)) == Some(s)
  {
    hide DecodeBody, EscapeChar;
    if s == [] {
      DecodeNothing();
    } else {
      DecodeEscape(s[1..]);
      DecodeEscapeChar(s[0], Escape(s[1..]));
      assert s == [s[0]] + s[1..];
    }
  }

  lemma DecodeNothing()
    ensures DecodeBody([]) == Some([])
  {
  }

  lemma HexDigitValue(d: nat)
    requires d < 16
    ensures HexValue(HexDigit(d)) == Some(d)
  {
  }

  lemma DecodeEscapeChar(c: nat, rest: Text)
    ensures DecodeBody(EscapeChar(c) + rest) == Prepend(c, DecodeBody(rest))
  {
    var e := EscapeChar(c);
    var s := e + rest;
    if |e| == 1 {
      assert s[1..] == rest;
    } else if |e| == 2 {
      assert s[2..] == rest;
    } else {
      DecodeUnicodeEscape(c, rest);
    }
  }

  lemma DecodeUnicodeEscape(c: nat, rest: Text)
    requires c < 32
    ensures DecodeBody([BACKSLASH, 117, 48, 48, HexDigit(c / 16), HexDigit(c % 16)] + rest)
         == Prepend(c, DecodeBody(rest))
  {
    var s := [BACKSLASH, 117, 48, 48, HexDigit(c / 16), HexDigit(c % 16)] + rest;
    HexDigitValue(0);
    HexDigitValue(c / 16);
    HexDigitValue(c % 16);
    assert s[6..] == rest;
    var h := s[2..];
    assert h[0] == 48 && h[1] == 48 && h[2] == HexDigit(c / 16) && h[3] == HexDigit(c % 16);
    assert Hex4(h) == Some(c);
  }

  function LineOneTokens(ls: seq<Lexeme>): seq<Token> {
    if ls == [] then [] else LexemeTokens(ls[0], 1) + LineOneTokens(ls[1..])
  }

  lemma GoodLexemeOneLine(l: Lexeme)
    requires Good(l) && Printable(l)
    ensures Newlines(Render(l)) == 0
  {
    hide Good;
    GoodByScanner(l);
    match l
    case Punct(_) =>
    case Literal(body) => LiteralNewlines(body);
    case Word(text) => WordNewlines(text);
  }

  lemma {:induction false} CleanTokens(before: Text, ls: seq<Lexeme>)
    requires Clean(ls) && Newlines(before) == 0
    ensures TokensOf(before, ls) == LineOneTokens(ls)
    decreases |ls|
  {
    hide LexemeTokens, Newlines, Render;
    if ls != [] {
      GoodLexemeOneLine(ls[0]);
      NewlinesConcat(before, Render(ls[0]));
      CleanTail(ls);
      CleanTokens(before + Render(ls[0]), ls[1..]);
    }
  }

  lemma CleanTail(ls: seq<Lexeme>)
    requires Clean(ls) && ls != []
    ensures Clean(ls[1..])
  {
    hide Good, Printable;
    WellFormedTail(ls);
  }

  lemma OneTokenDecides(k: Lexeme, l: Lexeme, x: seq<Token>, y: seq<Token>)
    requires Printable(k) && Printable(l)
    requires LexemeTokens(k, 1) + x == LexemeTokens(l, 1) + y
    ensures k == l && x == y
  {
    hide DecodeBody;
    var s, t := LexemeTokens(k, 1) + x, LexemeTokens(l, 1) + y;
    assert s[0] == t[0] && s[1..] == x && t[1..] == y;
    if k.Literal? {
      var a :| k.body == Escape(a);
      var b :| l.body == Escape(b);
      DecodeEscape(a);
      DecodeEscape(b);
    }
  }

  /** Scanner tokens determine printed lexemes. */
  lemma {:induction false} TokensDecideLexemes(a: seq<Lexeme>, b: seq<Lexeme>)
    requires Clean(a) && Clean(b) && LineOneTokens(a) == LineOneTokens(b)
    ensures a == b
  {
    hide LexemeTokens, WellFormed;
    if a == [] || b == [] {
      NoTokensNoLexemes(a);
      NoTokensNoLexemes(b);
    } else {
      OneTokenDecides(a[0], b[0], LineOneTokens(a[1..]), LineOneTokens(b[1..]));
      CleanTail(a);
      CleanTail(b);
      TokensDecideLexemes(a[1..], b[1..]);
      assert a == [a[0]] + a[1..] && b == [b[0]] + b[1..];
    }
  }

  lemma NoTokensNoLexemes(a: seq<Lexeme>)
    requires Clean(a)
    ensures LineOneTokens(a) == [] <==> a == []
  {
    if a != [] {
      assert Printable(a[0]);
    }
  }

  // ------------------------------------------------- lexemes determine values

  lemma FirstLexeme(v: Json)
    requires Plain(v)
    ensures LexemesOf(v) != []
    ensures LexemesOf(v)[0] != Punct(RBRACKET) && LexemesOf(v)[0] != Punct(RBRACE) && LexemesOf(v)[0] != Punct(COMMA)
  {
    hide Join;
  }

  lemma ScalarWords(a: Json, b: Json)
    requires Plain(a) && Plain(b) && LexemesOf(a) == LexemesOf(b)
    requires !a.Arr? && !a.Obj? && !b.Arr? && !b.Obj?
    ensures a == b
  {
    assert LexemesOf(a)[0] == LexemesOf(b)[0];
    match (a, b)
    case (Int(m), Int(n)) => IntTextInjective(m, n);
    case (Str(s), Str(t)) => DecodeEscape(s); DecodeEscape(t);
    case (Int(m), _) => IntIsNoWord(m);
    case (_, Int(n)) => IntIsNoWord(n);
    case _ => WordLetters();
  }

  lemma WordLetters()
    ensures T("null")[0] == 110 && T("true")[0] == 116 && T("false")[0] == 102
  {
  }

  lemma IntIsNoWord(n: int)
    ensures IntText(n) != T("null") && IntText(n) != T("true") && IntText(n) != T("false")
  {
    WordLetters();
    if n >= 0 {
      assert IntText(n)[0] in Digits(n);
    }
  }

  /** The lexemes of a value are a prefix code. */
  lemma {:induction false} LexemesDecideValue(a: Json, b: Json, x: seq<Lexeme>, y: seq<Lexeme>)
    requires Plain(a) && Plain(b) && LexemesOf(a) + x == LexemesOf(b) + y
    ensures a == b && x == y
    decreases a, 1, 0
  {
    hide Join, Escape, IntText;
    var s, t := LexemesOf(a) + x, LexemesOf(b) + y;
    FirstLexeme(a);
    FirstLexeme(b);
    assert LexemesOf(a)[0] == s[0] == t[0] == LexemesOf(b)[0];
    match a
    case Arr(items) =>
      assert b.Arr?;
      var i, j := Join(ItemLexemes(items), [Punct(COMMA)]), Join(ItemLexemes(b.items), [Punct(COMMA)]);
      assert s[1..] == i + ([Punct(RBRACKET)] + x) && t[1..] == j + ([Punct(RBRACKET)] + y);
      ItemsDecideValues(items, b.items, x, y);
    case Obj(ms) =>
      assert b.Obj?;
      ObjectLexemes(ms);
      ObjectLexemes(b.members);
      var i, j := Join(MemberLexemes(ms), [Punct(COMMA)]), Join(MemberLexemes(b.members), [Punct(COMMA)]);
      assert s[1..] == i + ([Punct(RBRACE)] + x) && t[1..] == j + ([Punct(RBRACE)] + y);
      MembersDecideValues(ms, b.members, x, y);
    case _ =>
      assert s[1..] == x && t[1..] == y;
      ScalarWords(a, b);
  }

  /** The tail of a bracketed list after its first element. */
  function Tail(parts: seq<seq<Lexeme>>, close: nat, x: seq<Lexeme>): seq<Lexeme> {
    if |parts| <= 1 then [Punct(close)] + x
    else [Punct(COMMA)] + (Join(parts[1..], [Punct(COMMA)]) + ([Punct(close)] + x))
  }

  lemma JoinHead(parts: seq<seq<Lexeme>>, close: nat, x: seq<Lexeme>)
    requires parts != []
    ensures Join(parts, [Punct(COMMA)]) + ([Punct(close)] + x) == parts[0] + Tail(parts, close, x)
  {
  }

  /** A list is empty exactly when its bracket closes at once. */
  lemma EmptyList(parts: seq<seq<Lexeme>>, close: nat, x: seq<Lexeme>)
    requires forall i :: 0 <= i < |parts| ==> parts[i] != [] && parts[i][0] != Punct(close)
    ensures var u := Join(parts, [Punct(COMMA)]) + ([Punct(close)] + x);
            && (parts == [] <==> u[0] == Punct(close))
            && (parts == [] ==> u[1..] == x)
  {
    hide Join, Tail;
    var u := Join(parts, [Punct(COMMA)]) + ([Punct(close)] + x);
    if parts == [] {
      EmptyJoin();
      assert u == [Punct(close)] + x;
    } else {
      JoinHead(parts, close, x);
      assert u == parts[0] + Tail(parts, close, x);
      assert u[0] == parts[0][0];
    }
  }

  lemma EmptyJoin()
    ensures Join<Lexeme>([], [Punct(COMMA)]) == []
  {
  }

  lemma {:induction false} ItemsDecideValues(s: seq<Json>, t: seq<Json>, x: seq<Lexeme>, y: seq<Lexeme>)
    requires (forall i :: 0 <= i < |s| ==> Plain(s[i])) && (forall i :: 0 <= i < |t| ==> Plain(t[i]))
    requires Join(ItemLexemes(s), [Punct(COMMA)]) + ([Punct(RBRACKET)] + x)
          == Join(ItemLexemes(t), [Punct(COMMA)]) + ([Punct(RBRACKET)] + y)
    ensures s == t && x == y
    decreases s, 0, |s|
  {
    hide LexemesOf;
    var p, q := ItemLexemes(s), ItemLexemes(t);
    var u, v := Join(p, [Punct(COMMA)]) + ([Punct(RBRACKET)] + x), Join(q, [Punct(COMMA)]) + ([Punct(RBRACKET)] + y);
    forall i | 0 <= i < |s| { FirstLexeme(s[i]); }
    forall i | 0 <= i < |t| { FirstLexeme(t[i]); }
    EmptyList(p, RBRACKET, x);
    EmptyList(q, RBRACKET, y);
    if s != [] {
      JoinHead(p, RBRACKET, x);
      JoinHead(q, RBRACKET, y);
      LexemesDecideValue(s[0], t[0], Tail(p, RBRACKET, x), Tail(q, RBRACKET, y));
      assert Tail(p, RBRACKET, x)[0] == Tail(q, RBRACKET, y)[0];
      assert Tail(p, RBRACKET, x)[1..] == Tail(q, RBRACKET, y)[1..];
      if |s| > 1 {
        assert p[1..] == ItemLexemes(s[1..]) && q[1..] == ItemLexemes(t[1..]);
        ItemsDecideValues(s[1..], t[1..], x, y);
      }
      assert s == [s[0]] + s[1..] && t == [t[0]] + t[1..];
    }
  }

  lemma {:induction false} MembersDecideValues(s: seq<Member>, t: seq<Member>, x: seq<Lexeme>, y: seq<Lexeme>)
    requires (forall i :: 0 <= i < |s| ==> Plain(s[i].value)) && (forall i :: 0 <= i < |t| ==> Plain(t[i].value))
    requires Join(MemberLexemes(s), [Punct(COMMA)]) + ([Punct(RBRACE)] + x)
          == Join(MemberLexemes(t), [Punct(COMMA)]) + ([Punct(RBRACE)] + y)
    ensures s == t && x == y
    decreases s, 0, |s|
  {
    hide LexemesOf, Escape, MemberLexeme;
    var p, q := MemberLexemes(s), MemberLexemes(t);
    var u, v := Join(p, [Punct(COMMA)]) + ([Punct(RBRACE)] + x), Join(q, [Punct(COMMA)]) + ([Punct(RBRACE)] + y);
    forall i | 0 <= i < |s| { MemberStart(s[i]); }
    forall i | 0 <= i < |t| { MemberStart(t[i]); }
    EmptyList(p, RBRACE, x);
    EmptyList(q, RBRACE, y);
    if s != [] {
      JoinHead(p, RBRACE, x);
      JoinHead(q, RBRACE, y);
      MemberDecides(s[0], t[0], Tail(p, RBRACE, x), Tail(q, RBRACE, y));
      LexemesDecideValue(s[0].value, t[0].value, Tail(p, RBRACE, x), Tail(q, RBRACE, y));
      assert Tail(p, RBRACE, x)[0] == Tail(q, RBRACE, y)[0];
      assert Tail(p, RBRACE, x)[1..] == Tail(q, RBRACE, y)[1..];
      if |s| > 1 {
        assert p[1..] == MemberLexemes(s[1..]) && q[1..] == MemberLexemes(t[1..]);
        MembersDecideValues(s[1..], t[1..], x, y);
      }
      assert s == [s[0]] + s[1..] && t == [t[0]] + t[1..];
    }
  }

  lemma MemberStart(m: Member)
    ensures |MemberLexeme(m)| > 0 && MemberLexeme(m)[0].Literal?
  {
  }

  lemma MemberDecides(m: Member, n: Member, x: seq<Lexeme>, y: seq<Lexeme>)
    requires MemberLexeme(m) + x == MemberLexeme(n) + y
    ensures m.key == n.key && LexemesOf(m.value) + x == LexemesOf(n.value) + y
  {
    hide LexemesOf, Escape;
    var s, t := MemberLexeme(m) + x, MemberLexeme(n) + y;
    assert s[0] == Literal(Escape(m.key)) && t[0] == Literal(Escape(n.key));
    DecodeEscape(m.key);
    DecodeEscape(n.key);
    assert s[2..] == LexemesOf(m.value) + x && t[2..] == LexemesOf(n.value) + y;
  }

  // ------------------------------------------------- theorems

  lemma {:induction false} CanonPlain(v: Json)
    requires Plain(v) && AllEncodable(v)
    ensures Plain(Canon(v))
    decreases v
  {
    hide MemberKey;
    match v
    case Arr(items) =>
      forall i | 0 <= i < |items| { CanonPlain(items[i]); }
    case Obj(ms) =>
      var c := CanonMembers(ms);
      forall i | 0 <= i < |ms| ensures Plain(c[i].value) { CanonPlain(ms[i].value); }
      CanonMembersDistinct(ms);
      CanonObjectPlain(c);
    case _ =>
  }

  lemma CanonObjectPlain(c: seq<Member>)
    requires DistinctKeys(c, MemberKey) && forall i :: 0 <= i < |c| ==> Plain(c[i].value)
    ensures Plain(Obj(Sort(c, MemberKey)))
  {
    hide Sort;
    var s := Sort(c, MemberKey);
    SortPermutes(c, MemberKey);
    PermutedDistinctKeys(c, s, MemberKey);
    forall i | 0 <= i < |s| ensures Plain(s[i].value) {
      assert s[i] in s;
      SortMembers(c, MemberKey, s[i]);
    }
    forall i, j | 0 <= i < j < |s| ensures s[i].key != s[j].key {
      assert MemberKey(s[i]) != MemberKey(s[j]);
    }
  }

  /** What the scanner sees in a serialized value: the tokens of its canonical
      form, all on line 1. */
  lemma SerializedTokens(v: Json)
    ensures Tokens(Serialize(v), 1) == LineOneTokens(LexemesOf(Canon(v)))
  {
    hide Tokens, Serialize, LexemesOf, RenderAll, TokensOf, LineOneTokens, Canon, WellFormed;
    var ls := LexemesOf(Canon(v));
    SerializeRenders(v);
    LexemesClean(Canon(v));
    assert Newlines([]) == 0;
    TokensOfRendered([], ls);
    CleanTokens([], ls);
  }

  /** The scanner's tokens of two serialized values agree exactly when the values
      are equal, whatever the order of their mappings. */
  lemma TokensDecideSame(a: Json, b: Json)
    requires Plain(a) && Plain(b) && AllEncodable(a) && AllEncodable(b)
    ensures Tokens(Serialize(a), 1) == Tokens(Serialize(b), 1) <==> Same(a, b)
  {
    hide Tokens, Serialize, LexemesOf, LineOneTokens, Canon, Plain, Same, AllEncodable;
    SerializedTokens(a);
    SerializedTokens(b);
    CanonDecidesSame(a, b);
    var s, t := LexemesOf(Canon(a)), LexemesOf(Canon(b));
    if LineOneTokens(s) == LineOneTokens(t) {
      LexemesClean(Canon(a));
      LexemesClean(Canon(b));
      TokensDecideLexemes(s, t);
      CanonPlain(a);
      CanonPlain(b);
      LexemesDecideValue(Canon(a), Canon(b), [], []);
    }
  }

  lemma SameThenSerialize(a: Json, b: Json)
    requires Plain(a) && Plain(b) && AllEncodable(a) && AllEncodable(b) && Same(a, b)
    ensures Serialize(a) == Serialize(b)
  {
    hide Serialize, LexemesOf, RenderAll, Canon, Plain, Same, AllEncodable;
    CanonDecidesSame(a, b);
    SerializeRenders(a);
    SerializeRenders(b);
  }

  lemma {:induction false} JoinEncodable(parts: seq<Text>)
    requires forall i :: 0 <= i < |parts| ==> Encodable(parts[i])
    ensures Encodable(Join(parts, [COMMA]))
  {
    if |parts| > 1 {
      JoinEncodable(parts[1..]);
    }
  }

  lemma {:induction false} QuoteEncodable(s: Text)
    requires Encodable(s)
    ensures Encodable(Escape(s)) && Encodable(Quote(s))
  {
    if s != [] {
      QuoteEncodable(s[1..]);
      assert Encodable(EscapeChar(s[0]));
    }
  }

  lemma WordsEncodable(n: int)
    ensures Encodable(IntText(n)) && Encodable(T("null")) && Encodable(T("true")) && Encodable(T("false"))
  {
    assert forall i :: 0 <= i < |IntText(n)| ==>
        IntText(n)[i] == 45 || IntText(n)[i] in (if n < 0 then Digits(-n) else Digits(n));
  }

  /** Nothing encodable serializes to a surrogate. */
  lemma {:induction false} SerializeEncodable(v: Json)
    requires AllEncodable(v)
    ensures Encodable(Serialize(v))
    decreases v
  {
    hide Join, Sort, Quote, IntText, T;
    match v
    case Null => WordsEncodable(0);
    case Bool(_) => WordsEncodable(0);
    case Int(n) => WordsEncodable(n);
    case Str(s) => QuoteEncodable(s);
    case Arr(items) =>
      forall i | 0 <= i < |items| { SerializeEncodable(items[i]); }
      JoinEncodable(seq(|items|, i requires 0 <= i < |items| => Serialize(items[i])));
    case Obj(ms) =>
      var printed := seq(|ms|, i requires 0 <= i < |ms| => Printed(ms[i].key, Serialize(ms[i].value)));
      var sorted := Sort(printed, PrintedKey);
      forall i | 0 <= i < |ms| { SerializeEncodable(ms[i].value); }
      forall i | 0 <= i < |sorted| ensures Encodable(PrintedText(sorted[i])) {
        assert sorted[i] in sorted;
        SortMembers(printed, PrintedKey, sorted[i]);
        QuoteEncodable(sorted[i].key);
      }
      JoinEncodable(seq(|sorted|, i requires 0 <= i < |sorted| => PrintedText(sorted[i])));
    case _ =>
  }

  /** Canonical bytes are equal exactly when the normalized values are. */
  lemma EncodeDecidesSame(nfc: Text -> Text, a: Json, b: Json)
    requires Encode(nfc, a).Some? && Encode(nfc, b).Some?
    ensures Encode(nfc, a) == Encode(nfc, b) <==> Same(Normalize(nfc, a).value, Normalize(nfc, b).value)
  {
    hide Normalize, Serialize, Tokens, Same, AllEncodable, Plain, Utf8;
    var m, n := Normalize(nfc, a).value, Normalize(nfc, b).value;
    NormalizePlain(nfc, a);
    NormalizePlain(nfc, b);
    if Same(m, n) {
      SameThenSerialize(m, n);
    }
    if Utf8(Serialize(m)) == Utf8(Serialize(n)) {
      SerializeEncodable(m);
      SerializeEncodable(n);
      Utf8Injective(Serialize(m), Serialize(n));
      TokensDecideSame(m, n);
    }
  }
}
