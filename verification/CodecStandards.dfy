/** The codecs against the standards they follow. */
module CodecStandards {
  // UTF-8 as section 3 of RFC 3629 tabulates it, UTF-16 as section 2.2 of RFC 2781, string
  // literals as section 7 of RFC 8259, and canonical text as section 3.2 of RFC 8785.

  import opened Order
  import opened Chars
  import opened Encoding
  import opened Json
  import opened Scan

  // ------------------------------------------------- numbers and characters

  /** A negative number is a minus sign and its amount. */
  lemma NegativeText(n: int)
    requires n > 0
    ensures IntText(-n) == T("-") + IntText(n)
  {
  }

  predicate Span(c: nat, low: nat, high: nat) { low <= c <= high }

  /** Scalar values are all code points but the 2048 surrogates. */
  lemma ScalarExactly(c: nat)
    ensures Scalar(c) <==> c <= 0x10FFFF && c / 0x800 != 27
  {
  }

  /** One to four bytes, each with its marker bits, hold the bits of the code point. */
  lemma Utf8Exactly(c: nat)
    requires Scalar(c)
    ensures var b := CharUtf8(c);
            if c <= 0x7F then b == [c]
            else if c <= 0x7FF then
              && |b| == 2 && Span(b[0], 0xC0, 0xDF) && Span(b[1], 0x80, 0xBF)
              && c == (b[0] - 0xC0) * 0x40 + (b[1] - 0x80)
            else if c <= 0xFFFF then
              && |b| == 3 && Span(b[0], 0xE0, 0xEF) && Span(b[1], 0x80, 0xBF) && Span(b[2], 0x80, 0xBF)
              && c == (b[0] - 0xE0) * 0x1000 + (b[1] - 0x80) * 0x40 + (b[2] - 0x80)
            else
              && |b| == 4 && Span(b[0], 0xF0, 0xF7) && Span(b[1], 0x80, 0xBF) && Span(b[2], 0x80, 0xBF)
              && Span(b[3], 0x80, 0xBF)
              && c == (b[0] - 0xF0) * 0x40000 + (b[1] - 0x80) * 0x1000 + (b[2] - 0x80) * 0x40 + (b[3] - 0x80)
  {
  }

  /** A code point beyond the first plane is a high and a low surrogate, any other scalar value one unit. */
  lemma Utf16Exactly(c: nat)
    requires Scalar(c)
    ensures var u := CharUnits(c);
            if c <= 0xFFFF then u == [c]
            else
              && |u| == 2 && Span(u[0], 0xD800, 0xDBFF) && Span(u[1], 0xDC00, 0xDFFF)
              && c == 0x10000 + (u[0] - 0xD800) * 0x400 + (u[1] - 0xDC00)
  {
  }

  // ------------------------------------------------- string literals

  /** One character of a literal as it is written. */
  datatype Piece = Itself(c: nat) | Short(letter: nat) | Hex(digits: Text)

  predicate Within(c: nat, low: char, high: char) { low as nat <= c <= high as nat }

  predicate HexChar(c: nat) { Within(c, '0', '9') || Within(c, 'a', 'f') || Within(c, 'A', 'F') }

  predicate GoodPiece(p: Piece) {
    match p
    case Itself(c) => c >= 0x20 && c != '\"' as nat && c != '\\' as nat
    case Short(letter) => letter in T("\"\\/bfnrt")
    case Hex(digits) => |digits| == 4 && forall i :: 0 <= i < 4 ==> HexChar(digits[i])
  }

  predicate GoodPieces(ps: seq<Piece>) { forall i :: 0 <= i < |ps| ==> GoodPiece(ps[i]) }

  function PieceText(p: Piece): Text {
    match p
    case Itself(c) => [c]
    case Short(letter) => T("\\") + [letter]
    case Hex(digits) => T("\\u") + digits
  }

  function Spelling(ps: seq<Piece>): Text { if ps == [] then [] else PieceText(ps[0]) + Spelling(ps[1..]) }

  function DigitOf(c: nat): nat {
    if Within(c, '0', '9') then c - '0' as nat
    else if Within(c, 'a', 'f') then c - 'a' as nat + 10
    else if Within(c, 'A', 'F') then c - 'A' as nat + 10
    else 0
  }

  function NumberOf(digits: Text): nat
    requires |digits| == 4
  {
    ((DigitOf(digits[0]) * 16 + DigitOf(digits[1])) * 16 + DigitOf(digits[2])) * 16 + DigitOf(digits[3])
  }

  /** Backspace, form feed, line feed, carriage return and tab have letters; the rest stand for themselves. */
  function ShortValue(letter: nat): nat {
    if letter == 'b' as nat then 8
    else if letter == 'f' as nat then 12
    else if letter == 'n' as nat then 10
    else if letter == 'r' as nat then 13
    else if letter == 't' as nat then 9
    else letter
  }

  predicate High(p: Piece) { p.Hex? && |p.digits| == 4 && Span(NumberOf(p.digits), 0xD800, 0xDBFF) }

  predicate Low(p: Piece) { p.Hex? && |p.digits| == 4 && Span(NumberOf(p.digits), 0xDC00, 0xDFFF) }

  /** What the pieces spell; an escaped pair of surrogates is one character. */
  function Spells(ps: seq<Piece>): Text {
    if ps == [] then []
    else if |ps| >= 2 && High(ps[0]) && Low(ps[1]) then
      [0x10000 + (NumberOf(ps[0].digits) - 0xD800) * 0x400 + (NumberOf(ps[1].digits) - 0xDC00)] + Spells(ps[2..])
    else
      [match ps[0]
       case Itself(c) => c
       case Short(letter) => ShortValue(letter)
       case Hex(digits) => if |digits| == 4 then NumberOf(digits) else 0] + Spells(ps[1..])
  }

  lemma EscapeLetters()
    ensures T("\"\\/bfnrt") == [34, 92, 47, 98, 102, 110, 114, 116]
    ensures T("\\") == [BACKSLASH] && T("\\u") == [BACKSLASH, 117]
  {
  }

  lemma HexValues(c: nat)
    ensures HexChar(c) <==> HexValue(c).Some?
    ensures HexChar(c) ==> HexValue(c) == Some(DigitOf(c))
  {
  }

  lemma HexNumber(digits: Text, rest: Text)
    requires GoodPiece(Hex(digits))
    ensures Hex4(digits + rest) == Some(NumberOf(digits))
  {
    HexValues(digits[0]);
    HexValues(digits[1]);
    HexValues(digits[2]);
    HexValues(digits[3]);
    var s := digits + rest;
    assert s[0] == digits[0] && s[1] == digits[1] && s[2] == digits[2] && s[3] == digits[3];
  }

  lemma SpellingStarts(ps: seq<Piece>)
    requires GoodPieces(ps) && ps != []
    ensures Spelling(ps) != []
    ensures ps[0].Hex? <==> |Spelling(ps)| >= 2 && Spelling(ps)[0] == BACKSLASH && Spelling(ps)[1] == 117
  {
    EscapeLetters();
  }

  lemma GoodRest(ps: seq<Piece>)
    requires GoodPieces(ps) && ps != []
    ensures GoodPiece(ps[0]) && GoodPieces(ps[1..])
  {
  }

  lemma SpellingOfHex(ps: seq<Piece>)
    requires GoodPieces(ps) && ps != [] && ps[0].Hex?
    ensures |Spelling(ps)| >= 6 && Spelling(ps)[0] == BACKSLASH && Spelling(ps)[1] == 117
    ensures Spelling(ps)[2..] == ps[0].digits + Spelling(ps[1..]) && Spelling(ps)[6..] == Spelling(ps[1..])
  {
    EscapeLetters();
  }

  lemma DecodeItself(c: nat, rest: Text)
    requires GoodPiece(Itself(c))
    ensures DecodeBody([c] + rest) == Prepend(c, DecodeBody(rest))
  {
    EscapeLetters();
    assert ([c] + rest)[1..] == rest;
  }

  lemma DecodeShort(letter: nat, rest: Text)
    requires GoodPiece(Short(letter))
    ensures DecodeBody(T("\\") + [letter] + rest) == Prepend(ShortValue(letter), DecodeBody(rest))
  {
    EscapeLetters();
    var s := T("\\") + [letter] + rest;
    assert s[0] == BACKSLASH && s[1] == letter && s[2..] == rest;
    assert SimpleEscape(letter) == Some(ShortValue(letter));
  }

  /** Decoding reads every well-formed literal as what its pieces spell. */
  lemma {:induction false} DecodeSpelled(ps: seq<Piece>)
    requires GoodPieces(ps)
    ensures DecodeBody(Spelling(ps)) == Some(Spells(ps))
    decreases |ps|
  {
    hide DecodeBody, NumberOf, Hex4, ShortValue, GoodPiece, T;
    if ps == [] {
      NothingSpelled();
    } else {
      GoodRest(ps);
      DecodeSpelled(ps[1..]);
      match ps[0] {
        case Itself(c) => DecodeItself(c, Spelling(ps[1..]));
        case Short(letter) => DecodeShort(letter, Spelling(ps[1..]));
        case Hex(digits) =>
          if |ps| >= 2 && High(ps[0]) && Low(ps[1]) {
            DecodeSpelled(ps[2..]);
            assert ps[1..][1..] == ps[2..];
            GoodRest(ps[1..]);
          }
          DecodeHex(ps);
      }
    }
  }

  lemma NothingSpelled()
    ensures DecodeBody([]) == Some([])
  {
  }

  lemma DecodeEscaped(s: Text, u: nat)
    requires |s| >= 6 && s[0] == BACKSLASH && s[1] == 117 && Hex4(s[2..]) == Some(u)
    ensures !(0xD800 <= u <= 0xDBFF && |s| >= 8 && s[6] == BACKSLASH && s[7] == 117) ==>
              DecodeBody(s) == Prepend(u, DecodeBody(s[6..]))
    ensures forall v ::
              0xD800 <= u <= 0xDBFF && |s| >= 12 && s[6] == BACKSLASH && s[7] == 117 && Hex4(s[8..]) == Some(v) ==>
              DecodeBody(s) == if 0xDC00 <= v <= 0xDFFF
                               then Prepend(0x10000 + (u - 0xD800) * 0x400 + (v - 0xDC00), DecodeBody(s[12..]))
                               else Prepend(u, DecodeBody(s[6..]))
  {
    hide Hex4;
  }

  lemma DecodeOneHex(ps: seq<Piece>)
    requires GoodPieces(ps) && ps != [] && ps[0].Hex? && |ps[0].digits| == 4 && (|ps| >= 2 ==> !ps[1].Hex?)
    ensures DecodeBody(Spelling(ps)) == Prepend(NumberOf(ps[0].digits), DecodeBody(Spelling(ps[1..])))
  {
    hide NumberOf, Hex4, DecodeBody, GoodPiece;
    var s, rest := Spelling(ps), Spelling(ps[1..]);
    GoodRest(ps);
    SpellingOfHex(ps);
    HexNumber(ps[0].digits, rest);
    DecodeEscaped(s, NumberOf(ps[0].digits));
    assert |rest| >= 1 ==> s[6] == s[6..][0] == rest[0];
    assert |rest| >= 2 ==> s[7] == s[6..][1] == rest[1];
    if |ps| >= 2 { SpellingStarts(ps[1..]); } else { assert ps[1..] == []; }
  }

  lemma DecodeTwoHex(ps: seq<Piece>)
    requires GoodPieces(ps) && |ps| >= 2 && ps[0].Hex? && ps[1].Hex? && |ps[0].digits| == 4 && |ps[1].digits| == 4
    ensures High(ps[0]) && Low(ps[1]) ==>
              DecodeBody(Spelling(ps)) ==
              Prepend(0x10000 + (NumberOf(ps[0].digits) - 0xD800) * 0x400 + (NumberOf(ps[1].digits) - 0xDC00),
                      DecodeBody(Spelling(ps[2..])))
    ensures !(High(ps[0]) && Low(ps[1])) ==>
              DecodeBody(Spelling(ps)) == Prepend(NumberOf(ps[0].digits), DecodeBody(Spelling(ps[1..])))
  {
    hide NumberOf, Hex4, DecodeBody, GoodPiece, Spelling;
    var s, rest := Spelling(ps), Spelling(ps[1..]);
    GoodRest(ps);
    GoodRest(ps[1..]);
    SpellingOfHex(ps);
    SpellingOfHex(ps[1..]);
    HexNumber(ps[0].digits, rest);
    HexNumber(ps[1].digits, Spelling(ps[1..][1..]));
    assert ps[1..][1..] == ps[2..];
    assert s[6] == s[6..][0] == rest[0] && s[7] == s[6..][1] == rest[1];
    assert s[8..] == s[6..][2..] && s[12..] == s[6..][6..];
    DecodeEscaped(s, NumberOf(ps[0].digits));
  }

  /** One escape, or a pair of them. */
  lemma DecodeHex(ps: seq<Piece>)
    requires GoodPieces(ps) && ps != [] && ps[0].Hex? && |ps[0].digits| == 4
    ensures |ps| >= 2 && High(ps[0]) && Low(ps[1]) ==>
              DecodeBody(Spelling(ps)) ==
              Prepend(0x10000 + (NumberOf(ps[0].digits) - 0xD800) * 0x400 + (NumberOf(ps[1].digits) - 0xDC00),
                      DecodeBody(Spelling(ps[2..])))
    ensures !(|ps| >= 2 && High(ps[0]) && Low(ps[1])) ==>
              DecodeBody(Spelling(ps)) == Prepend(NumberOf(ps[0].digits), DecodeBody(Spelling(ps[1..])))
  {
    hide NumberOf, Hex4, DecodeBody, Spelling;
    if |ps| >= 2 && ps[1].Hex? {
      GoodRest(ps);
      GoodRest(ps[1..]);
      DecodeTwoHex(ps);
    } else {
      DecodeOneHex(ps);
    }
  }

  lemma ItselfHead(s: Text)
    requires s != [] && s[0] != BACKSLASH && DecodeBody(s).Some?
    ensures GoodPiece(Itself(s[0])) && s == PieceText(Itself(s[0])) + s[1..] && DecodeBody(s[1..]).Some?
  {
  }

  lemma ShortHead(s: Text)
    requires |s| >= 2 && s[0] == BACKSLASH && s[1] != 117 && DecodeBody(s).Some?
    ensures GoodPiece(Short(s[1])) && s == PieceText(Short(s[1])) + s[2..] && DecodeBody(s[2..]).Some?
  {
    EscapeLetters();
    assert SimpleEscape(s[1]).Some?;
    assert s == [BACKSLASH] + [s[1]] + s[2..];
  }

  lemma HexInside(s: Text)
    requires |s| >= 2 && s[0] == BACKSLASH && s[1] == 117 && DecodeBody(s).Some?
    ensures Hex4(s[2..]).Some?
  {
    hide Hex4;
  }

  lemma HexPiece(s: Text)
    requires |s| >= 4 && forall i :: 0 <= i < 4 ==> HexChar(s[i])
    ensures GoodPiece(Hex(s[..4]))
  {
    hide HexChar;
  }

  lemma HexText(s: Text)
    requires |s| >= 6 && s[0] == BACKSLASH && s[1] == 117
    ensures s == PieceText(Hex(s[2..6])) + s[6..] && s[2..6] == s[2..][..4]
  {
    EscapeLetters();
    assert s == [BACKSLASH, 117] + s[2..6] + s[6..];
  }

  lemma LongHead(s: Text)
    requires |s| >= 2 && s[0] == BACKSLASH && s[1] == 117 && DecodeBody(s).Some?
    ensures |s| >= 6 && GoodPiece(Hex(s[2..6])) && s == PieceText(Hex(s[2..6])) + s[6..] && DecodeBody(s[6..]).Some?
  {
    hide Hex4, DecodeBody, HexChar, PieceText, GoodPiece;
    HexInside(s);
    FourHex(s[2..]);
    HexPiece(s[2..]);
    HexText(s);
    HexHead(s);
  }

  lemma Escaped(s: Text)
    requires s != [] && s[0] == BACKSLASH && DecodeBody(s).Some?
    ensures |s| >= 2
  {
  }

  /** The first piece of a decoded literal, and the rest, which is decoded as well. */
  lemma EscapeHead(s: Text) returns (p: Piece, rest: Text)
    requires s != [] && DecodeBody(s).Some?
    ensures GoodPiece(p) && s == PieceText(p) + rest && DecodeBody(rest).Some? && |rest| < |s|
  {
    hide DecodeBody, GoodPiece, PieceText;
    if s[0] != BACKSLASH {
      ItselfHead(s);
      p, rest := Itself(s[0]), s[1..];
    } else {
      Escaped(s);
      if s[1] != 117 {
        ShortHead(s);
        p, rest := Short(s[1]), s[2..];
      } else {
        LongHead(s);
        p, rest := Hex(s[2..6]), s[6..];
      }
    }
  }

  lemma FourHex(s: Text)
    requires Hex4(s).Some?
    ensures |s| >= 4 && forall i :: 0 <= i < 4 ==> HexChar(s[i])
  {
    HexValues(s[0]);
    HexValues(s[1]);
    HexValues(s[2]);
    HexValues(s[3]);
  }

  lemma HexHead(s: Text)
    requires |s| >= 6 && s[0] == BACKSLASH && s[1] == 117 && Hex4(s[2..]).Some? && DecodeBody(s).Some?
    ensures DecodeBody(s[6..]).Some?
  {
    hide Hex4;
    var u := Hex4(s[2..]).value;
    if 0xD800 <= u <= 0xDBFF && |s| >= 8 && s[6] == BACKSLASH && s[7] == 117 {
      var t := s[6..];
      assert t[2..] == s[8..];
      FourHex(s[8..]);
      assert t[6..] == s[12..];
      if 0xDC00 <= Hex4(s[8..]).value <= 0xDFFF { NotHigh(t); }
    }
  }

  /** The second escape of a pair reads on its own as well. */
  lemma NotHigh(t: Text)
    requires |t| >= 6 && t[0] == BACKSLASH && t[1] == 117
    requires Hex4(t[2..]).Some? && 0xDC00 <= Hex4(t[2..]).value <= 0xDFFF
    ensures DecodeBody(t) == Prepend(Hex4(t[2..]).value, DecodeBody(t[6..]))
  {
    hide Hex4;
  }

  /** A literal that is decoded is spelled in well-formed pieces. */
  lemma {:induction false} DecodeOnlySpelled(s: Text) returns (ps: seq<Piece>)
    requires DecodeBody(s).Some?
    ensures GoodPieces(ps) && Spelling(ps) == s
    decreases |s|
  {
    hide DecodeBody, GoodPiece, PieceText;
    ps := [];
    if s != [] {
      var p, rest := EscapeHead(s);
      var qs := DecodeOnlySpelled(rest);
      ps := [p] + qs;
      assert ps[1..] == qs;
    }
  }

  // ------------------------------------------------- normal form

  /** Every text in the value, keys included, is in normal form, and keys differ. */
  predicate InNormalForm(nfc: Text -> Text, v: Json)
    decreases v
  {
    match v
    case Str(s) => nfc(s) == s
    case Arr(items) => forall i :: 0 <= i < |items| ==> InNormalForm(nfc, items[i])
    case Obj(ms) =>
      && (forall i, j :: 0 <= i < j < |ms| ==> ms[i].key != ms[j].key)
      && forall i :: 0 <= i < |ms| ==> nfc(ms[i].key) == ms[i].key && InNormalForm(nfc, ms[i].value)
    case _ => true
  }

  /** Only the JSON types, and integers that a double holds exactly. */
  predicate Exact(v: Json)
    decreases v
  {
    match v
    case Int(n) => -0x1F_FFFF_FFFF_FFFF <= n <= 0x1F_FFFF_FFFF_FFFF
    case Arr(items) => forall i :: 0 <= i < |items| ==> Exact(items[i])
    case Obj(ms) => forall i :: 0 <= i < |ms| ==> Exact(ms[i].value)
    case Float => false
    case Unsupported => false
    case _ => true
  }

  /** What normalization returns is in normal form and exact. */
  lemma {:induction false} NormalizedIsNormal(nfc: Text -> Text, v: Json)
    requires Idempotent(nfc) && Normalize(nfc, v).Some?
    ensures InNormalForm(nfc, Normalize(nfc, v).value) && Exact(Normalize(nfc, v).value)
    decreases v
  {
    match v
    case Arr(items) => forall i | 0 <= i < |items| { NormalizedIsNormal(nfc, items[i]); }
    case Obj(ms) => forall i | 0 <= i < |ms| { NormalizedIsNormal(nfc, ms[i].value); }
    case _ =>
  }

  /** An exact value in normal form is kept as it is. */
  lemma {:induction false} NormalIsKept(nfc: Text -> Text, v: Json)
    requires InNormalForm(nfc, v) && Exact(v)
    ensures Normalize(nfc, v) == Some(v)
    decreases v
  {
    match v
    case Arr(items) =>
      forall i | 0 <= i < |items| { NormalIsKept(nfc, items[i]); }
      assert Normalize(nfc, v).value.items == items;
    case Obj(ms) =>
      forall i | 0 <= i < |ms| { NormalIsKept(nfc, ms[i].value); }
      assert Normalize(nfc, v).value.members == ms;
    case _ =>
  }

  // ------------------------------------------------- canonical text

  /** The members of an object come in the order of their keys' UTF-16 code units. */
  lemma MembersInOrder(ms: seq<Member>, i: nat, j: nat)
    requires Plain(Obj(ms)) && AllEncodable(Obj(ms)) && i < j < |ms|
    ensures var c := Canon(Obj(ms));
            c.Obj? && |c.members| == |ms| && TextLt(Units(c.members[i].key), Units(c.members[j].key))
  {
    hide Canon, Units, BigEndian, TextLt, KeyLt, Plain, AllEncodable;
    var c := CanonMembers(ms);
    CanonMembersDistinct(ms);
    CanonObject(ms);
    SortStrict(c, MemberKey);
    SortPermutes(c, MemberKey);
    var s := Sort(c, MemberKey);
    assert |s| == |multiset(s)| == |multiset(c)| == |ms|;
    var k, l := MemberKey(s[i]), MemberKey(s[j]);
    assert KeyLt(k, l);
    KeyLtTotal(k, l);
    FirstDifference(k, l, 0);
    BigEndianOrder(Units(s[i].key), Units(s[j].key));
  }

  lemma CanonObject(ms: seq<Member>)
    ensures Canon(Obj(ms)) == Obj(Sort(CanonMembers(ms), MemberKey))
  {
  }

  /** Canonical text has no white space, sorted keys, lower-case words and the standard's punctuation. */
  lemma SerializeExample()
    ensures Serialize(Arr([Null, Bool(true), Bool(false), Int(-1)])) == T("[null,true,false,-1]")
    ensures Serialize(Obj([Member(T("b"), Int(-1)), Member(T("a"), Str(T("x")))])) == T("{\"a\":\"x\",\"b\":-1}")
  {
    ExampleArray([Null, Bool(true), Bool(false), Int(-1)]);
    var printed := [Printed(T("b"), IntText(-1)), Printed(T("a"), Quote(T("x")))];
    ExampleSorted(printed[0], printed[1]);
    ExampleObject(printed);
  }

  lemma MinusOne()
    ensures IntText(-1) == T("-1")
  {
    assert Digits(1) == [49];
  }

  lemma ExampleArray(items: seq<Json>)
    requires items == [Null, Bool(true), Bool(false), Int(-1)]
    ensures Serialize(Arr(items)) == T("[null,true,false,-1]")
  {
    var parts := seq(|items|, i requires 0 <= i < |items| => Serialize(items[i]));
    MinusOne();
    assert parts == [T("null"), T("true"), T("false"), T("-1")];
    JoinFour(T("null"), T("true"), T("false"), T("-1"));
    ArrayText();
  }

  lemma JoinFour(a: Text, b: Text, c: Text, d: Text)
    ensures Join([a, b, c, d], [COMMA]) == a + [COMMA] + (b + [COMMA] + (c + [COMMA] + d))
  {
    assert [a, b, c, d][1..] == [b, c, d] && [b, c, d][1..] == [c, d] && [c, d][1..] == [d];
    assert Join([d], [COMMA]) == d;
    assert Join([c, d], [COMMA]) == c + [COMMA] + d;
    assert Join([b, c, d], [COMMA]) == b + [COMMA] + (c + [COMMA] + d);
  }

  lemma ArrayText()
    ensures [LBRACKET] + (T("null") + [COMMA] + (T("true") + [COMMA] + (T("false") + [COMMA] + T("-1")))) + [RBRACKET]
            == T("[null,true,false,-1]")
  {
  }

  lemma ExampleStrings()
    ensures Quote(T("a")) == T("\"a\"") && Quote(T("b")) == T("\"b\"") && Quote(T("x")) == T("\"x\"")
  {
    assert T("a")[1..] == [] && T("b")[1..] == [] && T("x")[1..] == [];
  }

  lemma ExampleSorted(b: Printed, a: Printed)
    requires b.key == T("b") && a.key == T("a")
    ensures Sort([b, a], PrintedKey) == [a, b]
  {
    assert T("a")[1..] == [] && T("b")[1..] == [];
    assert Units(T("a")) == [97] && Units(T("b")) == [98];
    assert Utf16Be(T("a")) == [0, 97] && Utf16Be(T("b")) == [0, 98];
    assert TextLt([0, 97], [0, 98]) by { assert [0, 97][1..] == [97] && [0, 98][1..] == [98]; }
    assert PrintedKey(a)[0] != PrintedKey(b)[0] && KeyLt(PrintedKey(a), PrintedKey(b));
    assert [b, a][1..] == [a] && [a][1..] == [];
    assert Sort([a], PrintedKey) == Insert(a, [], PrintedKey) == [a];
    assert Insert(b, [a], PrintedKey) == [a] + Insert(b, [], PrintedKey);
  }

  lemma ExampleObject(printed: seq<Printed>)
    requires printed == [Printed(T("b"), IntText(-1)), Printed(T("a"), Quote(T("x")))]
    requires Sort(printed, PrintedKey) == [printed[1], printed[0]]
    ensures Serialize(Obj([Member(T("b"), Int(-1)), Member(T("a"), Str(T("x")))])) == T("{\"a\":\"x\",\"b\":-1}")
  {
    hide Sort;
    ExampleStrings();
    MinusOne();
    var ms := [Member(T("b"), Int(-1)), Member(T("a"), Str(T("x")))];
    assert seq(|ms|, i requires 0 <= i < |ms| => Printed(ms[i].key, Serialize(ms[i].value))) == printed;
    var a, b := PrintedText(printed[1]), PrintedText(printed[0]);
    assert [a, b][1..] == [b] && Join([b], [COMMA]) == b;
    assert Join([a, b], [COMMA]) == a + [COMMA] + b;
    assert seq(2, i requires 0 <= i < 2 => PrintedText([printed[1], printed[0]][i])) == [a, b];
    ObjectText();
  }

  lemma ObjectText()
    ensures [LBRACE] + (T("\"a\"") + [COLON] + T("\"x\"") + [COMMA] + (T("\"b\"") + [COLON] + T("-1"))) + [RBRACE]
            == T("{\"a\":\"x\",\"b\":-1}")
  {
  }
}
