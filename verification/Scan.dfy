/**
 The JSON scanner of `structured.py`: `json_tokens` as a loop, its meaning as a
 function of the remaining text, and what it does on rendered lexemes.
 */
module Scan {
  import opened Order
  import opened Chars
  import opened Json

  datatype Kind = StrToken | PunctToken | OtherToken

  datatype Token = Token(kind: Kind, value: Text, line: int)


  predicate IsBlank(c: nat) { c == 32 || c == 9 || c == 13 }

  predicate IsPunct(c: nat) {
    c == LBRACE || c == RBRACE || c == LBRACKET || c == RBRACKET || c == COLON || c == COMMA
  }

  predicate IsDelimiter(c: nat) {
    IsBlank(c) || c == NEWLINE || IsPunct(c) || c == QUOTE
  }

  function HexValue(c: nat): Option<nat> {
    if 48 <= c <= 57 then Some(c - 48)
    else if 97 <= c <= 102 then Some(c - 87)
    else if 65 <= c <= 70 then Some(c - 55)
    else None
  }

  /** The four hexadecimal digits of a `\u` escape. */
  function Hex4(s: Text): Option<nat> {
    if |s| < 4 || HexValue(s[0]).None? || HexValue(s[1]).None? || HexValue(s[2]).None? || HexValue(s[3]).None?
    then None
    else Some(HexValue(s[0]).value * 4096 + HexValue(s[1]).value * 256
              + HexValue(s[2]).value * 16 + HexValue(s[3]).value)
  }

  function SimpleEscape(c: nat): Option<nat> {
    if c == QUOTE || c == BACKSLASH || c == 47 then Some(c)
    else if c == 98 then Some(8)
    else if c == 102 then Some(12)
    else if c == 110 then Some(10)
    else if c == 114 then Some(13)
    else if c == 116 then Some(9)
    else None
  }

  function Prepend(c: nat, rest: Option<Text>): Option<Text> {
    match rest
    case None => None
    case Some(r) => Some([c] + r)
  }

  /** `json.loads` on what stands between the quotes of a string literal; `None`
      is its `JSONDecodeError`.  A high surrogate escape is joined with a low
      one that follows it. */
  function DecodeBody(s: Text): Option<Text> {
    if s == [] then Some([])
    else if s[0] == QUOTE || s[0] < 32 then None
    else if s[0] != BACKSLASH then Prepend(s[0], DecodeBody(s[1..]))
    else if |s| < 2 then None
    else if s[1] != 117 then
      match SimpleEscape(s[1])
      case None => None
      case Some(c) => Prepend(c, DecodeBody(s[2..]))
    else
      match Hex4(s[2..])
      case None => None
      case Some(u) =>
        if 0xD800 <= u <= 0xDBFF && |s| >= 8 && s[6] == BACKSLASH && s[7] == 117 then
          match Hex4(s[8..])
          case None => None
          case Some(v) =>
            if 0xDC00 <= v <= 0xDFFF
            then Prepend(0x10000 + (u - 0xD800) * 0x400 + (v - 0xDC00), DecodeBody(s[12..]))
            else Prepend(u, DecodeBody(s[6..]))
        else Prepend(u, DecodeBody(s[6..]))
  }

  /** Characters the inner string loop steps over after an opening quote,
      the closing quote included; an escape at the very end steps past it. */
  function StringSpan(s: Text): nat {
    if s == [] then 0
    else if s[0] == BACKSLASH then 2 + (if |s| < 2 then 0 else StringSpan(s[2..]))
    else if s[0] == QUOTE then 1
    else 1 + StringSpan(s[1..])
  }

  /** Newlines the inner string loop counts. */
  function StringLines(s: Text): nat {
    if s == [] || s[0] == QUOTE then 0
    else if s[0] == BACKSLASH then if |s| < 2 then 0 else StringLines(s[2..])
    else (if s[0] == NEWLINE then 1 else 0) + StringLines(s[1..])
  }

  function Clip(s: Text, n: int): Text {
    if n <= 0 then [] else if n <= |s| then s[..n] else s
  }

  /** The decoded value of the literal that starts with a quote before `s`: the
      decoder's answer, else the raw slice. */
  function StringValue(s: Text, span: nat): Text {
    var literal := Clip(s, span);
    var decoded := if literal != [] && literal[|literal| - 1] == QUOTE
                   then DecodeBody(literal[..|literal| - 1]) else None;
    match decoded
    case Some(v) => v
    case None => Clip(s, span - 1)
  }

  function OtherSpan(s: Text): (n: nat)
    ensures n <= |s|
  {
    if s == [] || IsDelimiter(s[0]) then 0 else 1 + OtherSpan(s[1..])
  }

  /** What one turn of the main loop emits, how far it moves, and the line after. */
  datatype Turn = Turn(out: seq<Token>, used: nat, line: int)

  function NextTurn(s: Text, line: int): (r: Turn)
    requires s != []
    ensures r.used >= 1
  {
    if s[0] == NEWLINE then Turn([], 1, line + 1)
    else if IsBlank(s[0]) then Turn([], 1, line)
    else if s[0] == QUOTE then
      var span := StringSpan(s[1..]);
      Turn([Token(StrToken, StringValue(s[1..], span), line)], 1 + span, line + StringLines(s[1..]))
    else if IsPunct(s[0]) then Turn([Token(PunctToken, [s[0]], line)], 1, line)
    else Turn([Token(OtherToken, s[..OtherSpan(s)], line)], OtherSpan(s), line)
  }

  /** The tokens of the text `s`, whose first character is on line `line`. */
  function Tokens(s: Text, line: int): seq<Token> {
    if s == [] then []
    else
      var t := NextTurn(s, line);
      t.out + (if t.used >= |s| then [] else Tokens(s[t.used..], t.line))
  }

  /** The inner loop over a string literal whose opening quote is at `i`. */
  method SkipString(text: Text, i: nat, startLine: int) returns (j: nat, line: int)
    requires i < |text|
    ensures j == i + 1 + StringSpan(text[i + 1..])
    ensures line == startLine + StringLines(text[i + 1..])
  {
    j, line := i + 1, startLine;
    while j < |text|
      invariant i + 1 <= j
      invariant j + (if j < |text| then StringSpan(text[j..]) else 0) == i + 1 + StringSpan(text[i + 1..])
      invariant line + (if j < |text| then StringLines(text[j..]) else 0) == startLine + StringLines(text[i + 1..])
    {
      if text[j] == BACKSLASH {
        assert j + 2 <= |text| ==> text[j..][2..] == text[j + 2..];
        j := j + 2;
        continue;
      }
      if text[j] == QUOTE {
        j := j + 1;
        break;
      }
      assert text[j..][1..] == text[j + 1..];
      if text[j] == NEWLINE {
        line := line + 1;
      }
      j := j + 1;
    }
  }

  /** The inner loop over a number or a bare word that starts at `start`. */
  method SkipOther(text: Text, start: nat) returns (i: nat)
    requires start <= |text|
    ensures i == start + OtherSpan(text[start..])
  {
    i := start;
    while i < |text| && !IsDelimiter(text[i])
      invariant start <= i <= |text|
      invariant i + OtherSpan(text[i..]) == start + OtherSpan(text[start..])
    {
      assert text[i..][1..] == text[i + 1..];
      i := i + 1;
    }
  }

  /** The tokens still to come at position `i`. */
  ghost function Remaining(text: Text, i: nat, line: int): seq<Token> {
    if i < |text| then Tokens(text[i..], line) else []
  }

  lemma TurnLeavesRest(text: Text, i: nat, line: int, t: Turn)
    requires i < |text| && t == NextTurn(text[i..], line)
    ensures t.out + Remaining(text, i + t.used, t.line) == Remaining(text, i, line)
  {
    hide NextTurn;
    assert i + t.used < |text| ==> text[i..][t.used..] == text[i + t.used..];
  }

  /** One turn of the main loop at position `i`. */
  method ScanAt(text: Text, i: nat, line: int) returns (out: seq<Token>, j: nat, after: int)
    requires i < |text|
    ensures j > i && Turn(out, j - i, after) == NextTurn(text[i..], line)
  {
    hide StringValue, StringSpan, StringLines;
    var c := text[i];
    ghost var s := text[i..];
    assert s[0] == c && s[1..] == text[i + 1..];
    if c == NEWLINE {
      out, j, after := [], i + 1, line + 1;
    } else if IsBlank(c) {
      out, j, after := [], i + 1, line;
    } else if c == QUOTE {
      j, after := SkipString(text, i, line);
      out := [Token(StrToken, StringValue(text[i + 1..], j - (i + 1)), line)];
    } else if IsPunct(c) {
      out, j, after := [Token(PunctToken, [c], line)], i + 1, line;
    } else {
      j := SkipOther(text, i);
      assert s[..j - i] == text[i..j];
      out, after := [Token(OtherToken, text[i..j], line)], line;
    }
  }

  method ScanTurn(text: Text, i: nat, line: int) returns (out: seq<Token>, j: nat, after: int)
    requires i < |text|
    ensures j > i && out + Remaining(text, j, after) == Remaining(text, i, line)
  {
    hide NextTurn, Remaining;
    out, j, after := ScanAt(text, i, line);
    TurnLeavesRest(text, i, line, Turn(out, j - i, after));
  }

  /** `json_tokens`. */
  method JsonTokens(text: Text) returns (tokens: seq<Token>)
    ensures tokens == Tokens(text, 1)
  {
    tokens := [];
    var i, line := 0, 1;
    assert text[0..] == text;
    while i < |text|
      invariant tokens + Remaining(text, i, line) == Tokens(text, 1)
    {
      var out, j, after := ScanTurn(text, i, line);
      assert tokens + (out + Remaining(text, j, after)) == (tokens + out) + Remaining(text, j, after);
      tokens, i, line := tokens + out, j, after;
    }
  }
}
