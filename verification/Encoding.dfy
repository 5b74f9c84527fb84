/**
 The byte-level encodings the canonical layer rests on: decimal integers,
 UTF-16BE (the sort key of object members) and UTF-8 (the hashed bytes).
 */
module Encoding {
  import opened Order

  /** Decimal digits of a natural number, as `str(n)` writes them. */
  function Digits(n: nat): (r: Text)
    ensures |r| > 0
    ensures forall c :: c in r ==> 48 <= c <= 57
  {
    if n < 10 then [48 + n] else Digits(n / 10) + [48 + n % 10]
  }

  function IntText(n: int): Text {
    if n < 0 then [45] + Digits(-n) else Digits(n)
  }

  lemma {:induction false} DigitsInjective(m: nat, n: nat)
    requires Digits(m) == Digits(n)
    ensures m == n
  {
    var s, t := Digits(m), Digits(n);
    assert s[|s| - 1] == t[|t| - 1];
    assert s[..|s| - 1] == t[..|t| - 1];
    if m >= 10 && n >= 10 {
      assert s[..|s| - 1] == Digits(m / 10);
      assert t[..|t| - 1] == Digits(n / 10);
      DigitsInjective(m / 10, n / 10);
    }
  }

  lemma IntTextInjective(m: int, n: int)
    requires IntText(m) == IntText(n)
    ensures m == n
  {
    if m < 0 && n < 0 {
      assert Digits(-m) == IntText(m)[1..] && Digits(-n) == IntText(n)[1..];
      DigitsInjective(-m, -n);
    } else if m >= 0 && n >= 0 {
      DigitsInjective(m, n);
    } else {
      assert IntText(m)[0] == IntText(n)[0];
      assert forall k: nat :: Digits(k)[0] in Digits(k);
    }
  }

  /** Unicode scalar values: what both encoders accept; a surrogate raises. */
  predicate Scalar(c: nat) {
    c < 0xD800 || 0xE000 <= c < 0x110000
  }

  predicate Encodable(t: Text) {
    forall i :: 0 <= i < |t| ==> Scalar(t[i])
  }

  function CharUnits(c: nat): Text {
    if c < 0x10000 then [c]
    else [0xD800 + (c - 0x10000) / 0x400, 0xDC00 + (c - 0x10000) % 0x400]
  }

  /** UTF-16 code units. */
  function Units(t: Text): Text {
    if t == [] then [] else CharUnits(t[0]) + Units(t[1..])
  }

  /** Big-endian bytes of code units. */
  function BigEndian(u: Text): Text {
    if u == [] then [] else [u[0] / 256, u[0] % 256] + BigEndian(u[1..])
  }

  function Utf16Be(t: Text): Text {
    BigEndian(Units(t))
  }

  lemma {:induction false} UnitsInjective(s: Text, t: Text)
    requires Encodable(s) && Encodable(t) && Units(s) == Units(t)
    ensures s == t
  {
    if s != [] && t != [] {
      var u := Units(s);
      assert u[0] == CharUnits(s[0])[0] == CharUnits(t[0])[0];
      assert |CharUnits(s[0])| == |CharUnits(t[0])|;
      assert CharUnits(s[0]) == u[..|CharUnits(s[0])|] == CharUnits(t[0]);
      assert s[0] == t[0];
      assert Units(s[1..]) == u[|CharUnits(s[0])|..] == Units(t[1..]);
      UnitsInjective(s[1..], t[1..]);
      assert s == [s[0]] + s[1..] && t == [t[0]] + t[1..];
    }
  }

  /** Comparing big-endian bytes is comparing code units, as section 3.2.3 of
      RFC 8785 asks. */
  lemma {:induction false} BigEndianOrder(u: Text, v: Text)
    ensures TextLt(BigEndian(u), BigEndian(v)) <==> TextLt(u, v)
    ensures BigEndian(u) == BigEndian(v) ==> u == v
  {
    if u != [] && v != [] {
      var a, b := BigEndian(u), BigEndian(v);
      assert a[1..][0] == u[0] % 256 && a[1..][1..] == BigEndian(u[1..]);
      assert b[1..][0] == v[0] % 256 && b[1..][1..] == BigEndian(v[1..]);
      BigEndianOrder(u[1..], v[1..]);
      assert u == [u[0]] + u[1..] && v == [v[0]] + v[1..];
      if a == b {
        assert a[0] == b[0] && a[1] == b[1];
      }
    }
  }

  lemma Utf16BeInjective(s: Text, t: Text)
    requires Encodable(s) && Encodable(t) && Utf16Be(s) == Utf16Be(t)
    ensures s == t
  {
    BigEndianOrder(Units(s), Units(t));
    UnitsInjective(s, t);
  }

  function CharUtf8(c: nat): Text {
    if c < 0x80 then [c]
    else if c < 0x800 then [0xC0 + c / 64, 0x80 + c % 64]
    else if c < 0x10000 then [0xE0 + c / 64 / 64, 0x80 + c / 64 % 64, 0x80 + c % 64]
    else [0xF0 + c / 64 / 64 / 64, 0x80 + c / 64 / 64 % 64, 0x80 + c / 64 % 64, 0x80 + c % 64]
  }

  function Utf8(t: Text): Text {
    if t == [] then [] else CharUtf8(t[0]) + Utf8(t[1..])
  }

  /** UTF-8 is a prefix code. */
  lemma CharUtf8Prefix(c: nat, d: nat, x: Text, y: Text)
    requires Scalar(c) && Scalar(d) && CharUtf8(c) + x == CharUtf8(d) + y
    ensures c == d && x == y
  {
    var s, t := CharUtf8(c), CharUtf8(d);
    var u, v := s + x, t + y;
    assert s[0] == u[0] == v[0] == t[0];
    assert |s| == |t|;
    assert s == u[..|s|] && t == v[..|t|];
    assert x == u[|s|..] && y == v[|t|..];
    if |s| == 2 {
      assert s[1] == t[1];
    } else if |s| == 3 {
      assert s[1] == t[1] && s[2] == t[2];
    } else if |s| == 4 {
      assert s[1] == t[1] && s[2] == t[2] && s[3] == t[3];
    }
  }

  lemma {:induction false} Utf8Injective(s: Text, t: Text)
    requires Encodable(s) && Encodable(t) && Utf8(s) == Utf8(t)
    ensures s == t
  {
    if s != [] && t != [] {
      CharUtf8Prefix(s[0], t[0], Utf8(s[1..]), Utf8(t[1..]));
      Utf8Injective(s[1..], t[1..]);
      assert s == [s[0]] + s[1..] && t == [t[0]] + t[1..];
    }
  }
}
