/**
 Canonical JSON: `_normalize` and `canonical_json_bytes`.

 NFC is a parameter.  `None` stands for a raised `CanonicalizationError`.
 */
module Json {
  import opened Order
  import opened Chars
  import opened Encoding

  /** A Python value handed to the canonicalizer.  A mapping is its item list in
      iteration order, with `str(key)` already applied to the keys. */
  datatype Json =
    | Null
    | Bool(b: bool)
    | Int(n: int)
    | Float
    | Str(s: Text)
    | Arr(items: seq<Json>)
    | Obj(members: seq<Member>)
    | Unsupported

  datatype Member = Member(key: Text, value: Json)

  const MAX_EXACT: int := 0x20000000000000 - 1

  ghost predicate Idempotent(nfc: Text -> Text) {
    forall t :: nfc(nfc(t)) == nfc(t)
  }

  function Normalize(nfc: Text -> Text, v: Json): Option<Json>
    decreases v
  {
    match v
    case Str(s) => Some(Str(nfc(s)))
    case Bool(_) => Some(v)
    case Int(n) => if -MAX_EXACT <= n <= MAX_EXACT then Some(v) else None
    case Null => Some(v)
    case Float => None
    case Obj(ms) =>
      if (forall i, j :: 0 <= i < j < |ms| ==> nfc(ms[i].key) != nfc(ms[j].key))
         && (forall i :: 0 <= i < |ms| ==> Normalize(nfc, ms[i].value).Some?)
      then Some(Obj(seq(|ms|, i requires 0 <= i < |ms| =>
                          Member(nfc(ms[i].key), Normalize(nfc, ms[i].value).value))))
      else None
    case Arr(items) =>
      if forall i :: 0 <= i < |items| ==> Normalize(nfc, items[i]).Some?
      then Some(Arr(seq(|items|, i requires 0 <= i < |items| => Normalize(nfc, items[i]).value)))
      else None
    case Unsupported => None
  }

  function Join<E>(parts: seq<seq<E>>, sep: seq<E>): seq<E> {
    if parts == [] then []
    else if |parts| == 1 then parts[0]
    else parts[0] + sep + Join(parts[1..], sep)
  }


  function HexDigit(d: nat): nat {
    if d < 10 then 48 + d else 87 + d
  }

  /** One character as `json.dumps(..., ensure_ascii=False)` writes it, the
      escapes of section 3.2.2.2 of RFC 8785. */
  function EscapeChar(c: nat): Text {
    if c == QUOTE then [BACKSLASH, QUOTE]
    else if c == BACKSLASH then [BACKSLASH, BACKSLASH]
    else if c == 8 then [BACKSLASH, 98]
    else if c == 9 then [BACKSLASH, 116]
    else if c == 10 then [BACKSLASH, 110]
    else if c == 12 then [BACKSLASH, 102]
    else if c == 13 then [BACKSLASH, 114]
    else if c < 32 then [BACKSLASH, 117, 48, 48, HexDigit(c / 16), HexDigit(c % 16)]
    else [c]
  }

  function Escape(s: Text): Text {
    if s == [] then [] else EscapeChar(s[0]) + Escape(s[1..])
  }

  function Quote(s: Text): Text {
    [QUOTE] + Escape(s) + [QUOTE]
  }

  /** An object member already turned into text, waiting to be sorted. */
  datatype Printed = Printed(key: Text, text: Text)

  function PrintedKey(p: Printed): Key { [Txt(Utf16Be(p.key))] }

  function MemberKey(m: Member): Key { [Txt(Utf16Be(m.key))] }

  function PrintedText(p: Printed): Text { Quote(p.key) + [COLON] + p.text }

  /** The nested `serialize` of `canonical_json_bytes`. */
  function Serialize(v: Json): Text
    decreases v
  {
    match v
    case Null => T("null")
    case Bool(b) => if b then T("true") else T("false")
    case Int(n) => IntText(n)
    case Str(s) => Quote(s)
    case Arr(items) =>
      [LBRACKET] + Join(seq(|items|, i requires 0 <= i < |items| => Serialize(items[i])), [COMMA]) + [RBRACKET]
    case Obj(ms) =>
      var printed := seq(|ms|, i requires 0 <= i < |ms| => Printed(ms[i].key, Serialize(ms[i].value)));
      var sorted := Sort(printed, PrintedKey);
      [LBRACE] + Join(seq(|sorted|, i requires 0 <= i < |sorted| => PrintedText(sorted[i])), [COMMA]) + [RBRACE]
    case Float => []
    case Unsupported => []
  }

  /** No string anywhere holds a surrogate, so neither encoder raises. */
  predicate AllEncodable(v: Json)
    decreases v
  {
    match v
    case Str(s) => Encodable(s)
    case Arr(items) => forall i :: 0 <= i < |items| ==> AllEncodable(items[i])
    case Obj(ms) => forall i :: 0 <= i < |ms| ==> Encodable(ms[i].key) && AllEncodable(ms[i].value)
    case _ => true
  }

  /** The canonical text of a value, before it is encoded as UTF-8. */
  function CanonicalText(nfc: Text -> Text, v: Json): Option<Text> {
    match Normalize(nfc, v)
    case None => None
    case Some(n) => if AllEncodable(n) then Some(Serialize(n)) else None
  }

  /** `canonical_json_bytes`. */
  function Encode(nfc: Text -> Text, v: Json): Option<Text> {
    match CanonicalText(nfc, v)
    case None => None
    case Some(t) => Some(Utf8(t))
  }

  /** What `_normalize` can return: JSON types only, distinct object keys. */
  predicate Plain(v: Json)
    decreases v
  {
    match v
    case Arr(items) => forall i :: 0 <= i < |items| ==> Plain(items[i])
    case Obj(ms) =>
      && (forall i, j :: 0 <= i < j < |ms| ==> ms[i].key != ms[j].key)
      && forall i :: 0 <= i < |ms| ==> Plain(ms[i].value)
    case Float => false
    case Unsupported => false
    case _ => true
  }

  /** Equality of Python values: mapping order does not matter, at any depth. */
  predicate Same(a: Json, b: Json)
    decreases a
  {
    match (a, b)
    case (Arr(s), Arr(t)) => |s| == |t| && forall i :: 0 <= i < |s| ==> Same(s[i], t[i])
    case (Obj(m), Obj(n)) =>
      && (forall i {:trigger HasRight(m[i], n)} :: 0 <= i < |m| ==> HasRight(m[i], n))
      && (forall j {:trigger HasLeft(m, n[j])} :: 0 <= j < |n| ==> HasLeft(m, n[j]))
    case _ => a == b
  }

  predicate SameMember(m: Member, n: Member)
    decreases m, 0
  {
    m.key == n.key && Same(m.value, n.value)
  }

  predicate HasRight(x: Member, n: seq<Member>)
    decreases x, 1
  {
    exists j :: 0 <= j < |n| && SameMember(x, n[j])
  }

  predicate HasLeft(m: seq<Member>, y: Member)
    decreases m, 1
  {
    exists i :: 0 <= i < |m| && SameMember(m[i], y)
  }

  /** The same value with every object's members in canonical order. */
  function Canon(v: Json): Json
    decreases v
  {
    match v
    case Arr(items) => Arr(seq(|items|, i requires 0 <= i < |items| => Canon(items[i])))
    case Obj(ms) =>
      Obj(Sort(seq(|ms|, i requires 0 <= i < |ms| => Member(ms[i].key, Canon(ms[i].value))), MemberKey))
    case _ => v
  }

  lemma {:induction false} NormalizePlain(nfc: Text -> Text, v: Json)
    requires Normalize(nfc, v).Some?
    ensures Plain(Normalize(nfc, v).value)
    decreases v
  {
    match v
    case Arr(items) =>
      forall i | 0 <= i < |items| { NormalizePlain(nfc, items[i]); }
    case Obj(ms) =>
      forall i | 0 <= i < |ms| { NormalizePlain(nfc, ms[i].value); }
    case _ =>
  }

  /** A normalized value is a fixed point of normalization. */
  lemma {:induction false} NormalizeIdempotent(nfc: Text -> Text, v: Json)
    requires Idempotent(nfc) && Normalize(nfc, v).Some?
    ensures Normalize(nfc, Normalize(nfc, v).value) == Normalize(nfc, v)
    decreases v
  {
    match v
    case Arr(items) =>
      forall i | 0 <= i < |items| { NormalizeIdempotent(nfc, items[i]); }
      assert Normalize(nfc, Normalize(nfc, v).value).value.items == Normalize(nfc, v).value.items;
    case Obj(ms) =>
      forall i | 0 <= i < |ms| { NormalizeIdempotent(nfc, ms[i].value); }
      assert Normalize(nfc, Normalize(nfc, v).value).value.members == Normalize(nfc, v).value.members;
    case _ =>
  }

  function CanonMembers(ms: seq<Member>): seq<Member> {
    seq(|ms|, i requires 0 <= i < |ms| => Member(ms[i].key, Canon(ms[i].value)))
  }

  lemma CanonMembersDistinct(ms: seq<Member>)
    requires Plain(Obj(ms)) && AllEncodable(Obj(ms))
    ensures DistinctKeys(CanonMembers(ms), MemberKey)
  {
    var c := CanonMembers(ms);
    forall i, j | 0 <= i < j < |c| ensures MemberKey(c[i]) != MemberKey(c[j]) {
      if MemberKey(c[i]) == MemberKey(c[j]) {
        assert Utf16Be(c[i].key) == MemberKey(c[i])[0].t == Utf16Be(c[j].key);
        Utf16BeInjective(c[i].key, c[j].key);
      }
    }
  }

  lemma SortDecidesMembers(c: seq<Member>, d: seq<Member>)
    requires DistinctKeys(c, MemberKey) && DistinctKeys(d, MemberKey)
    ensures Sort(c, MemberKey) == Sort(d, MemberKey) <==> forall x :: x in c <==> x in d
  {
    if forall x :: x in c <==> x in d {
      SortForgetsOrder(c, d, MemberKey);
    }
    if Sort(c, MemberKey) == Sort(d, MemberKey) {
      forall x ensures x in c <==> x in d {
        SortMembers(c, MemberKey, x);
        SortMembers(d, MemberKey, x);
      }
    }
  }

  lemma RightIsMembership(x: Member, n: seq<Member>, x': Member, d: seq<Member>)
    requires |d| == |n| && forall j :: 0 <= j < |n| ==> (x' == d[j] <==> SameMember(x, n[j]))
    ensures x' in d <==> HasRight(x, n)
  {
    if x' in d {
      var j :| 0 <= j < |d| && d[j] == x';
      assert SameMember(x, n[j]);
    }
  }

  lemma LeftIsMembership(m: seq<Member>, y: Member, c: seq<Member>, y': Member)
    requires |c| == |m| && forall i :: 0 <= i < |m| ==> (c[i] == y' <==> SameMember(m[i], y))
    ensures y' in c <==> HasLeft(m, y)
  {
    if y' in c {
      var i :| 0 <= i < |c| && c[i] == y';
      assert SameMember(m[i], y);
    }
  }

  lemma MembersDecideSame(c: seq<Member>, d: seq<Member>, m: seq<Member>, n: seq<Member>)
    requires |c| == |m| && |d| == |n|
    requires forall i :: 0 <= i < |m| ==> (c[i] in d <==> HasRight(m[i], n))
    requires forall j :: 0 <= j < |n| ==> (d[j] in c <==> HasLeft(m, n[j]))
    ensures (forall x :: x in c <==> x in d) <==> Same(Obj(m), Obj(n))
  {
  }

  /** Canonical forms agree exactly on equal values. */
  lemma {:induction false} CanonDecidesSame(a: Json, b: Json)
    requires Plain(a) && Plain(b) && AllEncodable(a) && AllEncodable(b)
    ensures Canon(a) == Canon(b) <==> Same(a, b)
    decreases a
  {
    match (a, b)
    case (Arr(s), Arr(t)) =>
      var s', t' := Canon(a).items, Canon(b).items;
      if |s| == |t| {
        forall i | 0 <= i < |s| ensures s'[i] == t'[i] <==> Same(s[i], t[i]) {
          CanonDecidesSame(s[i], t[i]);
        }
        assert s' == t' <==> forall i :: 0 <= i < |s| ==> s'[i] == t'[i];
      }
    case (Obj(m), Obj(n)) =>
      var c, d := CanonMembers(m), CanonMembers(n);
      forall i | 0 <= i < |m| ensures c[i] in d <==> HasRight(m[i], n) {
        forall j | 0 <= j < |n| { CanonDecidesSame(m[i].value, n[j].value); }
        RightIsMembership(m[i], n, c[i], d);
      }
      forall j | 0 <= j < |n| ensures d[j] in c <==> HasLeft(m, n[j]) {
        forall i | 0 <= i < |m| { CanonDecidesSame(m[i].value, n[j].value); }
        LeftIsMembership(m, n[j], c, d[j]);
      }
      CanonMembersDistinct(m);
      CanonMembersDistinct(n);
      SortDecidesMembers(c, d);
      MembersDecideSame(c, d, m, n);
      assert Canon(a) == Obj(Sort(c, MemberKey)) && Canon(b) == Obj(Sort(d, MemberKey));
    case _ =>
  }
}
