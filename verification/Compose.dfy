/**
 Canonical text is compositional: an object's or array's text is a function of
 its keys and of the texts of its parts.
 */
module Compose {
  import opened Order
  import opened Chars
  import opened Encoding
  import opened Json
  import opened MappingOrder
  import Canonical

  /** The object can be printed. */
  ghost predicate Ready(nfc: Text -> Text, ms: seq<Member>) {
    && Uncollided(nfc, ms)
    && forall i :: 0 <= i < |ms| ==> Encodable(nfc(ms[i].key)) && CanonicalText(nfc, ms[i].value).Some?
  }

  ghost function PrintedParts(nfc: Text -> Text, ms: seq<Member>): seq<Printed>
    requires Ready(nfc, ms)
  {
    seq(|ms|, i requires 0 <= i < |ms| => Printed(nfc(ms[i].key), CanonicalText(nfc, ms[i].value).value))
  }

  ghost function ObjectText(printed: seq<Printed>): Text {
    var sorted := Sort(printed, PrintedKey);
    [LBRACE] + Join(seq(|sorted|, i requires 0 <= i < |sorted| => PrintedText(sorted[i])), [COMMA]) + [RBRACE]
  }

  lemma ObjectByParts(nfc: Text -> Text, ms: seq<Member>)
    ensures CanonicalText(nfc, Obj(ms)) == if Ready(nfc, ms) then Some(ObjectText(PrintedParts(nfc, ms))) else None
  {
    hide Sort, Join, Encodable;
    NormalObject(nfc, ms);
    if Uncollided(nfc, ms) && AllNormal(nfc, ms) {
      var n := NormalMembers(nfc, ms);
      assert AllEncodable(Obj(n)) <==> forall i :: 0 <= i < |n| ==> Encodable(n[i].key) && AllEncodable(n[i].value);
      if AllEncodable(Obj(n)) {
        forall i | 0 <= i < |ms|
          ensures Encodable(nfc(ms[i].key)) && CanonicalText(nfc, ms[i].value) == Some(Serialize(n[i].value))
        {
          assert n[i] == Member(nfc(ms[i].key), Normalize(nfc, ms[i].value).value);
        }
        assert Ready(nfc, ms);
        var printed := seq(|n|, i requires 0 <= i < |n| => Printed(n[i].key, Serialize(n[i].value)));
        assert printed == PrintedParts(nfc, ms);
        SerializeObject(n, printed);
      } else {
        var i :| 0 <= i < |n| && !(Encodable(n[i].key) && AllEncodable(n[i].value));
        assert n[i].key == nfc(ms[i].key);
      }
    }
  }

  lemma SerializeObject(n: seq<Member>, printed: seq<Printed>)
    requires printed == seq(|n|, i requires 0 <= i < |n| => Printed(n[i].key, Serialize(n[i].value)))
    ensures Serialize(Obj(n)) == ObjectText(printed)
  {
  }

  /** Objects with the same keys and the same part texts have the same text. */
  lemma SameParts(nfc: Text -> Text, ms: seq<Member>, ns: seq<Member>)
    requires |ms| == |ns|
    requires forall i :: 0 <= i < |ms| ==>
               ms[i].key == ns[i].key && CanonicalText(nfc, ms[i].value) == CanonicalText(nfc, ns[i].value)
    ensures CanonicalText(nfc, Obj(ms)) == CanonicalText(nfc, Obj(ns))
  {
    hide CanonicalText, ObjectText;
    ObjectByParts(nfc, ms);
    ObjectByParts(nfc, ns);
    assert Ready(nfc, ms) <==> Ready(nfc, ns);
    if Ready(nfc, ms) {
      assert PrintedParts(nfc, ms) == PrintedParts(nfc, ns);
    }
  }

  /** Arrays with the same item texts have the same text. */
  lemma SameItems(nfc: Text -> Text, s: seq<Json>, t: seq<Json>)
    requires |s| == |t| && forall i :: 0 <= i < |s| ==> CanonicalText(nfc, s[i]) == CanonicalText(nfc, t[i])
    ensures CanonicalText(nfc, Arr(s)) == CanonicalText(nfc, Arr(t))
  {
    hide CanonicalText;
    ArrayByParts(nfc, s);
    ArrayByParts(nfc, t);
    var p := forall i :: 0 <= i < |s| ==> CanonicalText(nfc, s[i]).Some?;
    assert p <==> forall i :: 0 <= i < |t| ==> CanonicalText(nfc, t[i]).Some?;
    if p {
      assert seq(|s|, i requires 0 <= i < |s| => CanonicalText(nfc, s[i]).value)
          == seq(|t|, i requires 0 <= i < |t| => CanonicalText(nfc, t[i]).value);
    }
  }

  ghost function BracketedText(parts: seq<Text>): Text {
    [LBRACKET] + Join(parts, [COMMA]) + [RBRACKET]
  }

  lemma ArrayByParts(nfc: Text -> Text, s: seq<Json>)
    ensures CanonicalText(nfc, Arr(s)) ==
            if forall i :: 0 <= i < |s| ==> CanonicalText(nfc, s[i]).Some?
            then Some(BracketedText(seq(|s|, i requires 0 <= i < |s| => CanonicalText(nfc, s[i]).value)))
            else None
  {
    hide Join;
    if forall i :: 0 <= i < |s| ==> Normalize(nfc, s[i]).Some? {
      var n := Normalize(nfc, Arr(s)).value.items;
      if AllEncodable(Arr(n)) {
        assert forall i :: 0 <= i < |s| ==> CanonicalText(nfc, s[i]) == Some(Serialize(n[i]));
        assert seq(|n|, i requires 0 <= i < |n| => Serialize(n[i]))
            == seq(|s|, i requires 0 <= i < |s| => CanonicalText(nfc, s[i]).value);
      } else {
        var i :| 0 <= i < |n| && !AllEncodable(n[i]);
        assert CanonicalText(nfc, s[i]).None?;
      }
    }
  }

  // ------------------------------------------------- and back

  lemma TextDecidesSame(nfc: Text -> Text, a: Json, b: Json)
    requires CanonicalText(nfc, a).Some? && CanonicalText(nfc, a) == CanonicalText(nfc, b)
    ensures Normalize(nfc, a).Some? && Normalize(nfc, b).Some?
    ensures Same(Normalize(nfc, a).value, Normalize(nfc, b).value)
  {
    hide Normalize, Serialize, Same, AllEncodable, Utf8;
    Canonical.EncodeDecidesSame(nfc, a, b);
  }

  lemma SameDecidesText(nfc: Text -> Text, a: Json, b: Json)
    requires CanonicalText(nfc, a).Some? && CanonicalText(nfc, b).Some?
    requires Same(Normalize(nfc, a).value, Normalize(nfc, b).value)
    ensures CanonicalText(nfc, a) == CanonicalText(nfc, b)
  {
    hide Normalize, Serialize, Same, AllEncodable, Plain;
    NormalizePlain(nfc, a);
    NormalizePlain(nfc, b);
    Canonical.SameThenSerialize(Normalize(nfc, a).value, Normalize(nfc, b).value);
  }

  /** The text of an object decides the texts of its parts. */
  lemma PartsDecide(nfc: Text -> Text, ms: seq<Member>, ns: seq<Member>, i: nat)
    requires |ms| == |ns| && i < |ms| && forall k :: 0 <= k < |ms| ==> ms[k].key == ns[k].key
    requires CanonicalText(nfc, Obj(ms)).Some? && CanonicalText(nfc, Obj(ms)) == CanonicalText(nfc, Obj(ns))
    ensures CanonicalText(nfc, ms[i].value).Some? && CanonicalText(nfc, ms[i].value) == CanonicalText(nfc, ns[i].value)
  {
    hide CanonicalText, Normalize, Same, Plain;
    ObjectByParts(nfc, ms);
    ObjectByParts(nfc, ns);
    TextDecidesSame(nfc, Obj(ms), Obj(ns));
    NormalObject(nfc, ms);
    NormalObject(nfc, ns);
    NormalizePlain(nfc, Obj(ns));
    Aligned(NormalMembers(nfc, ms), NormalMembers(nfc, ns), i);
    SameDecidesText(nfc, ms[i].value, ns[i].value);
  }

  /** The text of an array decides the texts of its items. */
  lemma ItemsDecide(nfc: Text -> Text, s: seq<Json>, t: seq<Json>)
    requires CanonicalText(nfc, Arr(s)).Some? && CanonicalText(nfc, Arr(s)) == CanonicalText(nfc, Arr(t))
    ensures |s| == |t| && forall i :: 0 <= i < |s| ==> CanonicalText(nfc, s[i]) == CanonicalText(nfc, t[i])
  {
    hide CanonicalText, BracketedText;
    ArrayByParts(nfc, s);
    ArrayByParts(nfc, t);
    TextDecidesSame(nfc, Arr(s), Arr(t));
    forall i | 0 <= i < |s| ensures CanonicalText(nfc, s[i]) == CanonicalText(nfc, t[i]) {
      assert Normalize(nfc, Arr(s)).value.items[i] == Normalize(nfc, s[i]).value;
      assert Normalize(nfc, Arr(t)).value.items[i] == Normalize(nfc, t[i]).value;
      SameDecidesText(nfc, s[i], t[i]);
    }
  }

  /** The text of a string decides its normal form. */
  lemma TextDecides(nfc: Text -> Text, s: Text, t: Text)
    ensures CanonicalText(nfc, Str(s)).Some? <==> Encodable(nfc(s))
    ensures CanonicalText(nfc, Str(s)).Some? && CanonicalText(nfc, Str(s)) == CanonicalText(nfc, Str(t)) ==>
            nfc(s) == nfc(t)
    ensures nfc(s) == nfc(t) ==> CanonicalText(nfc, Str(s)) == CanonicalText(nfc, Str(t))
  {
    if CanonicalText(nfc, Str(s)).Some? && CanonicalText(nfc, Str(s)) == CanonicalText(nfc, Str(t)) {
      TextDecidesSame(nfc, Str(s), Str(t));
    }
  }
}
