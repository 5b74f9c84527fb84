/** Records by the names of their fields. */
module RecordShape {
  // Field names are ASCII, which NFC leaves alone, so the text of a record decides which
  // fields it has and the text of each.

  import opened Order
  import opened Encoding
  import opened Json
  import opened MappingOrder
  import opened Compose
  import opened Records

  predicate Ascii(t: Text) { forall i :: 0 <= i < |t| ==> t[i] < 128 }

  /** A law of NFC: ASCII texts are in normal form. */
  ghost predicate KeepsAscii(nfc: Text -> Text) { forall t :: Ascii(t) ==> nfc(t) == t }

  /** Distinct ASCII names. */
  ghost predicate Columns(names: seq<string>) {
    Distinct(names) && forall i :: 0 <= i < |names| ==> AsciiName(names[i])
  }

  predicate AsciiName(s: string) { forall i :: 0 <= i < |s| ==> s[i] <= '~' }

  /** The record has exactly these fields, in this order. */
  ghost predicate Named(ms: seq<Member>, names: seq<string>) {
    |ms| == |names| && forall i :: 0 <= i < |ms| ==> ms[i].key == T(names[i])
  }

  lemma LiteralsDiffer(s: string, t: string)
    requires s != t
    ensures T(s) != T(t)
  {
    if |s| == |t| {
      var i :| 0 <= i < |s| && s[i] != t[i];
      assert T(s)[i] != T(t)[i];
    }
  }

  lemma LiteralEncodable(s: string)
    ensures Encodable(T(s))
  {
  }

  lemma LiteralKept(nfc: Text -> Text, s: string)
    requires KeepsAscii(nfc) && AsciiName(s)
    ensures nfc(T(s)) == T(s)
  {
    assert Ascii(T(s));
  }

  /** A field holds what stands under its name. */
  lemma NamedField(ms: seq<Member>, names: seq<string>, i: nat)
    requires Named(ms, names) && Distinct(names) && i < |names|
    ensures Field(Obj(ms), T(names[i])) == ms[i].value
  {
    hide T;
    forall j, k | 0 <= j < k < |ms| ensures ms[j].key != ms[k].key { LiteralsDiffer(names[j], names[k]); }
    FindAt(ms, i);
  }

  lemma NamedAbsent(ms: seq<Member>, names: seq<string>, name: string)
    requires Named(ms, names) && name !in names
    ensures Field(Obj(ms), T(name)) == Null
  {
    hide T;
    forall j | 0 <= j < |ms| ensures ms[j].key != T(name) { LiteralsDiffer(names[j], name); }
    FindNothing(ms, T(name));
  }

  lemma NamedReady(nfc: Text -> Text, ms: seq<Member>, names: seq<string>)
    requires KeepsAscii(nfc) && Named(ms, names) && Columns(names)
    ensures Uncollided(nfc, ms)
    ensures forall i :: 0 <= i < |ms| ==> Encodable(nfc(ms[i].key)) && nfc(ms[i].key) == ms[i].key
  {
    hide T, Encodable;
    forall i | 0 <= i < |ms| ensures nfc(ms[i].key) == ms[i].key && Encodable(nfc(ms[i].key)) {
      LiteralKept(nfc, names[i]);
      LiteralEncodable(names[i]);
    }
    forall i, j | 0 <= i < j < |ms| ensures nfc(ms[i].key) != nfc(ms[j].key) { LiteralsDiffer(names[i], names[j]); }
  }

  /** The texts of the fields, in order; nothing for a field that raises. */
  ghost function FieldTexts(nfc: Text -> Text, ms: seq<Member>): seq<Option<Text>> {
    seq(|ms|, i requires 0 <= i < |ms| => CanonicalText(nfc, ms[i].value))
  }

  lemma FieldTextsConcat(nfc: Text -> Text, ms: seq<Member>, ns: seq<Member>)
    ensures FieldTexts(nfc, ms + ns) == FieldTexts(nfc, ms) + FieldTexts(nfc, ns)
  {
    hide CanonicalText;
  }

  /** A record can be printed exactly when its fields can. */
  lemma NamedPrints(nfc: Text -> Text, ms: seq<Member>, names: seq<string>)
    requires KeepsAscii(nfc) && Named(ms, names) && Columns(names)
    ensures CanonicalText(nfc, Obj(ms)).Some? <==> None !in FieldTexts(nfc, ms)
  {
    hide CanonicalText, KeepsAscii, Columns, Named, Uncollided;
    NamedReady(nfc, ms, names);
    ObjectByParts(nfc, ms);
    if CanonicalText(nfc, Obj(ms)).None? {
      var i :| 0 <= i < |ms| && CanonicalText(nfc, ms[i].value).None?;
      assert FieldTexts(nfc, ms)[i] == None;
    }
  }

  /** Records with the same fields have the same text exactly when the fields have. */
  lemma NamedDecides(nfc: Text -> Text, ms: seq<Member>, ns: seq<Member>, names: seq<string>)
    requires Named(ms, names) && Named(ns, names) && CanonicalText(nfc, Obj(ms)).Some?
    ensures CanonicalText(nfc, Obj(ms)) == CanonicalText(nfc, Obj(ns)) <==> FieldTexts(nfc, ms) == FieldTexts(nfc, ns)
  {
    hide CanonicalText, T;
    if CanonicalText(nfc, Obj(ms)) == CanonicalText(nfc, Obj(ns)) {
      forall i | 0 <= i < |ms| ensures FieldTexts(nfc, ms)[i] == FieldTexts(nfc, ns)[i] {
        PartsDecide(nfc, ms, ns, i);
      }
    } else if FieldTexts(nfc, ms) == FieldTexts(nfc, ns) {
      forall i | 0 <= i < |ms| ensures CanonicalText(nfc, ms[i].value) == CanonicalText(nfc, ns[i].value) {
        assert FieldTexts(nfc, ms)[i] == FieldTexts(nfc, ns)[i];
      }
      SameParts(nfc, ms, ns);
    }
  }

  lemma NamedConcat(ms: seq<Member>, xs: seq<string>, ns: seq<Member>, ys: seq<string>)
    requires Named(ms, xs) && Named(ns, ys)
    ensures Named(ms + ns, xs + ys)
  {
    hide T;
  }

  /** The text of a record decides the names of its fields. */
  lemma TextDecidesNames(nfc: Text -> Text, ms: seq<Member>, ns: seq<Member>, xs: seq<string>, ys: seq<string>, i: nat)
    requires KeepsAscii(nfc) && Named(ms, xs) && Named(ns, ys) && Columns(xs) && Columns(ys) && i < |xs|
    requires CanonicalText(nfc, Obj(ms)).Some? && CanonicalText(nfc, Obj(ms)) == CanonicalText(nfc, Obj(ns))
    ensures xs[i] in ys
  {
    hide CanonicalText, T, Same, KeepsAscii, Columns, Normalize;
    NamedReady(nfc, ms, xs);
    NamedReady(nfc, ns, ys);
    TextDecidesSame(nfc, Obj(ms), Obj(ns));
    NormalObject(nfc, ms);
    NormalObject(nfc, ns);
    var m, n := NormalMembers(nfc, ms), NormalMembers(nfc, ns);
    assert HasRight(m[i], n) by { SameSides(m, n); }
    var j :| 0 <= j < |n| && SameMember(m[i], n[j]);
    if xs[i] != ys[j] { LiteralsDiffer(xs[i], ys[j]); }
  }

  /** Normalization keeps the names and normalizes each field. */
  lemma NormalFields(nfc: Text -> Text, ms: seq<Member>, names: seq<string>)
    requires KeepsAscii(nfc) && Named(ms, names) && Columns(names) && Normalize(nfc, Obj(ms)).Some?
    ensures forall i :: 0 <= i < |ms| ==>
              && Normalize(nfc, ms[i].value).Some?
              && Field(Normalize(nfc, Obj(ms)).value, T(names[i])) == Normalize(nfc, ms[i].value).value
  {
    hide T, Normalize, Field, KeepsAscii, AsciiName;
    NamedReady(nfc, ms, names);
    NormalObject(nfc, ms);
    var n := NormalMembers(nfc, ms);
    forall i | 0 <= i < |ms| ensures Field(Obj(n), T(names[i])) == Normalize(nfc, ms[i].value).value {
      NamedField(n, names, i);
    }
  }
}
