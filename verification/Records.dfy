/**
 JSON records, their sort keys, and `_order_records` over them.
 */
module Records {
  import opened Order
  import opened Encoding
  import opened Json
  import opened RecordOrder
  import opened MappingOrder
  import opened Compose
  import opened Evidence
  import Canonical

  /** `record[name]`, or null. */
  function Field(v: Json, name: Text): Json {
    match v
    case Obj(ms) => Find(ms, name)
    case _ => Null
  }

  function Find(ms: seq<Member>, name: Text): Json {
    if ms == [] then Null
    else if ms[0].key == name then ms[0].value
    else Find(ms[1..], name)
  }

  /** `record[name] or ""` of a text field. */
  function TextAt(v: Json, name: Text): Atom {
    match Field(v, name)
    case Str(s) => Txt(s)
    case _ => Txt([])
  }

  /** `record.get(name, 0)` of a number field. */
  function NumAt(v: Json, name: Text): Atom {
    match Field(v, name)
    case Int(n) => Num(n)
    case _ => Num(0)
  }

  lemma {:induction false} FindAt(ms: seq<Member>, i: nat)
    requires i < |ms| && forall i, j :: 0 <= i < j < |ms| ==> ms[i].key != ms[j].key
    ensures Find(ms, ms[i].key) == ms[i].value
  {
    if i > 0 {
      FindAt(ms[1..], i - 1);
    }
  }

  lemma {:induction false} FindNothing(ms: seq<Member>, name: Text)
    requires forall i :: 0 <= i < |ms| ==> ms[i].key != name
    ensures Find(ms, name) == Null
  {
    if ms != [] {
      FindNothing(ms[1..], name);
    }
  }

  /** Fields of equal values are equal. */
  lemma FieldSame(a: Json, b: Json, name: Text)
    requires Plain(a) && Plain(b) && Same(a, b)
    ensures Plain(Field(a, name)) && Plain(Field(b, name)) && Same(Field(a, name), Field(b, name))
  {
    if a.Obj? {
      var m, n := a.members, b.members;
      if i :| 0 <= i < |m| && m[i].key == name {
        assert HasRight(m[i], n) by { SameSides(m, n); }
        var j :| 0 <= j < |n| && SameMember(m[i], n[j]);
        FindAt(m, i);
        FindAt(n, j);
      } else {
        FindNothing(m, name);
        forall j | 0 <= j < |n| ensures n[j].key != name {
          assert HasLeft(m, n[j]) by { SameSides(m, n); }
          var i :| 0 <= i < |m| && SameMember(m[i], n[j]);
        }
        FindNothing(n, name);
      }
    }
  }

  /** A key function that equal records share. */
  ghost predicate Respects(key: Json -> Key) {
    forall a, b :: Plain(a) && Plain(b) && Same(a, b) ==> key(a) == key(b)
  }

  function RecordBytes(lib: Lib): Json -> Text {
    (v: Json) => match Encode(lib.nfc, v) case Some(b) => b case None => []
  }

  /** `_normalize` and the encoder accept the record. */
  predicate RecordUsable(lib: Lib, v: Json) {
    Normalize(lib.nfc, v).Some? && Encode(lib.nfc, Normalize(lib.nfc, v).value).Some?
  }

  predicate AllRecordsUsable(lib: Lib, vs: seq<Json>) {
    forall i :: 0 <= i < |vs| ==> RecordUsable(lib, vs[i])
  }

  function PreparedRecords(lib: Lib, vs: seq<Json>): seq<Json>
    requires AllRecordsUsable(lib, vs)
  {
    seq(|vs|, i requires 0 <= i < |vs| => Normalize(lib.nfc, vs[i]).value)
  }

  /** `_order_records` */
  ghost function OrderRecords(lib: Lib, vs: seq<Json>, key: Json -> Key): Option<seq<Json>> {
    if AllRecordsUsable(lib, vs) then Some(Ordered(PreparedRecords(lib, vs), RecordBytes(lib), key)) else None
  }

  method OrderRecordList(lib: Lib, vs: seq<Json>, key: Json -> Key) returns (r: Option<seq<Json>>)
    ensures r == OrderRecords(lib, vs, key)
  {
    hide Encode, Normalize, Ordered, RecordBytes;
    var records: seq<Json> := [];
    for k := 0 to |vs|
      invariant AllRecordsUsable(lib, vs[..k])
      invariant records == PreparedRecords(lib, vs[..k])
    {
      if !RecordUsable(lib, vs[k]) {
        return None;
      }
      records := records + [Normalize(lib.nfc, vs[k]).value];
    }
    assert vs[..|vs|] == vs;
    var sorted := OrderBy(records, RecordBytes(lib), key);
    r := Some(sorted);
  }

  /** A prepared record: normalized, plain, encodable. */
  ghost predicate SettledRecord(lib: Lib, v: Json) {
    Plain(v) && Normalize(lib.nfc, v) == Some(v) && Encode(lib.nfc, v).Some?
  }

  lemma PreparedSettled(lib: Lib, vs: seq<Json>, x: Json)
    requires Idempotent(lib.nfc) && AllRecordsUsable(lib, vs) && x in PreparedRecords(lib, vs)
    ensures SettledRecord(lib, x)
  {
    hide Encode, Normalize, Plain;
    var i :| 0 <= i < |vs| && PreparedRecords(lib, vs)[i] == x;
    NormalizePlain(lib.nfc, vs[i]);
    NormalizeIdempotent(lib.nfc, vs[i]);
  }

  lemma SettledBytesSame(lib: Lib, x: Json, y: Json)
    requires SettledRecord(lib, x) && SettledRecord(lib, y) && RecordBytes(lib)(x) == RecordBytes(lib)(y)
    ensures Same(x, y) && CanonicalText(lib.nfc, x) == CanonicalText(lib.nfc, y)
  {
    hide Plain, Same, Normalize, CanonicalText, Encode;
    Canonical.EncodeDecidesSame(lib.nfc, x, y);
    PlainKeyed(x);
    PlainKeyed(y);
    MappingOrderForgotten(lib.nfc, x, y);
  }

  lemma RecordKeysByBytes(lib: Lib, vs: seq<Json>, ws: seq<Json>, key: Json -> Key)
    requires Idempotent(lib.nfc) && Respects(key) && AllRecordsUsable(lib, vs) && AllRecordsUsable(lib, ws)
    ensures KeyByBytes(PreparedRecords(lib, vs), PreparedRecords(lib, ws), RecordBytes(lib), key)
  {
    hide RecordUsable, RecordBytes, PreparedRecords, Plain, Same, Encode, Normalize;
    var p, q := PreparedRecords(lib, vs), PreparedRecords(lib, ws);
    forall x, y | x in p && y in q && RecordBytes(lib)(x) == RecordBytes(lib)(y) ensures key(x) == key(y) {
      PreparedSettled(lib, vs, x);
      PreparedSettled(lib, ws, y);
      SettledBytesSame(lib, x, y);
    }
  }

  // ------------------------------------------------- only the canonical texts matter

  /** The canonical texts of the records; `None` among them for a record that raises. */
  ghost function RecordTexts(lib: Lib, vs: seq<Json>): set<Option<Text>> {
    set v | v in vs :: CanonicalText(lib.nfc, v)
  }

  lemma UsableText(lib: Lib, v: Json)
    requires Idempotent(lib.nfc)
    ensures RecordUsable(lib, v) <==> CanonicalText(lib.nfc, v).Some?
    ensures RecordUsable(lib, v) ==>
              RecordBytes(lib)(Normalize(lib.nfc, v).value) == Utf8(CanonicalText(lib.nfc, v).value)
  {
    hide Normalize, Utf8, Serialize, AllEncodable;
    if Normalize(lib.nfc, v).Some? { NormalizeIdempotent(lib.nfc, v); }
  }

  lemma AllUsableTexts(lib: Lib, vs: seq<Json>)
    requires Idempotent(lib.nfc)
    ensures AllRecordsUsable(lib, vs) <==> None !in RecordTexts(lib, vs)
  {
    hide RecordUsable, CanonicalText;
    forall i | 0 <= i < |vs| ensures RecordUsable(lib, vs[i]) <==> CanonicalText(lib.nfc, vs[i]).Some? {
      UsableText(lib, vs[i]);
    }
    if None !in RecordTexts(lib, vs) {
      forall i | 0 <= i < |vs| ensures RecordUsable(lib, vs[i]) { assert vs[i] in vs; }
    }
  }

  lemma BytesFromText(lib: Lib, vs: seq<Json>, t: Text)
    requires Idempotent(lib.nfc) && AllRecordsUsable(lib, vs) && Some(t) in RecordTexts(lib, vs)
    ensures HasBytes(PreparedRecords(lib, vs), RecordBytes(lib), Utf8(t))
  {
    hide RecordBytes, CanonicalText, Utf8, Encode, Normalize;
    var v :| v in vs && CanonicalText(lib.nfc, v) == Some(t);
    var i :| 0 <= i < |vs| && vs[i] == v;
    UsableText(lib, v);
    assert PreparedRecords(lib, vs)[i] == Normalize(lib.nfc, v).value;
  }

  lemma TextFromBytes(lib: Lib, vs: seq<Json>, b: Text) returns (t: Text)
    requires Idempotent(lib.nfc) && AllRecordsUsable(lib, vs)
    requires HasBytes(PreparedRecords(lib, vs), RecordBytes(lib), b)
    ensures Some(t) in RecordTexts(lib, vs) && Utf8(t) == b && Encodable(t)
  {
    hide RecordUsable, RecordBytes, Utf8, Normalize, Serialize, Encodable;
    var i :| 0 <= i < |vs| && RecordBytes(lib)(PreparedRecords(lib, vs)[i]) == b;
    UsableText(lib, vs[i]);
    assert vs[i] in vs;
    t := CanonicalText(lib.nfc, vs[i]).value;
    Canonical.SerializeEncodable(Normalize(lib.nfc, vs[i]).value);
  }

  lemma SubsetBytes(lib: Lib, vs: seq<Json>, ws: seq<Json>, b: Text)
    requires Idempotent(lib.nfc) && AllRecordsUsable(lib, vs) && AllRecordsUsable(lib, ws)
    requires RecordTexts(lib, vs) <= RecordTexts(lib, ws) && HasBytes(PreparedRecords(lib, vs), RecordBytes(lib), b)
    ensures HasBytes(PreparedRecords(lib, ws), RecordBytes(lib), b)
  {
    hide RecordTexts, HasBytes, AllRecordsUsable, PreparedRecords, RecordBytes, Utf8;
    var t := TextFromBytes(lib, vs, b);
    BytesFromText(lib, ws, t);
  }

  ghost function ArrayText(lib: Lib, vs: seq<Json>): Option<Text> { CanonicalText(lib.nfc, Arr(vs)) }

  /** The text of an ordered array is a function of the set of its records' texts. */
  lemma ArrayByTexts(lib: Lib, vs: seq<Json>, ws: seq<Json>, key: Json -> Key)
    requires Idempotent(lib.nfc) && Respects(key) && RecordTexts(lib, vs) == RecordTexts(lib, ws)
    ensures OrderRecords(lib, vs, key).Some? <==> OrderRecords(lib, ws, key).Some?
    ensures OrderRecords(lib, vs, key).Some? ==>
              ArrayText(lib, OrderRecords(lib, vs, key).value) == ArrayText(lib, OrderRecords(lib, ws, key).value)
  {
    hide RecordTexts, AllRecordsUsable, RecordBytes, PreparedRecords, CanonicalText, Ordered, Respects, Idempotent,
         HasBytes;
    AllUsableTexts(lib, vs);
    AllUsableTexts(lib, ws);
    if AllRecordsUsable(lib, vs) {
      var p, q := PreparedRecords(lib, vs), PreparedRecords(lib, ws);
      RecordKeysByBytes(lib, vs, ws, key);
      forall b ensures HasBytes(p, RecordBytes(lib), b) <==> HasBytes(q, RecordBytes(lib), b) {
        if HasBytes(p, RecordBytes(lib), b) { SubsetBytes(lib, vs, ws, b); }
        if HasBytes(q, RecordBytes(lib), b) { SubsetBytes(lib, ws, vs, b); }
      }
      OrderedByBytes(p, q, RecordBytes(lib), key);
      SameBytesSameText(lib, vs, ws, key);
    }
  }

  lemma SameBytesSameText(lib: Lib, vs: seq<Json>, ws: seq<Json>, key: Json -> Key)
    requires Idempotent(lib.nfc) && AllRecordsUsable(lib, vs) && AllRecordsUsable(lib, ws)
    requires BytesOf(OrderRecords(lib, vs, key).value, RecordBytes(lib)) ==
             BytesOf(OrderRecords(lib, ws, key).value, RecordBytes(lib))
    ensures ArrayText(lib, OrderRecords(lib, vs, key).value) == ArrayText(lib, OrderRecords(lib, ws, key).value)
  {
    hide RecordUsable, RecordBytes, PreparedRecords, CanonicalText, Ordered, Idempotent;
    var x, y := OrderRecords(lib, vs, key).value, OrderRecords(lib, ws, key).value;
    var a, b := BytesOf(x, RecordBytes(lib)), BytesOf(y, RecordBytes(lib));
    assert |x| == |a| == |b| == |y|;
    forall i | 0 <= i < |x| ensures CanonicalText(lib.nfc, x[i]) == CanonicalText(lib.nfc, y[i]) {
      OrderedFrom(PreparedRecords(lib, vs), RecordBytes(lib), key, x[i]);
      OrderedFrom(PreparedRecords(lib, ws), RecordBytes(lib), key, y[i]);
      PreparedSettled(lib, vs, x[i]);
      PreparedSettled(lib, ws, y[i]);
      assert a[i] == b[i];
      SettledBytesSame(lib, x[i], y[i]);
    }
    SameItems(lib.nfc, x, y);
  }

  /** An ordered array can be printed. */
  lemma OrderedPrints(lib: Lib, vs: seq<Json>, key: Json -> Key)
    requires Idempotent(lib.nfc) && OrderRecords(lib, vs, key).Some?
    ensures ArrayText(lib, OrderRecords(lib, vs, key).value).Some?
  {
    hide RecordUsable, RecordBytes, PreparedRecords, CanonicalText, Ordered, Idempotent, BracketedText;
    var x := OrderRecords(lib, vs, key).value;
    forall i | 0 <= i < |x| ensures CanonicalText(lib.nfc, x[i]).Some? {
      OrderedFrom(PreparedRecords(lib, vs), RecordBytes(lib), key, x[i]);
      PreparedSettled(lib, vs, x[i]);
      EncodeHasText(lib.nfc, x[i]);
    }
    ArrayByParts(lib.nfc, x);
  }

  lemma EncodeHasText(nfc: Text -> Text, v: Json)
    ensures Encode(nfc, v).Some? <==> CanonicalText(nfc, v).Some?
    ensures Encode(nfc, v).Some? ==> Encode(nfc, v).value == Utf8(CanonicalText(nfc, v).value)
  {
    hide CanonicalText, Utf8;
  }

  /** The text of an ordered array decides the set of its records' texts. */
  lemma ArrayDecidesTexts(lib: Lib, vs: seq<Json>, ws: seq<Json>, key: Json -> Key)
    requires Idempotent(lib.nfc) && OrderRecords(lib, vs, key).Some? && OrderRecords(lib, ws, key).Some?
    requires ArrayText(lib, OrderRecords(lib, vs, key).value) == ArrayText(lib, OrderRecords(lib, ws, key).value)
    ensures RecordTexts(lib, vs) <= RecordTexts(lib, ws)
  {
    hide AllRecordsUsable, RecordBytes, PreparedRecords, CanonicalText, Ordered, Idempotent, HasBytes, Encode, Utf8,
         Encodable, RecordTexts;
    var x, y := OrderRecords(lib, vs, key).value, OrderRecords(lib, ws, key).value;
    var p, q := PreparedRecords(lib, vs), PreparedRecords(lib, ws);
    OrderedPrints(lib, vs, key);
    ItemsDecide(lib.nfc, x, y);
    AllUsableTexts(lib, vs);
    OrderedStrict(p, RecordBytes(lib), key);
    OrderedStrict(q, RecordBytes(lib), key);
    forall text | text in RecordTexts(lib, vs) ensures text in RecordTexts(lib, ws) {
      var t := text.value;
      BytesFromText(lib, vs, t);
      BytesAcross(lib, x, y, Utf8(t));
      var t' := TextFromBytes(lib, ws, Utf8(t));
      TextEncodable(lib, vs, t);
      Utf8Injective(t, t');
    }
  }

  lemma TextEncodable(lib: Lib, vs: seq<Json>, t: Text)
    requires Some(t) in RecordTexts(lib, vs)
    ensures Encodable(t)
  {
    hide Normalize, Serialize, AllEncodable, Encodable;
    var v :| v in vs && CanonicalText(lib.nfc, v) == Some(t);
    Canonical.SerializeEncodable(Normalize(lib.nfc, v).value);
  }

  lemma BytesAcross(lib: Lib, x: seq<Json>, y: seq<Json>, b: Text)
    requires |x| == |y| && forall i :: 0 <= i < |x| ==> CanonicalText(lib.nfc, x[i]) == CanonicalText(lib.nfc, y[i])
    requires HasBytes(x, RecordBytes(lib), b)
    ensures HasBytes(y, RecordBytes(lib), b)
  {
    hide CanonicalText, Utf8;
    var i :| 0 <= i < |x| && RecordBytes(lib)(x[i]) == b;
    EncodeHasText(lib.nfc, x[i]);
    EncodeHasText(lib.nfc, y[i]);
    assert RecordBytes(lib)(y[i]) == b;
  }

  /** Ordered arrays have equal texts exactly when they hold the same set of record texts. */
  lemma ArrayExactly(lib: Lib, vs: seq<Json>, ws: seq<Json>, key: Json -> Key)
    requires Idempotent(lib.nfc) && Respects(key) && OrderRecords(lib, vs, key).Some?
    requires OrderRecords(lib, ws, key).Some?
    ensures ArrayText(lib, OrderRecords(lib, vs, key).value) == ArrayText(lib, OrderRecords(lib, ws, key).value) <==>
            RecordTexts(lib, vs) == RecordTexts(lib, ws)
  {
    hide OrderRecords, ArrayText, RecordTexts, Respects, Idempotent;
    if RecordTexts(lib, vs) == RecordTexts(lib, ws) {
      ArrayByTexts(lib, vs, ws, key);
    }
    if ArrayText(lib, OrderRecords(lib, vs, key).value) == ArrayText(lib, OrderRecords(lib, ws, key).value) {
      ArrayDecidesTexts(lib, vs, ws, key);
      ArrayDecidesTexts(lib, ws, vs, key);
    }
  }
}
