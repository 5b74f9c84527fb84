/** Facts in normal form. */
module NormalFacts {
  // What one record says once everything that canonical form forgets is gone, column by
  // column; the text of a record and its normal form decide each other.

  import opened Order
  import opened Encoding
  import opened Json
  import opened MappingOrder
  import opened Compose
  import opened RecordOrder
  import opened Evidence
  import opened References
  import opened Edges
  import opened Records
  import opened RecordShape
  import opened GraphDocument
  import RepoPath
  import Canonical

  /** The laws of NFC that records need: it is idempotent and leaves ASCII alone. */
  ghost predicate Standard(lib: Lib) { Idempotent(lib.nfc) && KeepsAscii(lib.nfc) }

  /** NFC of the text, when that can be encoded. */
  function NormalText(lib: Lib, t: Text): Option<Text> {
    if Encodable(lib.nfc(t)) then Some(lib.nfc(t)) else None
  }

  /** A value after NFC, every mapping in key order; nothing when it cannot be canonical JSON. */
  ghost function NormalValue(lib: Lib, v: Json): Option<Json> {
    if CanonicalText(lib.nfc, v).Some? then Some(Canon(Normalize(lib.nfc, v).value)) else None
  }

  // ------------------------------------------------- the parts of records

  lemma TextPart(lib: Lib, s: Text, t: Text)
    ensures CanonicalText(lib.nfc, Str(s)).Some? <==> NormalText(lib, s).Some?
    ensures CanonicalText(lib.nfc, Str(s)) == CanonicalText(lib.nfc, Str(t)) <==>
            NormalText(lib, s) == NormalText(lib, t)
  {
    hide CanonicalText, Encodable;
    TextDecides(lib.nfc, s, t);
    TextDecides(lib.nfc, t, s);
  }

  lemma ValuePart(lib: Lib, u: Json, v: Json)
    ensures CanonicalText(lib.nfc, u) == CanonicalText(lib.nfc, v) <==> NormalValue(lib, u) == NormalValue(lib, v)
  {
    hide Normalize, Serialize, Same, Plain, AllEncodable, Canon;
    if CanonicalText(lib.nfc, u).Some? && CanonicalText(lib.nfc, v).Some? {
      var m, n := Normalize(lib.nfc, u).value, Normalize(lib.nfc, v).value;
      NormalizePlain(lib.nfc, u);
      NormalizePlain(lib.nfc, v);
      CanonDecidesSame(m, n);
      if CanonicalText(lib.nfc, u) == CanonicalText(lib.nfc, v) { TextDecidesSame(lib.nfc, u, v); }
      if Same(m, n) { SameDecidesText(lib.nfc, u, v); }
    }
  }

  lemma NumberPart(lib: Lib, m: int, n: int)
    ensures CanonicalText(lib.nfc, Int(m)).Some? <==> -MAX_EXACT <= m <= MAX_EXACT
    ensures CanonicalText(lib.nfc, Int(m)).Some? ==>
              (CanonicalText(lib.nfc, Int(m)) == CanonicalText(lib.nfc, Int(n)) <==> m == n)
  {
    if CanonicalText(lib.nfc, Int(m)).Some? && CanonicalText(lib.nfc, Int(m)) == CanonicalText(lib.nfc, Int(n)) {
      TextDecidesSame(lib.nfc, Int(m), Int(n));
    }
  }

  /** An optional text: nothing when it raises. */
  function NormalOption(lib: Lib, t: Option<Text>): Option<Option<Text>> {
    match t
    case None => Some(None)
    case Some(s) => match NormalText(lib, s) case None => None case Some(n) => Some(Some(n))
  }

  lemma OptionPart(lib: Lib, s: Option<Text>, t: Option<Text>)
    ensures CanonicalText(lib.nfc, OrNull(s)).Some? <==> NormalOption(lib, s).Some?
    ensures CanonicalText(lib.nfc, OrNull(s)) == CanonicalText(lib.nfc, OrNull(t)) <==>
            NormalOption(lib, s) == NormalOption(lib, t)
  {
    hide CanonicalText;
    NullPart(lib, s);
    NullPart(lib, t);
    match (s, t)
    case (Some(x), Some(y)) => TextPart(lib, x, y);
    case (Some(x), None) => TextPart(lib, x, x);
    case (None, Some(y)) => TextPart(lib, y, y);
    case (None, None) =>
  }

  lemma NullPart(lib: Lib, t: Option<Text>)
    ensures CanonicalText(lib.nfc, Null).Some?
    ensures CanonicalText(lib.nfc, OrNull(t)) == CanonicalText(lib.nfc, Null) <==> t == None
  {
    if CanonicalText(lib.nfc, OrNull(t)) == CanonicalText(lib.nfc, Null) {
      TextDecidesSame(lib.nfc, Null, OrNull(t));
    }
  }

  const ENDPOINT_COLUMNS: seq<string> := ["kind", "stable_key"]

  lemma EndpointPart(lib: Lib, kind: Text, key: Text, kind': Text, key': Text)
    requires Standard(lib)
    ensures CanonicalText(lib.nfc, Endpoint(kind, key)).Some? <==>
            NormalText(lib, kind).Some? && NormalText(lib, key).Some?
    ensures CanonicalText(lib.nfc, Endpoint(kind, key)).Some? ==>
              (CanonicalText(lib.nfc, Endpoint(kind, key)) == CanonicalText(lib.nfc, Endpoint(kind', key')) <==>
               NormalText(lib, kind) == NormalText(lib, kind') && NormalText(lib, key) == NormalText(lib, key'))
  {
    hide CanonicalText, T, NormalText, Idempotent, KeepsAscii;
    var ms, ns := Endpoint(kind, key).members, Endpoint(kind', key').members;
    TextPart(lib, kind, kind');
    TextPart(lib, key, key');
    assert Columns(ENDPOINT_COLUMNS);
    assert FieldTexts(lib.nfc, ms) == [CanonicalText(lib.nfc, Str(kind)), CanonicalText(lib.nfc, Str(key))];
    assert FieldTexts(lib.nfc, ns) == [CanonicalText(lib.nfc, Str(kind')), CanonicalText(lib.nfc, Str(key'))];
    NamedPrints(lib.nfc, ms, ENDPOINT_COLUMNS);
    if CanonicalText(lib.nfc, Endpoint(kind, key)).Some? { NamedDecides(lib.nfc, ms, ns, ENDPOINT_COLUMNS); }
  }

  // ------------------------------------------------- lists of evidence and of references

  lemma ListPart(lib: Lib, s: seq<Json>, t: seq<Json>)
    requires forall i :: 0 <= i < |s| ==> CanonicalText(lib.nfc, s[i]).Some?
    ensures CanonicalText(lib.nfc, Arr(s)).Some?
    ensures CanonicalText(lib.nfc, Arr(s)) == CanonicalText(lib.nfc, Arr(t)) <==>
            |s| == |t| && forall i :: 0 <= i < |s| ==> CanonicalText(lib.nfc, s[i]) == CanonicalText(lib.nfc, t[i])
  {
    hide CanonicalText, BracketedText;
    ArrayByParts(lib.nfc, s);
    if CanonicalText(lib.nfc, Arr(s)) == CanonicalText(lib.nfc, Arr(t)) {
      ItemsDecide(lib.nfc, s, t);
    } else if |s| == |t| && forall i :: 0 <= i < |s| ==> CanonicalText(lib.nfc, s[i]) == CanonicalText(lib.nfc, t[i]) {
      SameItems(lib.nfc, s, t);
    }
  }

  lemma SettledText(lib: Lib, e: Evidence, f: Evidence)
    requires Settled(lib, e) && Settled(lib, f)
    ensures CanonicalText(lib.nfc, EvidenceJson(e)).Some?
    ensures CanonicalText(lib.nfc, EvidenceJson(e)) == CanonicalText(lib.nfc, EvidenceJson(f)) <==> e == f
  {
    hide CanonicalText, Utf8, EvidenceJson;
    EncodeHasText(lib.nfc, EvidenceJson(e));
    EncodeHasText(lib.nfc, EvidenceJson(f));
    if CanonicalText(lib.nfc, EvidenceJson(e)) == CanonicalText(lib.nfc, EvidenceJson(f)) { BytesIdentify(lib, e, f); }
  }

  lemma OrderedSettled(lib: Lib, es: seq<Evidence>, i: nat)
    requires Idempotent(lib.nfc) && OrderEvidence(lib, es).Some? && i < |OrderEvidence(lib, es).value|
    ensures Settled(lib, OrderEvidence(lib, es).value[i])
  {
    hide Settled, Usable, Bytes, Ordered;
    OrderedFrom(Prepared(lib, es), Bytes(lib), EvidenceKey, OrderEvidence(lib, es).value[i]);
    var j :| 0 <= j < |es| && Prepared(lib, es)[j] == OrderEvidence(lib, es).value[i];
    PrepareSettles(lib, es[j]);
  }

  lemma EvidenceListPart(lib: Lib, es: seq<Evidence>, fs: seq<Evidence>)
    requires Idempotent(lib.nfc) && OrderEvidence(lib, es).Some? && OrderEvidence(lib, fs).Some?
    ensures var x, y := OrderEvidence(lib, es).value, OrderEvidence(lib, fs).value;
            && CanonicalText(lib.nfc, EvidenceArray(x)).Some?
            && (CanonicalText(lib.nfc, EvidenceArray(x)) == CanonicalText(lib.nfc, EvidenceArray(y)) <==> x == y)
  {
    hide Settled, CanonicalText, EvidenceJson, OrderEvidence;
    var x, y := OrderEvidence(lib, es).value, OrderEvidence(lib, fs).value;
    forall i | 0 <= i < |x| ensures CanonicalText(lib.nfc, EvidenceJson(x[i])).Some? {
      OrderedSettled(lib, es, i);
      SettledText(lib, x[i], x[i]);
    }
    forall i | 0 <= i < |x| && i < |y|
      ensures CanonicalText(lib.nfc, EvidenceJson(x[i])) == CanonicalText(lib.nfc, EvidenceJson(y[i])) <==> x[i] == y[i]
    {
      OrderedSettled(lib, es, i);
      OrderedSettled(lib, fs, i);
      SettledText(lib, x[i], y[i]);
    }
    var s, t := EvidenceArray(x).items, EvidenceArray(y).items;
    ListPart(lib, s, t);
    assert forall i :: 0 <= i < |x| ==> s[i] == EvidenceJson(x[i]);
    assert forall i :: 0 <= i < |y| ==> t[i] == EvidenceJson(y[i]);
    assert x == y <==> |x| == |y| && forall i :: 0 <= i < |x| ==> x[i] == y[i];
  }

  lemma SoundText(lib: Lib, p: Reference, q: Reference)
    requires Sound(lib, p) && Sound(lib, q) && PrepareReference(lib, p) == p && PrepareReference(lib, q) == q
    ensures CanonicalText(lib.nfc, ReferenceJson(p)).Some?
    ensures CanonicalText(lib.nfc, ReferenceJson(p)) == CanonicalText(lib.nfc, ReferenceJson(q)) <==> p == q
  {
    hide CanonicalText, Utf8, ReferenceJson, Rank;
    EncodeHasText(lib.nfc, ReferenceJson(p));
    EncodeHasText(lib.nfc, ReferenceJson(q));
    if CanonicalText(lib.nfc, ReferenceJson(p)) == CanonicalText(lib.nfc, ReferenceJson(q)) {
      ReferenceBytesIdentify(lib, p, q);
    }
  }

  lemma SortedSound(lib: Lib, rs: seq<Reference>, i: nat)
    requires Idempotent(lib.nfc) && SortDerivedFrom(lib, rs).Some? && i < |SortDerivedFrom(lib, rs).value|
    ensures var p := SortDerivedFrom(lib, rs).value[i]; Sound(lib, p) && PrepareReference(lib, p) == p
  {
    hide Sound, ReferenceBytes, Ordered, PrepareReference;
    OrderedFrom(PreparedReferences(lib, rs), ReferenceBytes(lib), ReferenceKey, SortDerivedFrom(lib, rs).value[i]);
    var j :| 0 <= j < |rs| && PreparedReferences(lib, rs)[j] == SortDerivedFrom(lib, rs).value[i];
    PreparedAgain(lib, rs[j]);
  }

  lemma ReferenceListPart(lib: Lib, rs: seq<Reference>, qs: seq<Reference>)
    requires Idempotent(lib.nfc) && SortDerivedFrom(lib, rs).Some? && SortDerivedFrom(lib, qs).Some?
    ensures var x, y := SortDerivedFrom(lib, rs).value, SortDerivedFrom(lib, qs).value;
            && CanonicalText(lib.nfc, ReferenceArray(x)).Some?
            && (CanonicalText(lib.nfc, ReferenceArray(x)) == CanonicalText(lib.nfc, ReferenceArray(y)) <==> x == y)
  {
    hide Sound, CanonicalText, ReferenceJson, SortDerivedFrom, PrepareReference;
    var x, y := SortDerivedFrom(lib, rs).value, SortDerivedFrom(lib, qs).value;
    forall i | 0 <= i < |x| ensures CanonicalText(lib.nfc, ReferenceJson(x[i])).Some? {
      SortedSound(lib, rs, i);
      SoundText(lib, x[i], x[i]);
    }
    forall i | 0 <= i < |x| && i < |y|
      ensures CanonicalText(lib.nfc, ReferenceJson(x[i])) == CanonicalText(lib.nfc, ReferenceJson(y[i])) <==>
              x[i] == y[i]
    {
      SortedSound(lib, rs, i);
      SortedSound(lib, qs, i);
      SoundText(lib, x[i], y[i]);
    }
    var s, t := ReferenceArray(x).items, ReferenceArray(y).items;
    ListPart(lib, s, t);
    assert forall i :: 0 <= i < |x| ==> s[i] == ReferenceJson(x[i]);
    assert forall i :: 0 <= i < |y| ==> t[i] == ReferenceJson(y[i]);
    assert x == y <==> |x| == |y| && forall i :: 0 <= i < |x| ==> x[i] == y[i];
  }

  lemma LiteralPrints(lib: Lib, s: string)
    requires KeepsAscii(lib.nfc) && AsciiName(s)
    ensures CanonicalText(lib.nfc, Str(T(s))).Some?
  {
    hide CanonicalText, T;
    LiteralKept(lib.nfc, s);
    LiteralEncodable(s);
    TextPart(lib, T(s), T(s));
  }

  // ------------------------------------------------- nodes

  /** A node as its record tells it. */
  datatype NormalNode = NormalNode(nodeKind: Text, stableKey: Text, truthClass: Text, evidence: seq<Evidence>,
                                   name: Option<Text>, language: Option<Text>, properties: Option<Json>)

  predicate HasProperties(n: Node) { n.properties.Some? && n.properties.value != [] }

  ghost function NormalProperties(lib: Lib, n: Node): Option<Option<Json>> {
    if !HasProperties(n) then Some(None)
    else match NormalValue(lib, Obj(n.properties.value)) case None => None case Some(v) => Some(Some(v))
  }

  /** The normal form of a node; nothing when its record raises. */
  ghost function NormalOfNode(lib: Lib, n: Node): Option<NormalNode> {
    var kind, key, truth := NormalText(lib, n.nodeKind), NormalText(lib, n.stableKey), NormalText(lib, n.truthClass);
    var es, name, language := OrderEvidence(lib, n.evidence), NormalOption(lib, n.name), NormalOption(lib, n.language);
    var properties := NormalProperties(lib, n);
    if kind.None? || key.None? || truth.None? || es.None? || name.None? || language.None? || properties.None? then None
    else Some(NormalNode(kind.value, key.value, truth.value, es.value, name.value, language.value, properties.value))
  }

  const NODE_COLUMNS: seq<string> := ["kind", "node_kind", "stable_key", "truth_class", "schema_version", "evidence"]

  function OptionalColumn(name: string, present: bool): seq<string> { if present then [name] else [] }

  function NodeColumns(n: Node): seq<string> {
    NODE_COLUMNS + OptionalColumn("name", n.name.Some?) + OptionalColumn("language", n.language.Some?)
    + OptionalColumn("properties", HasProperties(n))
  }

  ghost function NodeMembers(schema: Text, n: Node, es: seq<Evidence>): seq<Member> {
    NodeHead(schema, n, es) + PropertyMembers(n.properties)
  }

  lemma ColumnsWith(names: seq<string>, name: string, present: bool)
    requires Columns(names) && AsciiName(name) && name !in names
    ensures Columns(names + OptionalColumn(name, present))
  {
    hide AsciiName;
    if !present { assert names + [] == names; }
  }

  lemma NodeColumnsApart(n: Node)
    ensures Columns(NodeColumns(n))
  {
    hide Columns, HasProperties;
    assert Columns(NODE_COLUMNS) by { FixedApart(); }
    ColumnsWith(NODE_COLUMNS, "name", n.name.Some?);
    ColumnsWith(NODE_COLUMNS + OptionalColumn("name", n.name.Some?), "language", n.language.Some?);
    ColumnsWith(NODE_COLUMNS + OptionalColumn("name", n.name.Some?) + OptionalColumn("language", n.language.Some?),
                "properties", HasProperties(n));
  }

  lemma FixedApart()
    ensures Columns(NODE_COLUMNS)
  {
    hide AsciiName;
    FixedAscii();
  }

  lemma FixedAscii()
    ensures forall i :: 0 <= i < |NODE_COLUMNS| ==> AsciiName(NODE_COLUMNS[i])
  {
    assert AsciiName("kind") && AsciiName("node_kind") && AsciiName("stable_key") && AsciiName("truth_class")
        && AsciiName("schema_version") && AsciiName("evidence");
  }

  lemma NodeNamed(schema: Text, n: Node, es: seq<Evidence>)
    ensures Named(NodeMembers(schema, n, es), NodeColumns(n))
  {
    hide T, EvidenceArray;
  }

  ghost function OptionalText(lib: Lib, v: Option<Json>): (r: seq<Option<Text>>)
    ensures |r| == if v.Some? then 1 else 0
  {
    match v case None => [] case Some(j) => [CanonicalText(lib.nfc, j)]
  }

  function StrOf(t: Option<Text>): Option<Json> { match t case None => None case Some(s) => Some(Str(s)) }

  function PropertiesOf(n: Node): Option<Json> { if HasProperties(n) then Some(Obj(n.properties.value)) else None }

  ghost function NodeFixed(lib: Lib, schema: Text, n: Node, es: seq<Evidence>): (r: seq<Option<Text>>)
    ensures |r| == 6
  {
    [CanonicalText(lib.nfc, Str(T("node"))), CanonicalText(lib.nfc, Str(n.nodeKind)),
     CanonicalText(lib.nfc, Str(n.stableKey)), CanonicalText(lib.nfc, Str(n.truthClass)),
     CanonicalText(lib.nfc, Str(schema)), CanonicalText(lib.nfc, EvidenceArray(es))]
  }

  lemma NodeTexts(lib: Lib, schema: Text, n: Node, es: seq<Evidence>)
    ensures FieldTexts(lib.nfc, NodeMembers(schema, n, es)) ==
            NodeFixed(lib, schema, n, es) + OptionalText(lib, StrOf(n.name)) + OptionalText(lib, StrOf(n.language))
            + OptionalText(lib, PropertiesOf(n))
  {
    hide T, EvidenceArray, CanonicalText;
  }

  lemma OptionalTextPart(lib: Lib, s: Option<Text>, t: Option<Text>)
    requires s.Some? <==> t.Some?
    ensures None !in OptionalText(lib, StrOf(s)) <==> NormalOption(lib, s).Some?
    ensures OptionalText(lib, StrOf(s)) == OptionalText(lib, StrOf(t)) <==> NormalOption(lib, s) == NormalOption(lib, t)
  {
    hide CanonicalText, NormalText;
    if s.Some? { TextPart(lib, s.value, t.value); }
  }

  lemma PropertiesPart(lib: Lib, n: Node, m: Node)
    requires HasProperties(n) <==> HasProperties(m)
    ensures None !in OptionalText(lib, PropertiesOf(n)) <==> NormalProperties(lib, n).Some?
    ensures OptionalText(lib, PropertiesOf(n)) == OptionalText(lib, PropertiesOf(m)) <==>
            NormalProperties(lib, n) == NormalProperties(lib, m)
  {
    hide CanonicalText, Normalize;
    if HasProperties(n) { ValuePart(lib, Obj(n.properties.value), Obj(m.properties.value)); }
  }

  lemma NodePrints(lib: Lib, schema: Text, n: Node)
    requires Standard(lib) && NormalText(lib, schema).Some?
    ensures TextOf(lib, NodeRecord(lib, schema, n)).Some? <==> NormalOfNode(lib, n).Some?
  {
    hide CanonicalText, T, OrderEvidence, Idempotent, KeepsAscii, EvidenceArray, NormalText, NodeHead,
         PropertyMembers, Columns, Named, OptionalText, NormalOption, NormalProperties, FieldTexts, HasProperties;
    if OrderEvidence(lib, n.evidence).Some? {
      var es := OrderEvidence(lib, n.evidence).value;
      var ms := NodeMembers(schema, n, es);
      NodeNamed(schema, n, es);
      NodeColumnsApart(n);
      NamedPrints(lib.nfc, ms, NodeColumns(n));
      NodeTexts(lib, schema, n, es);
      LiteralPrints(lib, "node");
      TextPart(lib, schema, schema);
      TextPart(lib, n.nodeKind, n.nodeKind);
      TextPart(lib, n.stableKey, n.stableKey);
      TextPart(lib, n.truthClass, n.truthClass);
      EvidenceListPart(lib, n.evidence, n.evidence);
      OptionalTextPart(lib, n.name, n.name);
      OptionalTextPart(lib, n.language, n.language);
      PropertiesPart(lib, n, n);
    }
  }

  /** Both nodes have the same optional columns. */
  ghost predicate SameShape(n: Node, m: Node) {
    && (n.name.Some? <==> m.name.Some?) && (n.language.Some? <==> m.language.Some?)
    && (HasProperties(n) <==> HasProperties(m))
  }

  lemma ColumnPresent(n: Node)
    ensures "name" in NodeColumns(n) <==> n.name.Some?
    ensures "language" in NodeColumns(n) <==> n.language.Some?
    ensures "properties" in NodeColumns(n) <==> HasProperties(n)
  {
    hide HasProperties;
    assert "name" !in NODE_COLUMNS && "language" !in NODE_COLUMNS && "properties" !in NODE_COLUMNS;
  }

  lemma ShapeByText(lib: Lib, ms: seq<Member>, ns: seq<Member>, n: Node, m: Node)
    requires Standard(lib) && Named(ms, NodeColumns(n)) && Named(ns, NodeColumns(m))
    requires CanonicalText(lib.nfc, Obj(ms)).Some?
    requires CanonicalText(lib.nfc, Obj(ms)) == CanonicalText(lib.nfc, Obj(ns))
    ensures SameShape(n, m)
  {
    hide CanonicalText, Idempotent, KeepsAscii, Columns, Named, NodeColumns, HasProperties;
    NodeColumnsApart(n);
    NodeColumnsApart(m);
    ColumnPresent(n);
    ColumnPresent(m);
    forall name ensures name in NodeColumns(n) <==> name in NodeColumns(m) {
      if i :| 0 <= i < |NodeColumns(n)| && NodeColumns(n)[i] == name {
        TextDecidesNames(lib.nfc, ms, ns, NodeColumns(n), NodeColumns(m), i);
      }
      if i :| 0 <= i < |NodeColumns(m)| && NodeColumns(m)[i] == name {
        TextDecidesNames(lib.nfc, ns, ms, NodeColumns(m), NodeColumns(n), i);
      }
    }
  }

  lemma NormalShape(lib: Lib, n: Node, m: Node)
    requires NormalOfNode(lib, n).Some? && NormalOfNode(lib, n) == NormalOfNode(lib, m)
    ensures SameShape(n, m)
  {
    hide OrderEvidence, NormalText, NormalValue;
  }

  lemma NodeFixedPart(lib: Lib, s: Text, t: Text, n: Node, m: Node)
    requires Standard(lib) && NormalText(lib, s) == NormalText(lib, t)
    requires NormalOfNode(lib, n).Some? && NormalOfNode(lib, m).Some?
    ensures var x, y := NormalOfNode(lib, n).value, NormalOfNode(lib, m).value;
            NodeFixed(lib, s, n, OrderEvidence(lib, n.evidence).value) ==
            NodeFixed(lib, t, m, OrderEvidence(lib, m.evidence).value) <==>
            && x.nodeKind == y.nodeKind && x.stableKey == y.stableKey && x.truthClass == y.truthClass
            && x.evidence == y.evidence
  {
    hide CanonicalText, T, OrderEvidence, Idempotent, KeepsAscii, EvidenceArray, NormalText, NormalOption,
         NormalProperties;
    TextPart(lib, s, t);
    TextPart(lib, n.nodeKind, m.nodeKind);
    TextPart(lib, n.stableKey, m.stableKey);
    TextPart(lib, n.truthClass, m.truthClass);
    EvidenceListPart(lib, n.evidence, m.evidence);
  }

  /** With the same columns, the texts of two nodes agree exactly when their normal forms do. */
  lemma NodeByColumns(lib: Lib, s: Text, t: Text, n: Node, m: Node)
    requires Standard(lib) && NormalText(lib, s) == NormalText(lib, t) && NormalText(lib, s).Some? && SameShape(n, m)
    requires NormalOfNode(lib, n).Some? && NormalOfNode(lib, m).Some?
    ensures TextOf(lib, NodeRecord(lib, s, n)) == TextOf(lib, NodeRecord(lib, t, m)) <==>
            NormalOfNode(lib, n) == NormalOfNode(lib, m)
  {
    hide CanonicalText, T, OrderEvidence, Idempotent, KeepsAscii, EvidenceArray, NormalText, NodeHead,
         PropertyMembers, Columns, Named, OptionalText, NormalOption, NormalProperties, FieldTexts, HasProperties,
         NodeFixed;
    var es, fs := OrderEvidence(lib, n.evidence).value, OrderEvidence(lib, m.evidence).value;
    NodePrints(lib, s, n);
    NodeNamed(s, n, es);
    NodeNamed(t, m, fs);
    NamedDecides(lib.nfc, NodeMembers(s, n, es), NodeMembers(t, m, fs), NodeColumns(n));
    NodeTexts(lib, s, n, es);
    NodeTexts(lib, t, m, fs);
    NodeFixedPart(lib, s, t, n, m);
    OptionalTextPart(lib, n.name, m.name);
    OptionalTextPart(lib, n.language, m.language);
    PropertiesPart(lib, n, m);
    FourParts(NodeFixed(lib, s, n, es), OptionalText(lib, StrOf(n.name)), OptionalText(lib, StrOf(n.language)),
              OptionalText(lib, PropertiesOf(n)), NodeFixed(lib, t, m, fs), OptionalText(lib, StrOf(m.name)),
              OptionalText(lib, StrOf(m.language)), OptionalText(lib, PropertiesOf(m)));
  }

  lemma FourParts<A>(a: seq<A>, b: seq<A>, c: seq<A>, d: seq<A>, a': seq<A>, b': seq<A>, c': seq<A>, d': seq<A>)
    requires |a| == |a'| && |b| == |b'| && |c| == |c'|
    ensures a + b + c + d == a' + b' + c' + d' <==> a == a' && b == b' && c == c' && d == d'
  {
    if a + b + c + d == a' + b' + c' + d' {
      var s, t := a + b + c + d, a' + b' + c' + d';
      assert s[..|a|] == a && t[..|a|] == a';
      assert s[|a|..|a| + |b|] == b && t[|a|..|a| + |b|] == b';
      assert s[|a| + |b|..|a| + |b| + |c|] == c && t[|a| + |b|..|a| + |b| + |c|] == c';
      assert s[|a| + |b| + |c|..] == d && t[|a| + |b| + |c|..] == d';
    }
  }

  /** The text of a node's record and its normal form decide each other. */
  lemma NodeExactly(lib: Lib, s: Text, t: Text, n: Node, m: Node)
    requires Standard(lib) && NormalText(lib, s) == NormalText(lib, t) && NormalText(lib, s).Some?
    ensures TextOf(lib, NodeRecord(lib, s, n)) == TextOf(lib, NodeRecord(lib, t, m)) <==>
            NormalOfNode(lib, n) == NormalOfNode(lib, m)
  {
    hide Idempotent, KeepsAscii, NormalText, NormalOfNode, CanonicalText, OrderEvidence, NodeHead, PropertyMembers,
         SameShape, Named;
    NodePrints(lib, s, n);
    NodePrints(lib, t, m);
    if NormalOfNode(lib, n).Some? && NormalOfNode(lib, m).Some? {
      if SameShape(n, m) {
        NodeByColumns(lib, s, t, n, m);
      } else {
        if NormalOfNode(lib, n) == NormalOfNode(lib, m) { NormalShape(lib, n, m); }
        var es, fs := OrderEvidence(lib, n.evidence).value, OrderEvidence(lib, m.evidence).value;
        NodeNamed(s, n, es);
        NodeNamed(t, m, fs);
        if TextOf(lib, NodeRecord(lib, s, n)) == TextOf(lib, NodeRecord(lib, t, m)) {
          ShapeByText(lib, NodeMembers(s, n, es), NodeMembers(t, m, fs), n, m);
        }
      }
    }
  }

  // ------------------------------------------------- edges

  /** The normal form of a consolidated edge; its evidence and derivations have theirs already. */
  function NormalOfEdge(lib: Lib, e: Edge): Option<Edge> {
    var id, truth := NormalText(lib, e.edgeId), NormalText(lib, e.truthClass);
    var subjectKind, subjectKey := NormalText(lib, e.subjectKind), NormalText(lib, e.subjectKey);
    var relation, objectKind := NormalText(lib, e.relation), NormalText(lib, e.objectKind);
    var objectKey, producer := NormalText(lib, e.objectKey), NormalText(lib, e.producer);
    var version := NormalText(lib, e.producerVersion);
    if id.None? || truth.None? || subjectKind.None? || subjectKey.None? || relation.None? || objectKind.None?
       || objectKey.None? || producer.None? || version.None?
    then None
    else Some(Edge(id.value, subjectKind.value, subjectKey.value, relation.value, objectKind.value, objectKey.value,
                   truth.value, producer.value, version.value, e.evidence, e.derivedFrom))
  }

  const EDGE_COLUMNS: seq<string> :=
    ["kind", "edge_id", "subject", "predicate", "object", "truth_class", "producer", "producer_version", "evidence",
     "derived_from", "schema_version"]

  lemma EdgeColumnsApart()
    ensures Columns(EDGE_COLUMNS)
  {
    hide AsciiName;
    EdgeColumnsAscii();
  }

  lemma EdgeColumnsAscii()
    ensures forall i :: 0 <= i < |EDGE_COLUMNS| ==> AsciiName(EDGE_COLUMNS[i])
  {
    assert AsciiName("kind") && AsciiName("edge_id") && AsciiName("subject") && AsciiName("predicate");
    assert AsciiName("object") && AsciiName("truth_class") && AsciiName("producer") && AsciiName("producer_version");
    assert AsciiName("evidence") && AsciiName("derived_from") && AsciiName("schema_version");
  }

  lemma EdgeNamed(schema: Text, e: Edge)
    ensures Named(EdgeRecord(schema, e).members, EDGE_COLUMNS)
  {
    hide T, EvidenceArray, ReferenceArray, Endpoint;
  }

  ghost function EdgeFields(lib: Lib, schema: Text, e: Edge): seq<Option<Text>> {
    [CanonicalText(lib.nfc, Str(T("edge"))), CanonicalText(lib.nfc, Str(e.edgeId)),
     CanonicalText(lib.nfc, Endpoint(e.subjectKind, e.subjectKey)), CanonicalText(lib.nfc, Str(e.relation)),
     CanonicalText(lib.nfc, Endpoint(e.objectKind, e.objectKey)), CanonicalText(lib.nfc, Str(e.truthClass)),
     CanonicalText(lib.nfc, Str(e.producer)), CanonicalText(lib.nfc, Str(e.producerVersion)),
     CanonicalText(lib.nfc, EvidenceArray(e.evidence)), CanonicalText(lib.nfc, ReferenceArray(e.derivedFrom)),
     CanonicalText(lib.nfc, Str(schema))]
  }

  lemma EdgeTexts(lib: Lib, schema: Text, e: Edge)
    ensures FieldTexts(lib.nfc, EdgeRecord(schema, e).members) == EdgeFields(lib, schema, e)
  {
    hide T, EvidenceArray, ReferenceArray, Endpoint, CanonicalText;
  }

  /** The evidence and the derivations are what consolidation made of these. */
  ghost predicate Gathered(lib: Lib, e: Edge, es: seq<Evidence>, rs: seq<Reference>) {
    OrderEvidence(lib, es) == Some(e.evidence) && SortDerivedFrom(lib, rs) == Some(e.derivedFrom)
  }

  lemma EdgePrints(lib: Lib, schema: Text, e: Edge, es: seq<Evidence>, rs: seq<Reference>)
    requires Standard(lib) && NormalText(lib, schema).Some? && Gathered(lib, e, es, rs)
    ensures CanonicalText(lib.nfc, EdgeRecord(schema, e)).Some? <==> NormalOfEdge(lib, e).Some?
  {
    hide CanonicalText, T, OrderEvidence, SortDerivedFrom, Idempotent, KeepsAscii, EvidenceArray, ReferenceArray,
         NormalText, Endpoint, Columns, Named, FieldTexts, EDGE_COLUMNS;
    var ms := EdgeRecord(schema, e).members;
    EdgeNamed(schema, e);
    EdgeColumnsApart();
    NamedPrints(lib.nfc, ms, EDGE_COLUMNS);
    EdgeTexts(lib, schema, e);
    LiteralPrints(lib, "edge");
    TextPart(lib, schema, schema);
    TextPart(lib, e.edgeId, e.edgeId);
    EndpointPart(lib, e.subjectKind, e.subjectKey, e.subjectKind, e.subjectKey);
    TextPart(lib, e.relation, e.relation);
    EndpointPart(lib, e.objectKind, e.objectKey, e.objectKind, e.objectKey);
    TextPart(lib, e.truthClass, e.truthClass);
    TextPart(lib, e.producer, e.producer);
    TextPart(lib, e.producerVersion, e.producerVersion);
    EvidenceListPart(lib, es, es);
    ReferenceListPart(lib, rs, rs);
  }

  lemma EdgeFieldsDecide(lib: Lib, s: Text, t: Text, e: Edge, f: Edge, es: seq<Evidence>, rs: seq<Reference>,
                         fs: seq<Evidence>, qs: seq<Reference>)
    requires Standard(lib) && NormalText(lib, s) == NormalText(lib, t)
    requires Gathered(lib, e, es, rs) && Gathered(lib, f, fs, qs)
    requires NormalOfEdge(lib, e).Some? && NormalOfEdge(lib, f).Some?
    ensures EdgeFields(lib, s, e) == EdgeFields(lib, t, f) <==> NormalOfEdge(lib, e) == NormalOfEdge(lib, f)
  {
    hide CanonicalText, T, OrderEvidence, SortDerivedFrom, Idempotent, KeepsAscii, EvidenceArray, ReferenceArray,
         NormalText, Endpoint;
    TextPart(lib, s, t);
    TextPart(lib, e.edgeId, f.edgeId);
    EndpointPart(lib, e.subjectKind, e.subjectKey, f.subjectKind, f.subjectKey);
    TextPart(lib, e.relation, f.relation);
    EndpointPart(lib, e.objectKind, e.objectKey, f.objectKind, f.objectKey);
    TextPart(lib, e.truthClass, f.truthClass);
    TextPart(lib, e.producer, f.producer);
    TextPart(lib, e.producerVersion, f.producerVersion);
    EvidenceListPart(lib, es, fs);
    ReferenceListPart(lib, rs, qs);
  }

  /** The text of an edge's record and its normal form decide each other. */
  lemma EdgeExactly(lib: Lib, s: Text, t: Text, e: Edge, f: Edge, es: seq<Evidence>, rs: seq<Reference>,
                    fs: seq<Evidence>, qs: seq<Reference>)
    requires Standard(lib) && NormalText(lib, s) == NormalText(lib, t) && NormalText(lib, s).Some?
    requires Gathered(lib, e, es, rs) && Gathered(lib, f, fs, qs)
    ensures CanonicalText(lib.nfc, EdgeRecord(s, e)) == CanonicalText(lib.nfc, EdgeRecord(t, f)) <==>
            NormalOfEdge(lib, e) == NormalOfEdge(lib, f)
  {
    hide CanonicalText, Gathered, Idempotent, KeepsAscii, NormalText, NormalOfEdge, Named, FieldTexts, EdgeFields,
         EvidenceArray, ReferenceArray, Endpoint, T, EDGE_COLUMNS;
    EdgePrints(lib, s, e, es, rs);
    EdgePrints(lib, t, f, fs, qs);
    if NormalOfEdge(lib, e).Some? && NormalOfEdge(lib, f).Some? {
      EdgeNamed(s, e);
      EdgeNamed(t, f);
      NamedDecides(lib.nfc, EdgeRecord(s, e).members, EdgeRecord(t, f).members, EDGE_COLUMNS);
      EdgeTexts(lib, s, e);
      EdgeTexts(lib, t, f);
      EdgeFieldsDecide(lib, s, t, e, f, es, rs, fs, qs);
    }
  }

  // ------------------------------------------------- assertions

  /** The normal form of an assertion; nothing when its record raises. */
  ghost function NormalOfAssertion(lib: Lib, a: Assertion): Option<Assertion> {
    var id, truth := NormalText(lib, a.assertionId), NormalText(lib, a.truthClass);
    var kind, key := NormalText(lib, a.subjectKind), NormalText(lib, a.subjectKey);
    var relation := NormalText(lib, a.relation);
    var value, producer := NormalValue(lib, a.value), NormalText(lib, a.producer);
    var version, rs := NormalText(lib, a.producerVersion), SortDerivedFrom(lib, a.derivedFrom);
    if id.None? || truth.None? || kind.None? || key.None? || relation.None? || value.None? || producer.None?
       || version.None? || rs.None?
    then None
    else Some(Assertion(id.value, kind.value, key.value, relation.value, value.value, truth.value, producer.value,
                        version.value, rs.value))
  }

  const ASSERTION_COLUMNS: seq<string> :=
    ["kind", "assertion_id", "subject", "predicate", "value", "truth_class", "producer", "producer_version",
     "derived_from", "schema_version"]

  lemma AssertionColumnsApart()
    ensures Columns(ASSERTION_COLUMNS)
  {
    hide AsciiName;
    AssertionColumnsAscii();
  }

  lemma AssertionColumnsAscii()
    ensures forall i :: 0 <= i < |ASSERTION_COLUMNS| ==> AsciiName(ASSERTION_COLUMNS[i])
  {
    assert AsciiName("kind") && AsciiName("assertion_id") && AsciiName("subject") && AsciiName("predicate");
    assert AsciiName("value") && AsciiName("truth_class") && AsciiName("producer") && AsciiName("producer_version");
    assert AsciiName("derived_from") && AsciiName("schema_version");
  }

  lemma AssertionNamed(lib: Lib, schema: Text, a: Assertion)
    requires AssertionRecord(lib, schema, a).Some?
    ensures AssertionRecord(lib, schema, a).value.Obj?
    ensures Named(AssertionRecord(lib, schema, a).value.members, ASSERTION_COLUMNS)
  {
    hide T, ReferenceArray, Endpoint, SortDerivedFrom;
  }

  ghost function AssertionFields(lib: Lib, schema: Text, a: Assertion, rs: seq<Reference>): seq<Option<Text>> {
    [CanonicalText(lib.nfc, Str(T("assertion"))), CanonicalText(lib.nfc, Str(a.assertionId)),
     CanonicalText(lib.nfc, Endpoint(a.subjectKind, a.subjectKey)), CanonicalText(lib.nfc, Str(a.relation)),
     CanonicalText(lib.nfc, a.value), CanonicalText(lib.nfc, Str(a.truthClass)),
     CanonicalText(lib.nfc, Str(a.producer)), CanonicalText(lib.nfc, Str(a.producerVersion)),
     CanonicalText(lib.nfc, ReferenceArray(rs)), CanonicalText(lib.nfc, Str(schema))]
  }

  lemma AssertionTexts(lib: Lib, schema: Text, a: Assertion)
    requires SortDerivedFrom(lib, a.derivedFrom).Some?
    ensures AssertionRecord(lib, schema, a).Some? && AssertionRecord(lib, schema, a).value.Obj?
    ensures FieldTexts(lib.nfc, AssertionRecord(lib, schema, a).value.members) ==
            AssertionFields(lib, schema, a, SortDerivedFrom(lib, a.derivedFrom).value)
  {
    hide T, ReferenceArray, Endpoint, CanonicalText, SortDerivedFrom;
  }

  lemma AssertionPrints(lib: Lib, schema: Text, a: Assertion)
    requires Standard(lib) && NormalText(lib, schema).Some?
    ensures TextOf(lib, AssertionRecord(lib, schema, a)).Some? <==> NormalOfAssertion(lib, a).Some?
  {
    hide CanonicalText, T, SortDerivedFrom, Idempotent, KeepsAscii, ReferenceArray, NormalText, Endpoint, Columns,
         Named, FieldTexts, ASSERTION_COLUMNS, AssertionRecord;
    if SortDerivedFrom(lib, a.derivedFrom).Some? {
      AssertionTexts(lib, schema, a);
      AssertionNamed(lib, schema, a);
      AssertionColumnsApart();
      NamedPrints(lib.nfc, AssertionRecord(lib, schema, a).value.members, ASSERTION_COLUMNS);
      LiteralPrints(lib, "assertion");
      TextPart(lib, schema, schema);
      TextPart(lib, a.assertionId, a.assertionId);
      EndpointPart(lib, a.subjectKind, a.subjectKey, a.subjectKind, a.subjectKey);
      TextPart(lib, a.relation, a.relation);
      ValuePart(lib, a.value, a.value);
      TextPart(lib, a.truthClass, a.truthClass);
      TextPart(lib, a.producer, a.producer);
      TextPart(lib, a.producerVersion, a.producerVersion);
      ReferenceListPart(lib, a.derivedFrom, a.derivedFrom);
    } else {
      assert AssertionRecord(lib, schema, a).None? by { NoAssertion(lib, schema, a); }
    }
  }

  lemma NoAssertion(lib: Lib, schema: Text, a: Assertion)
    ensures AssertionRecord(lib, schema, a).None? <==> SortDerivedFrom(lib, a.derivedFrom).None?
  {
    hide T, ReferenceArray, Endpoint, SortDerivedFrom;
  }

  lemma AssertionFieldsDecide(lib: Lib, s: Text, t: Text, a: Assertion, b: Assertion)
    requires Standard(lib) && NormalText(lib, s) == NormalText(lib, t)
    requires NormalOfAssertion(lib, a).Some? && NormalOfAssertion(lib, b).Some?
    ensures AssertionFields(lib, s, a, SortDerivedFrom(lib, a.derivedFrom).value) ==
            AssertionFields(lib, t, b, SortDerivedFrom(lib, b.derivedFrom).value) <==>
            NormalOfAssertion(lib, a) == NormalOfAssertion(lib, b)
  {
    hide CanonicalText, T, SortDerivedFrom, Idempotent, KeepsAscii, ReferenceArray, NormalText, Endpoint, Canon;
    TextPart(lib, s, t);
    TextPart(lib, a.assertionId, b.assertionId);
    EndpointPart(lib, a.subjectKind, a.subjectKey, b.subjectKind, b.subjectKey);
    TextPart(lib, a.relation, b.relation);
    ValuePart(lib, a.value, b.value);
    TextPart(lib, a.truthClass, b.truthClass);
    TextPart(lib, a.producer, b.producer);
    TextPart(lib, a.producerVersion, b.producerVersion);
    ReferenceListPart(lib, a.derivedFrom, b.derivedFrom);
  }

  /** The text of an assertion's record and its normal form decide each other. */
  lemma AssertionExactly(lib: Lib, s: Text, t: Text, a: Assertion, b: Assertion)
    requires Standard(lib) && NormalText(lib, s) == NormalText(lib, t) && NormalText(lib, s).Some?
    ensures TextOf(lib, AssertionRecord(lib, s, a)) == TextOf(lib, AssertionRecord(lib, t, b)) <==>
            NormalOfAssertion(lib, a) == NormalOfAssertion(lib, b)
  {
    hide CanonicalText, Idempotent, KeepsAscii, NormalText, Named, FieldTexts, AssertionFields, SortDerivedFrom,
         AssertionRecord, ASSERTION_COLUMNS, NormalValue;
    AssertionPrints(lib, s, a);
    AssertionPrints(lib, t, b);
    if NormalOfAssertion(lib, a).Some? && NormalOfAssertion(lib, b).Some? {
      AssertionTexts(lib, s, a);
      AssertionTexts(lib, t, b);
      AssertionNamed(lib, s, a);
      AssertionNamed(lib, t, b);
      NamedDecides(lib.nfc, AssertionRecord(lib, s, a).value.members, AssertionRecord(lib, t, b).value.members,
                   ASSERTION_COLUMNS);
      AssertionFieldsDecide(lib, s, t, a, b);
    }
  }

  // ------------------------------------------------- observations

  function NormalNumber(n: int): Option<int> { if -MAX_EXACT <= n <= MAX_EXACT then Some(n) else None }

  function NormalEvidence(lib: Lib, e: Evidence): Option<Evidence> { if Usable(lib, e) then Prepare(lib, e) else None }

  /** The normal form of an observation; nothing when its record raises. */
  function NormalOfObservation(lib: Lib, o: Observation): Option<Observation> {
    var id, observed := NormalText(lib, o.observationId), NormalText(lib, o.observedKind);
    var kind, key := NormalText(lib, o.subjectKind), NormalText(lib, o.subjectKey);
    var referent, ordinal := NormalOption(lib, o.referentText), NormalNumber(o.ordinal);
    var evidence := NormalEvidence(lib, o.evidence);
    if id.None? || observed.None? || kind.None? || key.None? || referent.None? || ordinal.None? || evidence.None?
    then None
    else Some(Observation(id.value, observed.value, kind.value, key.value, referent.value, ordinal.value,
                          evidence.value))
  }

  lemma CanonicalSettles(lib: Lib, e: Evidence)
    requires Idempotent(lib.nfc) && CanonicalEvidence(lib, e).Some?
    ensures Prepare(lib, e).Some?
    ensures CanonicalText(lib.nfc, EvidenceJson(CanonicalEvidence(lib, e).value)) ==
            CanonicalText(lib.nfc, EvidenceJson(Prepare(lib, e).value))
  {
    hide CanonicalText, T, RepoPath.NormalizePath;
    var c, p := CanonicalEvidence(lib, e).value, Prepare(lib, e).value;
    TextDecides(lib.nfc, c.path, p.path);
    TextDecides(lib.nfc, c.granularity, p.granularity);
    TextDecides(lib.nfc, c.extractor, p.extractor);
    TextDecides(lib.nfc, c.version, p.version);
    SameParts(lib.nfc, EvidenceMembers(c), EvidenceMembers(p));
  }

  lemma EvidencePart(lib: Lib, e: Evidence, f: Evidence)
    requires Idempotent(lib.nfc) && CanonicalEvidence(lib, e).Some? && CanonicalEvidence(lib, f).Some?
    ensures var c, d := EvidenceJson(CanonicalEvidence(lib, e).value), EvidenceJson(CanonicalEvidence(lib, f).value);
            && (CanonicalText(lib.nfc, c).Some? <==> NormalEvidence(lib, e).Some?)
            && (CanonicalText(lib.nfc, c) == CanonicalText(lib.nfc, d) <==>
                NormalEvidence(lib, e) == NormalEvidence(lib, f))
  {
    hide CanonicalText, T, CanonicalEvidence, Prepare, EvidenceJson, Settled, Utf8;
    CanonicalSettles(lib, e);
    CanonicalSettles(lib, f);
    EncodeHasText(lib.nfc, EvidenceJson(Prepare(lib, e).value));
    EncodeHasText(lib.nfc, EvidenceJson(Prepare(lib, f).value));
    if Usable(lib, e) && Usable(lib, f) {
      PrepareSettles(lib, e);
      PrepareSettles(lib, f);
      SettledText(lib, Prepare(lib, e).value, Prepare(lib, f).value);
    }
  }

  const OBSERVATION_COLUMNS: seq<string> :=
    ["observation_id", "observed_kind", "subject", "referent_text", "ordinal", "evidence"]

  lemma ObservationColumnsApart()
    ensures Columns(OBSERVATION_COLUMNS)
  {
    hide AsciiName;
    ObservationColumnsAscii();
  }

  lemma ObservationColumnsAscii()
    ensures forall i :: 0 <= i < |OBSERVATION_COLUMNS| ==> AsciiName(OBSERVATION_COLUMNS[i])
  {
    assert AsciiName("observation_id") && AsciiName("observed_kind") && AsciiName("subject");
    assert AsciiName("referent_text") && AsciiName("ordinal") && AsciiName("evidence");
  }

  lemma ObservationNamed(lib: Lib, o: Observation)
    requires ObservationRecord(lib, o).Some?
    ensures ObservationRecord(lib, o).value.Obj?
    ensures Named(ObservationRecord(lib, o).value.members, OBSERVATION_COLUMNS)
  {
    hide T, Endpoint, CanonicalEvidence, EvidenceJson, OrNull;
  }

  function ObservationFields(lib: Lib, o: Observation, e: Evidence): seq<Option<Text>> {
    [CanonicalText(lib.nfc, Str(o.observationId)), CanonicalText(lib.nfc, Str(o.observedKind)),
     CanonicalText(lib.nfc, Endpoint(o.subjectKind, o.subjectKey)), CanonicalText(lib.nfc, OrNull(o.referentText)),
     CanonicalText(lib.nfc, Int(o.ordinal)), CanonicalText(lib.nfc, EvidenceJson(e))]
  }

  lemma ObservationTexts(lib: Lib, o: Observation)
    ensures ObservationRecord(lib, o).Some? <==> CanonicalEvidence(lib, o.evidence).Some?
    ensures ObservationRecord(lib, o).Some? ==>
              && ObservationRecord(lib, o).value.Obj?
              && FieldTexts(lib.nfc, ObservationRecord(lib, o).value.members) ==
                 ObservationFields(lib, o, CanonicalEvidence(lib, o.evidence).value)
  {
    hide T, Endpoint, CanonicalText, CanonicalEvidence, EvidenceJson, OrNull;
  }

  lemma ObservationPrints(lib: Lib, o: Observation)
    requires Standard(lib)
    ensures TextOf(lib, ObservationRecord(lib, o)).Some? <==> NormalOfObservation(lib, o).Some?
  {
    hide CanonicalText, T, Idempotent, KeepsAscii, NormalText, Endpoint, Columns, Named, FieldTexts,
         OBSERVATION_COLUMNS, ObservationRecord, CanonicalEvidence, EvidenceJson, OrNull, NormalOption,
         NormalEvidence;
    ObservationTexts(lib, o);
    if CanonicalEvidence(lib, o.evidence).Some? {
      ObservationNamed(lib, o);
      ObservationColumnsApart();
      NamedPrints(lib.nfc, ObservationRecord(lib, o).value.members, OBSERVATION_COLUMNS);
      TextPart(lib, o.observationId, o.observationId);
      TextPart(lib, o.observedKind, o.observedKind);
      EndpointPart(lib, o.subjectKind, o.subjectKey, o.subjectKind, o.subjectKey);
      OptionPart(lib, o.referentText, o.referentText);
      NumberPart(lib, o.ordinal, o.ordinal);
      EvidencePart(lib, o.evidence, o.evidence);
    } else {
      assert NormalEvidence(lib, o.evidence).None? by { NoEvidence(lib, o.evidence); }
    }
  }

  lemma NoEvidence(lib: Lib, e: Evidence)
    requires CanonicalEvidence(lib, e).None?
    ensures NormalEvidence(lib, e).None?
  {
  }

  lemma ObservationFieldsDecide(lib: Lib, o: Observation, p: Observation)
    requires Standard(lib) && NormalOfObservation(lib, o).Some? && NormalOfObservation(lib, p).Some?
    requires CanonicalEvidence(lib, o.evidence).Some? && CanonicalEvidence(lib, p.evidence).Some?
    ensures ObservationFields(lib, o, CanonicalEvidence(lib, o.evidence).value) ==
            ObservationFields(lib, p, CanonicalEvidence(lib, p.evidence).value) <==>
            NormalOfObservation(lib, o) == NormalOfObservation(lib, p)
  {
    hide CanonicalText, T, Idempotent, KeepsAscii, NormalText, Endpoint, CanonicalEvidence, EvidenceJson, OrNull,
         NormalOption, NormalEvidence;
    TextPart(lib, o.observationId, p.observationId);
    TextPart(lib, o.observedKind, p.observedKind);
    EndpointPart(lib, o.subjectKind, o.subjectKey, p.subjectKind, p.subjectKey);
    OptionPart(lib, o.referentText, p.referentText);
    NumberPart(lib, o.ordinal, p.ordinal);
    EvidencePart(lib, o.evidence, p.evidence);
  }

  /** The text of an observation's record and its normal form decide each other. */
  lemma ObservationExactly(lib: Lib, o: Observation, p: Observation)
    requires Standard(lib)
    ensures TextOf(lib, ObservationRecord(lib, o)) == TextOf(lib, ObservationRecord(lib, p)) <==>
            NormalOfObservation(lib, o) == NormalOfObservation(lib, p)
  {
    hide CanonicalText, Idempotent, KeepsAscii, NormalOfObservation, Named, FieldTexts, ObservationFields,
         ObservationRecord, OBSERVATION_COLUMNS, CanonicalEvidence;
    ObservationPrints(lib, o);
    ObservationPrints(lib, p);
    if NormalOfObservation(lib, o).Some? && NormalOfObservation(lib, p).Some? {
      ObservationTexts(lib, o);
      ObservationTexts(lib, p);
      ObservationNamed(lib, o);
      ObservationNamed(lib, p);
      NamedDecides(lib.nfc, ObservationRecord(lib, o).value.members, ObservationRecord(lib, p).value.members,
                   OBSERVATION_COLUMNS);
      ObservationFieldsDecide(lib, o, p);
    }
  }

  // ------------------------------------------------- diagnostics

  /** A diagnostic as its record tells it. */
  datatype NormalDiagnostic = NormalDiagnostic(code: Text, category: Text, severity: Text, message: Text,
                                               producer: Text, path: Option<Text>, span: Option<Span>,
                                               subject: Option<Text>, objectKey: Option<Text>, details: Json)

  function NormalPath(lib: Lib, path: Option<Text>): Option<Option<Text>> {
    match path
    case None => Some(None)
    case Some(raw) => match RepoPath.NormalizePath(lib.nfc, lib.isAlpha, raw)
                      case None => None
                      case Some(p) => NormalOption(lib, Some(p))
  }

  lemma PathPart(lib: Lib, path: Option<Text>)
    ensures NormalPath(lib, path) == match PathOf(lib, path) case None => None case Some(p) => NormalOption(lib, p)
  {
    hide RepoPath.NormalizePath, NormalText;
  }

  function NormalSpan(span: Option<Span>): Option<Option<Span>> {
    match span
    case None => Some(None)
    case Some(s) => if NormalNumber(s.startLine).Some? && NormalNumber(s.endLine).Some? then Some(span) else None
  }

  /** The normal form of a diagnostic; nothing when its record raises. */
  ghost function NormalOfDiagnostic(lib: Lib, d: Diagnostic): Option<NormalDiagnostic> {
    var code, category := NormalText(lib, d.code), NormalText(lib, d.category);
    var severity, message := NormalText(lib, d.severity), NormalText(lib, d.message);
    var producer := NormalText(lib, d.producer);
    var path, span, subject := NormalPath(lib, d.path), NormalSpan(d.span), NormalOption(lib, d.subject);
    var objectKey, details := NormalOption(lib, d.objectKey), NormalValue(lib, DetailsOf(d));
    if code.None? || category.None? || severity.None? || message.None? || producer.None? || path.None? || span.None?
       || subject.None? || objectKey.None? || details.None?
    then None
    else Some(NormalDiagnostic(code.value, category.value, severity.value, message.value, producer.value, path.value,
                               span.value, subject.value, objectKey.value, details.value))
  }

  const SPAN_COLUMNS: seq<string> := ["start_line", "end_line"]

  lemma LinesPart(lib: Lib, s: Span, t: Span)
    requires KeepsAscii(lib.nfc)
    ensures CanonicalText(lib.nfc, SpanJson(Some(s))).Some? <==> NormalSpan(Some(s)).Some?
    ensures CanonicalText(lib.nfc, SpanJson(Some(s))).Some? ==>
              (CanonicalText(lib.nfc, SpanJson(Some(s))) == CanonicalText(lib.nfc, SpanJson(Some(t))) <==> s == t)
  {
    hide CanonicalText, T, KeepsAscii;
    var ms, ns := SpanJson(Some(s)).members, SpanJson(Some(t)).members;
    NumberPart(lib, s.startLine, t.startLine);
    NumberPart(lib, s.endLine, t.endLine);
    assert Columns(SPAN_COLUMNS);
    assert FieldTexts(lib.nfc, ms) ==
           [CanonicalText(lib.nfc, Int(s.startLine)), CanonicalText(lib.nfc, Int(s.endLine))];
    assert FieldTexts(lib.nfc, ns) ==
           [CanonicalText(lib.nfc, Int(t.startLine)), CanonicalText(lib.nfc, Int(t.endLine))];
    NamedPrints(lib.nfc, ms, SPAN_COLUMNS);
    if CanonicalText(lib.nfc, SpanJson(Some(s))).Some? { NamedDecides(lib.nfc, ms, ns, SPAN_COLUMNS); }
  }

  lemma NoSpanText(lib: Lib, s: Span)
    ensures CanonicalText(lib.nfc, Null).Some?
    ensures CanonicalText(lib.nfc, SpanJson(Some(s))) != CanonicalText(lib.nfc, Null)
  {
    if CanonicalText(lib.nfc, SpanJson(Some(s))) == CanonicalText(lib.nfc, Null) {
      TextDecidesSame(lib.nfc, Null, SpanJson(Some(s)));
    }
  }

  lemma SpanPart(lib: Lib, s: Option<Span>, t: Option<Span>)
    requires KeepsAscii(lib.nfc)
    ensures CanonicalText(lib.nfc, SpanJson(s)).Some? <==> NormalSpan(s).Some?
    ensures CanonicalText(lib.nfc, SpanJson(s)) == CanonicalText(lib.nfc, SpanJson(t)) <==>
            NormalSpan(s) == NormalSpan(t)
  {
    hide CanonicalText, T, KeepsAscii;
    assert CanonicalText(lib.nfc, Null).Some? by { NoSpanText(lib, Span(0, 0)); }
    if s.Some? {
      NoSpanText(lib, s.value);
      LinesPart(lib, s.value, if t.Some? then t.value else s.value);
    }
    if t.Some? {
      NoSpanText(lib, t.value);
      LinesPart(lib, t.value, if s.Some? then s.value else t.value);
    }
  }

  const DIAGNOSTIC_COLUMNS: seq<string> :=
    ["code", "category", "severity", "message", "producer", "path", "span", "subject", "object", "details"]

  lemma DiagnosticColumnsApart()
    ensures Columns(DIAGNOSTIC_COLUMNS)
  {
    hide AsciiName;
    DiagnosticColumnsAscii();
  }

  lemma DiagnosticColumnsAscii()
    ensures forall i :: 0 <= i < |DIAGNOSTIC_COLUMNS| ==> AsciiName(DIAGNOSTIC_COLUMNS[i])
  {
    assert AsciiName("code") && AsciiName("category") && AsciiName("severity") && AsciiName("message");
    assert AsciiName("producer") && AsciiName("path") && AsciiName("span") && AsciiName("subject");
    assert AsciiName("object") && AsciiName("details");
  }

  lemma DiagnosticNamed(lib: Lib, d: Diagnostic)
    requires DiagnosticRecord(lib, d).Some?
    ensures DiagnosticRecord(lib, d).value.Obj?
    ensures Named(DiagnosticRecord(lib, d).value.members, DIAGNOSTIC_COLUMNS)
  {
    hide T, PathOf, SpanJson, OrNull, DetailsOf;
  }

  function DiagnosticFields(lib: Lib, d: Diagnostic, path: Option<Text>): seq<Option<Text>> {
    [CanonicalText(lib.nfc, Str(d.code)), CanonicalText(lib.nfc, Str(d.category)),
     CanonicalText(lib.nfc, Str(d.severity)), CanonicalText(lib.nfc, Str(d.message)),
     CanonicalText(lib.nfc, Str(d.producer)), CanonicalText(lib.nfc, OrNull(path)),
     CanonicalText(lib.nfc, SpanJson(d.span)), CanonicalText(lib.nfc, OrNull(d.subject)),
     CanonicalText(lib.nfc, OrNull(d.objectKey)), CanonicalText(lib.nfc, DetailsOf(d))]
  }

  lemma DiagnosticTexts(lib: Lib, d: Diagnostic)
    ensures DiagnosticRecord(lib, d).Some? <==> PathOf(lib, d.path).Some?
    ensures DiagnosticRecord(lib, d).Some? ==>
              && DiagnosticRecord(lib, d).value.Obj?
              && FieldTexts(lib.nfc, DiagnosticRecord(lib, d).value.members) ==
                 DiagnosticFields(lib, d, PathOf(lib, d.path).value)
  {
    hide T, CanonicalText, PathOf, SpanJson, OrNull, DetailsOf;
  }

  lemma DiagnosticPrints(lib: Lib, d: Diagnostic)
    requires Standard(lib)
    ensures TextOf(lib, DiagnosticRecord(lib, d)).Some? <==> NormalOfDiagnostic(lib, d).Some?
  {
    hide CanonicalText, T, Idempotent, KeepsAscii, NormalText, Columns, Named, FieldTexts, DIAGNOSTIC_COLUMNS,
         DiagnosticRecord, OrNull, NormalOption, PathOf, SpanJson, NormalSpan, DetailsOf, Canon;
    PathPart(lib, d.path);
    DiagnosticTexts(lib, d);
    if PathOf(lib, d.path).Some? {
      DiagnosticNamed(lib, d);
      DiagnosticColumnsApart();
      NamedPrints(lib.nfc, DiagnosticRecord(lib, d).value.members, DIAGNOSTIC_COLUMNS);
      TextPart(lib, d.code, d.code);
      TextPart(lib, d.category, d.category);
      TextPart(lib, d.severity, d.severity);
      TextPart(lib, d.message, d.message);
      TextPart(lib, d.producer, d.producer);
      OptionPart(lib, PathOf(lib, d.path).value, PathOf(lib, d.path).value);
      SpanPart(lib, d.span, d.span);
      OptionPart(lib, d.subject, d.subject);
      OptionPart(lib, d.objectKey, d.objectKey);
      ValuePart(lib, DetailsOf(d), DetailsOf(d));
    }
  }

  lemma DiagnosticFieldsDecide(lib: Lib, d: Diagnostic, e: Diagnostic)
    requires Standard(lib) && NormalOfDiagnostic(lib, d).Some? && NormalOfDiagnostic(lib, e).Some?
    ensures DiagnosticFields(lib, d, PathOf(lib, d.path).value) ==
            DiagnosticFields(lib, e, PathOf(lib, e.path).value) <==>
            NormalOfDiagnostic(lib, d) == NormalOfDiagnostic(lib, e)
  {
    hide CanonicalText, T, Idempotent, KeepsAscii, NormalText, OrNull, NormalOption, PathOf, SpanJson, NormalSpan,
         DetailsOf, Canon;
    PathPart(lib, d.path);
    PathPart(lib, e.path);
    TextPart(lib, d.code, e.code);
    TextPart(lib, d.category, e.category);
    TextPart(lib, d.severity, e.severity);
    TextPart(lib, d.message, e.message);
    TextPart(lib, d.producer, e.producer);
    OptionPart(lib, PathOf(lib, d.path).value, PathOf(lib, e.path).value);
    SpanPart(lib, d.span, e.span);
    OptionPart(lib, d.subject, e.subject);
    OptionPart(lib, d.objectKey, e.objectKey);
    ValuePart(lib, DetailsOf(d), DetailsOf(e));
  }

  /** The text of a diagnostic's record and its normal form decide each other. */
  lemma DiagnosticExactly(lib: Lib, d: Diagnostic, e: Diagnostic)
    requires Standard(lib)
    ensures TextOf(lib, DiagnosticRecord(lib, d)) == TextOf(lib, DiagnosticRecord(lib, e)) <==>
            NormalOfDiagnostic(lib, d) == NormalOfDiagnostic(lib, e)
  {
    hide CanonicalText, Idempotent, KeepsAscii, NormalOfDiagnostic, Named, FieldTexts, DiagnosticFields,
         DiagnosticRecord, DIAGNOSTIC_COLUMNS, PathOf;
    DiagnosticPrints(lib, d);
    DiagnosticPrints(lib, e);
    if NormalOfDiagnostic(lib, d).Some? && NormalOfDiagnostic(lib, e).Some? {
      DiagnosticTexts(lib, d);
      DiagnosticTexts(lib, e);
      assert PathOf(lib, d.path).Some? && PathOf(lib, e.path).Some?;
      DiagnosticNamed(lib, d);
      DiagnosticNamed(lib, e);
      NamedDecides(lib.nfc, DiagnosticRecord(lib, d).value.members, DiagnosticRecord(lib, e).value.members,
                   DIAGNOSTIC_COLUMNS);
      DiagnosticFieldsDecide(lib, d, e);
    }
  }
}
