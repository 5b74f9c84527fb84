/** The document behind the graph hash. */
module GraphDocument {
  // `compute_canonical_graph_hash` up to SHA-256.

  import opened Order
  import opened Encoding
  import opened Json
  import opened RecordOrder
  import opened MappingOrder
  import opened Compose
  import opened Evidence
  import opened References
  import opened Edges
  import opened EdgeUnion
  import opened Records
  import RepoPath
  import Canonical

  datatype Node = Node(nodeKind: Text, stableKey: Text, truthClass: Text, evidence: seq<Evidence>, name: Option<Text>,
                       language: Option<Text>, properties: Option<seq<Member>>)

  datatype Assertion = Assertion(assertionId: Text, subjectKind: Text, subjectKey: Text, relation: Text, value: Json,
                                 truthClass: Text, producer: Text, producerVersion: Text, derivedFrom: seq<Reference>)

  datatype Observation = Observation(observationId: Text, observedKind: Text, subjectKind: Text, subjectKey: Text,
                                     referentText: Option<Text>, ordinal: int, evidence: Evidence)

  datatype Span = Span(startLine: int, endLine: int)

  datatype Diagnostic = Diagnostic(code: Text, category: Text, severity: Text, message: Text, producer: Text,
                                   path: Option<Text>, span: Option<Span>, subject: Option<Text>,
                                   objectKey: Option<Text>, details: Option<seq<Member>>)

  datatype Graph = Graph(schemaVersion: Text, revisionKind: Text, revisionValue: Text, producers: seq<Text>,
                         configHash: Text, nodes: seq<Node>, edges: seq<Edge>, assertions: seq<Assertion>,
                         observations: seq<Observation>, diagnostics: seq<Diagnostic>)

  // ------------------------------------------------- record builders

  function TextMember(name: string, t: Text): Member { Member(T(name), Str(t)) }

  function Optional(name: string, t: Option<Text>): seq<Member> {
    match t case None => [] case Some(s) => [TextMember(name, s)]
  }

  function OrNull(t: Option<Text>): Json {
    match t case None => Null case Some(s) => Str(s)
  }

  function Endpoint(kind: Text, key: Text): Json {
    Obj([TextMember("kind", kind), TextMember("stable_key", key)])
  }

  function EvidenceArray(es: seq<Evidence>): Json {
    Arr(seq(|es|, i requires 0 <= i < |es| => EvidenceJson(es[i])))
  }

  function ReferenceArray(rs: seq<Reference>): Json {
    Arr(seq(|rs|, i requires 0 <= i < |rs| => ReferenceJson(rs[i])))
  }

  /** The members of a node record up to its properties, which are written only when there are any. */
  function NodeHead(schema: Text, n: Node, es: seq<Evidence>): seq<Member> {
    [TextMember("kind", T("node")), TextMember("node_kind", n.nodeKind), TextMember("stable_key", n.stableKey),
     TextMember("truth_class", n.truthClass), TextMember("schema_version", schema),
     Member(T("evidence"), EvidenceArray(es))]
    + Optional("name", n.name) + Optional("language", n.language)
  }

  function PropertyMembers(properties: Option<seq<Member>>): seq<Member> {
    if properties.Some? && properties.value != [] then [Member(T("properties"), Obj(properties.value))] else []
  }

  /** `canonical_node_record` */
  ghost function NodeRecord(lib: Lib, schema: Text, n: Node): Option<Json> {
    match OrderEvidence(lib, n.evidence)
    case None => None
    case Some(es) => Some(Obj(NodeHead(schema, n, es) + PropertyMembers(n.properties)))
  }

  /** `canonical_edge_record` of a consolidated edge */
  function EdgeRecord(schema: Text, e: Edge): Json {
    Obj([TextMember("kind", T("edge")), TextMember("edge_id", e.edgeId),
         Member(T("subject"), Endpoint(e.subjectKind, e.subjectKey)), TextMember("predicate", e.relation),
         Member(T("object"), Endpoint(e.objectKind, e.objectKey)), TextMember("truth_class", e.truthClass),
         TextMember("producer", e.producer), TextMember("producer_version", e.producerVersion),
         Member(T("evidence"), EvidenceArray(e.evidence)), Member(T("derived_from"), ReferenceArray(e.derivedFrom)),
         TextMember("schema_version", schema)])
  }

  /** `canonical_assertion_record` */
  ghost function AssertionRecord(lib: Lib, schema: Text, a: Assertion): Option<Json> {
    match SortDerivedFrom(lib, a.derivedFrom)
    case None => None
    case Some(rs) =>
      Some(Obj([TextMember("kind", T("assertion")), TextMember("assertion_id", a.assertionId),
                Member(T("subject"), Endpoint(a.subjectKind, a.subjectKey)), TextMember("predicate", a.relation),
                Member(T("value"), a.value), TextMember("truth_class", a.truthClass),
                TextMember("producer", a.producer), TextMember("producer_version", a.producerVersion),
                Member(T("derived_from"), ReferenceArray(rs)), TextMember("schema_version", schema)]))
  }

  /** `canonical_observation_record` */
  function ObservationRecord(lib: Lib, o: Observation): Option<Json> {
    match CanonicalEvidence(lib, o.evidence)
    case None => None
    case Some(e) =>
      Some(Obj([TextMember("observation_id", o.observationId), TextMember("observed_kind", o.observedKind),
                Member(T("subject"), Endpoint(o.subjectKind, o.subjectKey)),
                Member(T("referent_text"), OrNull(o.referentText)), Member(T("ordinal"), Int(o.ordinal)),
                Member(T("evidence"), EvidenceJson(e))]))
  }

  /** The path of a diagnostic after normalization; nothing when that raises. */
  function PathOf(lib: Lib, path: Option<Text>): Option<Option<Text>> {
    match path
    case None => Some(None)
    case Some(raw) => match RepoPath.NormalizePath(lib.nfc, lib.isAlpha, raw)
                      case None => None
                      case Some(p) => Some(Some(p))
  }

  function SpanJson(span: Option<Span>): Json {
    match span
    case None => Null
    case Some(s) => Obj([Member(T("start_line"), Int(s.startLine)), Member(T("end_line"), Int(s.endLine))])
  }

  /** `canonical_diagnostic_record` */
  function DiagnosticRecord(lib: Lib, d: Diagnostic): Option<Json> {
    match PathOf(lib, d.path)
    case None => None
    case Some(path) =>
      Some(Obj([TextMember("code", d.code), TextMember("category", d.category), TextMember("severity", d.severity),
                TextMember("message", d.message), TextMember("producer", d.producer), Member(T("path"), OrNull(path)),
                Member(T("span"), SpanJson(d.span)), Member(T("subject"), OrNull(d.subject)),
                Member(T("object"), OrNull(d.objectKey)), Member(T("details"), DetailsOf(d))]))
  }

  function DetailsOf(d: Diagnostic): Json { Obj(match d.details case None => [] case Some(ms) => ms) }

  // ------------------------------------------------- sort keys

  function NodeKey(v: Json): Key { [TextAt(v, T("stable_key"))] }

  function EdgeKey(v: Json): Key {
    [TextAt(Field(v, T("subject")), T("stable_key")), TextAt(v, T("predicate")),
     TextAt(Field(v, T("object")), T("stable_key"))]
  }

  function AssertionKey(v: Json): Key {
    [TextAt(Field(v, T("subject")), T("stable_key")), TextAt(v, T("predicate")), TextAt(v, T("assertion_id"))]
  }

  function ObservationKey(v: Json): Key { [TextAt(v, T("observation_id"))] }

  function DiagnosticHead(v: Json): Key {
    [TextAt(v, T("code")), TextAt(v, T("category")), TextAt(v, T("severity")), TextAt(v, T("path"))]
  }

  function DiagnosticSpan(v: Json): Key {
    [NumAt(Field(v, T("span")), T("start_line")), NumAt(Field(v, T("span")), T("end_line"))]
  }

  function DiagnosticTail(v: Json): Key {
    [TextAt(v, T("producer")), TextAt(v, T("subject")), TextAt(v, T("object")), TextAt(v, T("message"))]
  }

  function DiagnosticDetails(lib: Lib, v: Json): Key {
    [Txt(match CanonicalText(lib.nfc, Field(v, T("details"))) case Some(t) => t case None => [])]
  }

  function DiagnosticKey(lib: Lib): Json -> Key {
    (v: Json) => DiagnosticHead(v) + DiagnosticSpan(v) + DiagnosticTail(v) + DiagnosticDetails(lib, v)
  }

  lemma TextAtSame(a: Json, b: Json, name: Text)
    requires Plain(a) && Plain(b) && Same(a, b)
    ensures TextAt(a, name) == TextAt(b, name) && NumAt(a, name) == NumAt(b, name)
  {
    hide Field, Plain;
    FieldSame(a, b, name);
  }

  lemma InnerSame(a: Json, b: Json, name: Text, inner: Text)
    requires Plain(a) && Plain(b) && Same(a, b)
    ensures TextAt(Field(a, name), inner) == TextAt(Field(b, name), inner)
    ensures NumAt(Field(a, name), inner) == NumAt(Field(b, name), inner)
  {
    hide Field, Plain, Same, TextAt, NumAt;
    FieldSame(a, b, name);
    TextAtSame(Field(a, name), Field(b, name), inner);
  }

  lemma FactKeysSame(a: Json, b: Json)
    requires Plain(a) && Plain(b) && Same(a, b)
    ensures NodeKey(a) == NodeKey(b) && EdgeKey(a) == EdgeKey(b) && AssertionKey(a) == AssertionKey(b)
    ensures ObservationKey(a) == ObservationKey(b)
  {
    hide Field, Plain, Same, TextAt, T;
    TextAtSame(a, b, T("stable_key"));
    TextAtSame(a, b, T("predicate"));
    TextAtSame(a, b, T("assertion_id"));
    TextAtSame(a, b, T("observation_id"));
    InnerSame(a, b, T("subject"), T("stable_key"));
    InnerSame(a, b, T("object"), T("stable_key"));
  }

  lemma DiagnosticTextsSame(a: Json, b: Json)
    requires Plain(a) && Plain(b) && Same(a, b)
    ensures DiagnosticHead(a) == DiagnosticHead(b) && DiagnosticTail(a) == DiagnosticTail(b)
  {
    hide Field, Plain, Same, TextAt, T;
    TextAtSame(a, b, T("code"));
    TextAtSame(a, b, T("category"));
    TextAtSame(a, b, T("severity"));
    TextAtSame(a, b, T("path"));
    TextAtSame(a, b, T("producer"));
    TextAtSame(a, b, T("subject"));
    TextAtSame(a, b, T("object"));
    TextAtSame(a, b, T("message"));
  }

  lemma DiagnosticDetailsSame(lib: Lib, a: Json, b: Json)
    requires Plain(a) && Plain(b) && Same(a, b)
    ensures DiagnosticSpan(a) == DiagnosticSpan(b) && DiagnosticDetails(lib, a) == DiagnosticDetails(lib, b)
  {
    hide Field, Plain, Same, NumAt, CanonicalText, T;
    InnerSame(a, b, T("span"), T("start_line"));
    InnerSame(a, b, T("span"), T("end_line"));
    FieldSame(a, b, T("details"));
    PlainKeyed(Field(a, T("details")));
    PlainKeyed(Field(b, T("details")));
    MappingOrderForgotten(lib.nfc, Field(a, T("details")), Field(b, T("details")));
  }

  lemma DiagnosticKeySame(lib: Lib, a: Json, b: Json)
    requires Plain(a) && Plain(b) && Same(a, b)
    ensures DiagnosticKey(lib)(a) == DiagnosticKey(lib)(b)
  {
    hide Plain, Same, DiagnosticHead, DiagnosticSpan, DiagnosticTail, DiagnosticDetails;
    DiagnosticTextsSame(a, b);
    DiagnosticDetailsSame(lib, a, b);
  }

  lemma KeysRespect(lib: Lib)
    ensures Respects(NodeKey) && Respects(EdgeKey) && Respects(AssertionKey) && Respects(ObservationKey)
    ensures Respects(DiagnosticKey(lib))
  {
    hide Plain, Same, NodeKey, EdgeKey, AssertionKey, ObservationKey, DiagnosticKey;
    forall a, b | Plain(a) && Plain(b) && Same(a, b)
      ensures NodeKey(a) == NodeKey(b) && EdgeKey(a) == EdgeKey(b) && AssertionKey(a) == AssertionKey(b)
      ensures ObservationKey(a) == ObservationKey(b) && DiagnosticKey(lib)(a) == DiagnosticKey(lib)(b)
    {
      FactKeysSame(a, b);
      DiagnosticKeySame(lib, a, b);
    }
  }

  // ------------------------------------------------- the document

  /** `normalize_producer_version_set` */
  ghost function ProducerSet(lib: Lib, ps: seq<Text>): Option<seq<Text>> {
    var normal := Normals(lib, ps);
    if forall i :: 0 <= i < |normal| ==> Encodable(normal[i]) then Some(Ordered(normal, Utf8, (t: Text) => []))
    else None
  }

  function Normals(lib: Lib, ps: seq<Text>): seq<Text> { seq(|ps|, i requires 0 <= i < |ps| => lib.nfc(ps[i])) }

  /** A raised exception, or the list of records built. */
  ghost function AllBuilt(rs: seq<Option<Json>>): Option<seq<Json>> {
    if forall i :: 0 <= i < |rs| ==> rs[i].Some?
    then Some(seq(|rs|, i requires 0 <= i < |rs| => rs[i].value)) else None
  }

  ghost function OrderedArray(lib: Lib, rs: seq<Option<Json>>, key: Json -> Key): Option<Json> {
    match AllBuilt(rs)
    case None => None
    case Some(vs) => match OrderRecords(lib, vs, key)
                     case None => None
                     case Some(out) => Some(Arr(out))
  }

  ghost function NodeRecords(lib: Lib, schema: Text, ns: seq<Node>): seq<Option<Json>> {
    seq(|ns|, i requires 0 <= i < |ns| => NodeRecord(lib, schema, ns[i]))
  }

  ghost function AssertionRecords(lib: Lib, schema: Text, s: seq<Assertion>): seq<Option<Json>> {
    seq(|s|, i requires 0 <= i < |s| => AssertionRecord(lib, schema, s[i]))
  }

  ghost function ObservationRecords(lib: Lib, os: seq<Observation>): seq<Option<Json>> {
    seq(|os|, i requires 0 <= i < |os| => ObservationRecord(lib, os[i]))
  }

  ghost function DiagnosticRecords(lib: Lib, ds: seq<Diagnostic>): seq<Option<Json>> {
    seq(|ds|, i requires 0 <= i < |ds| => DiagnosticRecord(lib, ds[i]))
  }

  ghost function ConsolidatedRecord(lib: Lib, schema: Text, edges: seq<Edge>, t: Triple): Option<Json> {
    match ConsolidatedEdge(lib, edges, t) case None => None case Some(e) => Some(EdgeRecord(schema, e))
  }

  /** The records of `_consolidate_edges`, or one raised exception. */
  ghost function EdgeRecords(lib: Lib, schema: Text, edges: seq<Edge>): seq<Option<Json>> {
    if !Consistent(lib, edges) then [None]
    else seq(|Triples(edges)|, i requires 0 <= i < |Triples(edges)| =>
               ConsolidatedRecord(lib, schema, edges, Triples(edges)[i]))
  }

  /** The producer set and the five ordered arrays, each possibly raised. */
  datatype Parts = Parts(producers: Option<seq<Text>>, nodes: Option<Json>, edges: Option<Json>,
                         assertions: Option<Json>, observations: Option<Json>, diagnostics: Option<Json>)

  ghost function PartsOf(lib: Lib, g: Graph): Parts {
    Parts(ProducerSet(lib, g.producers),
          OrderedArray(lib, NodeRecords(lib, g.schemaVersion, g.nodes), NodeKey),
          OrderedArray(lib, EdgeRecords(lib, g.schemaVersion, g.edges), EdgeKey),
          OrderedArray(lib, AssertionRecords(lib, g.schemaVersion, g.assertions), AssertionKey),
          OrderedArray(lib, ObservationRecords(lib, g.observations), ObservationKey),
          OrderedArray(lib, DiagnosticRecords(lib, g.diagnostics), DiagnosticKey(lib)))
  }

  function Assemble(g: Graph, p: Parts): Option<Json> {
    if p.producers.None? || p.nodes.None? || p.edges.None? || p.assertions.None? || p.observations.None?
       || p.diagnostics.None?
    then None
    else Some(DocumentJson(g, p.producers.value, p.nodes.value, p.edges.value, p.assertions.value, p.observations.value,
                           p.diagnostics.value))
  }

  /** The document `compute_canonical_graph_hash` hashes. */
  ghost function Document(lib: Lib, g: Graph): Option<Json> {
    Assemble(g, PartsOf(lib, g))
  }

  function DocumentJson(g: Graph, producers: seq<Text>, nodes: Json, edges: Json, assertions: Json, observations: Json,
                        diagnostics: Json): Json {
    Obj([TextMember("schema_version", g.schemaVersion), Member(T("revision"), RevisionJson(g)),
         Member(T("producer_version_set"), ProducerArray(producers)), TextMember("config_hash", g.configHash),
         Member(T("nodes"), nodes), Member(T("edges"), edges), Member(T("assertions"), assertions),
         Member(T("observations"), observations), Member(T("diagnostics"), diagnostics)])
  }

  /** The bytes that are hashed, or a raised exception. */
  ghost function PreImage(lib: Lib, g: Graph): Option<Text> {
    match Document(lib, g)
    case None => None
    case Some(d) => Encode(lib.nfc, d)
  }

  // ------------------------------------------------- the document and its content

  ghost function TextOf(lib: Lib, v: Option<Json>): Option<Text> {
    match v case None => None case Some(j) => CanonicalText(lib.nfc, j)
  }

  /** The canonical texts of the records; `None` among them when one raises. */
  ghost function BuiltTexts(lib: Lib, rs: seq<Option<Json>>): set<Option<Text>> {
    set r | r in rs :: TextOf(lib, r)
  }

  lemma BuiltTextsAre(lib: Lib, rs: seq<Option<Json>>)
    ensures AllBuilt(rs).Some? ==> BuiltTexts(lib, rs) == RecordTexts(lib, AllBuilt(rs).value)
    ensures AllBuilt(rs).None? ==> None in BuiltTexts(lib, rs)
  {
    hide CanonicalText;
    if AllBuilt(rs).Some? {
      var vs := AllBuilt(rs).value;
      forall t ensures t in BuiltTexts(lib, rs) <==> t in RecordTexts(lib, vs) {
        if t in BuiltTexts(lib, rs) {
          var r :| r in rs && TextOf(lib, r) == t;
          var i :| 0 <= i < |rs| && rs[i] == r;
          assert vs[i] in vs;
        }
        if t in RecordTexts(lib, vs) {
          var v :| v in vs && CanonicalText(lib.nfc, v) == t;
          var i :| 0 <= i < |vs| && vs[i] == v;
          assert rs[i] in rs && TextOf(lib, rs[i]) == t;
        }
      }
    } else {
      var i :| 0 <= i < |rs| && rs[i].None?;
      assert rs[i] in rs && TextOf(lib, rs[i]) == None;
    }
  }

  /** An array is built exactly when no record of it raises, and then it can be printed. */
  lemma OrderedArrayBuilt(lib: Lib, rs: seq<Option<Json>>, key: Json -> Key)
    requires Idempotent(lib.nfc)
    ensures OrderedArray(lib, rs, key).Some? <==> None !in BuiltTexts(lib, rs)
    ensures OrderedArray(lib, rs, key).Some? ==> TextOf(lib, OrderedArray(lib, rs, key)).Some?
  {
    hide AllBuilt, CanonicalText, Ordered, RecordTexts, BuiltTexts, AllRecordsUsable, Idempotent;
    BuiltTextsAre(lib, rs);
    if AllBuilt(rs).Some? {
      AllUsableTexts(lib, AllBuilt(rs).value);
      if OrderRecords(lib, AllBuilt(rs).value, key).Some? { OrderedPrints(lib, AllBuilt(rs).value, key); }
    }
  }

  /** Two arrays that are built have equal texts exactly when they hold the same record texts. */
  lemma OrderedArrayExactly(lib: Lib, rs: seq<Option<Json>>, ts: seq<Option<Json>>, key: Json -> Key)
    requires Idempotent(lib.nfc) && Respects(key)
    requires OrderedArray(lib, rs, key).Some? && OrderedArray(lib, ts, key).Some?
    ensures TextOf(lib, OrderedArray(lib, rs, key)) == TextOf(lib, OrderedArray(lib, ts, key)) <==>
            BuiltTexts(lib, rs) == BuiltTexts(lib, ts)
  {
    hide AllBuilt, CanonicalText, OrderRecords, RecordTexts, BuiltTexts, Idempotent, Respects;
    BuiltTextsAre(lib, rs);
    BuiltTextsAre(lib, ts);
    ArrayExactly(lib, AllBuilt(rs).value, AllBuilt(ts).value, key);
  }

  /** What a graph says, up to everything that canonical form forgets. */
  datatype Content = Content(schema: Text, revisionKind: Text, revisionValue: Text, configHash: Text,
                             producers: Option<seq<Text>>, nodes: set<Option<Text>>, edges: set<Option<Text>>,
                             assertions: set<Option<Text>>, observations: set<Option<Text>>,
                             diagnostics: set<Option<Text>>)

  ghost function ContentOf(lib: Lib, g: Graph): Content {
    Content(lib.nfc(g.schemaVersion), lib.nfc(g.revisionKind), lib.nfc(g.revisionValue), lib.nfc(g.configHash),
            ProducerSet(lib, g.producers),
            BuiltTexts(lib, NodeRecords(lib, g.schemaVersion, g.nodes)),
            BuiltTexts(lib, EdgeRecords(lib, g.schemaVersion, g.edges)),
            BuiltTexts(lib, AssertionRecords(lib, g.schemaVersion, g.assertions)),
            BuiltTexts(lib, ObservationRecords(lib, g.observations)),
            BuiltTexts(lib, DiagnosticRecords(lib, g.diagnostics)))
  }

  /** The parts agree in what raises and in their texts. */
  ghost predicate SamePartTexts(lib: Lib, p: Parts, q: Parts) {
    && p.producers == q.producers
    && (p.nodes.Some? <==> q.nodes.Some?) && TextOf(lib, p.nodes) == TextOf(lib, q.nodes)
    && (p.edges.Some? <==> q.edges.Some?) && TextOf(lib, p.edges) == TextOf(lib, q.edges)
    && (p.assertions.Some? <==> q.assertions.Some?) && TextOf(lib, p.assertions) == TextOf(lib, q.assertions)
    && (p.observations.Some? <==> q.observations.Some?) && TextOf(lib, p.observations) == TextOf(lib, q.observations)
    && (p.diagnostics.Some? <==> q.diagnostics.Some?) && TextOf(lib, p.diagnostics) == TextOf(lib, q.diagnostics)
  }

  lemma OrderedArrayByTexts(lib: Lib, rs: seq<Option<Json>>, ts: seq<Option<Json>>, key: Json -> Key)
    requires Idempotent(lib.nfc) && Respects(key) && BuiltTexts(lib, rs) == BuiltTexts(lib, ts)
    ensures OrderedArray(lib, rs, key).Some? <==> OrderedArray(lib, ts, key).Some?
    ensures TextOf(lib, OrderedArray(lib, rs, key)) == TextOf(lib, OrderedArray(lib, ts, key))
  {
    hide OrderedArray, BuiltTexts, Idempotent, Respects, CanonicalText;
    OrderedArrayBuilt(lib, rs, key);
    OrderedArrayBuilt(lib, ts, key);
    if OrderedArray(lib, rs, key).Some? { OrderedArrayExactly(lib, rs, ts, key); }
  }

  lemma PartsByContent(lib: Lib, a: Graph, b: Graph)
    requires Idempotent(lib.nfc) && ContentOf(lib, a) == ContentOf(lib, b)
    ensures SamePartTexts(lib, PartsOf(lib, a), PartsOf(lib, b))
  {
    hide OrderedArray, TextOf, BuiltTexts, NodeRecords, AssertionRecords, ObservationRecords, DiagnosticRecords,
         EdgeRecords, ProducerSet, Respects, Idempotent, NodeKey, EdgeKey, AssertionKey, ObservationKey,
         DiagnosticKey;
    KeysRespect(lib);
    var s, t := a.schemaVersion, b.schemaVersion;
    OrderedArrayByTexts(lib, NodeRecords(lib, s, a.nodes), NodeRecords(lib, t, b.nodes), NodeKey);
    OrderedArrayByTexts(lib, EdgeRecords(lib, s, a.edges), EdgeRecords(lib, t, b.edges), EdgeKey);
    OrderedArrayByTexts(lib, AssertionRecords(lib, s, a.assertions), AssertionRecords(lib, t, b.assertions),
                        AssertionKey);
    OrderedArrayByTexts(lib, ObservationRecords(lib, a.observations), ObservationRecords(lib, b.observations),
                        ObservationKey);
    OrderedArrayByTexts(lib, DiagnosticRecords(lib, a.diagnostics), DiagnosticRecords(lib, b.diagnostics),
                        DiagnosticKey(lib));
  }

  function RevisionJson(g: Graph): Json {
    Obj([TextMember("kind", g.revisionKind), TextMember("value", g.revisionValue)])
  }

  /** The four scalars agree once normalized. */
  ghost predicate SameScalars(lib: Lib, a: Graph, b: Graph) {
    && lib.nfc(a.schemaVersion) == lib.nfc(b.schemaVersion) && lib.nfc(a.configHash) == lib.nfc(b.configHash)
    && lib.nfc(a.revisionKind) == lib.nfc(b.revisionKind) && lib.nfc(a.revisionValue) == lib.nfc(b.revisionValue)
  }

  lemma ScalarTexts(lib: Lib, a: Graph, b: Graph)
    requires SameScalars(lib, a, b)
    ensures CanonicalText(lib.nfc, Str(a.schemaVersion)) == CanonicalText(lib.nfc, Str(b.schemaVersion))
    ensures CanonicalText(lib.nfc, Str(a.configHash)) == CanonicalText(lib.nfc, Str(b.configHash))
    ensures CanonicalText(lib.nfc, RevisionJson(a)) == CanonicalText(lib.nfc, RevisionJson(b))
  {
    hide CanonicalText, T;
    TextDecides(lib.nfc, a.schemaVersion, b.schemaVersion);
    TextDecides(lib.nfc, a.configHash, b.configHash);
    TextDecides(lib.nfc, a.revisionKind, b.revisionKind);
    TextDecides(lib.nfc, a.revisionValue, b.revisionValue);
    SameParts(lib.nfc, RevisionJson(a).members, RevisionJson(b).members);
  }

  lemma DocumentByParts(lib: Lib, a: Graph, b: Graph, p: Parts, q: Parts)
    requires SameScalars(lib, a, b) && SamePartTexts(lib, p, q)
    ensures Assemble(a, p).Some? <==> Assemble(b, q).Some?
    ensures Assemble(a, p).Some? ==>
            CanonicalText(lib.nfc, Assemble(a, p).value) == CanonicalText(lib.nfc, Assemble(b, q).value)
  {
    hide CanonicalText, T;
    ScalarTexts(lib, a, b);
    if Assemble(a, p).Some? {
      SameParts(lib.nfc, Assemble(a, p).value.members, Assemble(b, q).value.members);
    }
  }

  /** Equal content gives equal bytes, or the same failure. */
  lemma PreImageByContent(lib: Lib, a: Graph, b: Graph)
    requires Idempotent(lib.nfc) && ContentOf(lib, a) == ContentOf(lib, b)
    ensures PreImage(lib, a) == PreImage(lib, b)
  {
    hide PartsOf, CanonicalText, SamePartTexts, Assemble, Idempotent;
    PartsByContent(lib, a, b);
    DocumentByParts(lib, a, b, PartsOf(lib, a), PartsOf(lib, b));
  }

  // ------------------------------------------------- and back

  lemma AssembledText(lib: Lib, g: Graph)
    requires PreImage(lib, g).Some?
    ensures Document(lib, g).Some? && CanonicalText(lib.nfc, Document(lib, g).value).Some?
    ensures PreImage(lib, g).value == Utf8(CanonicalText(lib.nfc, Document(lib, g).value).value)
    ensures Encodable(CanonicalText(lib.nfc, Document(lib, g).value).value)
  {
    hide Document, Normalize, Serialize, AllEncodable, Encodable, Utf8;
    Canonical.SerializeEncodable(Normalize(lib.nfc, Document(lib, g).value).value);
  }

  lemma EqualTexts(lib: Lib, a: Graph, b: Graph)
    requires PreImage(lib, a).Some? && PreImage(lib, a) == PreImage(lib, b)
    ensures Document(lib, a).Some? && Document(lib, b).Some? && CanonicalText(lib.nfc, Document(lib, a).value).Some?
    ensures CanonicalText(lib.nfc, Document(lib, a).value) == CanonicalText(lib.nfc, Document(lib, b).value)
  {
    hide Document, CanonicalText, PreImage, Utf8, Encodable;
    AssembledText(lib, a);
    AssembledText(lib, b);
    Utf8Injective(CanonicalText(lib.nfc, Document(lib, a).value).value,
                  CanonicalText(lib.nfc, Document(lib, b).value).value);
  }

  ghost predicate EqualText(lib: Lib, u: Json, v: Json) {
    CanonicalText(lib.nfc, u).Some? && CanonicalText(lib.nfc, u) == CanonicalText(lib.nfc, v)
  }

  /** Equal document texts have equal part texts. */
  lemma PartsByText(lib: Lib, a: Graph, b: Graph, p: Parts, q: Parts)
    requires Assemble(a, p).Some? && Assemble(b, q).Some? && EqualText(lib, Assemble(a, p).value, Assemble(b, q).value)
    ensures EqualText(lib, Str(a.schemaVersion), Str(b.schemaVersion))
    ensures EqualText(lib, RevisionJson(a), RevisionJson(b))
    ensures EqualText(lib, ProducerArray(p.producers.value), ProducerArray(q.producers.value))
    ensures EqualText(lib, Str(a.configHash), Str(b.configHash)) && EqualText(lib, p.nodes.value, q.nodes.value)
    ensures EqualText(lib, p.edges.value, q.edges.value) && EqualText(lib, p.assertions.value, q.assertions.value)
    ensures EqualText(lib, p.observations.value, q.observations.value)
    ensures EqualText(lib, p.diagnostics.value, q.diagnostics.value)
  {
    hide CanonicalText, T, RevisionJson, ProducerArray;
    var ms, ns := Assemble(a, p).value.members, Assemble(b, q).value.members;
    assert |ms| == 9 && |ns| == 9;
    PartsDecide(lib.nfc, ms, ns, 0);
    PartsDecide(lib.nfc, ms, ns, 1);
    PartsDecide(lib.nfc, ms, ns, 2);
    PartsDecide(lib.nfc, ms, ns, 3);
    PartsDecide(lib.nfc, ms, ns, 4);
    PartsDecide(lib.nfc, ms, ns, 5);
    PartsDecide(lib.nfc, ms, ns, 6);
    PartsDecide(lib.nfc, ms, ns, 7);
    PartsDecide(lib.nfc, ms, ns, 8);
  }

  lemma ScalarsByText(lib: Lib, a: Graph, b: Graph)
    requires EqualText(lib, Str(a.schemaVersion), Str(b.schemaVersion))
    requires EqualText(lib, Str(a.configHash), Str(b.configHash))
    requires EqualText(lib, RevisionJson(a), RevisionJson(b))
    ensures SameScalars(lib, a, b)
  {
    hide CanonicalText, T;
    TextDecides(lib.nfc, a.schemaVersion, b.schemaVersion);
    TextDecides(lib.nfc, a.configHash, b.configHash);
    var ms, ns := RevisionJson(a).members, RevisionJson(b).members;
    PartsDecide(lib.nfc, ms, ns, 0);
    PartsDecide(lib.nfc, ms, ns, 1);
    TextDecides(lib.nfc, a.revisionKind, b.revisionKind);
    TextDecides(lib.nfc, a.revisionValue, b.revisionValue);
  }

  function ProducerArray(ps: seq<Text>): Json { Arr(seq(|ps|, i requires 0 <= i < |ps| => Str(ps[i]))) }

  lemma ProducersByText(lib: Lib, ps: seq<Text>, qs: seq<Text>)
    requires Idempotent(lib.nfc) && ProducerSet(lib, ps).Some? && ProducerSet(lib, qs).Some?
    requires EqualText(lib, ProducerArray(ProducerSet(lib, ps).value), ProducerArray(ProducerSet(lib, qs).value))
    ensures ProducerSet(lib, ps) == ProducerSet(lib, qs)
  {
    hide CanonicalText, ProducerSet, BracketedText;
    var x, y := ProducerSet(lib, ps).value, ProducerSet(lib, qs).value;
    ArrayByParts(lib.nfc, ProducerArray(x).items);
    ItemsDecide(lib.nfc, ProducerArray(x).items, ProducerArray(y).items);
    forall i | 0 <= i < |x| ensures x[i] == y[i] {
      ProducerNormal(lib, ps, i);
      ProducerNormal(lib, qs, i);
      assert ProducerArray(x).items[i] == Str(x[i]) && ProducerArray(y).items[i] == Str(y[i]);
      assert CanonicalText(lib.nfc, ProducerArray(x).items[i]).Some?;
      TextDecides(lib.nfc, x[i], y[i]);
    }
    assert |x| == |ProducerArray(x).items| == |ProducerArray(y).items| == |y|;
    assert x == y;
  }

  lemma ProducerNormal(lib: Lib, ps: seq<Text>, i: nat)
    requires Idempotent(lib.nfc) && ProducerSet(lib, ps).Some? && i < |ProducerSet(lib, ps).value|
    ensures lib.nfc(ProducerSet(lib, ps).value[i]) == ProducerSet(lib, ps).value[i]
  {
    hide Ordered, Encodable, Utf8;
    var normal := Normals(lib, ps);
    var x := ProducerSet(lib, ps).value[i];
    OrderedFrom(normal, Utf8, (t: Text) => [], x);
    var j :| 0 <= j < |normal| && normal[j] == x;
  }

  lemma ArraysByText(lib: Lib, a: Graph, b: Graph)
    requires Idempotent(lib.nfc) && SamePartTexts(lib, PartsOf(lib, a), PartsOf(lib, b))
    requires Assemble(a, PartsOf(lib, a)).Some?
    ensures var x, y := ContentOf(lib, a), ContentOf(lib, b);
            && x.nodes == y.nodes && x.edges == y.edges && x.assertions == y.assertions
            && x.observations == y.observations && x.diagnostics == y.diagnostics
  {
    hide OrderedArray, TextOf, BuiltTexts, NodeRecords, AssertionRecords, ObservationRecords, DiagnosticRecords,
         EdgeRecords, ProducerSet, Respects, Idempotent, NodeKey, EdgeKey, AssertionKey, ObservationKey,
         DiagnosticKey, DocumentJson;
    KeysRespect(lib);
    var s, t := a.schemaVersion, b.schemaVersion;
    OrderedArrayExactly(lib, NodeRecords(lib, s, a.nodes), NodeRecords(lib, t, b.nodes), NodeKey);
    OrderedArrayExactly(lib, EdgeRecords(lib, s, a.edges), EdgeRecords(lib, t, b.edges), EdgeKey);
    OrderedArrayExactly(lib, AssertionRecords(lib, s, a.assertions), AssertionRecords(lib, t, b.assertions),
                        AssertionKey);
    OrderedArrayExactly(lib, ObservationRecords(lib, a.observations), ObservationRecords(lib, b.observations),
                        ObservationKey);
    OrderedArrayExactly(lib, DiagnosticRecords(lib, a.diagnostics), DiagnosticRecords(lib, b.diagnostics),
                        DiagnosticKey(lib));
  }

  /** Equal bytes come from equal content. */
  lemma ContentByPreImage(lib: Lib, a: Graph, b: Graph)
    requires Idempotent(lib.nfc) && PreImage(lib, a).Some? && PreImage(lib, a) == PreImage(lib, b)
    ensures ContentOf(lib, a) == ContentOf(lib, b)
  {
    hide PreImage, CanonicalText, OrderedArray, BuiltTexts, ProducerSet, Idempotent, DocumentJson, ProducerArray,
         RevisionJson, NodeRecords, AssertionRecords, ObservationRecords, DiagnosticRecords, EdgeRecords;
    EqualTexts(lib, a, b);
    PartsByText(lib, a, b, PartsOf(lib, a), PartsOf(lib, b));
    ScalarsByText(lib, a, b);
    ProducersByText(lib, a.producers, b.producers);
    ArraysByText(lib, a, b);
  }

  /** A hashed graph and another have the same bytes exactly when they have the same content. */
  lemma HashDecidesContent(lib: Lib, a: Graph, b: Graph)
    requires Idempotent(lib.nfc) && PreImage(lib, a).Some?
    ensures PreImage(lib, a) == PreImage(lib, b) <==> ContentOf(lib, a) == ContentOf(lib, b)
  {
    hide PreImage, ContentOf, Idempotent;
    if PreImage(lib, a) == PreImage(lib, b) { ContentByPreImage(lib, a, b); }
    if ContentOf(lib, a) == ContentOf(lib, b) { PreImageByContent(lib, a, b); }
  }
}
