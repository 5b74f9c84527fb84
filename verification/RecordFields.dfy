/** What each record holds. */
module RecordFields {
  // Each field of a record holds the column it is named after, and the arrays of the
  // document are ordered by the columns their sort keys name.

  import opened Order
  import opened Encoding
  import opened Json
  import opened MappingOrder
  import opened RecordOrder
  import opened Evidence
  import opened References
  import opened Edges
  import opened Records
  import opened RecordShape
  import opened GraphDocument
  import opened NormalFacts
  import Ordinals
  import RepoPath

  /** The text of a field. */
  predicate Holds(v: Json, name: string, t: Text) { Field(v, T(name)) == Str(t) }

  predicate HoldsEndpoint(v: Json, name: string, kind: Text, key: Text) {
    Holds(Field(v, T(name)), "kind", kind) && Holds(Field(v, T(name)), "stable_key", key)
  }

  lemma AllFields(ms: seq<Member>, names: seq<string>)
    requires Named(ms, names) && Distinct(names)
    ensures forall i :: 0 <= i < |names| ==> Field(Obj(ms), T(names[i])) == ms[i].value
  {
    hide T, Field;
    forall i | 0 <= i < |names| ensures Field(Obj(ms), T(names[i])) == ms[i].value { NamedField(ms, names, i); }
  }

  lemma EndpointFields(kind: Text, key: Text)
    ensures Holds(Endpoint(kind, key), "kind", kind) && Holds(Endpoint(kind, key), "stable_key", key)
  {
    hide T, Field;
    var ms := Endpoint(kind, key).members;
    NamedField(ms, ENDPOINT_COLUMNS, 0);
    NamedField(ms, ENDPOINT_COLUMNS, 1);
  }

  /** A node record names its columns; the optional ones are there when the node has them. */
  lemma NodeFields(lib: Lib, schema: Text, n: Node)
    requires NodeRecord(lib, schema, n).Some?
    ensures var v := NodeRecord(lib, schema, n).value;
            && Holds(v, "kind", T("node")) && Holds(v, "node_kind", n.nodeKind) && Holds(v, "stable_key", n.stableKey)
            && Holds(v, "truth_class", n.truthClass) && Holds(v, "schema_version", schema)
            && Field(v, T("evidence")) == EvidenceArray(OrderEvidence(lib, n.evidence).value)
            && Field(v, T("name")) == OrNull(n.name) && Field(v, T("language")) == OrNull(n.language)
            && Field(v, T("properties")) == if HasProperties(n) then Obj(n.properties.value) else Null
  {
    hide T, Field, OrderEvidence, EvidenceArray, HasProperties, Named, PropertyMembers, Columns;
    var es := OrderEvidence(lib, n.evidence).value;
    var ms, names := NodeMembers(schema, n, es), NodeColumns(n);
    NodeNamed(schema, n, es);
    NodeColumnsApart(n);
    assert Distinct(names) by { ColumnsDistinct(names); }
    NodeFixedAt(schema, n, es);
    NamedField(ms, names, 0);
    NamedField(ms, names, 1);
    NamedField(ms, names, 2);
    NamedField(ms, names, 3);
    NamedField(ms, names, 4);
    NamedField(ms, names, 5);
    OptionalFields(schema, n, es);
  }

  lemma ColumnsDistinct(names: seq<string>)
    requires Columns(names)
    ensures Distinct(names)
  {
  }

  lemma NodeFixedAt(schema: Text, n: Node, es: seq<Evidence>)
    ensures var ms, names := NodeMembers(schema, n, es), NodeColumns(n);
            && |ms| >= 6 && |names| >= 6 && names[..6] == NODE_COLUMNS
            && ms[0].value == Str(T("node")) && ms[1].value == Str(n.nodeKind) && ms[2].value == Str(n.stableKey)
            && ms[3].value == Str(n.truthClass) && ms[4].value == Str(schema) && ms[5].value == EvidenceArray(es)
  {
    hide T, EvidenceArray, HasProperties, PropertyMembers;
  }

  lemma OptionalFields(schema: Text, n: Node, es: seq<Evidence>)
    ensures var v := Obj(NodeMembers(schema, n, es));
            && Field(v, T("name")) == OrNull(n.name) && Field(v, T("language")) == OrNull(n.language)
            && Field(v, T("properties")) == if HasProperties(n) then Obj(n.properties.value) else Null
  {
    hide T, Field, EvidenceArray, Named, Columns;
    var ms, names := NodeMembers(schema, n, es), NodeColumns(n);
    NodeNamed(schema, n, es);
    NodeColumnsApart(n);
    assert Distinct(names) by { ColumnsDistinct(names); }
    ColumnPresent(n);
    var k, l := 6 + if n.name.Some? then 1 else 0, |names| - 1;
    if n.name.Some? { NamedField(ms, names, 6); } else { NamedAbsent(ms, names, "name"); }
    if n.language.Some? { NamedField(ms, names, k); } else { NamedAbsent(ms, names, "language"); }
    if HasProperties(n) { NamedField(ms, names, l); } else { NamedAbsent(ms, names, "properties"); }
  }

  lemma EdgeColumnNames()
    ensures |EDGE_COLUMNS| == 11 && EDGE_COLUMNS[0] == "kind" && EDGE_COLUMNS[1] == "edge_id"
    ensures EDGE_COLUMNS[2] == "subject" && EDGE_COLUMNS[3] == "predicate" && EDGE_COLUMNS[4] == "object"
    ensures EDGE_COLUMNS[5] == "truth_class" && EDGE_COLUMNS[6] == "producer"
    ensures EDGE_COLUMNS[7] == "producer_version" && EDGE_COLUMNS[8] == "evidence"
    ensures EDGE_COLUMNS[9] == "derived_from" && EDGE_COLUMNS[10] == "schema_version"
  {
  }

  /** An edge record names its columns. */
  lemma EdgeRecordFields(schema: Text, e: Edge)
    ensures var v := EdgeRecord(schema, e);
            && Holds(v, "kind", T("edge")) && Holds(v, "edge_id", e.edgeId) && Holds(v, "predicate", e.relation)
            && HoldsEndpoint(v, "subject", e.subjectKind, e.subjectKey)
            && HoldsEndpoint(v, "object", e.objectKind, e.objectKey)
            && Holds(v, "truth_class", e.truthClass) && Holds(v, "producer", e.producer)
            && Holds(v, "producer_version", e.producerVersion) && Holds(v, "schema_version", schema)
            && Field(v, T("evidence")) == EvidenceArray(e.evidence)
            && Field(v, T("derived_from")) == ReferenceArray(e.derivedFrom)
  {
    hide T, Field, EvidenceArray, ReferenceArray, Endpoint, EDGE_COLUMNS, Columns, Named;
    var ms := EdgeRecord(schema, e).members;
    EdgeNamed(schema, e);
    EdgeColumnsApart();
    ColumnsDistinct(EDGE_COLUMNS);
    EndpointFields(e.subjectKind, e.subjectKey);
    EndpointFields(e.objectKind, e.objectKey);
    AllFields(ms, EDGE_COLUMNS);
    EdgeColumnNames();
  }

  lemma AssertionColumnNames()
    ensures |ASSERTION_COLUMNS| == 10 && ASSERTION_COLUMNS[0] == "kind" && ASSERTION_COLUMNS[1] == "assertion_id"
    ensures ASSERTION_COLUMNS[2] == "subject" && ASSERTION_COLUMNS[3] == "predicate"
    ensures ASSERTION_COLUMNS[4] == "value" && ASSERTION_COLUMNS[5] == "truth_class"
    ensures ASSERTION_COLUMNS[6] == "producer" && ASSERTION_COLUMNS[7] == "producer_version"
    ensures ASSERTION_COLUMNS[8] == "derived_from" && ASSERTION_COLUMNS[9] == "schema_version"
  {
  }

  /** An assertion record names its columns. */
  lemma AssertionRecordFields(lib: Lib, schema: Text, a: Assertion)
    requires AssertionRecord(lib, schema, a).Some?
    ensures var v := AssertionRecord(lib, schema, a).value;
            && Holds(v, "kind", T("assertion")) && Holds(v, "assertion_id", a.assertionId)
            && HoldsEndpoint(v, "subject", a.subjectKind, a.subjectKey) && Holds(v, "predicate", a.relation)
            && Field(v, T("value")) == a.value && Holds(v, "truth_class", a.truthClass)
            && Holds(v, "producer", a.producer) && Holds(v, "producer_version", a.producerVersion)
            && Holds(v, "schema_version", schema)
            && Field(v, T("derived_from")) == ReferenceArray(SortDerivedFrom(lib, a.derivedFrom).value)
  {
    hide T, Field, ReferenceArray, Endpoint, SortDerivedFrom, ASSERTION_COLUMNS, Columns, Named;
    var ms := AssertionRecord(lib, schema, a).value.members;
    AssertionNamed(lib, schema, a);
    AssertionColumnsApart();
    ColumnsDistinct(ASSERTION_COLUMNS);
    EndpointFields(a.subjectKind, a.subjectKey);
    AllFields(ms, ASSERTION_COLUMNS);
    AssertionColumnNames();
  }

  lemma ObservationColumnNames()
    ensures |OBSERVATION_COLUMNS| == 6 && OBSERVATION_COLUMNS[0] == "observation_id"
    ensures OBSERVATION_COLUMNS[1] == "observed_kind" && OBSERVATION_COLUMNS[2] == "subject"
    ensures OBSERVATION_COLUMNS[3] == "referent_text" && OBSERVATION_COLUMNS[4] == "ordinal"
    ensures OBSERVATION_COLUMNS[5] == "evidence"
  {
  }

  /** An observation record names its columns. */
  lemma ObservationRecordFields(lib: Lib, o: Observation)
    requires ObservationRecord(lib, o).Some?
    ensures var v := ObservationRecord(lib, o).value;
            && Holds(v, "observation_id", o.observationId) && Holds(v, "observed_kind", o.observedKind)
            && HoldsEndpoint(v, "subject", o.subjectKind, o.subjectKey)
            && Field(v, T("referent_text")) == OrNull(o.referentText) && Field(v, T("ordinal")) == Int(o.ordinal)
            && Field(v, T("evidence")) == EvidenceJson(CanonicalEvidence(lib, o.evidence).value)
  {
    hide T, Field, Endpoint, CanonicalEvidence, EvidenceJson, OrNull, OBSERVATION_COLUMNS, Columns, Named;
    var ms := ObservationRecord(lib, o).value.members;
    ObservationNamed(lib, o);
    ObservationColumnsApart();
    ColumnsDistinct(OBSERVATION_COLUMNS);
    EndpointFields(o.subjectKind, o.subjectKey);
    AllFields(ms, OBSERVATION_COLUMNS);
    ObservationColumnNames();
  }

  lemma DiagnosticColumnNames()
    ensures |DIAGNOSTIC_COLUMNS| == 10 && DIAGNOSTIC_COLUMNS[0] == "code" && DIAGNOSTIC_COLUMNS[1] == "category"
    ensures DIAGNOSTIC_COLUMNS[2] == "severity" && DIAGNOSTIC_COLUMNS[3] == "message"
    ensures DIAGNOSTIC_COLUMNS[4] == "producer" && DIAGNOSTIC_COLUMNS[5] == "path"
    ensures DIAGNOSTIC_COLUMNS[6] == "span" && DIAGNOSTIC_COLUMNS[7] == "subject"
    ensures DIAGNOSTIC_COLUMNS[8] == "object" && DIAGNOSTIC_COLUMNS[9] == "details"
  {
  }

  /** A diagnostic record names its columns. */
  lemma DiagnosticRecordFields(lib: Lib, d: Diagnostic)
    requires DiagnosticRecord(lib, d).Some?
    ensures var v := DiagnosticRecord(lib, d).value;
            && Holds(v, "code", d.code) && Holds(v, "category", d.category) && Holds(v, "severity", d.severity)
            && Holds(v, "message", d.message) && Holds(v, "producer", d.producer)
            && (d.path == None ==> Field(v, T("path")) == Null)
            && (d.path.Some? ==>
                  && RepoPath.NormalizePath(lib.nfc, lib.isAlpha, d.path.value).Some?
                  && Holds(v, "path", RepoPath.NormalizePath(lib.nfc, lib.isAlpha, d.path.value).value))
            && Field(v, T("span")) == SpanJson(d.span)
            && Field(v, T("subject")) == OrNull(d.subject) && Field(v, T("object")) == OrNull(d.objectKey)
            && Field(v, T("details")) == Obj(match d.details case None => [] case Some(ms) => ms)
  {
    hide T, Field, RepoPath.NormalizePath, SpanJson, DIAGNOSTIC_COLUMNS, Columns, Named;
    var ms := DiagnosticRecord(lib, d).value.members;
    DiagnosticNamed(lib, d);
    DiagnosticColumnsApart();
    ColumnsDistinct(DIAGNOSTIC_COLUMNS);
    AllFields(ms, DIAGNOSTIC_COLUMNS);
    DiagnosticColumnNames();
  }

  const EVIDENCE_COLUMNS: seq<string> :=
    ["path", "start_line", "end_line", "granularity", "extractor", "extractor_version"]

  /** An evidence record names its columns. */
  lemma EvidenceFields(e: Evidence)
    ensures var v := EvidenceJson(e);
            && Holds(v, "path", e.path) && Field(v, T("start_line")) == Int(e.startLine)
            && Field(v, T("end_line")) == Int(e.endLine) && Holds(v, "granularity", e.granularity)
            && Holds(v, "extractor", e.extractor) && Holds(v, "extractor_version", e.version)
  {
    hide T, Field;
    var ms := EvidenceMembers(e);
    forall i | 0 <= i < |EVIDENCE_COLUMNS| ensures Field(Obj(ms), T(EVIDENCE_COLUMNS[i])) == ms[i].value {
      NamedField(ms, EVIDENCE_COLUMNS, i);
    }
    assert EVIDENCE_COLUMNS[0] == "path" && EVIDENCE_COLUMNS[1] == "start_line" && EVIDENCE_COLUMNS[2] == "end_line";
    assert EVIDENCE_COLUMNS[3] == "granularity" && EVIDENCE_COLUMNS[4] == "extractor";
    assert EVIDENCE_COLUMNS[5] == "extractor_version";
  }

  /** An evidence record has its path normalized and the granularity `span` when it names none. */
  lemma EvidenceDefaults(lib: Lib, e: Evidence)
    requires CanonicalEvidence(lib, e).Some?
    ensures RepoPath.NormalizePath(lib.nfc, lib.isAlpha, e.path).Some?
    ensures CanonicalEvidence(lib, e).value ==
            Evidence(RepoPath.NormalizePath(lib.nfc, lib.isAlpha, e.path).value, e.startLine, e.endLine,
                     if |e.granularity| == 0 then T("span") else e.granularity, e.extractor, e.version)
    ensures Prepare(lib, e) ==
            Some(Evidence(lib.nfc(CanonicalEvidence(lib, e).value.path), e.startLine, e.endLine,
                          lib.nfc(CanonicalEvidence(lib, e).value.granularity), lib.nfc(e.extractor),
                          lib.nfc(e.version)))
  {
    hide RepoPath.NormalizePath, T;
  }

  predicate ReferenceKind(kind: Text) {
    kind == T("observation") || kind == T("node") || kind == T("edge") || kind == T("assertion")
  }

  /** A reference is accepted exactly when it is of a known kind and names something that can be encoded. */
  lemma SoundExactly(lib: Lib, kind: Text, identity: Text)
    requires Standard(lib)
    ensures Sound(lib, Reference(kind, identity)) <==>
            ReferenceKind(lib.nfc(kind)) && lib.nfc(identity) != [] && Encodable(lib.nfc(identity))
    ensures !Sound(lib, Misshapen)
  {
    hide Encode, T, Encodable, KeepsAscii;
    var p := PrepareReference(lib, Reference(kind, identity));
    if ReferenceKind(p.kind) { KnownReferencePrints(lib, p.kind, p.identity); }
  }

  lemma KnownReferencePrints(lib: Lib, kind: Text, identity: Text)
    requires Standard(lib) && ReferenceKind(kind) && lib.nfc(identity) == identity
    ensures Encode(lib.nfc, ReferenceJson(Reference(kind, identity))).Some? <==> Encodable(identity)
  {
    hide T, Encodable, KeepsAscii, CanonicalText, Idempotent, Utf8;
    LiteralsDiffer("node", "observation");
    LiteralsDiffer("edge", "observation");
    LiteralsDiffer("edge", "node");
    LiteralsDiffer("assertion", "observation");
    LiteralsDiffer("assertion", "node");
    LiteralsDiffer("assertion", "edge");
    var v := ReferenceJson(Reference(kind, identity));
    EncodeHasText(lib.nfc, v);
    if kind == T("observation") {
      ReferencePrints(lib, "observation", "observation_id", identity);
    } else if kind == T("node") {
      ReferencePrints(lib, "node", "stable_key", identity);
    } else if kind == T("edge") {
      ReferencePrints(lib, "edge", "edge_id", identity);
    } else {
      ReferencePrints(lib, "assertion", "assertion_id", identity);
    }
  }

  lemma ReferencePrints(lib: Lib, kind: string, name: string, identity: Text)
    requires Standard(lib) && IdentityField(T(kind)) == T(name) && name != "kind" && AsciiName(kind) && AsciiName(name)
    requires lib.nfc(identity) == identity
    ensures CanonicalText(lib.nfc, ReferenceJson(Reference(T(kind), identity))).Some? <==> Encodable(identity)
  {
    hide T, Encodable, KeepsAscii, CanonicalText, Idempotent, IdentityField;
    var ms, names := ReferenceMembers(T(kind), identity), ["kind", name];
    assert FieldTexts(lib.nfc, ms) == [CanonicalText(lib.nfc, Str(T(kind))), CanonicalText(lib.nfc, Str(identity))];
    assert AsciiName("kind");
    NamedPrints(lib.nfc, ms, names);
    LiteralPrints(lib, kind);
    TextPart(lib, identity, identity);
  }

  /** The lines of a span are named; there is none without a span. */
  lemma SpanFields(s: Span)
    ensures SpanJson(None) == Null
    ensures Field(SpanJson(Some(s)), T("start_line")) == Int(s.startLine)
    ensures Field(SpanJson(Some(s)), T("end_line")) == Int(s.endLine)
  {
    hide T, Field;
    var ms := SpanJson(Some(s)).members;
    NamedField(ms, SPAN_COLUMNS, 0);
    NamedField(ms, SPAN_COLUMNS, 1);
  }

  /** A reference names its identity after its kind. */
  lemma ReferenceFields(identity: Text)
    ensures var v := ReferenceJson(Reference(T("observation"), identity));
            Holds(v, "kind", T("observation")) && Holds(v, "observation_id", identity)
    ensures var v := ReferenceJson(Reference(T("node"), identity));
            Holds(v, "kind", T("node")) && Holds(v, "stable_key", identity)
    ensures var v := ReferenceJson(Reference(T("edge"), identity));
            Holds(v, "kind", T("edge")) && Holds(v, "edge_id", identity)
    ensures var v := ReferenceJson(Reference(T("assertion"), identity));
            Holds(v, "kind", T("assertion")) && Holds(v, "assertion_id", identity)
  {
    hide T, Field;
    LiteralsDiffer("node", "observation");
    LiteralsDiffer("edge", "observation");
    LiteralsDiffer("edge", "node");
    LiteralsDiffer("assertion", "observation");
    LiteralsDiffer("assertion", "node");
    LiteralsDiffer("assertion", "edge");
    IdentityNamed("observation", "observation_id", identity);
    IdentityNamed("node", "stable_key", identity);
    IdentityNamed("edge", "edge_id", identity);
    IdentityNamed("assertion", "assertion_id", identity);
  }

  lemma IdentityNamed(kind: string, name: string, identity: Text)
    requires IdentityField(T(kind)) == T(name) && name != "kind"
    ensures var v := ReferenceJson(Reference(T(kind), identity));
            Holds(v, "kind", T(kind)) && Holds(v, name, identity)
  {
    hide T, Field, IdentityField;
    var ms, names := ReferenceMembers(T(kind), identity), ["kind", name];
    NamedField(ms, names, 0);
    NamedField(ms, names, 1);
  }

  const DOCUMENT_COLUMNS: seq<string> :=
    ["schema_version", "revision", "producer_version_set", "config_hash", "nodes", "edges", "assertions",
     "observations", "diagnostics"]

  lemma DocumentColumnsApart()
    ensures Distinct(DOCUMENT_COLUMNS)
  {
  }

  lemma DocumentNamed(g: Graph, producers: seq<Text>, nodes: Json, edges: Json, assertions: Json, observations: Json,
                      diagnostics: Json)
    ensures Named(DocumentJson(g, producers, nodes, edges, assertions, observations, diagnostics).members,
                  DOCUMENT_COLUMNS)
  {
    hide T, ProducerArray, RevisionJson;
  }

  lemma RevisionFields(g: Graph)
    ensures Holds(RevisionJson(g), "kind", g.revisionKind) && Holds(RevisionJson(g), "value", g.revisionValue)
  {
    PairFields(g.revisionKind, g.revisionValue);
  }

  lemma DocumentColumnNames()
    ensures |DOCUMENT_COLUMNS| == 9 && DOCUMENT_COLUMNS[0] == "schema_version" && DOCUMENT_COLUMNS[1] == "revision"
    ensures DOCUMENT_COLUMNS[2] == "producer_version_set" && DOCUMENT_COLUMNS[3] == "config_hash"
    ensures DOCUMENT_COLUMNS[4] == "nodes" && DOCUMENT_COLUMNS[5] == "edges" && DOCUMENT_COLUMNS[6] == "assertions"
    ensures DOCUMENT_COLUMNS[7] == "observations" && DOCUMENT_COLUMNS[8] == "diagnostics"
  {
  }

  /** The hashed document names its scalars and its five arrays. */
  lemma DocumentFields(g: Graph, producers: seq<Text>, nodes: Json, edges: Json, assertions: Json, observations: Json,
                       diagnostics: Json)
    ensures var v := DocumentJson(g, producers, nodes, edges, assertions, observations, diagnostics);
            && Holds(v, "schema_version", g.schemaVersion) && Holds(v, "config_hash", g.configHash)
            && Holds(Field(v, T("revision")), "kind", g.revisionKind)
            && Holds(Field(v, T("revision")), "value", g.revisionValue)
            && Field(v, T("producer_version_set")) == ProducerArray(producers)
            && Field(v, T("nodes")) == nodes && Field(v, T("edges")) == edges && Field(v, T("assertions")) == assertions
            && Field(v, T("observations")) == observations && Field(v, T("diagnostics")) == diagnostics
  {
    hide T, Field, ProducerArray, RevisionJson, DOCUMENT_COLUMNS, Columns, Named;
    var ms := DocumentJson(g, producers, nodes, edges, assertions, observations, diagnostics).members;
    DocumentNamed(g, producers, nodes, edges, assertions, observations, diagnostics);
    DocumentColumnsApart();
    RevisionFields(g);
    AllFields(ms, DOCUMENT_COLUMNS);
    DocumentColumnNames();
  }

  const IDENTITY_COLUMNS: seq<string> :=
    ["evidence", "observed_kind", "ordinal", "referent_text", "revision", "schema_version", "subject"]

  lemma IdentityColumnNames()
    ensures |IDENTITY_COLUMNS| == 7 && IDENTITY_COLUMNS[0] == "evidence" && IDENTITY_COLUMNS[1] == "observed_kind"
    ensures IDENTITY_COLUMNS[2] == "ordinal" && IDENTITY_COLUMNS[3] == "referent_text"
    ensures IDENTITY_COLUMNS[4] == "revision" && IDENTITY_COLUMNS[5] == "schema_version"
    ensures IDENTITY_COLUMNS[6] == "subject" && Distinct(IDENTITY_COLUMNS)
  {
  }

  lemma IdentityColumnsApart()
    ensures Columns(IDENTITY_COLUMNS)
  {
    hide AsciiName;
    IdentityColumnsAscii();
  }

  lemma IdentityColumnsAscii()
    ensures forall i :: 0 <= i < |IDENTITY_COLUMNS| ==> AsciiName(IDENTITY_COLUMNS[i])
  {
    assert AsciiName("evidence") && AsciiName("observed_kind") && AsciiName("ordinal") && AsciiName("referent_text");
    assert AsciiName("revision") && AsciiName("schema_version") && AsciiName("subject");
  }

  lemma DocumentedNames(run: Ordinals.Run, path: Text, o: Ordinals.Observation)
    ensures Named(Ordinals.DocumentMembers(run, path, o), IDENTITY_COLUMNS)
  {
    hide T, Ordinals.EvidencePart, Ordinals.RevisionPart, Ordinals.SubjectPart;
  }

  /** The hashed identity of an observation names its columns and those of its run. */
  lemma IdentityFields(run: Ordinals.Run, path: Text, o: Ordinals.Observation)
    ensures var v := Obj(Ordinals.DocumentMembers(run, path, o));
            && Holds(v, "observed_kind", o.observedKind) && Field(v, T("ordinal")) == Int(o.ordinal)
            && Field(v, T("referent_text")) == OrNull(o.referentText) && Holds(v, "schema_version", run.schemaVersion)
            && HoldsEndpoint(v, "subject", o.subjectKind, o.subjectKey)
            && Holds(Field(v, T("revision")), "kind", run.revisionKind)
            && Holds(Field(v, T("revision")), "value", run.revisionValue)
            && Field(v, T("evidence")) == Obj(Ordinals.EvidencePart(run, path, o.evidence))
  {
    hide T, Field, Ordinals.EvidencePart, IDENTITY_COLUMNS;
    var ms := Ordinals.DocumentMembers(run, path, o);
    IdentityColumnNames();
    DocumentedNames(run, path, o);
    AllFields(ms, IDENTITY_COLUMNS);
    EndpointFields(o.subjectKind, o.subjectKey);
    PairFields(run.revisionKind, run.revisionValue);
    assert Obj(Ordinals.SubjectPart(o)) == Endpoint(o.subjectKind, o.subjectKey);
  }

  lemma PairFields(kind: Text, value: Text)
    ensures var v := Obj([TextMember("kind", kind), TextMember("value", value)]);
            Holds(v, "kind", kind) && Holds(v, "value", value)
  {
    hide T, Field;
    NamedField([TextMember("kind", kind), TextMember("value", value)], ["kind", "value"], 0);
    NamedField([TextMember("kind", kind), TextMember("value", value)], ["kind", "value"], 1);
  }

  const SEEN_COLUMNS: seq<string> := ["extractor", "extractor_version", "path", "start_line", "end_line"]

  /** Its evidence names the extractor, the path and the lines. */
  lemma IdentityEvidenceFields(run: Ordinals.Run, path: Text, e: Ordinals.Span)
    ensures var v := Obj(Ordinals.EvidencePart(run, path, e));
            && Holds(v, "extractor", run.extractor) && Holds(v, "extractor_version", run.extractorVersion)
            && Holds(v, "path", path) && Field(v, T("start_line")) == Int(e.startLine)
            && Field(v, T("end_line")) == Int(e.endLine)
  {
    hide T, Field;
    AllFields(Ordinals.EvidencePart(run, path, e), SEEN_COLUMNS);
    assert SEEN_COLUMNS[0] == "extractor" && SEEN_COLUMNS[1] == "extractor_version" && SEEN_COLUMNS[2] == "path";
    assert SEEN_COLUMNS[3] == "start_line" && SEEN_COLUMNS[4] == "end_line";
  }

  // ------------------------------------------------- the order of the arrays

  /** `record[name] or ""` of an optional column, after NFC. */
  function OrEmpty(lib: Lib, t: Option<Text>): Atom { match t case None => Txt([]) case Some(s) => Txt(lib.nfc(s)) }

  lemma NormalString(lib: Lib, s: Text)
    ensures Normalize(lib.nfc, Str(s)) == Some(Str(lib.nfc(s)))
  {
  }

  lemma EndpointKey(lib: Lib, kind: Text, key: Text)
    requires KeepsAscii(lib.nfc) && Normalize(lib.nfc, Endpoint(kind, key)).Some?
    ensures TextAt(Normalize(lib.nfc, Endpoint(kind, key)).value, T("stable_key")) == Txt(lib.nfc(key))
  {
    hide T, Normalize, Field, KeepsAscii;
    var ms := Endpoint(kind, key).members;
    NormalFields(lib.nfc, ms, ENDPOINT_COLUMNS);
    NormalString(lib, key);
    assert ms[1].value == Str(key) && ENDPOINT_COLUMNS[1] == "stable_key";
  }

  /** Nodes are ordered by stable key. */
  lemma NodeOrder(lib: Lib, schema: Text, n: Node)
    requires KeepsAscii(lib.nfc) && NodeRecord(lib, schema, n).Some?
    requires Normalize(lib.nfc, NodeRecord(lib, schema, n).value).Some?
    ensures NodeKey(Normalize(lib.nfc, NodeRecord(lib, schema, n).value).value) == [Txt(lib.nfc(n.stableKey))]
  {
    hide T, Field, OrderEvidence, EvidenceArray, HasProperties, Named, PropertyMembers, Columns, Normalize, KeepsAscii;
    var es := OrderEvidence(lib, n.evidence).value;
    var ms, names := NodeMembers(schema, n, es), NodeColumns(n);
    NodeNamed(schema, n, es);
    NodeColumnsApart(n);
    NodeFixedAt(schema, n, es);
    NormalFields(lib.nfc, ms, names);
    NormalString(lib, n.stableKey);
    assert names[2] == names[..6][2] == "stable_key";
  }

  /** Edges are ordered by subject, predicate and object. */
  lemma EdgeOrder(lib: Lib, schema: Text, e: Edge)
    requires KeepsAscii(lib.nfc) && Normalize(lib.nfc, EdgeRecord(schema, e)).Some?
    ensures EdgeKey(Normalize(lib.nfc, EdgeRecord(schema, e)).value) ==
            [Txt(lib.nfc(e.subjectKey)), Txt(lib.nfc(e.relation)), Txt(lib.nfc(e.objectKey))]
  {
    hide T, Field, EvidenceArray, ReferenceArray, Endpoint, EDGE_COLUMNS, Columns, Named, Normalize, KeepsAscii;
    var ms := EdgeRecord(schema, e).members;
    EdgeNamed(schema, e);
    EdgeColumnsApart();
    EdgeColumnNames();
    NormalFields(lib.nfc, ms, EDGE_COLUMNS);
    assert ms[2].value == Endpoint(e.subjectKind, e.subjectKey) && ms[3].value == Str(e.relation);
    assert ms[4].value == Endpoint(e.objectKind, e.objectKey);
    EndpointKey(lib, e.subjectKind, e.subjectKey);
    EndpointKey(lib, e.objectKind, e.objectKey);
    NormalString(lib, e.relation);
  }

  /** Assertions are ordered by subject, predicate and identifier. */
  lemma AssertionOrder(lib: Lib, schema: Text, a: Assertion)
    requires KeepsAscii(lib.nfc) && AssertionRecord(lib, schema, a).Some?
    requires Normalize(lib.nfc, AssertionRecord(lib, schema, a).value).Some?
    ensures AssertionKey(Normalize(lib.nfc, AssertionRecord(lib, schema, a).value).value) ==
            [Txt(lib.nfc(a.subjectKey)), Txt(lib.nfc(a.relation)), Txt(lib.nfc(a.assertionId))]
  {
    hide T, Field, ReferenceArray, Endpoint, ASSERTION_COLUMNS, Columns, Named, Normalize, KeepsAscii, SortDerivedFrom;
    var ms := AssertionRecord(lib, schema, a).value.members;
    AssertionNamed(lib, schema, a);
    AssertionColumnsApart();
    AssertionColumnNames();
    NormalFields(lib.nfc, ms, ASSERTION_COLUMNS);
    assert ms[2].value == Endpoint(a.subjectKind, a.subjectKey) && ms[3].value == Str(a.relation);
    assert ms[1].value == Str(a.assertionId);
    EndpointKey(lib, a.subjectKind, a.subjectKey);
    NormalString(lib, a.assertionId);
    NormalString(lib, a.relation);
  }

  /** Observations are ordered by identifier. */
  lemma ObservationOrder(lib: Lib, o: Observation)
    requires KeepsAscii(lib.nfc) && ObservationRecord(lib, o).Some?
    requires Normalize(lib.nfc, ObservationRecord(lib, o).value).Some?
    ensures ObservationKey(Normalize(lib.nfc, ObservationRecord(lib, o).value).value) == [Txt(lib.nfc(o.observationId))]
  {
    hide T, Field, Endpoint, CanonicalEvidence, EvidenceJson, OrNull, OBSERVATION_COLUMNS, Columns, Named, Normalize,
         KeepsAscii;
    var ms := ObservationRecord(lib, o).value.members;
    ObservationNamed(lib, o);
    ObservationColumnsApart();
    ObservationColumnNames();
    NormalFields(lib.nfc, ms, OBSERVATION_COLUMNS);
    assert ms[0].value == Str(o.observationId);
    NormalString(lib, o.observationId);
  }

  lemma NormalOrNull(lib: Lib, t: Option<Text>)
    requires Normalize(lib.nfc, OrNull(t)).Some?
    ensures (match Normalize(lib.nfc, OrNull(t)).value case Str(s) => Txt(s) case _ => Txt([])) == OrEmpty(lib, t)
  {
  }

  lemma LinesKey(lib: Lib, span: Span)
    requires KeepsAscii(lib.nfc) && Normalize(lib.nfc, SpanJson(Some(span))).Some?
    ensures var v := Normalize(lib.nfc, SpanJson(Some(span))).value;
            NumAt(v, T("start_line")) == Num(span.startLine) && NumAt(v, T("end_line")) == Num(span.endLine)
  {
    hide T, KeepsAscii, Normalize, Field;
    var ms := SpanJson(Some(span)).members;
    assert Columns(SPAN_COLUMNS);
    NormalFields(lib.nfc, ms, SPAN_COLUMNS);
    NormalInt(lib, span.startLine);
    NormalInt(lib, span.endLine);
    assert ms[0].value == Int(span.startLine) && ms[1].value == Int(span.endLine);
    assert SPAN_COLUMNS[0] == "start_line" && SPAN_COLUMNS[1] == "end_line";
  }

  lemma SpanKey(lib: Lib, span: Option<Span>)
    requires KeepsAscii(lib.nfc) && Normalize(lib.nfc, SpanJson(span)).Some?
    ensures var v := Normalize(lib.nfc, SpanJson(span)).value;
            && NumAt(v, T("start_line")) == Num(if span.Some? then span.value.startLine else 0)
            && NumAt(v, T("end_line")) == Num(if span.Some? then span.value.endLine else 0)
  {
    hide T, KeepsAscii;
    if span.Some? { LinesKey(lib, span.value); }
  }

  lemma NormalInt(lib: Lib, n: int)
    ensures Normalize(lib.nfc, Int(n)).Some? ==> Normalize(lib.nfc, Int(n)) == Some(Int(n))
  {
  }

  lemma SettledDetails(lib: Lib, v: Json)
    requires Idempotent(lib.nfc) && CanonicalText(lib.nfc, v).Some?
    ensures CanonicalText(lib.nfc, Normalize(lib.nfc, v).value) == CanonicalText(lib.nfc, v)
  {
    hide Normalize, Serialize, AllEncodable;
    NormalizeIdempotent(lib.nfc, v);
  }

  lemma DetailsPrint(lib: Lib, d: Diagnostic)
    requires Standard(lib) && TextOf(lib, DiagnosticRecord(lib, d)).Some?
    ensures CanonicalText(lib.nfc, DetailsOf(d)).Some?
  {
    hide CanonicalText, DiagnosticRecord, Idempotent, KeepsAscii, DetailsOf, NormalText, NormalOption, NormalPath,
         NormalSpan, Canon, Normalize;
    DiagnosticPrints(lib, d);
  }

  /** Diagnostics are ordered by eleven columns, an absent one read as empty or zero. */
  lemma DiagnosticOrder(lib: Lib, d: Diagnostic)
    requires Standard(lib) && DiagnosticRecord(lib, d).Some? && TextOf(lib, DiagnosticRecord(lib, d)).Some?
    ensures PathOf(lib, d.path).Some? && Normalize(lib.nfc, DiagnosticRecord(lib, d).value).Some?
    ensures CanonicalText(lib.nfc, DetailsOf(d)).Some?
    ensures DiagnosticKey(lib)(Normalize(lib.nfc, DiagnosticRecord(lib, d).value).value) ==
            [Txt(lib.nfc(d.code)), Txt(lib.nfc(d.category)), Txt(lib.nfc(d.severity)),
             OrEmpty(lib, PathOf(lib, d.path).value), Num(if d.span.Some? then d.span.value.startLine else 0),
             Num(if d.span.Some? then d.span.value.endLine else 0), Txt(lib.nfc(d.producer)), OrEmpty(lib, d.subject),
             OrEmpty(lib, d.objectKey), Txt(lib.nfc(d.message)), Txt(CanonicalText(lib.nfc, DetailsOf(d)).value)]
  {
    hide T, Field, PathOf, SpanJson, OrNull, DIAGNOSTIC_COLUMNS, Columns, Named, Normalize, KeepsAscii, Idempotent,
         DetailsOf, Serialize, AllEncodable, OrEmpty;
    var ms := DiagnosticRecord(lib, d).value.members;
    DiagnosticNamed(lib, d);
    DiagnosticColumnsApart();
    DiagnosticColumnNames();
    NormalFields(lib.nfc, ms, DIAGNOSTIC_COLUMNS);
    NormalString(lib, d.code);
    NormalString(lib, d.category);
    NormalString(lib, d.severity);
    NormalString(lib, d.message);
    NormalString(lib, d.producer);
    NormalOrNull(lib, PathOf(lib, d.path).value);
    NormalOrNull(lib, d.subject);
    NormalOrNull(lib, d.objectKey);
    SpanKey(lib, d.span);
    DetailsPrint(lib, d);
    SettledDetails(lib, DetailsOf(d));
  }

  /** An array of the document holds prepared records, strictly ordered by their sort keys, then by their bytes. */
  lemma ArrayInOrder(lib: Lib, rs: seq<Option<Json>>, key: Json -> Key, out: seq<Json>)
    requires OrderedArray(lib, rs, key) == Some(Arr(out))
    ensures forall i, j :: 0 <= i < j < |out| ==>
              KeyLt(key(out[i]) + [Txt(RecordBytes(lib)(out[i]))], key(out[j]) + [Txt(RecordBytes(lib)(out[j]))])
    ensures forall v :: v in out ==>
              exists i :: 0 <= i < |rs| && rs[i].Some? && Normalize(lib.nfc, rs[i].value) == Some(v)
  {
    hide RecordBytes, Normalize, Ordered, RecordUsable;
    var vs := AllBuilt(rs).value;
    var p := PreparedRecords(lib, vs);
    assert out == Ordered(p, RecordBytes(lib), key);
    OrderedStrict(p, RecordBytes(lib), key);
    forall v | v in out ensures exists i :: 0 <= i < |rs| && rs[i].Some? && Normalize(lib.nfc, rs[i].value) == Some(v) {
      var i :| 0 <= i < |p| && p[i] == v;
      assert RecordUsable(lib, vs[i]) && rs[i] == Some(vs[i]);
      UsableNormal(lib, vs[i]);
    }
  }

  lemma UsableNormal(lib: Lib, v: Json)
    requires RecordUsable(lib, v)
    ensures Normalize(lib.nfc, v).Some?
  {
    hide Normalize, Encode;
  }

  /** One evidence record stands before another: by path, lines, granularity, extractor and version. */
  predicate EvidenceBefore(e: Evidence, f: Evidence) {
    if e.path != f.path then TextLt(e.path, f.path)
    else if e.startLine != f.startLine then e.startLine < f.startLine
    else if e.endLine != f.endLine then e.endLine < f.endLine
    else if e.granularity != f.granularity then TextLt(e.granularity, f.granularity)
    else if e.extractor != f.extractor then TextLt(e.extractor, f.extractor)
    else TextLt(e.version, f.version)
  }

  lemma EvidenceInOrder(lib: Lib, es: seq<Evidence>, i: nat, j: nat)
    requires Idempotent(lib.nfc) && OrderEvidence(lib, es).Some? && i < j < |OrderEvidence(lib, es).value|
    ensures EvidenceBefore(OrderEvidence(lib, es).value[i], OrderEvidence(lib, es).value[j])
  {
    hide Ordered, Usable, Bytes, Settled, TextLt;
    var s, x := Prepared(lib, es), OrderEvidence(lib, es).value;
    OrderedStrict(s, Bytes(lib), EvidenceKey);
    OrderedSettled(lib, es, i);
    OrderedSettled(lib, es, j);
    assert Bytes(lib)(x[i]) != Bytes(lib)(x[j]);
    EvidenceKeyOrder(x[i], x[j], Bytes(lib)(x[i]), Bytes(lib)(x[j]));
  }

  lemma EvidenceKeyOrder(e: Evidence, f: Evidence, b: Text, c: Text)
    requires e != f && KeyLt(EvidenceKey(e) + [Txt(b)], EvidenceKey(f) + [Txt(c)])
    ensures EvidenceBefore(e, f)
  {
    hide TextLt, KeyLt;
    var k, l := EvidenceKey(e) + [Txt(b)], EvidenceKey(f) + [Txt(c)];
    FirstDifference(k, l, if e.path != f.path then 0 else if e.startLine != f.startLine then 1
                          else if e.endLine != f.endLine then 2 else if e.granularity != f.granularity then 3
                          else if e.extractor != f.extractor then 4 else 5);
  }

  /** One reference stands before another: observations, nodes, edges, then assertions, each by identity. */
  predicate ReferenceBefore(p: Reference, q: Reference)
    requires p.Reference? && q.Reference?
  {
    if p.kind == q.kind then TextLt(p.identity, q.identity)
    else || p.kind == T("observation")
         || (p.kind == T("node") && q.kind != T("observation"))
         || (p.kind == T("edge") && q.kind == T("assertion"))
  }

  lemma ReferencesInOrder(lib: Lib, rs: seq<Reference>, i: nat, j: nat)
    requires Idempotent(lib.nfc) && SortDerivedFrom(lib, rs).Some? && i < j < |SortDerivedFrom(lib, rs).value|
    ensures var p, q := SortDerivedFrom(lib, rs).value[i], SortDerivedFrom(lib, rs).value[j];
            p.Reference? && q.Reference? && ReferenceBefore(p, q)
  {
    hide Ordered, ReferenceBytes, PrepareReference, TextLt, Rank, T, ReferenceKey, Sound;
    var s, x := PreparedReferences(lib, rs), SortDerivedFrom(lib, rs).value;
    OrderedStrict(s, ReferenceBytes(lib), ReferenceKey);
    SortedSound(lib, rs, i);
    SortedSound(lib, rs, j);
    assert ReferenceBytes(lib)(x[i]) != ReferenceBytes(lib)(x[j]);
    SoundShape(lib, x[i]);
    SoundShape(lib, x[j]);
    ReferenceKeyOrder(x[i], x[j], ReferenceBytes(lib)(x[i]), ReferenceBytes(lib)(x[j]));
  }

  lemma SoundShape(lib: Lib, p: Reference)
    requires Sound(lib, p) && PrepareReference(lib, p) == p
    ensures p.Reference? && Rank(p.kind).Some?
  {
  }

  lemma ReferenceKeyOrder(p: Reference, q: Reference, b: Text, c: Text)
    requires p.Reference? && q.Reference? && Rank(p.kind).Some? && Rank(q.kind).Some? && p != q
    requires KeyLt(ReferenceKey(p) + [Txt(b)], ReferenceKey(q) + [Txt(c)])
    ensures ReferenceBefore(p, q)
  {
    hide TextLt, T;
  }
}
