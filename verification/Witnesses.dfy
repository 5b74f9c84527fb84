/** Concrete inputs at which a promise fails. */
module Witnesses {
  import opened Order
  import opened Encoding
  import opened Json
  import opened MappingOrder
  import opened Compose
  import opened Evidence
  import opened References
  import opened Edges
  import opened EdgeUnion
  import opened Records
  import opened RecordShape
  import opened GraphDocument
  import NormalFacts
  import RecordFields
  import DocumentLaws
  import Ordinals
  import RepoPath

  function Unchanged(t: Text): Text { t }

  predicate Latin(c: nat) { 65 <= c <= 90 || 97 <= c <= 122 }

  /** A library for texts that are in normal form already. */
  function PlainLib(): Lib { Lib(Unchanged, Latin) }

  lemma KeepsByFixing(nfc: Text -> Text)
    requires forall t :: nfc(t) == t
    ensures RepoPath.KeepsSegments(nfc)
  {
    hide RepoPath.SegmentsFrom, RepoPath.JoinPath;
  }

  lemma PlainLaws()
    ensures Laws(PlainLib())
  {
    KeepsByFixing(Unchanged);
  }

  // ------------------------------------------------- what can be printed

  /** The record has these fields, and normalization leaves their names alone. */
  ghost predicate KeysAre(nfc: Text -> Text, ms: seq<Member>, names: seq<string>) {
    Named(ms, names) && forall i :: 0 <= i < |names| ==> nfc(T(names[i])) == T(names[i])
  }

  lemma RecordPrints(nfc: Text -> Text, ms: seq<Member>, names: seq<string>)
    requires KeysAre(nfc, ms, names) && Distinct(names)
    requires forall i :: 0 <= i < |ms| ==> CanonicalText(nfc, ms[i].value).Some?
    ensures CanonicalText(nfc, Obj(ms)).Some?
  {
    hide CanonicalText, T;
    forall i, j | 0 <= i < j < |ms| ensures nfc(ms[i].key) != nfc(ms[j].key) {
      LiteralsDiffer(names[i], names[j]);
    }
    forall i | 0 <= i < |ms| ensures Encodable(nfc(ms[i].key)) {
      LiteralEncodable(names[i]);
    }
    ObjectByParts(nfc, ms);
  }

  lemma ScalarsPrint(nfc: Text -> Text, t: Text, n: int)
    requires Encodable(nfc(t)) && -MAX_EXACT <= n <= MAX_EXACT
    ensures CanonicalText(nfc, Str(t)).Some? && CanonicalText(nfc, Int(n)).Some? && CanonicalText(nfc, Null).Some?
  {
  }

  lemma LiteralPrints(s: string, n: int)
    requires -MAX_EXACT <= n <= MAX_EXACT
    ensures CanonicalText(Unchanged, Str(T(s))).Some? && CanonicalText(Unchanged, Int(n)).Some?
  {
    hide T, CanonicalText;
    LiteralEncodable(s);
    ScalarsPrint(Unchanged, T(s), n);
  }

  lemma EmptyPrints(nfc: Text -> Text)
    ensures CanonicalText(nfc, Arr([])).Some?
  {
  }

  // ------------------------------------------------- a repeated edge that raises

  /** A call from one method to a function of another file. */
  const CALL :=
    Edge(T("edge:1"), T("symbol"), T("src/auth/service.ts::AuthService.login"), T("calls"), T("symbol"),
         T("src/auth/tokens.ts::issueToken"), T("observed"), T("typescript-ast"), T("1.0.0"), [], [])

  const DRIVE_EVIDENCE := Evidence(T("./C:x"), 41, 41, T("span"), T("typescript-ast"), T("1.0.0"))
  const DRIVE_EDGE := CALL.(evidence := [DRIVE_EVIDENCE])

  lemma DriveEvidencePrepared()
    ensures Prepare(PlainLib(), DRIVE_EVIDENCE) == Some(DRIVE_EVIDENCE.(path := T("C:x")))
  {
    hide T;
    RepoPath.DriveExample(Unchanged, Latin);
    LiteralsDiffer("span", "");
  }

  lemma DriveEvidenceUsable()
    ensures Usable(PlainLib(), DRIVE_EVIDENCE) && DriveLike(PlainLib(), DRIVE_EVIDENCE)
  {
    hide T, CanonicalText, Prepare;
    DriveEvidencePrepared();
    var e := DRIVE_EVIDENCE.(path := T("C:x"));
    LiteralPrints("C:x", 41);
    LiteralPrints("span", 41);
    LiteralPrints("typescript-ast", 41);
    LiteralPrints("1.0.0", 41);
    var names := ["path", "start_line", "end_line", "granularity", "extractor", "extractor_version"];
    RecordPrints(Unchanged, EvidenceMembers(e), names);
    DrivePath();
  }

  lemma DrivePath()
    ensures RepoPath.Drive(Latin, T("C:x"))
  {
    assert T("C:x")[0] == 67 && T("C:x")[1] == 58;
  }

  /** The edge alone consolidates; written twice it raises. */
  lemma RepeatedEdgeRaises()
    ensures Consistent(PlainLib(), [DRIVE_EDGE]) && !Consistent(PlainLib(), [DRIVE_EDGE, DRIVE_EDGE])
  {
    hide Usable, DriveLike, T, Consistent, Consolidated, Laws, Group, AllEvidence, With;
    var lib, e := PlainLib(), DRIVE_EDGE;
    PlainLaws();
    DriveEvidenceUsable();
    NothingConsolidated(lib);
    OneEdge(e);
    FirstOfTriple(lib, [], map[], e);
    DuplicateExact(lib, [e], e, map[][e.Of() := With(lib, e, e.evidence, e.derivedFrom)]);
    assert [e] + [e] == [e, e] && AllEvidence(Group([e], e.Of()))[0] == DRIVE_EVIDENCE;
  }

  lemma OneEdge(e: Edge)
    ensures Group([e], e.Of()) == [e] && AllEvidence([e]) == e.evidence && !HasTriple([], e.Of()) && [] + [e] == [e]
  {
    assert [] + [e] == [e];
    GroupAppend([], e, e.Of());
    CollectAppend([], e);
    NothingCollected();
  }

  // ------------------------------------------------- kinds that show in the hash

  const SCHEMA := "ri.v1"

  /** The same call, its subject filed as a module. */
  const MODULE_CALL := CALL.(subjectKind := T("module"))

  function GraphOf(edges: seq<Edge>): Graph {
    Graph(T(SCHEMA), T("git"), T("9f1d0c7a"), [], T("sha256:48e96ba3"), [], edges, [], [], [])
  }

  lemma TwoOfOneTriple(lib: Lib, e: Edge, f: Edge)
    requires e.Of() == f.Of() && SameFields(e, f) && e.evidence == f.evidence == []
    requires e.derivedFrom == f.derivedFrom == []
    ensures Consistent(lib, [e, f]) && Triples([e, f]) == [e.Of()]
    ensures (forall t :: HasTriple([e, f], t) <==> t == e.Of())
    ensures ConsolidatedEdge(lib, [e, f], e.Of()) == Some(e)
  {
    hide Group, AllEvidence, AllReferences, OrderEvidence, SortDerivedFrom;
    var t := e.Of();
    forall u
      ensures Group([e, f], u) == (if u == t then [e, f] else []) && Group([e], u) == if u == t then [e] else []
    {
      TwoGrouped(e, f, u);
    }
    TwoCollected(e, f);
    NothingOrdered(lib);
    assert [e, f][..1] == [e] && [e][..0] == [];
    NoGroups(t);
    assert Triples([e]) == [t];
  }

  lemma NoGroups(t: Triple)
    ensures Group([], t) == []
  {
  }

  lemma TwoGrouped(e: Edge, f: Edge, u: Triple)
    requires e.Of() == f.Of()
    ensures Group([e, f], u) == (if u == e.Of() then [e, f] else []) && Group([e], u) == if u == e.Of() then [e] else []
  {
    hide Group;
    NoGroups(u);
    assert [e, f] == [e] + [f] && [e] == [] + [e];
    GroupAppend([], e, u);
    GroupAppend([e], f, u);
  }

  lemma TwoCollected(e: Edge, f: Edge)
    requires e.evidence == f.evidence == [] && e.derivedFrom == f.derivedFrom == []
    ensures AllEvidence([e, f]) == [] && AllReferences([e, f]) == []
  {
    hide AllEvidence, AllReferences;
    assert [e, f] == [e] + [f] && [e] == [] + [e];
    CollectAppend([], e);
    CollectAppend([e], f);
    NothingCollected();
  }

  lemma NothingOrdered(lib: Lib)
    ensures OrderEvidence(lib, []) == Some([]) && SortDerivedFrom(lib, []) == Some([])
  {
  }

  lemma EdgeKeys(e: Edge)
    ensures KeysAre(Unchanged, EdgeRecord(T(SCHEMA), e).members, NormalFacts.EDGE_COLUMNS)
    ensures Distinct(NormalFacts.EDGE_COLUMNS)
  {
    hide T, EvidenceArray, ReferenceArray, Endpoint;
  }

  lemma EndpointPrints(kind: string, key: string)
    ensures CanonicalText(Unchanged, Endpoint(T(kind), T(key))).Some?
  {
    hide CanonicalText, T;
    LiteralPrints(kind, 0);
    LiteralPrints(key, 0);
    RecordPrints(Unchanged, Endpoint(T(kind), T(key)).members, ["kind", "stable_key"]);
  }

  lemma EdgeValuesPrint(e: Edge)
    requires e == CALL || e == MODULE_CALL
    ensures forall i :: 0 <= i < |EdgeRecord(T(SCHEMA), e).members| ==>
            CanonicalText(Unchanged, EdgeRecord(T(SCHEMA), e).members[i].value).Some?
  {
    hide CanonicalText, T, Endpoint, SCHEMA;
    LiteralPrints("edge", 0);
    LiteralPrints("edge:1", 0);
    LiteralPrints("calls", 0);
    LiteralPrints("observed", 0);
    LiteralPrints("typescript-ast", 0);
    LiteralPrints("1.0.0", 0);
    LiteralPrints(SCHEMA, 0);
    EmptyPrints(Unchanged);
    EndpointPrints("symbol", "src/auth/service.ts::AuthService.login");
    EndpointPrints("module", "src/auth/service.ts::AuthService.login");
    EndpointPrints("symbol", "src/auth/tokens.ts::issueToken");
    assert EvidenceArray([]) == Arr([]) && ReferenceArray([]) == Arr([]);
  }

  lemma EdgePrints(e: Edge)
    requires e == CALL || e == MODULE_CALL
    ensures CanonicalText(Unchanged, EdgeRecord(T(SCHEMA), e)).Some?
  {
    hide CanonicalText, T, KeysAre, NormalFacts.EDGE_COLUMNS;
    EdgeKeys(e);
    EdgeValuesPrint(e);
    RecordPrints(Unchanged, EdgeRecord(T(SCHEMA), e).members, NormalFacts.EDGE_COLUMNS);
  }

  lemma EmptyArrayBuilt(lib: Lib, key: Json -> Key)
    requires Idempotent(lib.nfc)
    ensures OrderedArray(lib, [], key).Some? && TextOf(lib, OrderedArray(lib, [], key)).Some?
  {
    hide OrderedArray, TextOf;
    OrderedArrayBuilt(lib, [], key);
  }

  lemma EdgesBuilt(e: Edge, f: Edge)
    requires (e == CALL && f == MODULE_CALL) || (e == MODULE_CALL && f == CALL)
    ensures EdgeRecords(PlainLib(), T(SCHEMA), [e, f]) == [Some(EdgeRecord(T(SCHEMA), e))]
    ensures OrderedArray(PlainLib(), EdgeRecords(PlainLib(), T(SCHEMA), [e, f]), EdgeKey).Some?
    ensures TextOf(PlainLib(), OrderedArray(PlainLib(), EdgeRecords(PlainLib(), T(SCHEMA), [e, f]), EdgeKey)).Some?
  {
    hide OrderedArray, T, CanonicalText, EdgeRecord, Consistent, Triples;
    var lib := PlainLib();
    TwoOfOneTriple(lib, e, f);
    EdgePrints(e);
    var rs := EdgeRecords(lib, T(SCHEMA), [e, f]);
    assert rs == [Some(EdgeRecord(T(SCHEMA), e))];
    forall x | x in BuiltTexts(lib, rs) ensures x.Some? {
      var r :| r in rs && TextOf(lib, r) == x;
    }
    OrderedArrayBuilt(lib, rs, EdgeKey);
  }

  lemma GraphHashed(e: Edge, f: Edge)
    requires (e == CALL && f == MODULE_CALL) || (e == MODULE_CALL && f == CALL)
    ensures PreImage(PlainLib(), GraphOf([e, f])).Some?
  {
    hide OrderedArray, T, CanonicalText, EdgeRecords, NodeKey, EdgeKey, AssertionKey, ObservationKey, DiagnosticKey;
    var lib, g := PlainLib(), GraphOf([e, f]);
    EdgesBuilt(e, f);
    EmptyArrayBuilt(lib, NodeKey);
    EmptyArrayBuilt(lib, AssertionKey);
    EmptyArrayBuilt(lib, ObservationKey);
    EmptyArrayBuilt(lib, DiagnosticKey(lib));
    NoProducers(lib);
    assert NodeRecords(lib, T(SCHEMA), []) == [] && AssertionRecords(lib, T(SCHEMA), []) == [];
    assert ObservationRecords(lib, []) == [] && DiagnosticRecords(lib, []) == [];
    DocumentPrints(g, PartsOf(lib, g));
  }

  lemma NoProducers(lib: Lib)
    ensures ProducerSet(lib, []) == Some([])
  {
    assert Normals(lib, []) == [];
  }

  lemma DocumentPrints(g: Graph, p: Parts)
    requires g == GraphOf(g.edges) && p.producers == Some([]) && Assemble(g, p).Some?
    requires TextOf(PlainLib(), p.nodes).Some? && TextOf(PlainLib(), p.edges).Some?
    requires TextOf(PlainLib(), p.assertions).Some?
    requires TextOf(PlainLib(), p.observations).Some? && TextOf(PlainLib(), p.diagnostics).Some?
    ensures CanonicalText(Unchanged, Assemble(g, p).value).Some?
  {
    hide CanonicalText, T, SCHEMA;
    LiteralPrints(SCHEMA, 0);
    LiteralPrints("git", 0);
    LiteralPrints("9f1d0c7a", 0);
    LiteralPrints("sha256:48e96ba3", 0);
    EmptyPrints(Unchanged);
    assert ProducerArray([]) == Arr([]);
    RecordPrints(Unchanged, RevisionJson(g).members, ["kind", "value"]);
    RecordFields.DocumentColumnsApart();
    RecordPrints(Unchanged, Assemble(g, p).value.members, RecordFields.DOCUMENT_COLUMNS);
  }

  /** Why kinds must agree per triple: the hashed bytes of two duplicates depend on which comes first. */
  lemma KindsNeeded()
    ensures PreImage(PlainLib(), GraphOf([CALL, MODULE_CALL])).Some?
    ensures PreImage(PlainLib(), GraphOf([CALL, MODULE_CALL])) != PreImage(PlainLib(), GraphOf([MODULE_CALL, CALL]))
  {
    hide PreImage, T, EdgeRecords, CanonicalText, EdgeRecord, ProducerSet, NodeRecords, AssertionRecords,
         ObservationRecords, DiagnosticRecords;
    var lib, g, h := PlainLib(), GraphOf([CALL, MODULE_CALL]), GraphOf([MODULE_CALL, CALL]);
    GraphHashed(CALL, MODULE_CALL);
    EdgesBuilt(CALL, MODULE_CALL);
    EdgesBuilt(MODULE_CALL, CALL);
    PlainLaws();
    if PreImage(lib, g) == PreImage(lib, h) {
      ContentByPreImage(lib, g, h);
      SingleText(lib, Some(EdgeRecord(T(SCHEMA), CALL)), Some(EdgeRecord(T(SCHEMA), MODULE_CALL)));
      EdgePrints(CALL);
      DocumentLaws.EdgeDecides(lib, T(SCHEMA), CALL, MODULE_CALL);
      LiteralsDiffer("module", "symbol");
    }
  }

  lemma SingleText(lib: Lib, x: Option<Json>, y: Option<Json>)
    requires BuiltTexts(lib, [x]) == BuiltTexts(lib, [y])
    ensures TextOf(lib, x) == TextOf(lib, y)
  {
    hide TextOf;
    assert x in [x];
    assert TextOf(lib, x) in BuiltTexts(lib, [x]);
  }

  // ------------------------------------------------- observations whose documents collide

  /** One stable key in two spellings: an accented letter, and the letter with a combining accent. */
  const COMPOSED: Text := T("caf") + [233] + T(".ts::run")
  const DECOMPOSED: Text := T("caf") + [101, 769] + T(".ts::run")

  /** A normal form that composes this key. */
  function Composing(t: Text): Text { if t == DECOMPOSED then COMPOSED else t }

  function ComposingLib(): Lib { Lib(Composing, Latin) }

  /** A call of `run` seen on line 41. */
  function Seen(key: Text): Ordinals.Observation {
    Ordinals.Observation(T("call"), T("symbol"), key, Some(T("issueToken")), 0, SEEN_AT)
  }

  const SEEN_AT := Ordinals.Span(T("main.ts"), 41, 41, 60, T("span"))

  const SEEN_RUN := Ordinals.Run(T("typescript-ast"), T("1.0.0"), T("git"), T("9f1d0c7a"), T(SCHEMA))

  /** Normalization leaves ASCII texts alone. */
  lemma ComposingKeeps()
    ensures KeepsAscii(Composing)
  {
    hide T;
    assert DECOMPOSED[4] == 769 by { LiteralCodes("caf"); }
  }

  lemma AsciiKept(s: string)
    requires AsciiName(s)
    ensures Composing(T(s)) == T(s)
  {
    hide T, Composing;
    ComposingKeeps();
    LiteralKept(Composing, s);
  }

  lemma LiteralCodes(s: string)
    ensures |T(s)| == |s| && forall i :: 0 <= i < |s| ==> T(s)[i] == s[i] as int
  {
  }

  lemma BothSpellings()
    ensures COMPOSED != DECOMPOSED && Composing(DECOMPOSED) == COMPOSED == Composing(COMPOSED)
    ensures Encodable(COMPOSED)
  {
    LiteralCodes("caf");
    LiteralCodes(".ts::run");
  }

  lemma SeenPath()
    ensures RepoPath.NormalizePath(Composing, Latin, T("main.ts")) == Some(T("main.ts"))
  {
    hide RepoPath.NormalizePath, Composing;
    AsciiKept("main.ts");
    assert T("main.ts") == [109, 97, 105, 110, 46, 116, 115];
    RepoPath.PlainName(Composing, Latin, T("main.ts"));
  }

  lemma ComposingPrints(ms: seq<Member>, names: seq<string>)
    requires Named(ms, names) && Columns(names)
    requires forall i :: 0 <= i < |ms| ==> CanonicalText(Composing, ms[i].value).Some?
    ensures CanonicalText(Composing, Obj(ms)).Some?
  {
    hide CanonicalText, Composing, T;
    forall i | 0 <= i < |names| ensures Composing(T(names[i])) == T(names[i]) {
      AsciiKept(names[i]);
    }
    RecordPrints(Composing, ms, names);
  }

  lemma KeptPrints(s: string, n: int)
    requires AsciiName(s) && -MAX_EXACT <= n <= MAX_EXACT
    ensures CanonicalText(Composing, Str(T(s))).Some? && CanonicalText(Composing, Int(n)).Some?
  {
    hide CanonicalText, Composing, T;
    AsciiKept(s);
    LiteralEncodable(s);
    ScalarsPrint(Composing, T(s), n);
  }

  lemma SeenColumnsApart()
    ensures Columns(RecordFields.SEEN_COLUMNS)
  {
    assert AsciiName("extractor") && AsciiName("extractor_version") && AsciiName("path");
    assert AsciiName("start_line") && AsciiName("end_line");
  }

  lemma EvidencePartPrints()
    ensures CanonicalText(Composing, Obj(Ordinals.EvidencePart(SEEN_RUN, T("main.ts"), SEEN_AT))).Some?
  {
    hide CanonicalText, T, Composing, Columns;
    KeptPrints("typescript-ast", 41);
    KeptPrints("1.0.0", 41);
    KeptPrints("main.ts", 41);
    SeenColumnsApart();
    ComposingPrints(Ordinals.EvidencePart(SEEN_RUN, T("main.ts"), SEEN_AT), RecordFields.SEEN_COLUMNS);
  }

  lemma SubjectPartPrints(key: Text)
    requires key == COMPOSED || key == DECOMPOSED
    ensures CanonicalText(Composing, Obj(Ordinals.SubjectPart(Seen(key)))).Some?
  {
    hide CanonicalText, T, Composing, COMPOSED, DECOMPOSED;
    BothSpellings();
    KeptPrints("symbol", 0);
    ScalarsPrint(Composing, key, 0);
    ComposingPrints(Ordinals.SubjectPart(Seen(key)), ["kind", "stable_key"]);
  }

  lemma RevisionPartPrints()
    ensures CanonicalText(Composing, Ordinals.RevisionPart(SEEN_RUN)).Some?
  {
    hide CanonicalText, T, Composing;
    KeptPrints("git", 0);
    KeptPrints("9f1d0c7a", 0);
    ComposingPrints(Ordinals.RevisionPart(SEEN_RUN).members, ["kind", "value"]);
  }

  lemma SeenPrints(key: Text)
    requires key == COMPOSED || key == DECOMPOSED
    ensures Ordinals.PreImage(ComposingLib(), SEEN_RUN, Seen(key).(ordinal := 1)).Some?
  {
    hide CanonicalText, T, RepoPath.NormalizePath, Composing, Ordinals.EvidencePart, Ordinals.SubjectPart,
         Ordinals.RevisionPart, COMPOSED, DECOMPOSED, RecordFields.IDENTITY_COLUMNS, Named, Columns;
    var o := Seen(key).(ordinal := 1);
    SeenPath();
    KeptPrints("call", 1);
    KeptPrints("issueToken", 1);
    KeptPrints(SCHEMA, 1);
    EvidencePartPrints();
    SubjectPartPrints(key);
    assert Ordinals.SubjectPart(o) == Ordinals.SubjectPart(Seen(key)) by { SubjectOnly(key); }
    RevisionPartPrints();
    RecordFields.IdentityColumnsApart();
    RecordFields.DocumentedNames(SEEN_RUN, T("main.ts"), o);
    ComposingPrints(Ordinals.DocumentMembers(SEEN_RUN, T("main.ts"), o), RecordFields.IDENTITY_COLUMNS);
  }

  lemma SubjectOnly(key: Text)
    ensures Ordinals.SubjectPart(Seen(key).(ordinal := 1)) == Ordinals.SubjectPart(Seen(key))
  {
    hide T;
  }

  lemma TwoNumbered(o: Ordinals.Observation, p: Ordinals.Observation)
    requires Ordinals.IdentityOf(o) != Ordinals.IdentityOf(p)
    ensures Ordinals.Assigned([o, p], [o.(ordinal := 1), p.(ordinal := 1)])
  {
    hide Ordinals.IdentityOf;
    var os := [o, p];
    assert os[..1] == [o] && os[..2] == os && os[..0] == [];
    Ordinals.OrdinalIsNext(os, 0);
    Ordinals.OrdinalIsNext(os, 1);
    assert Ordinals.Count(os[..0], Ordinals.IdentityOf(p)) == 0;
    assert [o][..0] == [] && Ordinals.Count([o], Ordinals.IdentityOf(p)) == 0;
  }

  /** Two spellings of one key are grouped apart, both numbered 1, and identified by the same bytes. */
  lemma IdentitiesCollide()
    ensures Idempotent(Composing)
    ensures var os := [Seen(COMPOSED), Seen(DECOMPOSED)];
            var r := [Seen(COMPOSED).(ordinal := 1), Seen(DECOMPOSED).(ordinal := 1)];
            && Ordinals.Assigned(os, r) && !Ordinals.KeysStayApart(ComposingLib(), os)
            && Ordinals.PreImage(ComposingLib(), SEEN_RUN, r[0]).Some?
            && Ordinals.PreImage(ComposingLib(), SEEN_RUN, r[0]) == Ordinals.PreImage(ComposingLib(), SEEN_RUN, r[1])
  {
    hide Ordinals.PreImage, RepoPath.NormalizePath, T, COMPOSED, DECOMPOSED;
    var os := [Seen(COMPOSED), Seen(DECOMPOSED)];
    var r := [Seen(COMPOSED).(ordinal := 1), Seen(DECOMPOSED).(ordinal := 1)];
    BothSpellings();
    SeenPath();
    SeenPrints(COMPOSED);
    TwoNumbered(os[0], os[1]);
    Ordinals.IdentityDecidesBytes(ComposingLib(), SEEN_RUN, SEEN_RUN, r[0], r[1]);
    assert Ordinals.NormalIdentity(ComposingLib(), os[0]) == Ordinals.NormalIdentity(ComposingLib(), os[1]);
  }
}
