/** What the graph hash depends on. */
module DocumentLaws {
  import opened Order
  import opened Encoding
  import opened Json
  import opened RecordOrder
  import opened MappingOrder
  import opened Compose
  import opened Evidence
  import opened References
  import opened Edges
  import opened EdgeUnion
  import opened Records
  import opened GraphDocument

  // ------------------------------------------------- graphs that say the same

  ghost predicate SameSet<A(!new)>(s: seq<A>, t: seq<A>) { forall x :: x in s <==> x in t }

  /** Equal Python values: mappings in any iteration order, at any depth. */
  ghost predicate SameValue(a: Json, b: Json) { a == b || (Keyed(a) && Keyed(b) && Same(a, b)) }

  ghost predicate SameProperties(p: Option<seq<Member>>, q: Option<seq<Member>>) {
    p == q || (p.Some? && q.Some? && SameValue(Obj(p.value), Obj(q.value)))
  }

  ghost predicate SameNode(n: Node, m: Node) {
    && n.(evidence := [], properties := None) == m.(evidence := [], properties := None)
    && SameSet(n.evidence, m.evidence) && SameProperties(n.properties, m.properties)
  }

  ghost predicate SameAssertion(a: Assertion, b: Assertion) {
    && a.(derivedFrom := [], value := Null) == b.(derivedFrom := [], value := Null)
    && SameSet(a.derivedFrom, b.derivedFrom) && SameValue(a.value, b.value)
  }

  ghost predicate SameDiagnostic(d: Diagnostic, e: Diagnostic) {
    d.(details := None) == e.(details := None) && SameValue(DetailsOf(d), DetailsOf(e))
  }

  ghost predicate NodeIn(n: Node, ms: seq<Node>) { exists m :: m in ms && SameNode(n, m) }

  ghost predicate AssertionIn(a: Assertion, bs: seq<Assertion>) { exists b :: b in bs && SameAssertion(a, b) }

  ghost predicate DiagnosticIn(d: Diagnostic, es: seq<Diagnostic>) { exists e :: e in es && SameDiagnostic(d, e) }

  /**
   Two graphs say the same: equal scalars and the same sets of facts, the facts
   themselves up to order and repetition of evidence and derivations and up to the
   order of the mappings inside them.
   */
  ghost predicate SameFacts(a: Graph, b: Graph) {
    && a.schemaVersion == b.schemaVersion && a.revisionKind == b.revisionKind && a.revisionValue == b.revisionValue
    && a.configHash == b.configHash && SameSet(a.producers, b.producers)
    && (forall n :: n in a.nodes ==> NodeIn(n, b.nodes)) && (forall n :: n in b.nodes ==> NodeIn(n, a.nodes))
    && (forall x :: x in a.assertions ==> AssertionIn(x, b.assertions))
    && (forall x :: x in b.assertions ==> AssertionIn(x, a.assertions))
    && (forall d :: d in a.diagnostics ==> DiagnosticIn(d, b.diagnostics))
    && (forall d :: d in b.diagnostics ==> DiagnosticIn(d, a.diagnostics))
    && SameSet(a.observations, b.observations) && SameContent(a.edges, b.edges)
  }

  /** The edges of each triple agree in endpoint kinds once these are normalized. */
  ghost predicate KindsAgree(lib: Lib, edges: seq<Edge>) {
    forall e, f :: e in edges && f in edges && e.Of() == f.Of() ==> SameKinds(lib, e, f)
  }

  ghost predicate SameKinds(lib: Lib, e: Edge, f: Edge) {
    lib.nfc(e.subjectKind) == lib.nfc(f.subjectKind) && lib.nfc(e.objectKind) == lib.nfc(f.objectKind)
  }

  // ------------------------------------------------- facts that say the same have the same text

  lemma SameValueText(lib: Lib, a: Json, b: Json)
    requires SameValue(a, b)
    ensures CanonicalText(lib.nfc, a) == CanonicalText(lib.nfc, b)
  {
    hide CanonicalText, Keyed, Same;
    if a != b { MappingOrderForgotten(lib.nfc, a, b); }
  }

  lemma PropertiesTogether(p: Option<seq<Member>>, q: Option<seq<Member>>)
    requires SameProperties(p, q)
    ensures |PropertyMembers(p)| == |PropertyMembers(q)|
    ensures PropertyMembers(p) != [] ==>
              && PropertyMembers(p)[0].key == PropertyMembers(q)[0].key
              && SameValue(PropertyMembers(p)[0].value, PropertyMembers(q)[0].value)
  {
    hide T, Keyed;
    if p != q {
      var ms, ns := p.value, q.value;
      if Same(Obj(ms), Obj(ns)) { SameSides(ms, ns); }
      assert ms != [] ==> HasRight(ms[0], ns) || ms == ns;
      assert ns != [] ==> HasLeft(ms, ns[0]) || ms == ns;
    }
  }

  lemma NodeText(lib: Lib, schema: Text, n: Node, m: Node)
    requires Idempotent(lib.nfc) && SameNode(n, m)
    ensures TextOf(lib, NodeRecord(lib, schema, n)) == TextOf(lib, NodeRecord(lib, schema, m))
  {
    hide OrderEvidence, T, Optional, CanonicalText, SameValue, PropertyMembers, SameProperties;
    OrderEvidenceBySet(lib, n.evidence, m.evidence);
    if OrderEvidence(lib, n.evidence).Some? {
      var es := OrderEvidence(lib, n.evidence).value;
      SameHead(schema, n, m, es);
      PropertiesTogether(n.properties, m.properties);
      var p, q := PropertyMembers(n.properties), PropertyMembers(m.properties);
      PropertyCount(n.properties);
      if p != [] { SameValueText(lib, p[0].value, q[0].value); }
      SameParts(lib.nfc, NodeHead(schema, n, es) + p, NodeHead(schema, m, es) + q);
    }
  }

  lemma PropertyCount(p: Option<seq<Member>>)
    ensures |PropertyMembers(p)| <= 1
  {
  }

  lemma SameHead(schema: Text, n: Node, m: Node, es: seq<Evidence>)
    requires n.(evidence := [], properties := None) == m.(evidence := [], properties := None)
    ensures NodeHead(schema, n, es) == NodeHead(schema, m, es)
  {
    hide T, Optional, EvidenceArray;
    var x, y := n.(evidence := [], properties := None), m.(evidence := [], properties := None);
    assert x.nodeKind == n.nodeKind && x.stableKey == n.stableKey && x.truthClass == n.truthClass
        && x.name == n.name && x.language == n.language;
    assert y.nodeKind == m.nodeKind && y.stableKey == m.stableKey && y.truthClass == m.truthClass
        && y.name == m.name && y.language == m.language;
  }

  lemma AssertionText(lib: Lib, schema: Text, a: Assertion, b: Assertion)
    requires Idempotent(lib.nfc) && SameAssertion(a, b)
    ensures TextOf(lib, AssertionRecord(lib, schema, a)) == TextOf(lib, AssertionRecord(lib, schema, b))
  {
    hide SortDerivedFrom, T, CanonicalText, SameValue, Endpoint, ReferenceArray;
    SortDerivedFromBySet(lib, a.derivedFrom, b.derivedFrom);
    SameValueText(lib, a.value, b.value);
    var x, y := a.(derivedFrom := [], value := Null), b.(derivedFrom := [], value := Null);
    assert x.assertionId == a.assertionId && x.subjectKind == a.subjectKind && x.subjectKey == a.subjectKey
        && x.relation == a.relation && x.truthClass == a.truthClass && x.producer == a.producer
        && x.producerVersion == a.producerVersion;
    assert y.assertionId == b.assertionId && y.subjectKind == b.subjectKind && y.subjectKey == b.subjectKey
        && y.relation == b.relation && y.truthClass == b.truthClass && y.producer == b.producer
        && y.producerVersion == b.producerVersion;
    if SortDerivedFrom(lib, a.derivedFrom).Some? {
      SameParts(lib.nfc, AssertionRecord(lib, schema, a).value.members, AssertionRecord(lib, schema, b).value.members);
    }
  }

  lemma DiagnosticText(lib: Lib, d: Diagnostic, e: Diagnostic)
    requires SameDiagnostic(d, e)
    ensures TextOf(lib, DiagnosticRecord(lib, d)) == TextOf(lib, DiagnosticRecord(lib, e))
  {
    hide T, CanonicalText, SameValue, DetailsOf, RepoPath.NormalizePath, OrNull;
    SameValueText(lib, DetailsOf(d), DetailsOf(e));
    var x, y := d.(details := None), e.(details := None);
    assert x.code == d.code && x.category == d.category && x.severity == d.severity && x.message == d.message
        && x.producer == d.producer && x.path == d.path && x.span == d.span && x.subject == d.subject
        && x.objectKey == d.objectKey;
    assert y.code == e.code && y.category == e.category && y.severity == e.severity && y.message == e.message
        && y.producer == e.producer && y.path == e.path && y.span == e.span && y.subject == e.subject
        && y.objectKey == e.objectKey;
    if DiagnosticRecord(lib, d).Some? {
      SameParts(lib.nfc, DiagnosticRecord(lib, d).value.members, DiagnosticRecord(lib, e).value.members);
    }
  }

  // ------------------------------------------------- edges

  lemma EndpointText(lib: Lib, kind: Text, other: Text, key: Text)
    requires lib.nfc(kind) == lib.nfc(other)
    ensures CanonicalText(lib.nfc, Endpoint(kind, key)) == CanonicalText(lib.nfc, Endpoint(other, key))
  {
    hide CanonicalText, T;
    TextDecides(lib.nfc, kind, other);
    SameParts(lib.nfc, Endpoint(kind, key).members, Endpoint(other, key).members);
  }

  /** Edges equal up to kinds that normalize alike have the same text. */
  lemma EdgeText(lib: Lib, schema: Text, c: Edge, d: Edge)
    requires Kindless(c) == Kindless(d) && SameKinds(lib, c, d)
    ensures CanonicalText(lib.nfc, EdgeRecord(schema, c)) == CanonicalText(lib.nfc, EdgeRecord(schema, d))
  {
    hide CanonicalText, T, Endpoint, EvidenceArray, ReferenceArray;
    var x, y := Kindless(c), Kindless(d);
    assert x.edgeId == c.edgeId && x.subjectKey == c.subjectKey && x.relation == c.relation
        && x.objectKey == c.objectKey
        && x.truthClass == c.truthClass && x.producer == c.producer && x.producerVersion == c.producerVersion
        && x.evidence == c.evidence && x.derivedFrom == c.derivedFrom;
    assert y.edgeId == d.edgeId && y.subjectKey == d.subjectKey && y.relation == d.relation
        && y.objectKey == d.objectKey
        && y.truthClass == d.truthClass && y.producer == d.producer && y.producerVersion == d.producerVersion
        && y.evidence == d.evidence && y.derivedFrom == d.derivedFrom;
    EndpointText(lib, c.subjectKind, d.subjectKind, c.subjectKey);
    EndpointText(lib, c.objectKind, d.objectKind, c.objectKey);
    SameParts(lib.nfc, EdgeRecord(schema, c).members, EdgeRecord(schema, d).members);
  }

  lemma {:induction false} TriplesMembers(edges: seq<Edge>, t: Triple)
    ensures t in Triples(edges) <==> HasTriple(edges, t)
  {
    if edges != [] { TriplesMembers(edges[..|edges| - 1], t); }
  }

  /** The texts of consistent edges are those of their triples. */
  lemma EdgeTextsAre(lib: Lib, schema: Text, edges: seq<Edge>, x: Option<Text>)
    requires Consistent(lib, edges)
    ensures x in BuiltTexts(lib, EdgeRecords(lib, schema, edges)) <==>
            exists t :: HasTriple(edges, t) && TextOf(lib, ConsolidatedRecord(lib, schema, edges, t)) == x
  {
    hide Triples, TextOf, ConsolidatedRecord, Consistent, Group, HasTriple;
    var rs := EdgeRecords(lib, schema, edges);
    if x in BuiltTexts(lib, rs) {
      var r :| r in rs && TextOf(lib, r) == x;
      var i :| 0 <= i < |rs| && rs[i] == r;
      TriplesMembers(edges, Triples(edges)[i]);
      assert Triples(edges)[i] in Triples(edges);
    }
    if t :| HasTriple(edges, t) && TextOf(lib, ConsolidatedRecord(lib, schema, edges, t)) == x {
      TriplesMembers(edges, t);
      var i :| 0 <= i < |Triples(edges)| && Triples(edges)[i] == t;
      assert rs[i] in rs;
    }
  }

  /** Kinds that agree per triple make the consolidated texts of equal content equal. */
  lemma TripleText(lib: Lib, schema: Text, es: seq<Edge>, fs: seq<Edge>, t: Triple)
    requires Laws(lib) && SameContent(es, fs) && Consistent(lib, es) && Consistent(lib, fs) && HasTriple(es, t)
    requires KindsAgree(lib, fs)
    ensures HasTriple(fs, t)
    ensures TextOf(lib, ConsolidatedRecord(lib, schema, es, t)) == TextOf(lib, ConsolidatedRecord(lib, schema, fs, t))
  {
    hide ConsolidatedEdge, Group, Consistent, CanonicalText, EdgeRecord, Kindless, Laws, Shows, Derives, HasHeader;
    ConsolidatedByContent(lib, es, fs, t);
    WithKinds(lib, es, t);
    WithKinds(lib, fs, t);
    var f := TripleByHeaders(es, fs, t);
    var first := TripleHasHeader(fs, t);
    HeaderKinds(f, Group(es, t)[0]);
    assert SameKinds(lib, f, first);
    EdgeText(lib, schema, ConsolidatedEdge(lib, es, t).value, ConsolidatedEdge(lib, fs, t).value);
  }

  lemma KindsByContent(lib: Lib, es: seq<Edge>, fs: seq<Edge>)
    requires SameContent(es, fs) && KindsAgree(lib, es)
    ensures KindsAgree(lib, fs)
  {
    hide Shows, Derives, HasHeader;
    forall e, f | e in fs && f in fs && e.Of() == f.Of() ensures SameKinds(lib, e, f) {
      var x := Counterpart(es, fs, e);
      var y := Counterpart(es, fs, f);
      assert SameKinds(lib, x, y);
    }
  }

  lemma EdgeTextsSubset(lib: Lib, schema: Text, es: seq<Edge>, fs: seq<Edge>)
    requires Laws(lib) && SameContent(es, fs) && Consistent(lib, es) && Consistent(lib, fs) && KindsAgree(lib, fs)
    ensures BuiltTexts(lib, EdgeRecords(lib, schema, es)) <= BuiltTexts(lib, EdgeRecords(lib, schema, fs))
  {
    hide EdgeRecords, BuiltTexts, TextOf, ConsolidatedRecord, Consistent, SameContent, KindsAgree, Laws, HasTriple;
    forall x | x in BuiltTexts(lib, EdgeRecords(lib, schema, es))
      ensures x in BuiltTexts(lib, EdgeRecords(lib, schema, fs))
    {
      EdgeTextsAre(lib, schema, es, x);
      EdgeTextsAre(lib, schema, fs, x);
      var t :| HasTriple(es, t) && TextOf(lib, ConsolidatedRecord(lib, schema, es, t)) == x;
      TripleText(lib, schema, es, fs, t);
    }
  }

  lemma EdgeTexts(lib: Lib, schema: Text, es: seq<Edge>, fs: seq<Edge>)
    requires Laws(lib) && SameContent(es, fs) && KindsAgree(lib, es) && (Consistent(lib, es) <==> Consistent(lib, fs))
    ensures BuiltTexts(lib, EdgeRecords(lib, schema, es)) == BuiltTexts(lib, EdgeRecords(lib, schema, fs))
  {
    hide BuiltTexts, Consistent, SameContent, KindsAgree, Laws;
    if Consistent(lib, es) {
      ContentSymmetric(es, fs);
      KindsByContent(lib, es, fs);
      EdgeTextsSubset(lib, schema, es, fs);
      EdgeTextsSubset(lib, schema, fs, es);
    }
  }

  // ------------------------------------------------- the other arrays

  lemma NodeTexts(lib: Lib, schema: Text, ns: seq<Node>, ms: seq<Node>)
    requires Idempotent(lib.nfc) && forall n :: n in ns ==> NodeIn(n, ms)
    ensures BuiltTexts(lib, NodeRecords(lib, schema, ns)) <= BuiltTexts(lib, NodeRecords(lib, schema, ms))
  {
    hide NodeRecord, SameNode, TextOf;
    var rs, ts := NodeRecords(lib, schema, ns), NodeRecords(lib, schema, ms);
    forall x | x in BuiltTexts(lib, rs) ensures x in BuiltTexts(lib, ts) {
      var r :| r in rs && TextOf(lib, r) == x;
      var i :| 0 <= i < |rs| && rs[i] == r;
      assert ns[i] in ns;
      var m :| m in ms && SameNode(ns[i], m);
      NodeText(lib, schema, ns[i], m);
      var j :| 0 <= j < |ms| && ms[j] == m;
      assert ts[j] in ts;
    }
  }

  lemma AssertionTexts(lib: Lib, schema: Text, s: seq<Assertion>, t: seq<Assertion>)
    requires Idempotent(lib.nfc) && forall a :: a in s ==> AssertionIn(a, t)
    ensures BuiltTexts(lib, AssertionRecords(lib, schema, s)) <= BuiltTexts(lib, AssertionRecords(lib, schema, t))
  {
    hide AssertionRecord, SameAssertion, TextOf;
    var rs, ts := AssertionRecords(lib, schema, s), AssertionRecords(lib, schema, t);
    forall x | x in BuiltTexts(lib, rs) ensures x in BuiltTexts(lib, ts) {
      var r :| r in rs && TextOf(lib, r) == x;
      var i :| 0 <= i < |rs| && rs[i] == r;
      assert s[i] in s;
      var b :| b in t && SameAssertion(s[i], b);
      AssertionText(lib, schema, s[i], b);
      var j :| 0 <= j < |t| && t[j] == b;
      assert ts[j] in ts;
    }
  }

  lemma DiagnosticTexts(lib: Lib, s: seq<Diagnostic>, t: seq<Diagnostic>)
    requires forall d :: d in s ==> DiagnosticIn(d, t)
    ensures BuiltTexts(lib, DiagnosticRecords(lib, s)) <= BuiltTexts(lib, DiagnosticRecords(lib, t))
  {
    hide DiagnosticRecord, SameDiagnostic, TextOf;
    var rs, ts := DiagnosticRecords(lib, s), DiagnosticRecords(lib, t);
    forall x | x in BuiltTexts(lib, rs) ensures x in BuiltTexts(lib, ts) {
      var r :| r in rs && TextOf(lib, r) == x;
      var i :| 0 <= i < |rs| && rs[i] == r;
      assert s[i] in s;
      var e :| e in t && SameDiagnostic(s[i], e);
      DiagnosticText(lib, s[i], e);
      var j :| 0 <= j < |t| && t[j] == e;
      assert ts[j] in ts;
    }
  }

  lemma ObservationTexts(lib: Lib, s: seq<Observation>, t: seq<Observation>)
    requires forall o :: o in s ==> o in t
    ensures BuiltTexts(lib, ObservationRecords(lib, s)) <= BuiltTexts(lib, ObservationRecords(lib, t))
  {
    hide ObservationRecord, TextOf;
    var rs, ts := ObservationRecords(lib, s), ObservationRecords(lib, t);
    forall x | x in BuiltTexts(lib, rs) ensures x in BuiltTexts(lib, ts) {
      var r :| r in rs && TextOf(lib, r) == x;
      var i :| 0 <= i < |rs| && rs[i] == r;
      assert s[i] in t;
      var j :| 0 <= j < |t| && t[j] == s[i];
      assert ts[j] in ts;
    }
  }

  lemma NormalSubset(lib: Lib, ps: seq<Text>, qs: seq<Text>)
    requires forall p :: p in ps ==> p in qs
    ensures forall x :: x in Normals(lib, ps) ==> x in Normals(lib, qs)
  {
    forall x | x in Normals(lib, ps) ensures x in Normals(lib, qs) {
      var i :| 0 <= i < |ps| && Normals(lib, ps)[i] == x;
      assert ps[i] in qs;
      var j :| 0 <= j < |qs| && qs[j] == ps[i];
      assert Normals(lib, qs)[j] == x;
    }
  }

  lemma ProducersBySet(lib: Lib, ps: seq<Text>, qs: seq<Text>)
    requires SameSet(ps, qs)
    ensures ProducerSet(lib, ps) == ProducerSet(lib, qs)
  {
    hide Ordered, Utf8, Encodable;
    var p, q := Normals(lib, ps), Normals(lib, qs);
    NormalSubset(lib, ps, qs);
    NormalSubset(lib, qs, ps);
    if forall i :: 0 <= i < |p| ==> Encodable(p[i]) {
      forall i | 0 <= i < |q| ensures Encodable(q[i]) { assert q[i] in p; }
      forall x, y | x in p && y in p && Utf8(x) == Utf8(y) ensures x == y { Utf8Injective(x, y); }
      OrderedBySet(p, q, Utf8, (t: Text) => []);
    } else {
      var i :| 0 <= i < |p| && !Encodable(p[i]);
      assert p[i] in q;
    }
  }

  // ------------------------------------------------- theorems

  /** Graphs that say the same, and whose edges raise alike, have the same content. */
  lemma ContentBySets(lib: Lib, a: Graph, b: Graph)
    requires Laws(lib) && KindsAgree(lib, a.edges) && SameFacts(a, b)
    requires Consistent(lib, a.edges) <==> Consistent(lib, b.edges)
    ensures ContentOf(lib, a) == ContentOf(lib, b)
  {
    hide BuiltTexts, NodeRecords, AssertionRecords, ObservationRecords, DiagnosticRecords, EdgeRecords, ProducerSet,
         Consistent, SameContent, NodeIn, AssertionIn, DiagnosticIn, Laws, KindsAgree, Idempotent;
    var schema := a.schemaVersion;
    LawsIdempotent(lib);
    ProducersBySet(lib, a.producers, b.producers);
    NodeTexts(lib, schema, a.nodes, b.nodes);
    NodeTexts(lib, schema, b.nodes, a.nodes);
    AssertionTexts(lib, schema, a.assertions, b.assertions);
    AssertionTexts(lib, schema, b.assertions, a.assertions);
    DiagnosticTexts(lib, a.diagnostics, b.diagnostics);
    DiagnosticTexts(lib, b.diagnostics, a.diagnostics);
    ObservationTexts(lib, a.observations, b.observations);
    ObservationTexts(lib, b.observations, a.observations);
    EdgeTexts(lib, schema, a.edges, b.edges);
  }

  lemma HashBySets(lib: Lib, a: Graph, b: Graph)
    requires Laws(lib) && KindsAgree(lib, a.edges) && SameFacts(a, b)
    requires Consistent(lib, a.edges) <==> Consistent(lib, b.edges)
    ensures PreImage(lib, a) == PreImage(lib, b)
  {
    hide PreImage, Laws, KindsAgree, Consistent, SameFacts, ContentOf, Idempotent;
    LawsIdempotent(lib);
    ContentBySets(lib, a, b);
    PreImageByContent(lib, a, b);
  }

  /**
   The hashed bytes, or the failure to produce them, depend only on the sets of facts,
   when the edges of each triple agree in kind and no evidence path reads as a drive
   prefix once normalized.
   */
  lemma DocumentBySets(lib: Lib, a: Graph, b: Graph)
    requires Laws(lib) && KindsAgree(lib, a.edges) && SameFacts(a, b) && NoDrive(lib, a.edges)
    ensures PreImage(lib, a) == PreImage(lib, b)
  {
    hide PreImage, Laws, KindsAgree, Consistent, NoDrive, SameContent, NodeIn, AssertionIn, DiagnosticIn;
    UnionRaisesTogether(lib, a.edges, b.edges);
    HashBySets(lib, a, b);
  }

  lemma HashedIsConsistent(lib: Lib, g: Graph)
    requires PreImage(lib, g).Some?
    ensures Consistent(lib, g.edges)
  {
    hide Consistent, CanonicalText, OrderRecords, NodeRecords, AssertionRecords, ObservationRecords,
         DiagnosticRecords, ProducerSet, DocumentJson;
    assert !Consistent(lib, g.edges) ==> EdgeRecords(lib, g.schemaVersion, g.edges) == [None];
    var raised: seq<Option<Json>> := [None];
    assert raised[0] == None && AllBuilt(raised) == None;
  }

  /**
   Of two graphs with the same facts, when one is hashed the other is hashed to the same
   bytes exactly when none of its repeated triples shows a path that reads as a drive prefix.
   */
  lemma SameHashExactly(lib: Lib, a: Graph, b: Graph)
    requires Laws(lib) && KindsAgree(lib, a.edges) && SameFacts(a, b) && PreImage(lib, a).Some?
    ensures PreImage(lib, b) == PreImage(lib, a) <==> forall t :: !DriveClash(lib, b.edges, t)
  {
    hide PreImage, Laws, KindsAgree, SameContent, DriveClash, AllAcceptable, FieldsAgree, NodeIn, AssertionIn,
         DiagnosticIn;
    HashedIsConsistent(lib, a);
    AcceptableByContent(lib, a.edges, b.edges);
    HeadersOf(a.edges, b.edges);
    FieldsByContent(a.edges, b.edges);
    if forall t :: !DriveClash(lib, b.edges, t) {
      HashBySets(lib, a, b);
    } else if PreImage(lib, b) == PreImage(lib, a) {
      HashedIsConsistent(lib, b);
    }
  }

  lemma HeadersOf(es: seq<Edge>, fs: seq<Edge>)
    requires SameContent(es, fs)
    ensures forall h :: HasHeader(fs, h) ==> HasHeader(es, h)
  {
    hide HasHeader, Shows, Derives;
  }

  lemma PermutedSet<A(!new)>(s: seq<A>, t: seq<A>)
    requires multiset(s) == multiset(t)
    ensures SameSet(s, t)
  {
    forall x ensures x in s <==> x in t {
      assert x in s <==> x in multiset(s);
      assert x in t <==> x in multiset(t);
    }
  }

  /** The same scalars and the same arrays in some order. */
  ghost predicate Permuted(a: Graph, b: Graph) {
    && a.schemaVersion == b.schemaVersion && a.revisionKind == b.revisionKind && a.revisionValue == b.revisionValue
    && a.configHash == b.configHash && multiset(a.producers) == multiset(b.producers)
    && multiset(a.nodes) == multiset(b.nodes) && multiset(a.edges) == multiset(b.edges)
    && multiset(a.assertions) == multiset(b.assertions) && multiset(a.observations) == multiset(b.observations)
    && multiset(a.diagnostics) == multiset(b.diagnostics)
  }

  lemma PermutedFacts(a: Graph, b: Graph)
    requires Permuted(a, b)
    ensures SameFacts(a, b)
  {
    hide SameContent, SameNode, SameAssertion, SameDiagnostic;
    PermutedSet(a.producers, b.producers);
    PermutedSet(a.nodes, b.nodes);
    PermutedSet(a.edges, b.edges);
    PermutedSet(a.assertions, b.assertions);
    PermutedSet(a.observations, b.observations);
    PermutedSet(a.diagnostics, b.diagnostics);
    SameEdgesSameContent(a.edges, b.edges);
    FactsSayThemselves();
  }

  lemma FactsSayThemselves()
    ensures (forall n: Node :: SameNode(n, n)) && (forall a: Assertion :: SameAssertion(a, a))
    ensures (forall d: Diagnostic :: SameDiagnostic(d, d))
  {
    hide Keyed, Same;
  }

  /** Permuting any of the arrays never changes the hashed bytes, or the failure to produce them. */
  lemma PermutedDocument(lib: Lib, a: Graph, b: Graph)
    requires Laws(lib) && KindsAgree(lib, a.edges) && Permuted(a, b)
    ensures PreImage(lib, a) == PreImage(lib, b)
  {
    hide PreImage, Laws, Consistent, SameFacts, KindsAgree;
    PermutedFacts(a, b);
    PermutedRaisesTogether(lib, a.edges, b.edges);
    HashBySets(lib, a, b);
  }

  // ------------------------------------------------- exactly when the order of edges shows

  /** Different triples stay different once normalized, as they do when stable keys are stored normalized. */
  ghost predicate TriplesApart(lib: Lib, edges: seq<Edge>) {
    forall e, f :: e in edges && f in edges && SameNormalTriple(lib, e, f) ==> e.Of() == f.Of()
  }

  ghost predicate SameNormalTriple(lib: Lib, e: Edge, f: Edge) {
    && lib.nfc(e.subjectKey) == lib.nfc(f.subjectKey) && lib.nfc(e.relation) == lib.nfc(f.relation)
    && lib.nfc(e.objectKey) == lib.nfc(f.objectKey)
  }

  /** The text of an endpoint decides its kind and key. */
  lemma EndpointDecides(lib: Lib, kind: Text, key: Text, other: Text, key': Text)
    requires EqualText(lib, Endpoint(kind, key), Endpoint(other, key'))
    ensures lib.nfc(kind) == lib.nfc(other) && lib.nfc(key) == lib.nfc(key')
  {
    hide CanonicalText, T;
    var ms, ns := Endpoint(kind, key).members, Endpoint(other, key').members;
    PartsDecide(lib.nfc, ms, ns, 0);
    PartsDecide(lib.nfc, ms, ns, 1);
    TextDecides(lib.nfc, kind, other);
    TextDecides(lib.nfc, key, key');
  }

  /** The text of an edge record decides its triple and its kinds. */
  lemma EdgeDecides(lib: Lib, schema: Text, c: Edge, d: Edge)
    requires EqualText(lib, EdgeRecord(schema, c), EdgeRecord(schema, d))
    ensures SameNormalTriple(lib, c, d) && SameKinds(lib, c, d)
  {
    hide CanonicalText, T, Endpoint, EvidenceArray, ReferenceArray;
    var ms, ns := EdgeRecord(schema, c).members, EdgeRecord(schema, d).members;
    PartsDecide(lib.nfc, ms, ns, 2);
    PartsDecide(lib.nfc, ms, ns, 3);
    PartsDecide(lib.nfc, ms, ns, 4);
    EndpointDecides(lib, c.subjectKind, c.subjectKey, d.subjectKind, d.subjectKey);
    TextDecides(lib.nfc, c.relation, d.relation);
    EndpointDecides(lib, c.objectKind, c.objectKey, d.objectKind, d.objectKey);
  }

  /** No permutation of the edges changes the hashed bytes. */
  ghost predicate EdgeOrderForgotten(lib: Lib, g: Graph) {
    forall edges :: multiset(edges) == multiset(g.edges) ==> PreImage(lib, g.(edges := edges)) == PreImage(lib, g)
  }

  lemma HashedTexts(lib: Lib, g: Graph)
    requires Idempotent(lib.nfc) && PreImage(lib, g).Some?
    ensures None !in ContentOf(lib, g).edges
  {
    hide CanonicalText, Idempotent, DocumentJson, BuiltTexts, NodeRecords, AssertionRecords, ObservationRecords,
         DiagnosticRecords, EdgeRecords, ProducerSet, OrderedArray;
    OrderedArrayBuilt(lib, EdgeRecords(lib, g.schemaVersion, g.edges), EdgeKey);
  }

  /** Where the order of edges is forgotten, every edge has the kinds of its triple's first. */
  lemma ForgottenKinds(lib: Lib, g: Graph, e: Edge)
    requires Laws(lib) && PreImage(lib, g).Some? && EdgeOrderForgotten(lib, g) && TriplesApart(lib, g.edges)
    requires e in g.edges
    ensures HasTriple(g.edges, e.Of()) && SameKinds(lib, e, Group(g.edges, e.Of())[0])
  {
    hide PreImage, Laws, Consistent, Group, HasTriple, BuiltTexts, EdgeRecords, ConsolidatedEdge, EdgeRecord,
         CanonicalText, NodeRecords, AssertionRecords, ObservationRecords, DiagnosticRecords, ProducerSet,
         SameContent, SameNormalTriple, SameKinds;
    var i :| 0 <= i < |g.edges| && g.edges[i] == e;
    var fs := Fronted(g.edges, i);
    FrontedFirst(g.edges, i);
    var h, t, schema := g.(edges := fs), e.Of(), g.schemaVersion;
    LawsIdempotent(lib);
    ContentByPreImage(lib, g, h);
    HashedTexts(lib, h);
    HashedIsConsistent(lib, g);
    HashedIsConsistent(lib, h);
    FrontHasTriple(lib, g.edges, fs, t);
    var text := TextOf(lib, ConsolidatedRecord(lib, schema, fs, t));
    EdgeTextsAre(lib, schema, fs, text);
    EdgeTextsAre(lib, schema, g.edges, text);
    var u :| HasTriple(g.edges, u) && TextOf(lib, ConsolidatedRecord(lib, schema, g.edges, u)) == text;
    RecordOfTriple(lib, schema, fs, t);
    RecordOfTriple(lib, schema, g.edges, u);
    var c, d := ConsolidatedEdge(lib, fs, t).value, ConsolidatedEdge(lib, g.edges, u).value;
    EdgeDecides(lib, schema, c, d);
    KindsOfFirsts(lib, g.edges, e, c, d, u);
  }

  lemma FrontHasTriple(lib: Lib, es: seq<Edge>, fs: seq<Edge>, t: Triple)
    requires multiset(es) == multiset(fs) && Group(fs, t) != []
    ensures HasTriple(fs, t) && HasTriple(es, t)
  {
    PermutedGroups(es, fs, t);
  }

  lemma RecordOfTriple(lib: Lib, schema: Text, edges: seq<Edge>, t: Triple)
    requires Consistent(lib, edges) && HasTriple(edges, t)
    ensures ConsolidatedEdge(lib, edges, t).Some?
    ensures ConsolidatedRecord(lib, schema, edges, t) ==
            Some(EdgeRecord(schema, ConsolidatedEdge(lib, edges, t).value))
    ensures Group(edges, t)[0] in edges && Group(edges, t)[0].Of() == t
    ensures var c, first := ConsolidatedEdge(lib, edges, t).value, Group(edges, t)[0];
            && c.subjectKind == first.subjectKind && c.objectKind == first.objectKind
            && c.subjectKey == first.subjectKey && c.relation == first.relation && c.objectKey == first.objectKey
  {
    hide ConsolidatedEdge, DriveClash, EdgeRecord, AllAcceptable, Group;
    GroupAcceptable(lib, edges, t);
    WithKinds(lib, edges, t);
    var first := TripleHasHeader(edges, t);
  }

  lemma KindsOfFirsts(lib: Lib, es: seq<Edge>, e: Edge, c: Edge, d: Edge, u: Triple)
    requires TriplesApart(lib, es) && e in es && HasTriple(es, u) && Group(es, u)[0] in es && Group(es, u)[0].Of() == u
    requires SameNormalTriple(lib, c, d) && SameKinds(lib, c, d)
    requires c.subjectKind == e.subjectKind && c.objectKind == e.objectKind
    requires c.subjectKey == e.subjectKey && c.relation == e.relation && c.objectKey == e.objectKey
    requires var f := Group(es, u)[0];
             && d.subjectKind == f.subjectKind && d.objectKind == f.objectKind
             && d.subjectKey == f.subjectKey && d.relation == f.relation && d.objectKey == f.objectKey
    ensures u == e.Of() && SameKinds(lib, e, Group(es, u)[0])
  {
    hide Group;
    assert SameNormalTriple(lib, e, Group(es, u)[0]);
  }

  /** The hash of a graph forgets the order of its edges exactly when the edges of each triple agree in kind. */
  lemma EdgeOrderExactly(lib: Lib, g: Graph)
    requires Laws(lib) && PreImage(lib, g).Some? && TriplesApart(lib, g.edges)
    ensures EdgeOrderForgotten(lib, g) <==> KindsAgree(lib, g.edges)
  {
    hide PreImage, Laws, TriplesApart, HasTriple, Group;
    if KindsAgree(lib, g.edges) {
      forall edges | multiset(edges) == multiset(g.edges)
        ensures PreImage(lib, g.(edges := edges)) == PreImage(lib, g)
      {
        PermutedDocument(lib, g, g.(edges := edges));
      }
    }
    if EdgeOrderForgotten(lib, g) {
      forall e, f | e in g.edges && f in g.edges && e.Of() == f.Of() ensures SameKinds(lib, e, f) {
        ForgottenKinds(lib, g, e);
        ForgottenKinds(lib, g, f);
      }
    }
  }
}
