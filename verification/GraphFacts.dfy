/** The graph hash decides the facts. */
module GraphFacts {
  // The hashed bytes of two graphs agree exactly when their scalars agree under NFC and
  // their arrays hold the same facts in normal form, column by column.

  import opened Order
  import opened Encoding
  import opened Json
  import opened RecordOrder
  import opened Evidence
  import opened References
  import opened Edges
  import opened EdgeUnion
  import opened RecordShape
  import opened GraphDocument
  import opened NormalFacts

  /** What a graph says, up to everything that canonical form forgets; nothing among the facts for one that raises. */
  datatype Facts = Facts(schema: Text, revisionKind: Text, revisionValue: Text, configHash: Text,
                         producers: set<Text>, nodes: set<Option<NormalNode>>, edges: set<Option<Edge>>,
                         assertions: set<Option<Assertion>>, observations: set<Option<Observation>>,
                         diagnostics: set<Option<NormalDiagnostic>>)

  ghost function NormalEdgeOf(lib: Lib, edges: seq<Edge>, t: Triple): Option<Edge> {
    match ConsolidatedEdge(lib, edges, t) case None => None case Some(e) => NormalOfEdge(lib, e)
  }

  /** One edge for each triple, or one raised exception. */
  ghost function EdgeFacts(lib: Lib, edges: seq<Edge>): seq<Option<Edge>> {
    if !Consistent(lib, edges) then [None]
    else seq(|Triples(edges)|, i requires 0 <= i < |Triples(edges)| => NormalEdgeOf(lib, edges, Triples(edges)[i]))
  }

  ghost function NodeFacts(lib: Lib, s: seq<Node>): seq<Option<NormalNode>> {
    seq(|s|, i requires 0 <= i < |s| => NormalOfNode(lib, s[i]))
  }

  ghost function AssertionFacts(lib: Lib, s: seq<Assertion>): seq<Option<Assertion>> {
    seq(|s|, i requires 0 <= i < |s| => NormalOfAssertion(lib, s[i]))
  }

  ghost function ObservationFacts(lib: Lib, s: seq<Observation>): seq<Option<Observation>> {
    seq(|s|, i requires 0 <= i < |s| => NormalOfObservation(lib, s[i]))
  }

  ghost function DiagnosticFacts(lib: Lib, s: seq<Diagnostic>): seq<Option<NormalDiagnostic>> {
    seq(|s|, i requires 0 <= i < |s| => NormalOfDiagnostic(lib, s[i]))
  }

  ghost function SetOf<A>(s: seq<A>): set<A> { set x | x in s }

  ghost function FactsOf(lib: Lib, g: Graph): Facts {
    Facts(lib.nfc(g.schemaVersion), lib.nfc(g.revisionKind), lib.nfc(g.revisionValue), lib.nfc(g.configHash),
          ProducerFacts(lib, g.producers),
          SetOf(NodeFacts(lib, g.nodes)), SetOf(EdgeFacts(lib, g.edges)), SetOf(AssertionFacts(lib, g.assertions)),
          SetOf(ObservationFacts(lib, g.observations)), SetOf(DiagnosticFacts(lib, g.diagnostics)))
  }

  // ------------------------------------------------- sets of texts and sets of facts

  /** Where two lists pair off alike, their sets agree together. */
  lemma SetsTogether<A, B>(xs: seq<A>, ys: seq<A>, fs: seq<B>, gs: seq<B>)
    requires |xs| == |fs| && |ys| == |gs|
    requires forall i, j :: 0 <= i < |xs| && 0 <= j < |ys| ==> (xs[i] == ys[j] <==> fs[i] == gs[j])
    ensures SetOf(xs) == SetOf(ys) <==> SetOf(fs) == SetOf(gs)
  {
    SubsetsTogether(xs, ys, fs, gs);
    SubsetsTogether(fs, gs, xs, ys);
  }

  lemma SubsetsTogether<A, B>(xs: seq<A>, ys: seq<A>, fs: seq<B>, gs: seq<B>)
    requires |xs| == |fs| && |ys| == |gs|
    requires forall i, j :: 0 <= i < |xs| && 0 <= j < |ys| ==> (xs[i] == ys[j] <==> fs[i] == gs[j])
    ensures SetOf(xs) == SetOf(ys) ==> SetOf(fs) == SetOf(gs)
  {
    if SetOf(xs) == SetOf(ys) {
      forall f ensures f in SetOf(fs) <==> f in SetOf(gs) {
        if i :| 0 <= i < |fs| && fs[i] == f {
          assert xs[i] in SetOf(ys);
          var j :| 0 <= j < |ys| && ys[j] == xs[i];
        }
        if j :| 0 <= j < |gs| && gs[j] == f {
          assert ys[j] in SetOf(xs);
          var i :| 0 <= i < |xs| && xs[i] == ys[j];
        }
      }
    }
  }

  ghost function Texts(lib: Lib, rs: seq<Option<Json>>): seq<Option<Text>> {
    seq(|rs|, i requires 0 <= i < |rs| => TextOf(lib, rs[i]))
  }

  lemma BuiltTextsSet(lib: Lib, rs: seq<Option<Json>>)
    ensures BuiltTexts(lib, rs) == SetOf(Texts(lib, rs))
  {
    hide TextOf;
    forall x ensures x in BuiltTexts(lib, rs) <==> x in SetOf(Texts(lib, rs)) {
      if x in BuiltTexts(lib, rs) {
        var r :| r in rs && TextOf(lib, r) == x;
        var i :| 0 <= i < |rs| && rs[i] == r;
        assert Texts(lib, rs)[i] == x;
      }
      if x in SetOf(Texts(lib, rs)) {
        var i :| 0 <= i < |rs| && Texts(lib, rs)[i] == x;
        assert rs[i] in rs;
      }
    }
  }

  lemma NodesDecide(lib: Lib, s: Text, t: Text, xs: seq<Node>, ys: seq<Node>)
    requires Standard(lib) && NormalText(lib, s) == NormalText(lib, t) && NormalText(lib, s).Some?
    ensures BuiltTexts(lib, NodeRecords(lib, s, xs)) == BuiltTexts(lib, NodeRecords(lib, t, ys)) <==>
            SetOf(NodeFacts(lib, xs)) == SetOf(NodeFacts(lib, ys))
  {
    hide Standard, NormalText, NodeRecord, NormalOfNode, TextOf, BuiltTexts, SetOf;
    var us, vs := Texts(lib, NodeRecords(lib, s, xs)), Texts(lib, NodeRecords(lib, t, ys));
    forall i, j | 0 <= i < |us| && 0 <= j < |vs|
      ensures us[i] == vs[j] <==> NodeFacts(lib, xs)[i] == NodeFacts(lib, ys)[j]
    {
      NodeExactly(lib, s, t, xs[i], ys[j]);
    }
    SetsTogether(us, vs, NodeFacts(lib, xs), NodeFacts(lib, ys));
    BuiltTextsSet(lib, NodeRecords(lib, s, xs));
    BuiltTextsSet(lib, NodeRecords(lib, t, ys));
  }

  lemma AssertionsDecide(lib: Lib, s: Text, t: Text, xs: seq<Assertion>, ys: seq<Assertion>)
    requires Standard(lib) && NormalText(lib, s) == NormalText(lib, t) && NormalText(lib, s).Some?
    ensures BuiltTexts(lib, AssertionRecords(lib, s, xs)) == BuiltTexts(lib, AssertionRecords(lib, t, ys)) <==>
            SetOf(AssertionFacts(lib, xs)) == SetOf(AssertionFacts(lib, ys))
  {
    hide Standard, NormalText, AssertionRecord, NormalOfAssertion, TextOf, BuiltTexts, SetOf;
    var us, vs := Texts(lib, AssertionRecords(lib, s, xs)), Texts(lib, AssertionRecords(lib, t, ys));
    forall i, j | 0 <= i < |us| && 0 <= j < |vs|
      ensures us[i] == vs[j] <==> AssertionFacts(lib, xs)[i] == AssertionFacts(lib, ys)[j]
    {
      AssertionExactly(lib, s, t, xs[i], ys[j]);
    }
    SetsTogether(us, vs, AssertionFacts(lib, xs), AssertionFacts(lib, ys));
    BuiltTextsSet(lib, AssertionRecords(lib, s, xs));
    BuiltTextsSet(lib, AssertionRecords(lib, t, ys));
  }

  lemma ObservationsDecide(lib: Lib, xs: seq<Observation>, ys: seq<Observation>)
    requires Standard(lib)
    ensures BuiltTexts(lib, ObservationRecords(lib, xs)) == BuiltTexts(lib, ObservationRecords(lib, ys)) <==>
            SetOf(ObservationFacts(lib, xs)) == SetOf(ObservationFacts(lib, ys))
  {
    hide Standard, NormalText, ObservationRecord, NormalOfObservation, TextOf, BuiltTexts, SetOf;
    var us, vs := Texts(lib, ObservationRecords(lib, xs)), Texts(lib, ObservationRecords(lib, ys));
    forall i, j | 0 <= i < |us| && 0 <= j < |vs|
      ensures us[i] == vs[j] <==> ObservationFacts(lib, xs)[i] == ObservationFacts(lib, ys)[j]
    {
      ObservationExactly(lib, xs[i], ys[j]);
    }
    SetsTogether(us, vs, ObservationFacts(lib, xs), ObservationFacts(lib, ys));
    BuiltTextsSet(lib, ObservationRecords(lib, xs));
    BuiltTextsSet(lib, ObservationRecords(lib, ys));
  }

  lemma DiagnosticsDecide(lib: Lib, xs: seq<Diagnostic>, ys: seq<Diagnostic>)
    requires Standard(lib)
    ensures BuiltTexts(lib, DiagnosticRecords(lib, xs)) == BuiltTexts(lib, DiagnosticRecords(lib, ys)) <==>
            SetOf(DiagnosticFacts(lib, xs)) == SetOf(DiagnosticFacts(lib, ys))
  {
    hide Standard, NormalText, DiagnosticRecord, NormalOfDiagnostic, TextOf, BuiltTexts, SetOf;
    var us, vs := Texts(lib, DiagnosticRecords(lib, xs)), Texts(lib, DiagnosticRecords(lib, ys));
    forall i, j | 0 <= i < |us| && 0 <= j < |vs|
      ensures us[i] == vs[j] <==> DiagnosticFacts(lib, xs)[i] == DiagnosticFacts(lib, ys)[j]
    {
      DiagnosticExactly(lib, xs[i], ys[j]);
    }
    SetsTogether(us, vs, DiagnosticFacts(lib, xs), DiagnosticFacts(lib, ys));
    BuiltTextsSet(lib, DiagnosticRecords(lib, xs));
    BuiltTextsSet(lib, DiagnosticRecords(lib, ys));
  }

  lemma ConsolidatedGathered(lib: Lib, edges: seq<Edge>, t: Triple)
    requires ConsolidatedEdge(lib, edges, t).Some?
    ensures Gathered(lib, ConsolidatedEdge(lib, edges, t).value, AllEvidence(Group(edges, t)),
                     AllReferences(Group(edges, t)))
  {
    hide Ordered, AllUsable, AllSound, Group, AllEvidence, AllReferences;
  }

  lemma EdgePairDecides(lib: Lib, s: Text, t: Text, es: seq<Edge>, fs: seq<Edge>, u: Triple, v: Triple)
    requires Standard(lib) && NormalText(lib, s) == NormalText(lib, t) && NormalText(lib, s).Some?
    ensures TextOf(lib, ConsolidatedRecord(lib, s, es, u)) == TextOf(lib, ConsolidatedRecord(lib, t, fs, v)) <==>
            NormalEdgeOf(lib, es, u) == NormalEdgeOf(lib, fs, v)
  {
    hide Standard, NormalText, ConsolidatedEdge, Gathered, CanonicalText, EdgeRecord, NormalOfEdge, Group,
         AllEvidence, AllReferences;
    var x, y := ConsolidatedEdge(lib, es, u), ConsolidatedEdge(lib, fs, v);
    if x.Some? { ConsolidatedGathered(lib, es, u); }
    if y.Some? { ConsolidatedGathered(lib, fs, v); }
    if x.Some? && y.Some? {
      EdgeExactly(lib, s, t, x.value, y.value, AllEvidence(Group(es, u)), AllReferences(Group(es, u)),
                  AllEvidence(Group(fs, v)), AllReferences(Group(fs, v)));
    } else {
      EdgeRaises(lib, s, es, u);
      EdgeRaises(lib, t, fs, v);
    }
  }

  lemma EdgeRaises(lib: Lib, s: Text, es: seq<Edge>, t: Triple)
    requires Standard(lib) && NormalText(lib, s).Some?
    ensures TextOf(lib, ConsolidatedRecord(lib, s, es, t)) == None <==> NormalEdgeOf(lib, es, t) == None
  {
    hide Standard, NormalText, ConsolidatedEdge, Gathered, CanonicalText, EdgeRecord, NormalOfEdge, Group,
         AllEvidence, AllReferences;
    var x := ConsolidatedEdge(lib, es, t);
    if x.Some? {
      ConsolidatedGathered(lib, es, t);
      EdgePrints(lib, s, x.value, AllEvidence(Group(es, t)), AllReferences(Group(es, t)));
    }
  }

  lemma EdgeSetsDecide(lib: Lib, s: Text, t: Text, es: seq<Edge>, fs: seq<Edge>)
    requires Standard(lib) && NormalText(lib, s) == NormalText(lib, t) && NormalText(lib, s).Some?
    ensures BuiltTexts(lib, EdgeRecords(lib, s, es)) == BuiltTexts(lib, EdgeRecords(lib, t, fs)) <==>
            SetOf(EdgeFacts(lib, es)) == SetOf(EdgeFacts(lib, fs))
  {
    hide Standard, NormalText, ConsolidatedRecord, NormalEdgeOf, CanonicalText, BuiltTexts, SetOf, Consistent, Triples;
    var us, vs := Texts(lib, EdgeRecords(lib, s, es)), Texts(lib, EdgeRecords(lib, t, fs));
    var xs, ys := EdgeFacts(lib, es), EdgeFacts(lib, fs);
    forall i, j | 0 <= i < |us| && 0 <= j < |vs| ensures us[i] == vs[j] <==> xs[i] == ys[j] {
      assert TextOf(lib, None) == None;
      if Consistent(lib, es) && Consistent(lib, fs) {
        EdgePairDecides(lib, s, t, es, fs, Triples(es)[i], Triples(fs)[j]);
      } else if Consistent(lib, es) {
        EdgeRaises(lib, s, es, Triples(es)[i]);
      } else if Consistent(lib, fs) {
        EdgeRaises(lib, t, fs, Triples(fs)[j]);
      }
    }
    SetsTogether(us, vs, xs, ys);
    BuiltTextsSet(lib, EdgeRecords(lib, s, es));
    BuiltTextsSet(lib, EdgeRecords(lib, t, fs));
  }

  // ------------------------------------------------- producers

  ghost function ProducerFacts(lib: Lib, ps: seq<Text>): set<Text> { set p | p in ps :: lib.nfc(p) }

  lemma NormalsSet(lib: Lib, ps: seq<Text>)
    ensures forall x :: x in Normals(lib, ps) <==> x in ProducerFacts(lib, ps)
  {
    forall x ensures x in Normals(lib, ps) <==> x in ProducerFacts(lib, ps) {
      if p :| p in ps && lib.nfc(p) == x {
        var i :| 0 <= i < |ps| && ps[i] == p;
        assert Normals(lib, ps)[i] == x;
      }
      if x in Normals(lib, ps) {
        var i :| 0 <= i < |ps| && Normals(lib, ps)[i] == x;
        assert ps[i] in ps;
      }
    }
  }

  lemma ProducersTell(lib: Lib, ps: seq<Text>, x: Text)
    requires ProducerSet(lib, ps).Some?
    ensures x in ProducerSet(lib, ps).value <==> x in ProducerFacts(lib, ps)
  {
    hide Ordered, Utf8, Encodable;
    var normal := Normals(lib, ps);
    NormalsSet(lib, ps);
    Utf8Identifies(normal);
    if x in normal { OrderedHolds(normal, Utf8, (t: Text) => [], x); }
    if x in ProducerSet(lib, ps).value { OrderedFrom(normal, Utf8, (t: Text) => [], x); }
  }

  lemma Utf8Identifies(s: seq<Text>)
    requires forall i :: 0 <= i < |s| ==> Encodable(s[i])
    ensures forall x, y :: x in s && y in s && Utf8(x) == Utf8(y) ==> x == y
  {
    hide Utf8, Encodable;
    forall x, y | x in s && y in s && Utf8(x) == Utf8(y) ensures x == y { Utf8Injective(x, y); }
  }

  lemma ProducersDecide(lib: Lib, ps: seq<Text>, qs: seq<Text>)
    requires ProducerSet(lib, ps).Some?
    ensures ProducerSet(lib, ps) == ProducerSet(lib, qs) <==> ProducerFacts(lib, ps) == ProducerFacts(lib, qs)
  {
    hide Ordered, Utf8, Encodable, ProducerSet, ProducerFacts;
    if ProducerSet(lib, ps) == ProducerSet(lib, qs) {
      forall x ensures x in ProducerFacts(lib, ps) <==> x in ProducerFacts(lib, qs) {
        ProducersTell(lib, ps, x);
        ProducersTell(lib, qs, x);
      }
    }
    if ProducerFacts(lib, ps) == ProducerFacts(lib, qs) { ProducersBySet(lib, ps, qs); }
  }

  lemma ProducersBySet(lib: Lib, ps: seq<Text>, qs: seq<Text>)
    requires ProducerSet(lib, ps).Some? && ProducerFacts(lib, ps) == ProducerFacts(lib, qs)
    ensures ProducerSet(lib, ps) == ProducerSet(lib, qs)
  {
    hide Ordered, Utf8, Encodable;
    var x, y := Normals(lib, ps), Normals(lib, qs);
    NormalsSet(lib, ps);
    NormalsSet(lib, qs);
    forall i | 0 <= i < |y| ensures Encodable(y[i]) {
      assert y[i] in y;
      var j :| 0 <= j < |x| && x[j] == y[i];
    }
    Utf8Identifies(x);
    OrderedBySet(x, y, Utf8, (t: Text) => []);
  }

  // ------------------------------------------------- the document

  lemma HashedScalars(lib: Lib, g: Graph)
    requires PreImage(lib, g).Some?
    ensures NormalText(lib, g.schemaVersion).Some? && ProducerSet(lib, g.producers).Some?
  {
    hide CanonicalText, PartsOf, DocumentJson, ProducerSet, RevisionJson, ProducerArray;
    EqualTexts(lib, g, g);
    PartsByText(lib, g, g, PartsOf(lib, g), PartsOf(lib, g));
    TextPart(lib, g.schemaVersion, g.schemaVersion);
    assert PartsOf(lib, g).producers == ProducerSet(lib, g.producers) by { ProducersFirst(lib, g); }
  }

  lemma ProducersFirst(lib: Lib, g: Graph)
    ensures PartsOf(lib, g).producers == ProducerSet(lib, g.producers)
  {
    hide ProducerSet, OrderedArray;
  }

  lemma ContentAndFacts(lib: Lib, a: Graph, b: Graph)
    requires Standard(lib) && PreImage(lib, a).Some?
    ensures ContentOf(lib, a) == ContentOf(lib, b) <==> FactsOf(lib, a) == FactsOf(lib, b)
  {
    hide Standard, PreImage, BuiltTexts, NodeRecords, AssertionRecords, ObservationRecords, DiagnosticRecords,
         EdgeRecords, ProducerSet, EdgeFacts, NodeFacts, AssertionFacts, ObservationFacts, DiagnosticFacts,
         ProducerFacts, SetOf, Encodable;
    HashedScalars(lib, a);
    ProducersDecide(lib, a.producers, b.producers);
    var s, t := a.schemaVersion, b.schemaVersion;
    if lib.nfc(s) == lib.nfc(t) {
      NodesDecide(lib, s, t, a.nodes, b.nodes);
      EdgeSetsDecide(lib, s, t, a.edges, b.edges);
      AssertionsDecide(lib, s, t, a.assertions, b.assertions);
      ObservationsDecide(lib, a.observations, b.observations);
      DiagnosticsDecide(lib, a.diagnostics, b.diagnostics);
    }
  }

  /** A hashed graph and another have the same bytes exactly when they tell the same facts. */
  lemma HashDecidesFacts(lib: Lib, a: Graph, b: Graph)
    requires Standard(lib) && PreImage(lib, a).Some?
    ensures PreImage(lib, a) == PreImage(lib, b) <==> FactsOf(lib, a) == FactsOf(lib, b)
  {
    hide PreImage, ContentOf, FactsOf, KeepsAscii, Idempotent;
    HashDecidesContent(lib, a, b);
    ContentAndFacts(lib, a, b);
  }
}
