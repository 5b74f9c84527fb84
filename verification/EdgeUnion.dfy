/** Edge consolidation is a union. */
module EdgeUnion {
  // What it returns, and whether it raises, depends only on what the edges say together.

  import opened Order
  import opened Json
  import opened Evidence
  import opened References
  import opened Edges
  import opened RecordOrder

  ghost predicate HasHeader(edges: seq<Edge>, h: Edge) {
    exists i :: 0 <= i < |edges| && edges[i].Header() == h
  }

  ghost predicate Shows(edges: seq<Edge>, t: Triple, e: Evidence) {
    e in AllEvidence(Group(edges, t))
  }

  ghost predicate Derives(edges: seq<Edge>, t: Triple, r: Reference) {
    r in AllReferences(Group(edges, t))
  }

  /** The same headers, and per triple the same evidence and derivations, however
      they are split over duplicates and ordered. */
  ghost predicate SameContent(es: seq<Edge>, fs: seq<Edge>) {
    && (forall h :: HasHeader(es, h) <==> HasHeader(fs, h))
    && (forall t, e :: Shows(es, t, e) <==> Shows(fs, t, e))
    && (forall t, r :: Derives(es, t, r) <==> Derives(fs, t, r))
  }

  /** Edges of one triple agree in everything but evidence and derivations. */
  ghost predicate HeadersAgree(edges: seq<Edge>) {
    forall e, f :: e in edges && f in edges && e.Of() == f.Of() ==> e.Header() == f.Header()
  }

  /** The consolidated edge of a triple. */
  ghost function ConsolidatedEdge(lib: Lib, edges: seq<Edge>, t: Triple): Option<Edge> {
    var g := Group(edges, t);
    if g != [] && AllUsable(lib, AllEvidence(g)) && AllSound(lib, AllReferences(g))
    then Some(With(lib, g[0], AllEvidence(g), AllReferences(g))) else None
  }

  /** An edge without its endpoint kinds. */
  function Kindless(e: Edge): Edge { e.(subjectKind := [], objectKind := []) }

  /** Two edges join the same nodes by the same relation. */
  predicate Parallel(e: Edge, f: Edge) {
    e.subjectKey == f.subjectKey && e.relation == f.relation && e.objectKey == f.objectKey
  }

  /** Parallel edges of a consistent list agree in identifier, truth class, producer and version. */
  lemma ParallelAgree(lib: Lib, edges: seq<Edge>, e: Edge, f: Edge)
    requires Consistent(lib, edges) && e in edges && f in edges && Parallel(e, f)
    ensures e.edgeId == f.edgeId && e.truthClass == f.truthClass
    ensures e.producer == f.producer && e.producerVersion == f.producerVersion
  {
    hide DriveClash, AllAcceptable;
    assert e.Of() == f.Of();
    var i :| 0 <= i < |edges| && edges[i] == e;
    var j :| 0 <= j < |edges| && edges[j] == f;
  }

  ghost predicate Doubled(edges: seq<Edge>, t: Triple) {
    exists i, j :: 0 <= i < j < |edges| && edges[i].Of() == t && edges[j].Of() == t
  }

  ghost predicate Listed(edges: seq<Edge>, t: Triple) { exists i :: 0 <= i < |edges| && edges[i].Of() == t }

  lemma ListedAppend(init: seq<Edge>, last: Edge, t: Triple)
    ensures Listed(init + [last], t) <==> Listed(init, t) || last.Of() == t
    ensures Doubled(init + [last], t) <==> Doubled(init, t) || (last.Of() == t && Listed(init, t))
  {
    var edges := init + [last];
    assert forall i :: 0 <= i < |init| ==> edges[i] == init[i];
    assert edges[|init|] == last;
    if i :| 0 <= i < |init| && init[i].Of() == t { assert edges[i].Of() == t; }
    if i, j :| 0 <= i < j < |init| && init[i].Of() == t && init[j].Of() == t {
      assert edges[i].Of() == t && edges[j].Of() == t;
    }
  }

  lemma {:induction false} GroupSize(edges: seq<Edge>, t: Triple)
    ensures |Group(edges, t)| >= 1 <==> Listed(edges, t)
    ensures |Group(edges, t)| >= 2 <==> Doubled(edges, t)
  {
    hide Listed, Doubled;
    if edges == [] {
      NoneListed(t);
    } else {
      var init, last := edges[..|edges| - 1], edges[|edges| - 1];
      GroupSize(init, t);
      assert edges == init + [last];
      ListedAppend(init, last, t);
      GroupAppend(init, last, t);
    }
  }

  lemma NoneListed(t: Triple)
    ensures !Listed([], t) && !Doubled([], t)
  {
  }

  /** Another edge of the list is parallel to this one. */
  ghost predicate Repeated(edges: seq<Edge>, i: nat)
    requires i < |edges|
  {
    exists j :: 0 <= j < |edges| && j != i && Parallel(edges[i], edges[j])
  }

  ghost predicate NoRepeatedDrive(lib: Lib, edges: seq<Edge>) {
    forall i, x :: 0 <= i < |edges| && x in edges[i].evidence && Repeated(edges, i) ==> !DriveLike(lib, x)
  }

  lemma DriveClashes(lib: Lib, edges: seq<Edge>)
    ensures (forall t :: !DriveClash(lib, edges, t)) <==> NoRepeatedDrive(lib, edges)
  {
    hide DriveLike, Group, AllEvidence, Repeated;
    if !NoRepeatedDrive(lib, edges) {
      var i, x :| 0 <= i < |edges| && x in edges[i].evidence && Repeated(edges, i) && DriveLike(lib, x);
      RepeatedDrive(lib, edges, i, x);
    }
    if t :| DriveClash(lib, edges, t) {
      var g := Group(edges, t);
      var k :| 0 <= k < |AllEvidence(g)| && DriveLike(lib, AllEvidence(g)[k]);
      var x := AllEvidence(g)[k];
      CollectedEvidence(g, x);
      var f :| f in g && x in f.evidence;
      GroupMembers(edges, t);
      var i :| 0 <= i < |edges| && edges[i] == f;
      GroupSize(edges, t);
      TwoParallel(edges, t, i);
    }
  }

  lemma TwoParallel(edges: seq<Edge>, t: Triple, i: nat)
    requires Doubled(edges, t) && i < |edges| && edges[i].Of() == t
    ensures Repeated(edges, i)
  {
    var j, k :| 0 <= j < k < |edges| && edges[j].Of() == t && edges[k].Of() == t;
    assert Parallel(edges[i], edges[j]) && Parallel(edges[i], edges[k]);
  }

  lemma RepeatedDrive(lib: Lib, edges: seq<Edge>, i: nat, x: Evidence)
    requires i < |edges| && x in edges[i].evidence && Repeated(edges, i) && DriveLike(lib, x)
    ensures DriveClash(lib, edges, edges[i].Of())
  {
    hide DriveLike, Group, AllEvidence;
    var t := edges[i].Of();
    var j :| 0 <= j < |edges| && j != i && Parallel(edges[i], edges[j]);
    assert edges[j].Of() == t;
    if i < j { assert Doubled(edges, t); } else { assert Doubled(edges, t); }
    GroupSize(edges, t);
    GroupMembers(edges, t);
    CollectedEvidence(Group(edges, t), x);
    var k :| 0 <= k < |AllEvidence(Group(edges, t))| && AllEvidence(Group(edges, t))[k] == x;
  }

  /**
   Consolidation succeeds exactly when every evidence record and reference is accepted, parallel
   edges agree in identifier, truth class, producer and version, and no edge that has a
   parallel one shows a path that is rejected on the second pass.
   */
  lemma ConsistentExactly(lib: Lib, edges: seq<Edge>)
    ensures Consistent(lib, edges) <==>
            && (forall e, x :: e in edges && x in e.evidence ==> Usable(lib, x))
            && (forall e, r :: e in edges && r in e.derivedFrom ==> Sound(lib, r))
            && (forall e, f :: e in edges && f in edges && Parallel(e, f) ==>
                  && e.edgeId == f.edgeId && e.truthClass == f.truthClass
                  && e.producer == f.producer && e.producerVersion == f.producerVersion)
            && NoRepeatedDrive(lib, edges)
  {
    hide Usable, Sound, DriveClash, NoRepeatedDrive;
    DriveClashes(lib, edges);
    AcceptableColumns(lib, edges);
    if FieldsAgree(edges) {
      forall e, f | e in edges && f in edges && Parallel(e, f) ensures SameFields(e, f) {
        var i :| 0 <= i < |edges| && edges[i] == e;
        var j :| 0 <= j < |edges| && edges[j] == f;
        assert e.Of() == f.Of();
      }
    }
    if forall e, f :: e in edges && f in edges && Parallel(e, f) ==> SameFields(e, f) {
      forall i, j | 0 <= i < |edges| && 0 <= j < |edges| && edges[i].Of() == edges[j].Of()
        ensures SameFields(edges[i], edges[j])
      {
        assert edges[i] in edges && edges[j] in edges && Parallel(edges[i], edges[j]);
      }
    }
  }

  lemma AcceptableColumns(lib: Lib, edges: seq<Edge>)
    ensures AllAcceptable(lib, edges) <==>
            && (forall e, x :: e in edges && x in e.evidence ==> Usable(lib, x))
            && (forall e, r :: e in edges && r in e.derivedFrom ==> Sound(lib, r))
  {
    hide Usable, Sound;
    if AllAcceptable(lib, edges) {
      forall e | e in edges ensures Acceptable(lib, e) { var i :| 0 <= i < |edges| && edges[i] == e; }
    } else {
      var i :| 0 <= i < |edges| && !Acceptable(lib, edges[i]);
      assert edges[i] in edges;
      if k :| 0 <= k < |edges[i].evidence| && !Usable(lib, edges[i].evidence[k]) {
        assert edges[i].evidence[k] in edges[i].evidence;
      } else {
        var k :| 0 <= k < |edges[i].derivedFrom| && !Sound(lib, edges[i].derivedFrom[k]);
        assert edges[i].derivedFrom[k] in edges[i].derivedFrom;
      }
    }
  }

  /**
   The record of an edge: the columns it shares with its parallel edges, and all the evidence
   and references of those, prepared.
   */
  lemma ConsolidatedTells(lib: Lib, edges: seq<Edge>, e: Edge)
    requires Laws(lib) && Consistent(lib, edges) && e in edges
    ensures ConsolidatedEdge(lib, edges, e.Of()).Some?
    ensures var c := ConsolidatedEdge(lib, edges, e.Of()).value;
            && Parallel(c, e) && c.edgeId == e.edgeId && c.truthClass == e.truthClass
            && c.producer == e.producer && c.producerVersion == e.producerVersion
            && (forall p :: p in c.evidence <==>
                  exists f, x :: f in edges && Parallel(e, f) && x in f.evidence && Prepare(lib, x) == Some(p))
            && (forall q :: q in c.derivedFrom <==>
                  exists f, r :: f in edges && Parallel(e, f) && r in f.derivedFrom && PrepareReference(lib, r) == q)
  {
    hide Usable, Sound, Ordered, DriveClash, Laws, Prepare, PrepareReference, Bytes, ReferenceBytes;
    ConsolidatedFromGroup(lib, edges, e);
    var t, c := e.Of(), ConsolidatedEdge(lib, edges, e.Of()).value;
    var g := Group(edges, t);
    GroupMembers(edges, t);
    assert forall f :: f in g <==> f in edges && Parallel(e, f);
    forall p
      ensures p in c.evidence <==>
              exists f, x :: f in edges && Parallel(e, f) && x in f.evidence && Prepare(lib, x) == Some(p)
    {
      EvidenceTold(lib, g, p);
    }
    forall q
      ensures q in c.derivedFrom <==>
              exists f, r :: f in edges && Parallel(e, f) && r in f.derivedFrom && PrepareReference(lib, r) == q
    {
      ReferencesTold(lib, g, q);
    }
  }

  lemma ConsolidatedFromGroup(lib: Lib, edges: seq<Edge>, e: Edge)
    requires Consistent(lib, edges) && e in edges
    ensures var t := e.Of();
            var g := Group(edges, t);
            && ConsolidatedEdge(lib, edges, t).Some? && g != [] && Parallel(g[0], e)
            && AllUsable(lib, AllEvidence(g)) && AllSound(lib, AllReferences(g))
            && var c := ConsolidatedEdge(lib, edges, t).value;
               && Parallel(c, e) && c.edgeId == e.edgeId && c.truthClass == e.truthClass
               && c.producer == e.producer && c.producerVersion == e.producerVersion
               && OrderEvidence(lib, AllEvidence(g)) == Some(c.evidence)
               && SortDerivedFrom(lib, AllReferences(g)) == Some(c.derivedFrom)
  {
    hide Usable, Sound, Ordered, DriveClash;
    var t := e.Of();
    var g := Group(edges, t);
    GroupMembers(edges, t);
    assert e in g && g[0] in g;
    GroupAcceptable(lib, edges, t);
    ParallelAgree(lib, edges, e, g[0]);
  }

  lemma {:induction false} CollectedEvidence(g: seq<Edge>, x: Evidence)
    ensures x in AllEvidence(g) <==> exists f :: f in g && x in f.evidence
  {
    if g != [] {
      CollectedEvidence(g[..|g| - 1], x);
      assert g == g[..|g| - 1] + [g[|g| - 1]];
    }
  }

  lemma {:induction false} CollectedReferences(g: seq<Edge>, r: Reference)
    ensures r in AllReferences(g) <==> exists f :: f in g && r in f.derivedFrom
  {
    if g != [] {
      CollectedReferences(g[..|g| - 1], r);
      assert g == g[..|g| - 1] + [g[|g| - 1]];
    }
  }

  lemma EvidenceTold(lib: Lib, g: seq<Edge>, p: Evidence)
    requires Laws(lib) && AllUsable(lib, AllEvidence(g))
    ensures p in OrderEvidence(lib, AllEvidence(g)).value <==>
            exists f, x :: f in g && x in f.evidence && Prepare(lib, x) == Some(p)
  {
    hide Usable, Ordered, Prepare, Bytes, Laws, AllEvidence;
    LawsIdempotent(lib);
    var es := AllEvidence(g);
    var s := Prepared(lib, es);
    PreparedIdentified(lib, es, es);
    if p in OrderEvidence(lib, es).value {
      OrderedFrom(s, Bytes(lib), EvidenceKey, p);
      var i :| 0 <= i < |s| && s[i] == p;
      UsableHasRecord(lib, es[i]);
      CollectedEvidence(g, es[i]);
    }
    if f, x :| f in g && x in f.evidence && Prepare(lib, x) == Some(p) {
      CollectedEvidence(g, x);
      var i :| 0 <= i < |es| && es[i] == x;
      assert s[i] == p;
      OrderedHolds(s, Bytes(lib), EvidenceKey, p);
    }
  }

  lemma UsableHasRecord(lib: Lib, e: Evidence)
    requires Usable(lib, e)
    ensures Prepare(lib, e).Some?
  {
  }

  lemma ReferencesTold(lib: Lib, g: seq<Edge>, q: Reference)
    requires Laws(lib) && AllSound(lib, AllReferences(g))
    ensures q in SortDerivedFrom(lib, AllReferences(g)).value <==>
            exists f, r :: f in g && r in f.derivedFrom && PrepareReference(lib, r) == q
  {
    hide Sound, Ordered, PrepareReference, ReferenceBytes, Laws, AllReferences;
    LawsIdempotent(lib);
    var rs := AllReferences(g);
    SortedMember(lib, rs, q);
    if q in PreparedReferences(lib, rs) {
      var i :| 0 <= i < |rs| && PreparedReferences(lib, rs)[i] == q;
      CollectedReferences(g, rs[i]);
    }
    if f, r :| f in g && r in f.derivedFrom && PrepareReference(lib, r) == q {
      CollectedReferences(g, r);
      var i :| 0 <= i < |rs| && rs[i] == r;
      assert PreparedReferences(lib, rs)[i] == q;
    }
  }

  lemma HeaderDecidesTriple(e: Edge, f: Edge)
    requires e.Header() == f.Header()
    ensures e.Of() == f.Of() && SameFields(e, f)
  {
    assert e.Header().edgeId == e.edgeId && f.Header().edgeId == f.edgeId;
    assert e.Header().subjectKey == e.subjectKey && f.Header().subjectKey == f.subjectKey;
    assert e.Header().relation == e.relation && f.Header().relation == f.relation;
    assert e.Header().objectKey == e.objectKey && f.Header().objectKey == f.objectKey;
    assert e.Header().truthClass == e.truthClass && f.Header().truthClass == f.truthClass;
    assert e.Header().producer == e.producer && f.Header().producer == f.producer;
    assert e.Header().producerVersion == e.producerVersion && f.Header().producerVersion == f.producerVersion;
  }

  lemma TripleHasHeader(edges: seq<Edge>, t: Triple) returns (e: Edge)
    requires HasTriple(edges, t)
    ensures e == Group(edges, t)[0] && e in edges && e.Of() == t && HasHeader(edges, e.Header())
  {
    GroupMembers(edges, t);
    e := Group(edges, t)[0];
    assert e in Group(edges, t);
    var i :| 0 <= i < |edges| && edges[i] == e;
  }

  lemma TripleByHeaders(es: seq<Edge>, fs: seq<Edge>, t: Triple) returns (f: Edge)
    requires (forall h :: HasHeader(es, h) ==> HasHeader(fs, h)) && HasTriple(es, t)
    ensures HasTriple(fs, t) && f in fs && f.Header() == Group(es, t)[0].Header() && f.Of() == t
  {
    var e := TripleHasHeader(es, t);
    var i :| 0 <= i < |fs| && fs[i].Header() == e.Header();
    f := fs[i];
    HeaderDecidesTriple(e, f);
    GroupMembers(fs, t);
    assert f in Group(fs, t);
  }

  /** Equal content gives first edges that agree in the four compared fields. */
  lemma SameFirst(es: seq<Edge>, fs: seq<Edge>, t: Triple)
    requires FieldsAgree(fs) && (forall h :: HasHeader(es, h) ==> HasHeader(fs, h)) && HasTriple(es, t)
    ensures HasTriple(fs, t) && Kindless(Group(fs, t)[0].Header()) == Kindless(Group(es, t)[0].Header())
    ensures HeadersAgree(fs) ==> Group(fs, t)[0].Header() == Group(es, t)[0].Header()
  {
    hide Group, HasHeader;
    var e := TripleHasHeader(es, t);
    var f := TripleByHeaders(es, fs, t);
    var first := TripleHasHeader(fs, t);
    var i :| 0 <= i < |fs| && fs[i] == f;
    var j :| 0 <= j < |fs| && fs[j] == first;
    assert SameFields(f, first);
    assert Kindless(f.Header()) == Kindless(first.Header());
  }

  /** Two edges with equal headers up to kinds, evidence and derivations in canonical form. */
  lemma WithBySets(lib: Lib, e: Edge, f: Edge, es: seq<Evidence>, fs: seq<Evidence>, rs: seq<Reference>,
                   qs: seq<Reference>)
    requires Idempotent(lib.nfc) && Kindless(e.Header()) == Kindless(f.Header())
    requires AllUsable(lib, es) && AllUsable(lib, fs) && AllSound(lib, rs) && AllSound(lib, qs)
    requires (forall x :: x in es <==> x in fs) && (forall r :: r in rs <==> r in qs)
    ensures Kindless(With(lib, e, es, rs)) == Kindless(With(lib, f, fs, qs))
  {
    hide Ordered, AllUsable, AllSound;
    OrderEvidenceBySet(lib, es, fs);
    SortDerivedFromBySet(lib, rs, qs);
    var x, y := OrderEvidence(lib, es).value, SortDerivedFrom(lib, rs).value;
    var p, q := Kindless(e.Header()), Kindless(f.Header());
    assert Kindless(With(lib, e, es, rs)) == p.(evidence := x, derivedFrom := y);
    assert Kindless(With(lib, f, fs, qs)) == q.(evidence := x, derivedFrom := y);
  }

  lemma WithKinds(lib: Lib, edges: seq<Edge>, t: Triple)
    requires ConsolidatedEdge(lib, edges, t).Some?
    ensures var c, first := ConsolidatedEdge(lib, edges, t).value, Group(edges, t)[0];
            && c.subjectKind == first.subjectKind && c.objectKind == first.objectKind
            && c.subjectKey == first.subjectKey && c.relation == first.relation && c.objectKey == first.objectKey
  {
  }

  lemma GroupAcceptable(lib: Lib, edges: seq<Edge>, t: Triple)
    requires AllAcceptable(lib, edges)
    ensures AllUsable(lib, AllEvidence(Group(edges, t))) && AllSound(lib, AllReferences(Group(edges, t)))
    ensures HasTriple(edges, t) ==> ConsolidatedEdge(lib, edges, t).Some?
  {
    hide Usable, Sound, Group, AllEvidence, AllReferences;
    var es, rs := AllEvidence(Group(edges, t)), AllReferences(Group(edges, t));
    forall i | 0 <= i < |es| ensures Usable(lib, es[i]) {
      ShownIffInEdge(edges, t, es[i]);
      assert Shows(edges, t, es[i]);
      var e :| e in edges && e.Of() == t && es[i] in e.evidence;
      assert Acceptable(lib, e);
    }
    forall i | 0 <= i < |rs| ensures Sound(lib, rs[i]) {
      DerivedIffInEdge(edges, t, rs[i]);
      assert Derives(edges, t, rs[i]);
      var e :| e in edges && e.Of() == t && rs[i] in e.derivedFrom;
      assert Acceptable(lib, e);
    }
  }

  /** Equal content gives the same consolidated edge, its endpoint kinds apart. */
  lemma ConsolidatedByContent(lib: Lib, es: seq<Edge>, fs: seq<Edge>, t: Triple)
    requires Laws(lib) && SameContent(es, fs) && Consistent(lib, es) && Consistent(lib, fs) && HasTriple(es, t)
    ensures HasTriple(fs, t) && ConsolidatedEdge(lib, es, t).Some? && ConsolidatedEdge(lib, fs, t).Some?
    ensures Kindless(ConsolidatedEdge(lib, es, t).value) == Kindless(ConsolidatedEdge(lib, fs, t).value)
  {
    hide Group, AllEvidence, AllReferences, AllUsable, AllSound, AllAcceptable, DriveClash, With, Kindless;
    GroupAcceptable(lib, es, t);
    GroupAcceptable(lib, fs, t);
    SameFirst(es, fs, t);
    LawsIdempotent(lib);
    var p, q := Group(es, t), Group(fs, t);
    forall x ensures x in AllEvidence(p) <==> x in AllEvidence(q) {
      assert Shows(es, t, x) <==> Shows(fs, t, x);
    }
    forall r ensures r in AllReferences(p) <==> r in AllReferences(q) {
      assert Derives(es, t, r) <==> Derives(fs, t, r);
    }
    WithBySets(lib, p[0], q[0], AllEvidence(p), AllEvidence(q), AllReferences(p), AllReferences(q));
  }

  lemma KindlessDecides(c: Edge, d: Edge)
    requires Kindless(c) == Kindless(d) && c.subjectKind == d.subjectKind && c.objectKind == d.objectKind
    ensures c == d
  {
    assert c == Kindless(c).(subjectKind := c.subjectKind, objectKind := c.objectKind);
    assert d == Kindless(d).(subjectKind := d.subjectKind, objectKind := d.objectKind);
  }

  /** When the edges of each triple agree in kind, equal content gives the same consolidated edge. */
  lemma ConsolidatedEqual(lib: Lib, es: seq<Edge>, fs: seq<Edge>, t: Triple)
    requires Laws(lib) && SameContent(es, fs) && Consistent(lib, es) && Consistent(lib, fs) && HasTriple(es, t)
    requires HeadersAgree(fs)
    ensures HasTriple(fs, t) && ConsolidatedEdge(lib, es, t) == ConsolidatedEdge(lib, fs, t)
  {
    hide ConsolidatedEdge, Group, AllAcceptable, DriveClash, HeadersAgree;
    ConsolidatedByContent(lib, es, fs, t);
    SameFirst(es, fs, t);
    WithKinds(lib, es, t);
    WithKinds(lib, fs, t);
    HeaderKinds(Group(es, t)[0], Group(fs, t)[0]);
    KindlessDecides(ConsolidatedEdge(lib, es, t).value, ConsolidatedEdge(lib, fs, t).value);
  }

  lemma HeaderKinds(e: Edge, f: Edge)
    requires e.Header() == f.Header()
    ensures e.subjectKind == f.subjectKind && e.objectKind == f.objectKind
  {
    assert e.Header().subjectKind == e.subjectKind && f.Header().subjectKind == f.subjectKind;
    assert e.Header().objectKind == e.objectKind && f.Header().objectKind == f.objectKind;
  }

  /** An edge with the same header among edges that have at least the same headers. */
  lemma Counterpart(es: seq<Edge>, fs: seq<Edge>, f: Edge) returns (e: Edge)
    requires (forall h :: HasHeader(fs, h) ==> HasHeader(es, h)) && f in fs
    ensures e in es && e.Header() == f.Header() && e.Of() == f.Of() && SameFields(e, f)
    ensures e.subjectKind == f.subjectKind && e.objectKind == f.objectKind
  {
    var i :| 0 <= i < |fs| && fs[i] == f;
    assert HasHeader(fs, f.Header());
    var p :| 0 <= p < |es| && es[p].Header() == f.Header();
    e := es[p];
    HeaderDecidesTriple(e, f);
    HeaderKinds(e, f);
  }

  /** Equal content agrees in headers together. */
  lemma HeadersByContent(es: seq<Edge>, fs: seq<Edge>)
    requires SameContent(es, fs) && HeadersAgree(es)
    ensures HeadersAgree(fs)
  {
    hide Shows, Derives, HasHeader;
    forall e, f | e in fs && f in fs && e.Of() == f.Of() ensures e.Header() == f.Header() {
      var x := Counterpart(es, fs, e);
      var y := Counterpart(es, fs, f);
    }
  }

  lemma ConsolidatedIs(lib: Lib, edges: seq<Edge>, grouped: map<Triple, Edge>, t: Triple)
    requires Consolidated(lib, edges, grouped)
    ensures t in grouped <==> HasTriple(edges, t)
    ensures t in grouped ==> ConsolidatedEdge(lib, edges, t) == Some(grouped[t])
  {
    hide AllUsable, AllSound, AllEvidence, AllReferences, Group, With;
    ConsolidatedAt(lib, edges, grouped, t);
  }

  /** Equal content consolidates to the same records. */
  lemma UnionDetermines(lib: Lib, es: seq<Edge>, fs: seq<Edge>, g: map<Triple, Edge>, h: map<Triple, Edge>)
    requires Laws(lib) && HeadersAgree(es) && SameContent(es, fs)
    requires Consistent(lib, es) && Consistent(lib, fs) && Consolidated(lib, es, g) && Consolidated(lib, fs, h)
    ensures g == h
  {
    hide Consolidated, Consistent, HeadersAgree, Laws, SameContent, ConsolidatedEdge;
    ContentSymmetric(es, fs);
    HeadersByContent(es, fs);
    forall t ensures t in g <==> t in h {
      ConsolidatedIs(lib, es, g, t);
      ConsolidatedIs(lib, fs, h, t);
      if t in g { ConsolidatedEqual(lib, es, fs, t); }
      if t in h { ConsolidatedEqual(lib, fs, es, t); }
    }
    forall t | t in g ensures g[t] == h[t] {
      ConsolidatedIs(lib, es, g, t);
      ConsolidatedIs(lib, fs, h, t);
      ConsolidatedEqual(lib, es, fs, t);
    }
  }

  lemma ContentSymmetric(es: seq<Edge>, fs: seq<Edge>)
    requires SameContent(es, fs)
    ensures SameContent(fs, es)
  {
    hide HasHeader, Shows, Derives;
  }

  // ------------------------------------------------- when it raises

  lemma {:induction false} ShownBySome(group: seq<Edge>, x: Evidence)
    ensures x in AllEvidence(group) <==> exists i :: 0 <= i < |group| && x in group[i].evidence
  {
    if group != [] {
      var init := group[..|group| - 1];
      ShownBySome(init, x);
      if i :| 0 <= i < |init| && x in init[i].evidence {
        assert group[i] == init[i];
      }
      if i :| 0 <= i < |group| && x in group[i].evidence {
        assert i < |init| ==> init[i] == group[i];
      }
    }
  }

  lemma {:induction false} DerivedBySome(group: seq<Edge>, r: Reference)
    ensures r in AllReferences(group) <==> exists i :: 0 <= i < |group| && r in group[i].derivedFrom
  {
    if group != [] {
      var init := group[..|group| - 1];
      DerivedBySome(init, r);
      if i :| 0 <= i < |init| && r in init[i].derivedFrom {
        assert group[i] == init[i];
      }
      if i :| 0 <= i < |group| && r in group[i].derivedFrom {
        assert i < |init| ==> init[i] == group[i];
      }
    }
  }

  lemma ShownIffInEdge(edges: seq<Edge>, t: Triple, x: Evidence)
    ensures Shows(edges, t, x) <==> exists e :: e in edges && e.Of() == t && x in e.evidence
  {
    hide AllEvidence, Group;
    var g := Group(edges, t);
    ShownBySome(g, x);
    GroupMembers(edges, t);
    if i :| 0 <= i < |g| && x in g[i].evidence {
      assert g[i] in g;
    }
    if e :| e in edges && e.Of() == t && x in e.evidence {
      assert e in g;
    }
  }

  lemma DerivedIffInEdge(edges: seq<Edge>, t: Triple, r: Reference)
    ensures Derives(edges, t, r) <==> exists e :: e in edges && e.Of() == t && r in e.derivedFrom
  {
    hide AllReferences, Group;
    var g := Group(edges, t);
    DerivedBySome(g, r);
    GroupMembers(edges, t);
    if i :| 0 <= i < |g| && r in g[i].derivedFrom {
      assert g[i] in g;
    }
    if e :| e in edges && e.Of() == t && r in e.derivedFrom {
      assert e in g;
    }
  }

  /** No evidence of any edge has a path that reads as a drive prefix. */
  ghost predicate NoDrive(lib: Lib, edges: seq<Edge>) {
    forall t, x :: Shows(edges, t, x) ==> !DriveLike(lib, x)
  }

  lemma AcceptableByContent(lib: Lib, es: seq<Edge>, fs: seq<Edge>)
    requires SameContent(es, fs) && AllAcceptable(lib, es)
    ensures AllAcceptable(lib, fs)
  {
    hide Usable, Sound, Shows, Derives, HasHeader;
    forall i | 0 <= i < |fs| ensures Acceptable(lib, fs[i]) {
      var f := fs[i];
      forall k | 0 <= k < |f.evidence| ensures Usable(lib, f.evidence[k]) {
        var x := f.evidence[k];
        ShownIffInEdge(fs, f.Of(), x);
        ShownIffInEdge(es, f.Of(), x);
        var e :| e in es && e.Of() == f.Of() && x in e.evidence;
        assert Acceptable(lib, e);
      }
      forall k | 0 <= k < |f.derivedFrom| ensures Sound(lib, f.derivedFrom[k]) {
        var r := f.derivedFrom[k];
        DerivedIffInEdge(fs, f.Of(), r);
        DerivedIffInEdge(es, f.Of(), r);
        var e :| e in es && e.Of() == f.Of() && r in e.derivedFrom;
        assert Acceptable(lib, e);
      }
    }
  }

  lemma FieldsByContent(es: seq<Edge>, fs: seq<Edge>)
    requires (forall h :: HasHeader(fs, h) ==> HasHeader(es, h)) && FieldsAgree(es)
    ensures FieldsAgree(fs)
  {
    hide HasHeader;
    forall i, j | 0 <= i < |fs| && 0 <= j < |fs| && fs[i].Of() == fs[j].Of() ensures SameFields(fs[i], fs[j]) {
      var x := Counterpart(es, fs, fs[i]);
      var y := Counterpart(es, fs, fs[j]);
      var p :| 0 <= p < |es| && es[p] == x;
      var q :| 0 <= q < |es| && es[q] == y;
    }
  }

  lemma NoDriveNoClash(lib: Lib, edges: seq<Edge>)
    requires NoDrive(lib, edges)
    ensures forall t :: !DriveClash(lib, edges, t)
  {
    hide Group, AllEvidence, DriveLike;
    forall t ensures !DriveClash(lib, edges, t) {
      var g := Group(edges, t);
      forall i | 0 <= i < |AllEvidence(g)| ensures !DriveLike(lib, AllEvidence(g)[i]) {
        assert Shows(edges, t, AllEvidence(g)[i]);
      }
    }
  }

  /** Without drive-like paths, equal content raises together or not at all. */
  lemma UnionRaisesTogether(lib: Lib, es: seq<Edge>, fs: seq<Edge>)
    requires SameContent(es, fs) && NoDrive(lib, es)
    ensures Consistent(lib, es) <==> Consistent(lib, fs)
  {
    hide AllAcceptable, FieldsAgree, DriveClash, DriveLike, HasHeader, Derives, Shows;
    ContentSymmetric(es, fs);
    assert NoDrive(lib, fs);
    NoDriveNoClash(lib, es);
    NoDriveNoClash(lib, fs);
    if AllAcceptable(lib, es) { AcceptableByContent(lib, es, fs); }
    if AllAcceptable(lib, fs) { AcceptableByContent(lib, fs, es); }
    if FieldsAgree(es) { FieldsByContent(es, fs); }
    if FieldsAgree(fs) { FieldsByContent(fs, es); }
  }

  // ------------------------------------------------- permuting and duplicating

  lemma {:induction false} GroupMultiset(edges: seq<Edge>, t: Triple, e: Edge)
    ensures multiset(Group(edges, t))[e] == if e.Of() == t then multiset(edges)[e] else 0
  {
    if edges != [] {
      var init := edges[..|edges| - 1];
      GroupMultiset(init, t, e);
      assert edges == init + [edges[|edges| - 1]];
    }
  }

  lemma PermutedGroups(es: seq<Edge>, fs: seq<Edge>, t: Triple)
    requires multiset(es) == multiset(fs)
    ensures multiset(Group(es, t)) == multiset(Group(fs, t)) && |Group(es, t)| == |Group(fs, t)|
  {
    forall e ensures multiset(Group(es, t))[e] == multiset(Group(fs, t))[e] {
      GroupMultiset(es, t, e);
      GroupMultiset(fs, t, e);
    }
    assert multiset(Group(es, t)) == multiset(Group(fs, t));
    assert |Group(es, t)| == |multiset(Group(es, t))| && |Group(fs, t)| == |multiset(Group(fs, t))|;
  }

  /** The same set of edges has the same content. */
  lemma SameEdgesSameContent(es: seq<Edge>, fs: seq<Edge>)
    requires forall e :: e in es <==> e in fs
    ensures SameContent(es, fs)
  {
    hide Shows, Derives;
    forall h ensures HasHeader(es, h) <==> HasHeader(fs, h) {
      if i :| 0 <= i < |es| && es[i].Header() == h { assert es[i] in fs; }
      if i :| 0 <= i < |fs| && fs[i].Header() == h { assert fs[i] in es; }
    }
    forall t, x ensures Shows(es, t, x) <==> Shows(fs, t, x) {
      ShownIffInEdge(es, t, x);
      ShownIffInEdge(fs, t, x);
    }
    forall t, r ensures Derives(es, t, r) <==> Derives(fs, t, r) {
      DerivedIffInEdge(es, t, r);
      DerivedIffInEdge(fs, t, r);
    }
  }

  lemma PermutedMembers(es: seq<Edge>, fs: seq<Edge>)
    requires multiset(es) == multiset(fs)
    ensures forall e :: e in es <==> e in fs
  {
    forall e ensures e in es <==> e in fs {
      assert e in es <==> e in multiset(es);
      assert e in fs <==> e in multiset(fs);
    }
  }

  lemma ClashByContent(lib: Lib, es: seq<Edge>, fs: seq<Edge>, t: Triple)
    requires |Group(es, t)| == |Group(fs, t)| && (forall x :: Shows(es, t, x) <==> Shows(fs, t, x))
    ensures DriveClash(lib, es, t) ==> DriveClash(lib, fs, t)
  {
    hide Group, AllEvidence, DriveLike;
    var x, y := AllEvidence(Group(es, t)), AllEvidence(Group(fs, t));
    if i :| 0 <= i < |x| && DriveLike(lib, x[i]) {
      assert Shows(es, t, x[i]);
      assert Shows(fs, t, x[i]);
      var j :| 0 <= j < |y| && y[j] == x[i];
    }
  }

  /** In every order the edges raise, or in none. */
  lemma PermutedRaisesTogether(lib: Lib, es: seq<Edge>, fs: seq<Edge>)
    requires multiset(es) == multiset(fs)
    ensures SameContent(es, fs)
    ensures Consistent(lib, es) <==> Consistent(lib, fs)
  {
    hide AllAcceptable, FieldsAgree, DriveClash, HasHeader, Derives, Shows, Group;
    PermutedMembers(es, fs);
    SameEdgesSameContent(es, fs);
    ContentSymmetric(es, fs);
    forall t ensures DriveClash(lib, es, t) <==> DriveClash(lib, fs, t) {
      PermutedGroups(es, fs, t);
      ClashByContent(lib, es, fs, t);
      ClashByContent(lib, fs, es, t);
    }
    if AllAcceptable(lib, es) { AcceptableByContent(lib, es, fs); }
    if AllAcceptable(lib, fs) { AcceptableByContent(lib, fs, es); }
    if FieldsAgree(es) { FieldsByContent(es, fs); }
    if FieldsAgree(fs) { FieldsByContent(fs, es); }
  }

  /** Every permutation consolidates to the same edges. */
  ghost predicate OrderFree(lib: Lib, es: seq<Edge>) {
    forall fs, t :: multiset(fs) == multiset(es) && HasTriple(es, t) ==>
        ConsolidatedEdge(lib, fs, t) == ConsolidatedEdge(lib, es, t)
  }

  /** The edges with the one at `i` brought to the front. */
  function Fronted(es: seq<Edge>, i: nat): seq<Edge>
    requires i < |es|
  {
    [es[i]] + (es[..i] + es[i + 1..])
  }

  lemma FrontedFirst(es: seq<Edge>, i: nat)
    requires i < |es|
    ensures multiset(Fronted(es, i)) == multiset(es)
    ensures Group(Fronted(es, i), es[i].Of()) != [] && Group(Fronted(es, i), es[i].Of())[0] == es[i]
  {
    assert es == es[..i] + ([es[i]] + es[i + 1..]);
    var fs := Fronted(es, i);
    assert fs[..1] == [es[i]];
    GroupPrefix(fs, 1, es[i].Of());
    GroupAppend([], es[i], es[i].Of());
    assert [] + [es[i]] == [es[i]];
  }

  /** Consolidation forgets the order of consistent edges exactly when the edges of each triple agree in kind. */
  lemma OrderFreeExactly(lib: Lib, es: seq<Edge>)
    requires Laws(lib) && Consistent(lib, es)
    ensures OrderFree(lib, es) <==> HeadersAgree(es)
  {
    hide ConsolidatedEdge, Consistent, Laws, SameContent, Group;
    if HeadersAgree(es) {
      forall fs, t | multiset(fs) == multiset(es) && HasTriple(es, t)
        ensures ConsolidatedEdge(lib, fs, t) == ConsolidatedEdge(lib, es, t)
      {
        PermutedRaisesTogether(lib, es, fs);
        HeadersByContent(es, fs);
        ConsolidatedEqual(lib, es, fs, t);
      }
    }
    if OrderFree(lib, es) {
      forall e, f | e in es && f in es && e.Of() == f.Of() ensures e.Header() == f.Header() {
        FrontKinds(lib, es, e);
        FrontKinds(lib, es, f);
        AgreesWithFirst(lib, es, e);
        AgreesWithFirst(lib, es, f);
        HeaderByParts(e, f);
      }
    }
  }

  /** Where order is forgotten, every edge has the kinds of its triple's consolidated edge. */
  lemma FrontKinds(lib: Lib, es: seq<Edge>, e: Edge)
    requires Laws(lib) && Consistent(lib, es) && OrderFree(lib, es) && e in es
    ensures ConsolidatedEdge(lib, es, e.Of()).Some?
    ensures var c := ConsolidatedEdge(lib, es, e.Of()).value;
            c.subjectKind == e.subjectKind && c.objectKind == e.objectKind
  {
    hide ConsolidatedEdge, Group, DriveClash, Laws;
    var i :| 0 <= i < |es| && es[i] == e;
    var fs := Fronted(es, i);
    FrontedFirst(es, i);
    PermutedRaisesTogether(lib, es, fs);
    AgreesWithFirst(lib, es, e);
    GroupAcceptable(lib, fs, e.Of());
    WithKinds(lib, fs, e.Of());
  }

  lemma HeaderByParts(e: Edge, f: Edge)
    requires e.Of() == f.Of() && SameFields(e, f) && e.subjectKind == f.subjectKind && e.objectKind == f.objectKind
    ensures e.Header() == f.Header()
  {
  }

  lemma AgreesWithFirst(lib: Lib, edges: seq<Edge>, e: Edge)
    requires Consistent(lib, edges) && e in edges
    ensures HasTriple(edges, e.Of()) && SameFields(Group(edges, e.Of())[0], e) && Acceptable(lib, e)
  {
    hide Group, DriveClash, Acceptable;
    GroupMembers(edges, e.Of());
    var g := Group(edges, e.Of());
    assert e in g && g[0] in g;
    var i :| 0 <= i < |edges| && edges[i] == e;
    var j :| 0 <= j < |edges| && edges[j] == g[0];
  }

  /** A repeated edge shows nothing new. */
  lemma NoNewDrive(lib: Lib, edges: seq<Edge>, e: Edge)
    requires e in edges
    ensures var x := AllEvidence(Group(edges, e.Of()));
            AnyDriveLike(lib, x + e.evidence) <==> AnyDriveLike(lib, x)
  {
    hide Group, AllEvidence, DriveLike;
    var x := AllEvidence(Group(edges, e.Of()));
    var y := x + e.evidence;
    if k :| 0 <= k < |y| && DriveLike(lib, y[k]) {
      if k >= |x| {
        assert y[k] in e.evidence;
        ShownIffInEdge(edges, e.Of(), y[k]);
        var m :| 0 <= m < |x| && x[m] == y[k];
      }
    }
    if k :| 0 <= k < |x| && DriveLike(lib, x[k]) {
      assert y[k] == x[k];
    }
  }

  /** Repeating an edge is harmless exactly when no evidence of its triple has a
      path that reads as a drive prefix. */
  lemma DuplicateExact(lib: Lib, edges: seq<Edge>, e: Edge, grouped: map<Triple, Edge>)
    requires Laws(lib) && Consistent(lib, edges) && Consolidated(lib, edges, grouped) && e in edges
    ensures Consistent(lib, edges + [e]) <==> !AnyDriveLike(lib, AllEvidence(Group(edges, e.Of())))
  {
    hide Group, AllEvidence, AllReferences, AnyDriveLike, Consolidated, Consistent, AllUsable, AllSound;
    AgreesWithFirst(lib, edges, e);
    NextOfTriple(lib, edges, grouped, e);
    NoNewDrive(lib, edges, e);
  }
}
