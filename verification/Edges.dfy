/**
 `_consolidate_edges`: one record per (subject, predicate, object) triple, holding
 the union of evidence and derivations.
 */
module Edges {
  import opened Order
  import opened Json
  import opened Evidence
  import opened References
  import opened RecordOrder

  datatype Triple = Triple(subjectKey: Text, relation: Text, objectKey: Text)

  datatype Edge = Edge(edgeId: Text, subjectKind: Text, subjectKey: Text, relation: Text, objectKind: Text,
                       objectKey: Text, truthClass: Text, producer: Text, producerVersion: Text,
                       evidence: seq<Evidence>, derivedFrom: seq<Reference>)
  {
    function Of(): Triple { Triple(subjectKey, relation, objectKey) }

    /** Everything but evidence and derivations. */
    function Header(): Edge { this.(evidence := [], derivedFrom := []) }
  }

  /** The four fields duplicates must agree on. */
  predicate SameFields(e: Edge, f: Edge) {
    && e.edgeId == f.edgeId && e.truthClass == f.truthClass
    && e.producer == f.producer && e.producerVersion == f.producerVersion
  }

  /** `canonical_edge_record` succeeds. */
  ghost predicate Acceptable(lib: Lib, e: Edge) {
    AllUsable(lib, e.evidence) && AllSound(lib, e.derivedFrom)
  }

  /** `e` with the given evidence and derivations in canonical form. */
  ghost function With(lib: Lib, e: Edge, es: seq<Evidence>, rs: seq<Reference>): Edge
    requires AllUsable(lib, es) && AllSound(lib, rs)
  {
    e.(evidence := OrderEvidence(lib, es).value, derivedFrom := SortDerivedFrom(lib, rs).value)
  }

  // ------------------------------------------------- declarative description

  /** The edges of one triple, in order. */
  ghost function Group(edges: seq<Edge>, t: Triple): seq<Edge> {
    if edges == [] then []
    else
      var last := edges[|edges| - 1];
      Group(edges[..|edges| - 1], t) + if last.Of() == t then [last] else []
  }

  ghost function AllEvidence(group: seq<Edge>): seq<Evidence> {
    if group == [] then [] else AllEvidence(group[..|group| - 1]) + group[|group| - 1].evidence
  }

  ghost function AllReferences(group: seq<Edge>): seq<Reference> {
    if group == [] then [] else AllReferences(group[..|group| - 1]) + group[|group| - 1].derivedFrom
  }

  ghost predicate AllAcceptable(lib: Lib, edges: seq<Edge>) {
    forall i :: 0 <= i < |edges| ==> Acceptable(lib, edges[i])
  }

  ghost predicate FieldsAgree(edges: seq<Edge>) {
    forall i, j :: 0 <= i < |edges| && 0 <= j < |edges| && edges[i].Of() == edges[j].Of() ==>
        SameFields(edges[i], edges[j])
  }

  /** A repeated triple carries a path that raises on the second pass. */
  ghost predicate DriveClash(lib: Lib, edges: seq<Edge>, t: Triple) {
    |Group(edges, t)| >= 2 && AnyDriveLike(lib, AllEvidence(Group(edges, t)))
  }

  /** When consolidation does not raise. */
  ghost predicate Consistent(lib: Lib, edges: seq<Edge>) {
    AllAcceptable(lib, edges) && FieldsAgree(edges) && forall t :: !DriveClash(lib, edges, t)
  }

  ghost predicate HasTriple(edges: seq<Edge>, t: Triple) {
    Group(edges, t) != []
  }

  /** The dictionary that consolidation ends with. */
  ghost predicate Consolidated(lib: Lib, edges: seq<Edge>, grouped: map<Triple, Edge>) {
    forall t ::
      && (t in grouped <==> HasTriple(edges, t))
      && (HasTriple(edges, t) ==>
            && AllUsable(lib, AllEvidence(Group(edges, t))) && AllSound(lib, AllReferences(Group(edges, t)))
            && grouped[t] == With(lib, Group(edges, t)[0], AllEvidence(Group(edges, t)),
                                  AllReferences(Group(edges, t))))
  }

  // ------------------------------------------------- lemmas for the loop

  lemma GroupAppend(edges: seq<Edge>, e: Edge, t: Triple)
    ensures Group(edges + [e], t) == Group(edges, t) + if e.Of() == t then [e] else []
  {
    assert (edges + [e])[..|edges + [e]| - 1] == edges;
  }

  lemma CollectAppend(group: seq<Edge>, e: Edge)
    ensures AllEvidence(group + [e]) == AllEvidence(group) + e.evidence
    ensures AllReferences(group + [e]) == AllReferences(group) + e.derivedFrom
  {
    assert (group + [e])[..|group + [e]| - 1] == group;
  }

  lemma {:induction false} GroupMembers(edges: seq<Edge>, t: Triple)
    ensures forall x :: x in Group(edges, t) <==> x in edges && x.Of() == t
  {
    if edges != [] {
      GroupMembers(edges[..|edges| - 1], t);
      assert edges == edges[..|edges| - 1] + [edges[|edges| - 1]];
    }
  }

  lemma NothingConsolidated(lib: Lib)
    ensures Consistent(lib, []) && Consolidated(lib, [], map[])
  {
  }

  lemma ConsolidatedAt(lib: Lib, edges: seq<Edge>, grouped: map<Triple, Edge>, t: Triple)
    requires Consolidated(lib, edges, grouped)
    ensures t in grouped <==> HasTriple(edges, t)
    ensures HasTriple(edges, t) ==>
              && AllUsable(lib, AllEvidence(Group(edges, t))) && AllSound(lib, AllReferences(Group(edges, t)))
              && grouped[t] == With(lib, Group(edges, t)[0], AllEvidence(Group(edges, t)),
                                    AllReferences(Group(edges, t)))
  {
  }

  lemma Unacceptable(lib: Lib, done: seq<Edge>, edge: Edge)
    requires !Acceptable(lib, edge)
    ensures !Consistent(lib, done + [edge])
  {
    assert (done + [edge])[|done|] == edge;
  }

  lemma FieldConflict(lib: Lib, done: seq<Edge>, edge: Edge)
    requires HasTriple(done, edge.Of()) && !SameFields(Group(done, edge.Of())[0], edge)
    ensures !Consistent(lib, done + [edge])
  {
    hide Acceptable, DriveClash;
    var first := Group(done, edge.Of())[0];
    GroupMembers(done, edge.Of());
    assert first in Group(done, edge.Of());
    var i :| 0 <= i < |done| && done[i] == first;
    var all := done + [edge];
    assert all[i] == first && all[|done|] == edge;
  }

  /** Fields keep agreeing when the new edge agrees with the first of its group. */
  lemma FieldsStillAgree(done: seq<Edge>, edge: Edge)
    requires FieldsAgree(done)
    requires HasTriple(done, edge.Of()) ==> SameFields(Group(done, edge.Of())[0], edge)
    ensures FieldsAgree(done + [edge])
  {
    var all := done + [edge];
    GroupMembers(done, edge.Of());
    forall i | 0 <= i < |done| && done[i].Of() == edge.Of() ensures SameFields(done[i], edge) {
      var group := Group(done, edge.Of());
      assert done[i] in done;
      assert done[i] in group;
      assert group[0] in group;
      var j :| 0 <= j < |done| && done[j] == group[0];
    }
    forall i, j | 0 <= i < |all| && 0 <= j < |all| && all[i].Of() == all[j].Of() ensures SameFields(all[i], all[j]) {
      assert i < |done| ==> all[i] == done[i];
      assert j < |done| ==> all[j] == done[j];
    }
  }

  /** Adding an edge touches only its own triple. */
  lemma OtherTriples(lib: Lib, done: seq<Edge>, edge: Edge)
    requires forall t :: !DriveClash(lib, done, t)
    ensures forall t :: t != edge.Of() ==> Group(done + [edge], t) == Group(done, t)
    ensures forall t :: t != edge.Of() ==> !DriveClash(lib, done + [edge], t)
  {
    hide Group, AnyDriveLike, AllEvidence;
    forall t | t != edge.Of() ensures Group(done + [edge], t) == Group(done, t) && !DriveClash(lib, done + [edge], t) {
      GroupAppend(done, edge, t);
      assert Group(done, t) + [] == Group(done, t);
      assert !DriveClash(lib, done, t);
    }
  }

  lemma AcceptableAppend(lib: Lib, done: seq<Edge>, edge: Edge)
    requires AllAcceptable(lib, done) && Acceptable(lib, edge)
    ensures AllAcceptable(lib, done + [edge])
  {
  }

  lemma NothingCollected()
    ensures AllEvidence([]) == [] && AllReferences([]) == []
  {
  }

  lemma FirstOfTriple(lib: Lib, done: seq<Edge>, grouped: map<Triple, Edge>, edge: Edge)
    requires Consistent(lib, done) && Consolidated(lib, done, grouped)
    requires Acceptable(lib, edge) && !HasTriple(done, edge.Of())
    ensures Consistent(lib, done + [edge])
    ensures Consolidated(lib, done + [edge], grouped[edge.Of() := With(lib, edge, edge.evidence, edge.derivedFrom)])
  {
    hide Group, AllEvidence, AllReferences, AnyDriveLike, AllUsable, AllSound, OrderEvidence, SortDerivedFrom,
         AllAcceptable, FieldsAgree;
    var t := edge.Of();
    AcceptableAppend(lib, done, edge);
    FieldsStillAgree(done, edge);
    OtherTriples(lib, done, edge);
    GroupAppend(done, edge, t);
    CollectAppend([], edge);
    assert Group(done + [edge], t) == [edge] && [] + [edge] == [edge];
    assert [] + edge.evidence == edge.evidence && [] + edge.derivedFrom == edge.derivedFrom;
    NothingCollected();
    assert AllEvidence([edge]) == edge.evidence && AllReferences([edge]) == edge.derivedFrom;
  }

  lemma UsableConcat(lib: Lib, es: seq<Evidence>, fs: seq<Evidence>, rs: seq<Reference>, qs: seq<Reference>)
    requires AllUsable(lib, es) && AllUsable(lib, fs) && AllSound(lib, rs) && AllSound(lib, qs)
    ensures AllUsable(lib, es + fs) && AllSound(lib, rs + qs)
  {
    hide Usable, Sound;
  }

  lemma NextOfTriple(lib: Lib, done: seq<Edge>, grouped: map<Triple, Edge>, edge: Edge)
    requires Consistent(lib, done) && Consolidated(lib, done, grouped) && Acceptable(lib, edge)
    requires HasTriple(done, edge.Of()) && SameFields(Group(done, edge.Of())[0], edge)
    ensures var g := Group(done, edge.Of());
            var es, rs := AllEvidence(g) + edge.evidence, AllReferences(g) + edge.derivedFrom;
            && AllUsable(lib, es) && AllSound(lib, rs)
            && (Consistent(lib, done + [edge]) <==> !AnyDriveLike(lib, es))
            && Consolidated(lib, done + [edge], grouped[edge.Of() := With(lib, g[0], es, rs)])
  {
    hide Group, AllEvidence, AllReferences, AnyDriveLike, AllUsable, AllSound, OrderEvidence, SortDerivedFrom,
         AllAcceptable, FieldsAgree;
    var t := edge.Of();
    var g := Group(done, t);
    ConsolidatedAt(lib, done, grouped, t);
    UsableConcat(lib, AllEvidence(g), edge.evidence, AllReferences(g), edge.derivedFrom);
    AcceptableAppend(lib, done, edge);
    FieldsStillAgree(done, edge);
    OtherTriples(lib, done, edge);
    GroupAppend(done, edge, t);
    CollectAppend(g, edge);
    assert Group(done + [edge], t) == g + [edge] && (g + [edge])[0] == g[0];
    assert DriveClash(lib, done + [edge], t) <==> AnyDriveLike(lib, AllEvidence(g) + edge.evidence);
  }

  lemma {:induction false} GroupPrefix(edges: seq<Edge>, k: nat, t: Triple)
    requires k <= |edges|
    ensures Group(edges[..k], t) <= Group(edges, t)
    decreases |edges|
  {
    if k < |edges| {
      var init := edges[..|edges| - 1];
      GroupPrefix(init, k, t);
      assert init[..k] == edges[..k];
    } else {
      assert edges[..k] == edges;
    }
  }

  lemma {:induction false} EvidencePrefix(group: seq<Edge>, k: nat)
    requires k <= |group|
    ensures AllEvidence(group[..k]) <= AllEvidence(group)
  {
    if k < |group| {
      EvidencePrefix(group[..|group| - 1], k);
      assert group[..|group| - 1][..k] == group[..k];
    } else {
      assert group[..k] == group;
    }
  }

  lemma ConsistentPrefix(lib: Lib, edges: seq<Edge>, k: nat)
    requires k <= |edges| && Consistent(lib, edges)
    ensures Consistent(lib, edges[..k])
  {
    hide Acceptable, DriveLike;
    forall t ensures !DriveClash(lib, edges[..k], t) {
      assert !DriveClash(lib, edges, t);
      var g := Group(edges, t);
      GroupPrefix(edges, k, t);
      var n := |Group(edges[..k], t)|;
      assert g[..n] == Group(edges[..k], t);
      EvidencePrefix(g, n);
    }
  }

  /** The triples in order of first appearance. */
  ghost function Triples(edges: seq<Edge>): seq<Triple> {
    if edges == [] then []
    else
      var init, t := edges[..|edges| - 1], edges[|edges| - 1].Of();
      if HasTriple(init, t) then Triples(init) else Triples(init) + [t]
  }

  // ------------------------------------------------- the loop

  /** `canonical_edge_record` */
  method CanonicalEdge(lib: Lib, e: Edge) returns (r: Option<Edge>)
    ensures r.Some? <==> Acceptable(lib, e)
    ensures r.Some? ==> r.value == With(lib, e, e.evidence, e.derivedFrom)
  {
    hide Ordered, AllUsable, AllSound;
    var es := OrderEvidenceRecords(lib, e.evidence);
    var rs := SortReferences(lib, e.derivedFrom);
    if es.None? || rs.None? {
      return None;
    }
    return Some(e.(evidence := es.value, derivedFrom := rs.value));
  }

  /** The body of the loop for one edge. */
  method Absorb(lib: Lib, ghost done: seq<Edge>, grouped: map<Triple, Edge>, edge: Edge)
    returns (r: Option<map<Triple, Edge>>)
    requires Laws(lib) && Consistent(lib, done) && Consolidated(lib, done, grouped)
    ensures r.Some? <==> Consistent(lib, done + [edge])
    ensures r.Some? ==> Consolidated(lib, done + [edge], r.value)
  {
    hide Ordered, AllUsable, AllSound, AnyDriveLike, Laws, Consistent, Consolidated, DriveClash;
    var record := CanonicalEdge(lib, edge);
    if record.None? {
      Unacceptable(lib, done, edge);
      return None;
    }
    var triple := edge.Of();
    ConsolidatedAt(lib, done, grouped, triple);
    if triple !in grouped {
      FirstOfTriple(lib, done, grouped, edge);
      return Some(grouped[triple := record.value]);
    }
    var existing := grouped[triple];
    if !SameFields(existing, record.value) {
      FieldConflict(lib, done, edge);
      return None;
    }
    ghost var group := Group(done, triple);
    MergeEvidence(lib, AllEvidence(group), edge.evidence);
    LawsIdempotent(lib);
    MergeDerivedFrom(lib, AllReferences(group), edge.derivedFrom);
    var es := OrderEvidenceRecords(lib, existing.evidence + record.value.evidence);
    var rs := SortReferences(lib, existing.derivedFrom + record.value.derivedFrom);
    NextOfTriple(lib, done, grouped, edge);
    if es.None? || rs.None? {
      return None;
    }
    return Some(grouped[triple := existing.(evidence := es.value, derivedFrom := rs.value)]);
  }

  /** `_consolidate_edges`: the dictionary, and its keys in insertion order. */
  method ConsolidateEdges(lib: Lib, edges: seq<Edge>) returns (r: Option<map<Triple, Edge>>, order: seq<Triple>)
    requires Laws(lib)
    ensures r.Some? <==> Consistent(lib, edges)
    ensures r.Some? ==> Consolidated(lib, edges, r.value) && order == Triples(edges)
  {
    hide Laws, Consistent, Consolidated, Group;
    var grouped: map<Triple, Edge> := map[];
    order := [];
    NothingConsolidated(lib);
    assert edges[..0] == [];
    for k := 0 to |edges|
      invariant Consistent(lib, edges[..k]) && Consolidated(lib, edges[..k], grouped)
      invariant order == Triples(edges[..k])
    {
      var triple := edges[k].Of();
      ConsolidatedAt(lib, edges[..k], grouped, triple);
      assert edges[..k + 1][..k] == edges[..k];
      if triple !in grouped {
        order := order + [triple];
      }
      var next := Absorb(lib, edges[..k], grouped, edges[k]);
      assert edges[..k] + [edges[k]] == edges[..k + 1];
      if next.None? {
        if Consistent(lib, edges) { ConsistentPrefix(lib, edges, k + 1); }
        return None, order;
      }
      grouped := next.value;
    }
    assert edges[..|edges|] == edges;
    return Some(grouped), order;
  }
}
