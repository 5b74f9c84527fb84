/**
 `_impact_direction`: the layered breadth-first search over stored edges, with one
 canonical edge per reached node and a cap on results.
 */
module Impact {
  import opened Order

  /** A stored edge row of one snapshot; `id` is its primary key. */
  datatype Edge = Edge(subjectKey: Text, relation: Text, objectKey: Text, edgeId: Text, id: int)

  datatype Step = Step(depth: nat, nodeKey: Text, edge: Edge)

  const MAX_RESULTS: nat := 100

  predicate Followed(e: Edge) {
    e.relation == T("depends_on") || e.relation == T("imports")
  }

  /** Where a traversal comes from and goes to along an edge. */
  function Near(outbound: bool, e: Edge): Text { if outbound then e.subjectKey else e.objectKey }

  function Far(outbound: bool, e: Edge): Text { if outbound then e.objectKey else e.subjectKey }

  /** The `order_by` of the query. */
  function EdgeRank(e: Edge): Key {
    [Txt(e.subjectKey), Txt(e.relation), Txt(e.objectKey), Txt(e.edgeId), Num(e.id)]
  }

  ghost predicate PrimaryKeys(edges: seq<Edge>) {
    forall i, j :: 0 <= i < j < |edges| ==> edges[i].id != edges[j].id
  }

  // ------------------------------------------------- the query

  /** The `where` clause. */
  predicate Matches(outbound: bool, frontier: set<Text>, visited: set<Text>, e: Edge) {
    Followed(e) && Near(outbound, e) in frontier && Far(outbound, e) !in visited
  }

  function Select(edges: seq<Edge>, outbound: bool, frontier: set<Text>, visited: set<Text>): seq<Edge> {
    if edges == [] then []
    else
      var last := edges[|edges| - 1];
      var here := if Matches(outbound, frontier, visited, last) then [last] else [];
      Select(edges[..|edges| - 1], outbound, frontier, visited) + here
  }

  /** Rank 1 in the partition of its adjacent node. */
  predicate Canonical(s: seq<Edge>, outbound: bool, e: Edge) {
    forall i :: 0 <= i < |s| && Far(outbound, s[i]) == Far(outbound, e) ==> KeyLe(EdgeRank(e), EdgeRank(s[i]))
  }

  function KeepCanonical(s: seq<Edge>, all: seq<Edge>, outbound: bool): seq<Edge> {
    if s == [] then []
    else
      var last := s[|s| - 1];
      KeepCanonical(s[..|s| - 1], all, outbound) + if Canonical(all, outbound, last) then [last] else []
  }

  /** The rows of the ranked query, before its `limit`. */
  function Query(edges: seq<Edge>, outbound: bool, frontier: set<Text>, visited: set<Text>): seq<Edge> {
    var s := Select(edges, outbound, frontier, visited);
    Sort(KeepCanonical(s, s, outbound), EdgeRank)
  }

  lemma {:induction false} SelectMembers(edges: seq<Edge>, outbound: bool, frontier: set<Text>, visited: set<Text>)
    ensures forall e :: e in Select(edges, outbound, frontier, visited) <==>
            e in edges && Matches(outbound, frontier, visited, e)
    ensures PrimaryKeys(edges) ==> PrimaryKeys(Select(edges, outbound, frontier, visited))
  {
    hide Matches;
    if edges != [] {
      var init := edges[..|edges| - 1];
      SelectMembers(init, outbound, frontier, visited);
      assert edges == init + [edges[|edges| - 1]];
      if PrimaryKeys(edges) { PrimaryKeyAppend(Select(init, outbound, frontier, visited), init, edges[|edges| - 1]); }
    }
  }

  lemma PrimaryKeyAppend(s: seq<Edge>, init: seq<Edge>, last: Edge)
    requires PrimaryKeys(init + [last]) && PrimaryKeys(s) && forall e :: e in s ==> e in init
    ensures PrimaryKeys(s + [last]) && PrimaryKeys(init)
  {
    var all, t := init + [last], s + [last];
    assert forall i :: 0 <= i < |init| ==> all[i] == init[i];
    forall i | 0 <= i < |s| ensures s[i].id != last.id {
      assert s[i] in init;
      var j :| 0 <= j < |init| && init[j] == s[i];
      assert all[j].id != all[|init|].id;
    }
  }

  lemma {:induction false} KeepMembers(s: seq<Edge>, all: seq<Edge>, outbound: bool)
    ensures forall e :: e in KeepCanonical(s, all, outbound) <==> e in s && Canonical(all, outbound, e)
    ensures PrimaryKeys(s) ==> PrimaryKeys(KeepCanonical(s, all, outbound))
  {
    hide Canonical;
    if s != [] {
      var init := s[..|s| - 1];
      KeepMembers(init, all, outbound);
      assert s == init + [s[|s| - 1]];
      if PrimaryKeys(s) { PrimaryKeyAppend(KeepCanonical(init, all, outbound), init, s[|s| - 1]); }
    }
  }

  /** The canonical edge into `n`: the least one the query selects. */
  ghost predicate Chosen(edges: seq<Edge>, outbound: bool, frontier: set<Text>, visited: set<Text>, e: Edge) {
    && e in edges && Matches(outbound, frontier, visited, e)
    && forall f :: f in edges && Matches(outbound, frontier, visited, f) && Far(outbound, f) == Far(outbound, e)
                   ==> KeyLe(EdgeRank(e), EdgeRank(f))
  }

  /** The query returns exactly the chosen edges, in canonical order. */
  lemma QueryIsChosen(edges: seq<Edge>, outbound: bool, frontier: set<Text>, visited: set<Text>)
    requires PrimaryKeys(edges)
    ensures forall e :: e in Query(edges, outbound, frontier, visited) <==>
            Chosen(edges, outbound, frontier, visited, e)
    ensures StrictlySortedBy(Query(edges, outbound, frontier, visited), EdgeRank)
  {
    hide Matches, EdgeRank, Far;
    var s := Select(edges, outbound, frontier, visited);
    var k := KeepCanonical(s, s, outbound);
    SelectMembers(edges, outbound, frontier, visited);
    KeepMembers(s, s, outbound);
    forall e
      ensures e in Query(edges, outbound, frontier, visited) <==> Chosen(edges, outbound, frontier, visited, e)
    {
      SortMembers(k, EdgeRank, e);
      CanonicalIsLeast(s, outbound, e);
    }
    RanksDistinct(k);
    SortStrict(k, EdgeRank);
  }

  lemma CanonicalIsLeast(s: seq<Edge>, outbound: bool, e: Edge)
    ensures Canonical(s, outbound, e) <==>
            forall f :: f in s && Far(outbound, f) == Far(outbound, e) ==> KeyLe(EdgeRank(e), EdgeRank(f))
  {
    hide EdgeRank, Far, KeyLe;
    if Canonical(s, outbound, e) {
      forall f | f in s && Far(outbound, f) == Far(outbound, e) ensures KeyLe(EdgeRank(e), EdgeRank(f)) {
        var i :| 0 <= i < |s| && s[i] == f;
      }
    }
  }

  lemma RanksDistinct(s: seq<Edge>)
    requires PrimaryKeys(s)
    ensures DistinctKeys(s, EdgeRank)
  {
    forall i, j | 0 <= i < j < |s| ensures EdgeRank(s[i]) != EdgeRank(s[j]) {
      assert EdgeRank(s[i])[4] != EdgeRank(s[j])[4];
    }
  }

  lemma EqualRanks(e: Edge, f: Edge)
    requires EdgeRank(e) == EdgeRank(f)
    ensures e == f
  {
    var p, q := EdgeRank(e), EdgeRank(f);
    assert p[0] == q[0] && p[1] == q[1] && p[2] == q[2] && p[3] == q[3] && p[4] == q[4];
  }

  /** One chosen edge per adjacent node. */
  lemma ChosenUnique(edges: seq<Edge>, outbound: bool, frontier: set<Text>, visited: set<Text>, e: Edge, f: Edge)
    requires Chosen(edges, outbound, frontier, visited, e) && Chosen(edges, outbound, frontier, visited, f)
    requires Far(outbound, e) == Far(outbound, f)
    ensures e == f
  {
    hide Matches, EdgeRank, Far;
    KeyLtTotal(EdgeRank(e), EdgeRank(f));
    EqualRanks(e, f);
  }

  /** Every selected node has a chosen edge. */
  lemma {:induction false} ChosenExists(edges: seq<Edge>, outbound: bool, frontier: set<Text>, visited: set<Text>,
                                        n: Text)
    returns (e: Edge)
    requires exists f :: f in edges && Matches(outbound, frontier, visited, f) && Far(outbound, f) == n
    ensures Chosen(edges, outbound, frontier, visited, e) && Far(outbound, e) == n
    decreases |edges|
  {
    hide Matches, EdgeRank, Far;
    var last, init := edges[|edges| - 1], edges[..|edges| - 1];
    assert edges == init + [last];
    var hit := Matches(outbound, frontier, visited, last) && Far(outbound, last) == n;
    if exists f :: f in init && Matches(outbound, frontier, visited, f) && Far(outbound, f) == n {
      e := ChosenExists(init, outbound, frontier, visited, n);
      if hit && KeyLt(EdgeRank(last), EdgeRank(e)) {
        forall f | f in edges && Matches(outbound, frontier, visited, f) && Far(outbound, f) == n
          ensures KeyLe(EdgeRank(last), EdgeRank(f))
        {
          KeyLtTotal(EdgeRank(last), EdgeRank(e));
          KeyLtTotal(EdgeRank(last), EdgeRank(f));
          if f in init { KeyLeTransitive(EdgeRank(last), EdgeRank(e), EdgeRank(f)); }
        }
        e := last;
      }
    } else {
      e := last;
      KeyLtTotal(EdgeRank(last), EdgeRank(last));
    }
  }
}
