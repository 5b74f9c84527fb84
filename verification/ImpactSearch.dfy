/** Impact search is exact. */
module ImpactSearch {
  // Its distances, its cap, and what a larger depth adds.

  import opened Order
  import opened Impact

  // ------------------------------------------------- distances

  /** Nodes one followed edge away from a set. */
  ghost function Next(edges: seq<Edge>, outbound: bool, s: set<Text>): set<Text> {
    set e | e in edges && Followed(e) && Near(outbound, e) in s :: Far(outbound, e)
  }

  /** Nodes within `k` followed edges of the start. */
  ghost function Ball(edges: seq<Edge>, outbound: bool, start: Text, k: nat): set<Text> {
    if k == 0 then {start}
    else Ball(edges, outbound, start, k - 1) + Next(edges, outbound, Ball(edges, outbound, start, k - 1))
  }

  /** Nodes at distance exactly `k`. */
  ghost function Ring(edges: seq<Edge>, outbound: bool, start: Text, k: nat): set<Text> {
    if k == 0 then {start} else Ball(edges, outbound, start, k) - Ball(edges, outbound, start, k - 1)
  }

  /** The edge takes an outbound search from `a` to `b`, or an inbound search from `a` back to `b`. */
  predicate Leads(outbound: bool, e: Edge, a: Text, b: Text) {
    && (e.relation == T("depends_on") || e.relation == T("imports"))
    && if outbound then e.subjectKey == a && e.objectKey == b else e.subjectKey == b && e.objectKey == a
  }

  ghost predicate Linked(edges: seq<Edge>, outbound: bool, a: Text, b: Text) {
    exists e :: e in edges && Leads(outbound, e, a, b)
  }

  lemma LeadsFollowed(outbound: bool, e: Edge, a: Text, b: Text)
    ensures Leads(outbound, e, a, b) <==> Followed(e) && Near(outbound, e) == a && Far(outbound, e) == b
  {
    hide T;
  }

  /** A walk along followed edges; its length is one less than its nodes. */
  ghost predicate Walk(edges: seq<Edge>, outbound: bool, p: seq<Text>, a: Text, b: Text) {
    && p != [] && p[0] == a && p[|p| - 1] == b
    && forall i :: 0 <= i < |p| - 1 ==> Linked(edges, outbound, p[i], p[i + 1])
  }

  lemma {:induction false} BallGrows(edges: seq<Edge>, outbound: bool, start: Text, k: nat, l: nat)
    requires k <= l
    ensures Ball(edges, outbound, start, k) <= Ball(edges, outbound, start, l)
    decreases l
  {
    if k < l {
      BallGrows(edges, outbound, start, k, l - 1);
    }
  }

  lemma {:induction false} WalkInBall(edges: seq<Edge>, outbound: bool, start: Text, p: seq<Text>, n: Text)
    requires Walk(edges, outbound, p, start, n)
    ensures n in Ball(edges, outbound, start, |p| - 1)
    decreases |p|
  {
    hide Linked;
    if |p| > 1 {
      var q := p[..|p| - 1];
      WalkInBall(edges, outbound, start, q, q[|q| - 1]);
      LinkedNext(edges, outbound, Ball(edges, outbound, start, |q| - 1), q[|q| - 1], n);
    }
  }

  lemma LinkedNext(edges: seq<Edge>, outbound: bool, s: set<Text>, a: Text, b: Text)
    requires Linked(edges, outbound, a, b) && a in s
    ensures b in Next(edges, outbound, s)
  {
    hide Leads, Followed, Near, Far;
    var e :| e in edges && Leads(outbound, e, a, b);
    LeadsFollowed(outbound, e, a, b);
  }

  lemma WalkAppend(edges: seq<Edge>, outbound: bool, p: seq<Text>, a: Text, b: Text, c: Text)
    requires Walk(edges, outbound, p, a, b) && Linked(edges, outbound, b, c)
    ensures Walk(edges, outbound, p + [c], a, c)
  {
    hide Linked;
    var q := p + [c];
    forall i | 0 <= i < |q| - 1 ensures Linked(edges, outbound, q[i], q[i + 1]) {
      if i < |p| - 1 {
        assert q[i] == p[i] && q[i + 1] == p[i + 1];
      }
    }
  }

  lemma {:induction false} BallHasWalk(edges: seq<Edge>, outbound: bool, start: Text, n: Text, k: nat)
    returns (p: seq<Text>)
    requires n in Ball(edges, outbound, start, k)
    ensures Walk(edges, outbound, p, start, n) && |p| - 1 <= k
    decreases k
  {
    hide Walk, Leads, Followed, Near, Far;
    if k == 0 {
      p := [start];
      assert Walk(edges, outbound, p, start, n) by { TrivialWalk(edges, outbound, start); }
    } else if n in Ball(edges, outbound, start, k - 1) {
      p := BallHasWalk(edges, outbound, start, n, k - 1);
    } else {
      var e :| && e in edges && Followed(e) && Near(outbound, e) in Ball(edges, outbound, start, k - 1)
               && Far(outbound, e) == n;
      LeadsFollowed(outbound, e, Near(outbound, e), n);
      var q := BallHasWalk(edges, outbound, start, Near(outbound, e), k - 1);
      WalkAppend(edges, outbound, q, start, Near(outbound, e), n);
      p := q + [n];
    }
  }

  lemma TrivialWalk(edges: seq<Edge>, outbound: bool, a: Text)
    ensures Walk(edges, outbound, [a], a, a)
  {
  }

  /** A ring is a set of true shortest distances. */
  lemma RingIsDistance(edges: seq<Edge>, outbound: bool, start: Text, n: Text, k: nat)
    ensures n in Ring(edges, outbound, start, k) <==>
            && (exists p :: Walk(edges, outbound, p, start, n) && |p| - 1 == k)
            && (forall p :: Walk(edges, outbound, p, start, n) ==> |p| - 1 >= k)
  {
    hide Walk, Next, Linked;
    forall p | Walk(edges, outbound, p, start, n) ensures p != [] && n in Ball(edges, outbound, start, |p| - 1) {
      NonEmptyWalk(edges, outbound, p, start, n);
      WalkInBall(edges, outbound, start, p, n);
    }
    if n in Ring(edges, outbound, start, k) {
      forall p | Walk(edges, outbound, p, start, n) ensures |p| - 1 >= k {
        if |p| - 1 < k { BallGrows(edges, outbound, start, |p| - 1, k - 1); }
      }
      var p := BallHasWalk(edges, outbound, start, n, k);
    } else if p :| Walk(edges, outbound, p, start, n) && |p| - 1 == k {
      if k > 0 && n in Ball(edges, outbound, start, k - 1) {
        var q := BallHasWalk(edges, outbound, start, n, k - 1);
      }
    }
  }

  lemma NonEmptyWalk(edges: seq<Edge>, outbound: bool, p: seq<Text>, a: Text, b: Text)
    requires Walk(edges, outbound, p, a, b)
    ensures p != []
  {
  }

  lemma InnerStays(edges: seq<Edge>, outbound: bool, start: Text, k: nat, e: Edge)
    requires k > 0 && e in edges && Followed(e) && Near(outbound, e) in Ball(edges, outbound, start, k - 1)
    ensures Far(outbound, e) in Ball(edges, outbound, start, k)
  {
  }

  /** The query from one ring reaches exactly the next. */
  lemma QueryReachesRing(edges: seq<Edge>, outbound: bool, start: Text, k: nat, n: Text)
    ensures n in Ring(edges, outbound, start, k + 1) <==>
            exists e :: && e in edges && Far(outbound, e) == n
                        && Matches(outbound, Ring(edges, outbound, start, k), Ball(edges, outbound, start, k), e)
  {
    var ball, ring := Ball(edges, outbound, start, k), Ring(edges, outbound, start, k);
    if n in Ring(edges, outbound, start, k + 1) {
      var e :| e in edges && Followed(e) && Near(outbound, e) in ball && Far(outbound, e) == n;
      if k > 0 && Near(outbound, e) in Ball(edges, outbound, start, k - 1) {
        InnerStays(edges, outbound, start, k, e);
      }
      assert Matches(outbound, ring, ball, e);
    }
    if e :| e in edges && Matches(outbound, ring, ball, e) && Far(outbound, e) == n {
      assert Near(outbound, e) in ball;
      assert n in Next(edges, outbound, ball);
    }
  }

  // ------------------------------------------------- the full step list

  ghost function Level(edges: seq<Edge>, outbound: bool, start: Text, k: nat): seq<Step>
    requires k >= 1
  {
    var q := Query(edges, outbound, Ring(edges, outbound, start, k - 1), Ball(edges, outbound, start, k - 1));
    seq(|q|, i requires 0 <= i < |q| => Step(k, Far(outbound, q[i]), q[i]))
  }

  /** Every step within `k`, in order, without a cap. */
  ghost function Full(edges: seq<Edge>, outbound: bool, start: Text, k: nat): seq<Step> {
    if k == 0 then [] else Full(edges, outbound, start, k - 1) + Level(edges, outbound, start, k)
  }

  ghost function Nodes(s: seq<Step>): seq<Text> {
    seq(|s|, i requires 0 <= i < |s| => s[i].nodeKey)
  }

  /** A level names every node of its ring once, by its canonical edge. */
  lemma LevelIsRing(edges: seq<Edge>, outbound: bool, start: Text, k: nat)
    requires PrimaryKeys(edges) && k >= 1
    ensures var l := Level(edges, outbound, start, k);
            && Distinct(Nodes(l)) && (forall n :: n in Nodes(l) <==> n in Ring(edges, outbound, start, k))
            && forall i :: 0 <= i < |l| ==>
                 && l[i].depth == k && l[i].nodeKey == Far(outbound, l[i].edge)
                 && Chosen(edges, outbound, Ring(edges, outbound, start, k - 1), Ball(edges, outbound, start, k - 1),
                           l[i].edge)
  {
    hide Query, Chosen, Ring, Ball, EdgeRank, Far, Matches;
    var ring, ball := Ring(edges, outbound, start, k - 1), Ball(edges, outbound, start, k - 1);
    var q := Query(edges, outbound, ring, ball);
    var l := Level(edges, outbound, start, k);
    QueryIsChosen(edges, outbound, ring, ball);
    forall i, j | 0 <= i < j < |q| ensures Far(outbound, q[i]) != Far(outbound, q[j]) {
      if Far(outbound, q[i]) == Far(outbound, q[j]) {
        assert q[i] in q && q[j] in q;
        ChosenUnique(edges, outbound, ring, ball, q[i], q[j]);
        KeyLtTotal(EdgeRank(q[i]), EdgeRank(q[j]));
      }
    }
    forall n ensures n in Nodes(l) <==> n in Ring(edges, outbound, start, k) {
      QueryReachesRing(edges, outbound, start, k - 1, n);
      if n in Nodes(l) {
        var i :| 0 <= i < |q| && Far(outbound, q[i]) == n;
        assert q[i] in q;
        ChosenMatches(edges, outbound, ring, ball, q[i]);
      }
      if n in Ring(edges, outbound, start, k) {
        var e := ChosenExists(edges, outbound, ring, ball, n);
        var i :| 0 <= i < |q| && q[i] == e;
        assert Nodes(l)[i] == n;
      }
    }
    forall i | 0 <= i < |l| ensures Chosen(edges, outbound, ring, ball, l[i].edge) {
      assert q[i] in q;
    }
  }

  lemma ChosenMatches(edges: seq<Edge>, outbound: bool, frontier: set<Text>, visited: set<Text>, e: Edge)
    requires Chosen(edges, outbound, frontier, visited, e)
    ensures e in edges && Matches(outbound, frontier, visited, e)
  {
  }

  lemma NodesConcat(g: seq<Step>, l: seq<Step>, inner: set<Text>, ring: set<Text>, start: Text)
    requires Distinct(Nodes(g)) && Distinct(Nodes(l)) && start in inner && inner !! ring
    requires (forall n :: n in Nodes(g) <==> n in inner && n != start) && (forall n :: n in Nodes(l) <==> n in ring)
    ensures Distinct(Nodes(g + l)) && forall n :: n in Nodes(g + l) <==> n in inner + ring && n != start
  {
    var a, b := Nodes(g), Nodes(l);
    assert Nodes(g + l) == a + b;
    forall i, j | 0 <= i < |a| && 0 <= j < |b| ensures a[i] != b[j] {
      assert a[i] in a && b[j] in b;
    }
  }

  lemma {:induction false} FullMembers(edges: seq<Edge>, outbound: bool, start: Text, k: nat)
    requires PrimaryKeys(edges)
    ensures var f := Full(edges, outbound, start, k);
            && Distinct(Nodes(f))
            && forall n :: n in Nodes(f) <==> n in Ball(edges, outbound, start, k) && n != start
  {
    hide Level, Next, Chosen, Distinct, Nodes;
    if k == 0 {
      NoSteps();
    } else {
      FullMembers(edges, outbound, start, k - 1);
      LevelIsRing(edges, outbound, start, k);
      BallGrows(edges, outbound, start, 0, k - 1);
      RingCompletes(edges, outbound, start, k);
      NodesConcat(Full(edges, outbound, start, k - 1), Level(edges, outbound, start, k),
                  Ball(edges, outbound, start, k - 1), Ring(edges, outbound, start, k), start);
    }
  }

  lemma NoSteps()
    ensures Distinct(Nodes([])) && Nodes([]) == []
  {
  }

  /** The uncapped list names every node within the depth once, except the start. */
  lemma FullIsBall(edges: seq<Edge>, outbound: bool, start: Text, k: nat)
    requires PrimaryKeys(edges)
    ensures var f := Full(edges, outbound, start, k);
            && Distinct(Nodes(f))
            && (forall n :: n in Nodes(f) <==> n in Ball(edges, outbound, start, k) && n != start)
            && |f| == |Ball(edges, outbound, start, k) - {start}|
  {
    hide Full, Ball;
    var f := Full(edges, outbound, start, k);
    FullMembers(edges, outbound, start, k);
    DistinctSize(Nodes(f));
    assert (set n | n in Nodes(f)) == Ball(edges, outbound, start, k) - {start};
  }

  /** A deeper search only appends. */
  lemma {:induction false} FullExtends(edges: seq<Edge>, outbound: bool, start: Text, k: nat, l: nat)
    requires k <= l
    ensures Full(edges, outbound, start, k) <= Full(edges, outbound, start, l)
    decreases l
  {
    hide Level;
    if k < l {
      FullExtends(edges, outbound, start, k, l - 1);
    }
  }

  /** Once a ring is empty nothing further is reached. */
  lemma {:induction false} EmptyRingEnds(edges: seq<Edge>, outbound: bool, start: Text, k: nat, l: nat)
    requires PrimaryKeys(edges) && k <= l && Ring(edges, outbound, start, k) == {}
    ensures Full(edges, outbound, start, l) == Full(edges, outbound, start, k) && Ring(edges, outbound, start, l) == {}
    decreases l
  {
    hide Level, Ball;
    if k < l {
      EmptyRingEnds(edges, outbound, start, k, l - 1);
      forall n ensures n !in Ring(edges, outbound, start, l) {
        QueryReachesRing(edges, outbound, start, l - 1, n);
        NothingMatches(edges, outbound, Ball(edges, outbound, start, l - 1), n);
      }
      LevelIsRing(edges, outbound, start, l);
      if Level(edges, outbound, start, l) != [] { StepHasNode(Level(edges, outbound, start, l)); }
    }
  }

  lemma StepHasNode(level: seq<Step>)
    requires level != []
    ensures level[0].nodeKey in Nodes(level)
  {
    assert Nodes(level)[0] == level[0].nodeKey;
  }

  lemma NothingMatches(edges: seq<Edge>, outbound: bool, visited: set<Text>, n: Text)
    ensures !exists e :: e in edges && Matches(outbound, {}, visited, e) && Far(outbound, e) == n
  {
  }

  // ------------------------------------------------- the search

  function Take(s: seq<Step>, n: nat): seq<Step> {
    if |s| <= n then s else s[..n]
  }

  /** `_impact_direction` */
  method ImpactDirection(edges: seq<Edge>, nodeKey: Text, depth: nat, outbound: bool)
    returns (steps: seq<Step>, limitReached: bool)
    requires PrimaryKeys(edges)
    ensures steps == Take(Full(edges, outbound, nodeKey, depth), MAX_RESULTS)
    ensures limitReached <==> |Full(edges, outbound, nodeKey, depth)| > MAX_RESULTS
  {
    hide Query, Level, Next, Ball, Ring, Full;
    var frontier, visited := {nodeKey}, {nodeKey};
    steps := [];
    SearchStart(edges, outbound, nodeKey);
    for distance := 1 to depth + 1
      invariant visited == Ball(edges, outbound, nodeKey, distance - 1)
      invariant frontier == Ring(edges, outbound, nodeKey, distance - 1)
      invariant steps == Full(edges, outbound, nodeKey, distance - 1) && |steps| <= MAX_RESULTS
    {
      if frontier == {} {
        EmptyRingEnds(edges, outbound, nodeKey, distance - 1, depth);
        return steps, false;
      }
      var rows := Query(edges, outbound, frontier, visited);
      if |rows| > MAX_RESULTS + 1 {
        rows := rows[..MAX_RESULTS + 1];
      }
      ghost var before, level := steps, Level(edges, outbound, nodeKey, distance);
      LevelRows(edges, outbound, nodeKey, distance);
      FullStep(edges, outbound, nodeKey, distance);
      FullExtends(edges, outbound, nodeKey, distance, depth);
      var nextFrontier: set<Text> := {};
      for i := 0 to |rows|
        invariant steps == before + level[..i] && |steps| <= MAX_RESULTS
        invariant nextFrontier == (set j | 0 <= j < i :: level[j].nodeKey)
        invariant visited == Ball(edges, outbound, nodeKey, distance - 1) + nextFrontier
      {
        var adjacent := Far(outbound, rows[i]);
        if |steps| >= MAX_RESULTS {
          return steps, true;
        }
        visited := visited + {adjacent};
        nextFrontier := nextFrontier + {adjacent};
        steps := steps + [Step(distance, adjacent, rows[i])];
      }
      frontier := nextFrontier;
      LevelIsRing(edges, outbound, nodeKey, distance);
      LevelNodes(level, nextFrontier, Ring(edges, outbound, nodeKey, distance));
      RingCompletes(edges, outbound, nodeKey, distance);
    }
    limitReached := false;
  }

  lemma SearchStart(edges: seq<Edge>, outbound: bool, start: Text)
    ensures Ball(edges, outbound, start, 0) == {start} && Ring(edges, outbound, start, 0) == {start}
    ensures Full(edges, outbound, start, 0) == []
  {
  }

  lemma FullStep(edges: seq<Edge>, outbound: bool, start: Text, k: nat)
    requires k >= 1
    ensures Full(edges, outbound, start, k) == Full(edges, outbound, start, k - 1) + Level(edges, outbound, start, k)
  {
  }

  lemma LevelRows(edges: seq<Edge>, outbound: bool, start: Text, k: nat)
    requires k >= 1
    ensures var q := Query(edges, outbound, Ring(edges, outbound, start, k - 1), Ball(edges, outbound, start, k - 1));
            |q| == |Level(edges, outbound, start, k)|
            && forall i :: 0 <= i < |q| ==> Level(edges, outbound, start, k)[i] == Step(k, Far(outbound, q[i]), q[i])
  {
  }

  lemma LevelNodes(level: seq<Step>, nodes: set<Text>, ring: set<Text>)
    requires nodes == (set j | 0 <= j < |level| :: level[j].nodeKey) && forall n :: n in Nodes(level) <==> n in ring
    ensures nodes == ring
  {
    forall n ensures n in nodes <==> n in ring {
      if n in nodes { var j :| 0 <= j < |level| && level[j].nodeKey == n; assert Nodes(level)[j] == n; }
      if n in ring { var j :| 0 <= j < |level| && Nodes(level)[j] == n; assert level[j].nodeKey == n; }
    }
  }

  lemma RingCompletes(edges: seq<Edge>, outbound: bool, start: Text, k: nat)
    requires k >= 1
    ensures Ball(edges, outbound, start, k - 1) + Ring(edges, outbound, start, k) == Ball(edges, outbound, start, k)
  {
  }

  // ------------------------------------------------- what the answer means

  /** The node is `k` followed edges away from the start and no nearer. */
  ghost predicate AtDistance(edges: seq<Edge>, outbound: bool, start: Text, n: Text, k: nat) {
    && (exists p :: Walk(edges, outbound, p, start, n) && |p| - 1 == k)
    && (forall p :: Walk(edges, outbound, p, start, n) ==> |p| - 1 >= k)
  }

  /** The edge leads to the node from one that is `k` away from the start. */
  ghost predicate Enters(edges: seq<Edge>, outbound: bool, start: Text, k: nat, e: Edge, n: Text) {
    && e in edges && Leads(outbound, e, if outbound then e.subjectKey else e.objectKey, n)
    && AtDistance(edges, outbound, start, if outbound then e.subjectKey else e.objectKey, k)
  }

  /** The canonical order of edges: by subject, relation, object, identifier and row. */
  predicate EdgeBefore(e: Edge, f: Edge) {
    if e.subjectKey != f.subjectKey then TextLt(e.subjectKey, f.subjectKey)
    else if e.relation != f.relation then TextLt(e.relation, f.relation)
    else if e.objectKey != f.objectKey then TextLt(e.objectKey, f.objectKey)
    else if e.edgeId != f.edgeId then TextLt(e.edgeId, f.edgeId)
    else e.id < f.id
  }

  lemma RankOrder(e: Edge, f: Edge)
    requires e != f
    ensures KeyLt(EdgeRank(e), EdgeRank(f)) <==> EdgeBefore(e, f)
  {
    hide TextLt, KeyLt;
    var k, l := EdgeRank(e), EdgeRank(f);
    var n := if e.subjectKey != f.subjectKey then 0 else if e.relation != f.relation then 1
             else if e.objectKey != f.objectKey then 2 else if e.edgeId != f.edgeId then 3 else 4;
    KeyLtTotal(k, l);
    AtomLtTotal(k[n], l[n]);
    if KeyLt(k, l) { FirstDifference(k, l, n); }
    if KeyLt(l, k) { FirstDifference(l, k, n); }
  }

  /**
   A step is right: its depth is the true shortest distance of its node, and its edge is
   the first in canonical order that leads there from a node one nearer.
   */
  ghost predicate StepExact(edges: seq<Edge>, outbound: bool, start: Text, s: Step) {
    && s.depth >= 1 && s.nodeKey != start && AtDistance(edges, outbound, start, s.nodeKey, s.depth)
    && Enters(edges, outbound, start, s.depth - 1, s.edge, s.nodeKey)
    && forall f :: Enters(edges, outbound, start, s.depth - 1, f, s.nodeKey) ==> f == s.edge || EdgeBefore(s.edge, f)
  }

  lemma EntersMatches(edges: seq<Edge>, outbound: bool, start: Text, k: nat, e: Edge, n: Text)
    requires n !in Ball(edges, outbound, start, k)
    ensures Enters(edges, outbound, start, k, e, n) <==>
            && e in edges && Matches(outbound, Ring(edges, outbound, start, k), Ball(edges, outbound, start, k), e)
            && Far(outbound, e) == n
  {
    hide Walk, Ball, Ring, Leads, Followed;
    LeadsFollowed(outbound, e, Near(outbound, e), n);
    RingIsDistance(edges, outbound, start, Near(outbound, e), k);
  }

  lemma {:induction false} FullExact(edges: seq<Edge>, outbound: bool, start: Text, k: nat, i: nat)
    requires PrimaryKeys(edges) && i < |Full(edges, outbound, start, k)|
    ensures StepExact(edges, outbound, start, Full(edges, outbound, start, k)[i])
    ensures Full(edges, outbound, start, k)[i].depth <= k
  {
    hide Level, Chosen, Walk, Ball, Ring, StepExact;
    var g, l := Full(edges, outbound, start, k - 1), Level(edges, outbound, start, k);
    if i < |g| {
      FullExact(edges, outbound, start, k - 1, i);
    } else {
      var s := l[i - |g|];
      LevelIsRing(edges, outbound, start, k);
      assert Nodes(l)[i - |g|] == s.nodeKey && s.nodeKey in Nodes(l);
      FullMembers(edges, outbound, start, k);
      assert Nodes(g + l)[i] == s.nodeKey && s.nodeKey in Nodes(g + l);
      ExactFromRing(edges, outbound, start, s);
    }
  }

  lemma ExactFromRing(edges: seq<Edge>, outbound: bool, start: Text, s: Step)
    requires s.depth >= 1 && s.nodeKey in Ring(edges, outbound, start, s.depth) && s.nodeKey != start
    requires s.nodeKey == Far(outbound, s.edge)
    requires Chosen(edges, outbound, Ring(edges, outbound, start, s.depth - 1),
                    Ball(edges, outbound, start, s.depth - 1), s.edge)
    ensures StepExact(edges, outbound, start, s)
  {
    hide Walk, Ball, Far, Enters, Matches, EdgeRank, EdgeBefore;
    RingIsDistance(edges, outbound, start, s.nodeKey, s.depth);
    EntersMatches(edges, outbound, start, s.depth - 1, s.edge, s.nodeKey);
    forall f | Enters(edges, outbound, start, s.depth - 1, f, s.nodeKey) ensures f == s.edge || EdgeBefore(s.edge, f) {
      EntersMatches(edges, outbound, start, s.depth - 1, f, s.nodeKey);
      if f != s.edge {
        KeyLtTotal(EdgeRank(s.edge), EdgeRank(f));
        RankOrder(s.edge, f);
        if EdgeRank(s.edge) == EdgeRank(f) { EqualRanks(s.edge, f); }
      }
    }
  }

  /** Steps come by depth, and within one depth in canonical order of their edges. */
  lemma {:induction false} StepsInOrder(edges: seq<Edge>, outbound: bool, start: Text, k: nat, i: nat, j: nat)
    requires PrimaryKeys(edges) && i < j < |Full(edges, outbound, start, k)|
    ensures var s, t := Full(edges, outbound, start, k)[i], Full(edges, outbound, start, k)[j];
            s.depth < t.depth || (s.depth == t.depth && EdgeBefore(s.edge, t.edge))
  {
    hide Level, Chosen, Walk, Ball, Ring, StepExact, EdgeBefore, EdgeRank;
    var g, l := Full(edges, outbound, start, k - 1), Level(edges, outbound, start, k);
    LevelIsRing(edges, outbound, start, k);
    if j < |g| {
      StepsInOrder(edges, outbound, start, k - 1, i, j);
    } else if i < |g| {
      FullExact(edges, outbound, start, k - 1, i);
    } else {
      var q := Query(edges, outbound, Ring(edges, outbound, start, k - 1), Ball(edges, outbound, start, k - 1));
      LevelRows(edges, outbound, start, k);
      QueryIsChosen(edges, outbound, Ring(edges, outbound, start, k - 1), Ball(edges, outbound, start, k - 1));
      var x, y := q[i - |g|], q[j - |g|];
      assert KeyLt(EdgeRank(x), EdgeRank(y));
      if x == y { KeyLtTotal(EdgeRank(x), EdgeRank(y)); }
      RankOrder(x, y);
    }
  }

  /** Nodes other than the start with a walk of at most `depth` edges. */
  ghost predicate Within(edges: seq<Edge>, outbound: bool, start: Text, depth: nat, n: Text) {
    n != start && exists p :: Walk(edges, outbound, p, start, n) && |p| - 1 <= depth
  }

  lemma BallIsWithin(edges: seq<Edge>, outbound: bool, start: Text, depth: nat, n: Text)
    ensures n in Ball(edges, outbound, start, depth) && n != start <==> Within(edges, outbound, start, depth, n)
  {
    hide Walk, Ball;
    if n in Ball(edges, outbound, start, depth) {
      var p := BallHasWalk(edges, outbound, start, n, depth);
    }
    if p :| Walk(edges, outbound, p, start, n) && |p| - 1 <= depth {
      NonEmptyWalk(edges, outbound, p, start, n);
      WalkInBall(edges, outbound, start, p, n);
      BallGrows(edges, outbound, start, |p| - 1, depth);
    }
  }

  /**
   The search is exact: steps are distinct, right and in order, the cap is reported exactly
   when more than a hundred nodes lie within the depth, and otherwise none is missing.
   */
  lemma ImpactExact(edges: seq<Edge>, start: Text, depth: nat, outbound: bool, steps: seq<Step>, limitReached: bool,
                    near: set<Text>)
    requires PrimaryKeys(edges) && forall n :: n in near <==> Within(edges, outbound, start, depth, n)
    requires steps == Take(Full(edges, outbound, start, depth), MAX_RESULTS)
    requires limitReached <==> |Full(edges, outbound, start, depth)| > MAX_RESULTS
    ensures Distinct(Nodes(steps))
    ensures forall i :: 0 <= i < |steps| ==> StepExact(edges, outbound, start, steps[i]) && steps[i].depth <= depth
    ensures forall i, j :: 0 <= i < j < |steps| ==>
              || steps[i].depth < steps[j].depth
              || (steps[i].depth == steps[j].depth && EdgeBefore(steps[i].edge, steps[j].edge))
    ensures limitReached <==> |near| > 100
    ensures limitReached ==> |steps| == 100
    ensures !limitReached ==> forall n :: n in near <==> n in Nodes(steps)
  {
    hide Full, Ball, StepExact, Within, EdgeBefore;
    var f := Full(edges, outbound, start, depth);
    FullIsBall(edges, outbound, start, depth);
    forall n ensures n in near <==> n in Ball(edges, outbound, start, depth) - {start} {
      BallIsWithin(edges, outbound, start, depth, n);
    }
    assert near == Ball(edges, outbound, start, depth) - {start};
    forall i | 0 <= i < |steps| ensures StepExact(edges, outbound, start, steps[i]) && steps[i].depth <= depth {
      FullExact(edges, outbound, start, depth, i);
    }
    forall i, j | 0 <= i < j < |steps|
      ensures || steps[i].depth < steps[j].depth
              || (steps[i].depth == steps[j].depth && EdgeBefore(steps[i].edge, steps[j].edge))
    {
      StepsInOrder(edges, outbound, start, depth, i, j);
    }
    assert forall i :: 0 <= i < |steps| ==> Nodes(steps)[i] == Nodes(f)[i];
  }

  /** A larger depth only extends the step list. */
  lemma DeeperExtends(edges: seq<Edge>, start: Text, outbound: bool, k: nat, l: nat)
    requires k <= l
    ensures Take(Full(edges, outbound, start, k), MAX_RESULTS) <= Take(Full(edges, outbound, start, l), MAX_RESULTS)
  {
    hide Full;
    FullExtends(edges, outbound, start, k, l);
  }

  // ------------------------------------------------- the two directions

  function Reversed(p: seq<Text>): (r: seq<Text>)
    ensures |r| == |p| && forall i :: 0 <= i < |p| ==> r[i] == p[|p| - 1 - i]
  {
    seq(|p|, i requires 0 <= i < |p| => p[|p| - 1 - i])
  }

  lemma ReversedWalk(edges: seq<Edge>, outbound: bool, p: seq<Text>, a: Text, b: Text)
    requires Walk(edges, outbound, p, a, b)
    ensures Walk(edges, !outbound, Reversed(p), b, a)
  {
    hide Linked;
    var r := Reversed(p);
    forall i | 0 <= i < |r| - 1 ensures Linked(edges, !outbound, r[i], r[i + 1]) {
      assert Linked(edges, outbound, p[|p| - 2 - i], p[|p| - 1 - i]);
      LinkReversed(edges, outbound, r[i + 1], r[i]);
    }
  }

  lemma LinkReversed(edges: seq<Edge>, outbound: bool, a: Text, b: Text)
    requires Linked(edges, outbound, a, b)
    ensures Linked(edges, !outbound, b, a)
  {
    hide T;
    var e :| e in edges && Leads(outbound, e, a, b);
    assert Leads(!outbound, e, b, a);
  }

  /** The directions mirror each other: an inbound search finds `n` exactly when one outbound from `n` finds `a`. */
  lemma DirectionsMirror(edges: seq<Edge>, a: Text, n: Text, depth: nat)
    ensures Within(edges, false, a, depth, n) <==> Within(edges, true, n, depth, a)
  {
    hide Walk;
    if p :| Walk(edges, false, p, a, n) && |p| - 1 <= depth { ReversedWalk(edges, false, p, a, n); }
    if p :| Walk(edges, true, p, n, a) && |p| - 1 <= depth { ReversedWalk(edges, true, p, n, a); }
  }
}
