/** Pruned calls of a guard. */
module GuardPruning {
  // `_reachable_service_model_edges`: a breadth-first search of evidence-bearing calls
  // from a guard, then a parent walk that keeps only the edges on a path to a service
  // or model symbol.

  import opened Order

  /** A resolved `calls` edge; `evident` when it has stored evidence. */
  datatype Call = Call(subjectKey: Text, objectKey: Text, edgeId: Text, evident: bool)

  function CallKey(e: Call): Key { [Txt(e.subjectKey), Txt(e.objectKey), Txt(e.edgeId)] }

  function From(calls: seq<Call>, n: Text): seq<Call> {
    if calls == [] then []
    else From(calls[..|calls| - 1], n) + if calls[|calls| - 1].subjectKey == n then [calls[|calls| - 1]] else []
  }

  /** The calls of one symbol in the order `_sorted` gives. */
  function CallsFrom(calls: seq<Call>, n: Text): seq<Call> {
    Sort(From(calls, n), CallKey)
  }

  lemma {:induction false} FromMembers(calls: seq<Call>, n: Text)
    ensures forall e :: e in From(calls, n) <==> e in calls && e.subjectKey == n
  {
    if calls != [] {
      FromMembers(calls[..|calls| - 1], n);
      assert calls == calls[..|calls| - 1] + [calls[|calls| - 1]];
    }
  }

  lemma CallsFromMembers(calls: seq<Call>, n: Text)
    ensures forall e :: e in CallsFrom(calls, n) <==> e in calls && e.subjectKey == n
  {
    FromMembers(calls, n);
    forall e ensures e in CallsFrom(calls, n) <==> e in From(calls, n) {
      SortMembers(From(calls, n), CallKey, e);
    }
  }

  // ------------------------------------------------- trees

  ghost function Objects(es: seq<Call>): seq<Text> {
    seq(|es|, i requires 0 <= i < |es| => es[i].objectKey)
  }

  /** The subject is the guard or the object of an earlier edge. */
  ghost predicate Grounded(es: seq<Call>, guard: Text, i: nat)
    requires i < |es|
  {
    es[i].subjectKey == guard || exists j :: 0 <= j < i && es[j].objectKey == es[i].subjectKey
  }

  /** Evidence-bearing calls that form a tree rooted at the guard. */
  ghost predicate Tree(calls: seq<Call>, guard: Text, es: seq<Call>) {
    && (forall i :: 0 <= i < |es| ==>
          es[i] in calls && es[i].evident && es[i].objectKey != guard && Grounded(es, guard, i))
    && Distinct(Objects(es))
  }

  /** Every evidence-bearing call of `n` stays in `s`. */
  ghost predicate Expanded(calls: seq<Call>, s: set<Text>, n: Text) {
    forall e :: e in calls && e.evident && e.subjectKey == n ==> e.objectKey in s
  }

  /** A walk along evidence-bearing calls. */
  ghost predicate Walk(calls: seq<Call>, p: seq<Text>, a: Text, b: Text) {
    && p != [] && p[0] == a && p[|p| - 1] == b
    && forall i :: 0 <= i < |p| - 1 ==> Linked(calls, p[i], p[i + 1])
  }

  ghost predicate Linked(calls: seq<Call>, a: Text, b: Text) {
    exists e :: e in calls && e.evident && e.subjectKey == a && e.objectKey == b
  }

  /** A closed set holds everything reachable from its members. */
  lemma {:induction false} ClosedReaches(calls: seq<Call>, s: set<Text>, p: seq<Text>, a: Text, b: Text)
    requires a in s && (forall n :: n in s ==> Expanded(calls, s, n)) && Walk(calls, p, a, b)
    ensures b in s
    decreases |p|
  {
    if |p| > 1 {
      var q := p[..|p| - 1];
      ClosedReaches(calls, s, q, a, q[|q| - 1]);
      assert Linked(calls, q[|q| - 1], b);
    }
  }

  /** The nodes discovered so far, the guard first. */
  ghost function All(guard: Text, es: seq<Call>): seq<Text> { [guard] + Objects(es) }

  ghost function NodesOf(guard: Text, es: seq<Call>): set<Text> {
    set n | n in All(guard, es)
  }

  lemma AppendEdge(calls: seq<Call>, guard: Text, es: seq<Call>, e: Call)
    requires Tree(calls, guard, es) && e in calls && e.evident
    requires e.subjectKey in NodesOf(guard, es) && e.objectKey !in NodesOf(guard, es)
    ensures Tree(calls, guard, es + [e])
    ensures All(guard, es + [e]) == All(guard, es) + [e.objectKey]
    ensures NodesOf(guard, es + [e]) == NodesOf(guard, es) + {e.objectKey}
  {
    var more := es + [e];
    assert Objects(more) == Objects(es) + [e.objectKey];
    forall i | 0 <= i < |more| ensures Grounded(more, guard, i) {
      if i < |es| {
        assert Grounded(es, guard, i);
        if j :| 0 <= j < i && es[j].objectKey == es[i].subjectKey { assert more[j].objectKey == more[i].subjectKey; }
      } else if e.subjectKey != guard {
        assert e.subjectKey in Objects(es);
        var j :| 0 <= j < |es| && Objects(es)[j] == e.subjectKey;
        assert more[j].objectKey == more[i].subjectKey;
      }
    }
    forall k | 0 <= k < |es| ensures Objects(es)[k] != e.objectKey {
      assert Objects(es)[k] in All(guard, es);
    }
  }

  // ------------------------------------------------- breadth-first order

  /**
   `from[i]` is the place, among the guard and the objects, of the node whose expansion
   discovered edge `i`: nodes are expanded in order, and no earlier node leads to the object.
   */
  ghost predicate BreadthFirst(calls: seq<Call>, guard: Text, es: seq<Call>, from: seq<nat>) {
    && |from| == |es| && (forall i, j :: 0 <= i < j < |from| ==> from[i] <= from[j])
    && forall i :: 0 <= i < |es| ==> DiscoveredFrom(calls, guard, es, i, from[i])
  }

  ghost predicate DiscoveredFrom(calls: seq<Call>, guard: Text, es: seq<Call>, i: nat, k: nat)
    requires i < |es|
  {
    && k <= i && All(guard, es)[k] == es[i].subjectKey
    && forall l :: 0 <= l < k ==> !Linked(calls, All(guard, es)[l], es[i].objectKey)
  }

  lemma AllAppend(guard: Text, es: seq<Call>, e: Call)
    ensures All(guard, es + [e]) == All(guard, es) + [e.objectKey]
  {
    assert Objects(es + [e]) == Objects(es) + [e.objectKey];
  }

  lemma AppendDiscovered(calls: seq<Call>, guard: Text, es: seq<Call>, from: seq<nat>, e: Call, head: nat)
    requires BreadthFirst(calls, guard, es, from) && head <= |es| && (forall i :: 0 <= i < |from| ==> from[i] <= head)
    requires All(guard, es)[head] == e.subjectKey && e.objectKey !in NodesOf(guard, es)
    requires forall k :: 0 <= k < head ==> Expanded(calls, NodesOf(guard, es), All(guard, es)[k])
    ensures BreadthFirst(calls, guard, es + [e], from + [head])
  {
    hide NodesOf, All, Expanded;
    AllAppend(guard, es, e);
    AllLength(guard, es);
    var more := es + [e];
    forall i | 0 <= i < |more| ensures DiscoveredFrom(calls, guard, more, i, (from + [head])[i]) {
      if i < |es| {
        assert DiscoveredFrom(calls, guard, es, i, from[i]);
      } else {
        forall l | 0 <= l < head ensures !Linked(calls, All(guard, more)[l], e.objectKey) {
          NotLinked(calls, NodesOf(guard, es), All(guard, es)[l], e.objectKey);
        }
      }
    }
  }

  lemma AllLength(guard: Text, es: seq<Call>)
    ensures |All(guard, es)| == |es| + 1 && All(guard, es)[0] == guard
    ensures forall i :: 0 <= i < |es| ==> All(guard, es)[i + 1] == es[i].objectKey
  {
  }

  lemma NotLinked(calls: seq<Call>, s: set<Text>, n: Text, m: Text)
    requires Expanded(calls, s, n) && m !in s
    ensures !Linked(calls, n, m)
  {
  }

  // ------------------------------------------------- the order of calls

  /**
   Among the calls that could have discovered it, each edge has the smallest identifier, and
   the edges that one expansion discovers come in order of their objects.
   */
  ghost predicate Leading(calls: seq<Call>, es: seq<Call>, from: seq<nat>) {
    && |from| == |es|
    && (forall i :: 0 <= i < |es| ==> SmallestId(calls, es[i]))
    && forall i, j :: 0 <= i < j < |es| && from[i] == from[j] ==> TextLt(es[i].objectKey, es[j].objectKey)
  }

  ghost predicate SmallestId(calls: seq<Call>, e: Call) {
    forall f :: f in calls && f.evident && f.subjectKey == e.subjectKey && f.objectKey == e.objectKey ==>
      !TextLt(f.edgeId, e.edgeId)
  }

  /** Sorted calls of one symbol are in order of their objects, then of their identifiers. */
  lemma CallOrder(e: Call, f: Call)
    requires e.subjectKey == f.subjectKey && KeyLe(CallKey(e), CallKey(f))
    ensures e.objectKey == f.objectKey || TextLt(e.objectKey, f.objectKey)
    ensures e.objectKey == f.objectKey ==> !TextLt(f.edgeId, e.edgeId)
  {
    hide TextLt, KeyLt;
    var k, l := CallKey(e), CallKey(f);
    KeyLtTotal(k, l);
    TextLtTotal(e.objectKey, f.objectKey);
    TextLtTotal(e.edgeId, f.edgeId);
    if k != l { FirstDifference(k, l, if e.objectKey != f.objectKey then 1 else 2); }
  }

  /** The first `i` calls of the symbol at `head` have been looked at. */
  ghost predicate LeadingUpTo(calls: seq<Call>, es: seq<Call>, from: seq<nat>, out: seq<Call>, i: nat, head: nat)
    requires i <= |out|
  {
    Leading(calls, es, from) && forall k :: 0 <= k < |es| && from[k] == head ==> es[k] in out[..i]
  }

  lemma SkipCall(calls: seq<Call>, es: seq<Call>, from: seq<nat>, out: seq<Call>, i: nat, head: nat)
    requires i < |out| && LeadingUpTo(calls, es, from, out, i, head)
    ensures LeadingUpTo(calls, es, from, out, i + 1, head)
  {
    hide SmallestId;
    assert out[..i + 1] == out[..i] + [out[i]];
  }

  lemma TakeCall(calls: seq<Call>, es: seq<Call>, from: seq<nat>, current: Text, i: nat, head: nat)
    requires i < |CallsFrom(calls, current)| && CallsFrom(calls, current)[i].evident
    requires LeadingUpTo(calls, es, from, CallsFrom(calls, current), i, head)
    requires forall j :: 0 <= j < i && CallsFrom(calls, current)[j].evident ==>
               CallsFrom(calls, current)[j].objectKey != CallsFrom(calls, current)[i].objectKey
    requires forall k :: 0 <= k < |es| ==> es[k].objectKey != CallsFrom(calls, current)[i].objectKey
    ensures LeadingUpTo(calls, es + [CallsFrom(calls, current)[i]], from + [head], CallsFrom(calls, current), i + 1,
                        head)
  {
    hide TextLt, CallKey, KeyLe, CallsFrom;
    var out := CallsFrom(calls, current);
    var e := out[i];
    CallsInOrder(calls, current);
    assert e in out;
    assert out[..i + 1] == out[..i] + [e];
    forall f | f in calls && f.evident && f.subjectKey == e.subjectKey && f.objectKey == e.objectKey
      ensures !TextLt(f.edgeId, e.edgeId)
    {
      var j :| 0 <= j < |out| && out[j] == f;
      TextLtTotal(f.edgeId, e.edgeId);
      if i < j { CallOrder(e, f); }
    }
    forall k | 0 <= k < |es| && from[k] == head ensures TextLt(es[k].objectKey, e.objectKey) {
      var j :| 0 <= j < i && out[j] == es[k];
      assert out[j] in out;
      CallOrder(out[j], e);
    }
    assert Leading(calls, es + [e], from + [head]);
  }

  lemma StartLeading(calls: seq<Call>, guard: Text, es: seq<Call>, from: seq<nat>, out: seq<Call>, head: nat)
    requires Leading(calls, es, from) && forall i :: 0 <= i < |from| ==> from[i] < head
    ensures LeadingUpTo(calls, es, from, out, 0, head)
  {
  }

  lemma EndLeading(calls: seq<Call>, es: seq<Call>, from: seq<nat>, out: seq<Call>, head: nat)
    requires LeadingUpTo(calls, es, from, out, |out|, head)
    ensures Leading(calls, es, from)
  {
  }

  lemma CallsInOrder(calls: seq<Call>, n: Text)
    ensures SortedBy(CallsFrom(calls, n), CallKey)
    ensures forall e :: e in CallsFrom(calls, n) <==> e in calls && e.subjectKey == n
  {
    CallsFromMembers(calls, n);
    SortSorted(From(calls, n), CallKey);
  }

  // ------------------------------------------------- the search

  /** The parent of every discovered object is the edge that discovered it. */
  ghost predicate ParentsRight(es: seq<Call>, parent: map<Text, Call>) {
    && (forall n :: n in parent <==> n in Objects(es))
    && (forall i :: 0 <= i < |es| ==> es[i].objectKey in parent && parent[es[i].objectKey] == es[i])
  }

  ghost predicate TargetsRight(es: seq<Call>, classified: set<Text>, targets: seq<Text>) {
    forall n :: n in targets <==> n in Objects(es) && n in classified
  }

  /** The inner loop: the calls of one dequeued symbol. */
  method Expand(calls: seq<Call>, classified: set<Text>, guard: Text, current: Text,
                es: seq<Call>, parent: map<Text, Call>, targets: seq<Text>, queue: seq<Text>, visited: set<Text>,
                ghost from: seq<nat>, ghost head: nat)
    returns (es': seq<Call>, parent': map<Text, Call>, targets': seq<Text>, queue': seq<Text>, visited': set<Text>,
             ghost from': seq<nat>)
    requires Tree(calls, guard, es) && current in NodesOf(guard, es) && visited == NodesOf(guard, es)
    requires ParentsRight(es, parent) && TargetsRight(es, classified, targets)
    requires BreadthFirst(calls, guard, es, from) && head <= |es| && forall i :: 0 <= i < |from| ==> from[i] < head
    requires Leading(calls, es, from)
    requires |All(guard, es)| == |es| + 1 && All(guard, es)[head] == current
    requires forall k :: 0 <= k < head ==> Expanded(calls, visited, All(guard, es)[k])
    ensures BreadthFirst(calls, guard, es', from') && forall i :: 0 <= i < |from'| ==> from'[i] <= head
    ensures Leading(calls, es', from')
    ensures Tree(calls, guard, es') && es <= es' && visited' == NodesOf(guard, es')
    ensures ParentsRight(es', parent') && TargetsRight(es', classified, targets')
    ensures queue' == queue + All(guard, es')[|All(guard, es)|..]
    ensures Expanded(calls, visited', current)
  {
    hide Tree, NodesOf, All, ParentsRight, TargetsRight, CallsFrom, BreadthFirst, Expanded, Leading, LeadingUpTo;
    es', parent', targets', queue', visited' := es, parent, targets, queue, visited;
    from' := from;
    var out := CallsFrom(calls, current);
    CallsFromMembers(calls, current);
    StartLeading(calls, guard, es, from, out, head);
    AllPrefix(guard, es, es);
    for i := 0 to |out|
      invariant Tree(calls, guard, es') && es <= es' && visited' == NodesOf(guard, es') && visited <= visited'
      invariant ParentsRight(es', parent') && TargetsRight(es', classified, targets')
      invariant |All(guard, es)| <= |All(guard, es')| && queue' == queue + All(guard, es')[|All(guard, es)|..]
      invariant BreadthFirst(calls, guard, es', from') && forall i :: 0 <= i < |from'| ==> from'[i] <= head
      invariant All(guard, es) <= All(guard, es')
      invariant forall j :: 0 <= j < i && out[j].evident ==> out[j].objectKey in visited'
      invariant LeadingUpTo(calls, es', from', out, i, head)
    {
      var e := out[i];
      assert e in out;
      SkipCall(calls, es', from', out, i, head);
      if e.objectKey in visited' {
        continue;
      }
      if !e.evident {
        continue;
      }
      FirstsExpanded(calls, guard, es, es', visited, head);
      NewObject(guard, es', e.objectKey);
      TakeCall(calls, es', from', current, i, head);
      AppendDiscovered(calls, guard, es', from', e, head);
      from' := from' + [head];
      AppendEdge(calls, guard, es', e);
      AppendParents(es', parent', e);
      AppendTargets(es', classified, targets', e);
      DiscoveredInNodes(guard, es', e.objectKey);
      visited' := visited' + {e.objectKey};
      parent' := parent'[e.objectKey := e];
      es' := es' + [e];
      queue' := queue' + [e.objectKey];
      if e.objectKey in classified {
        targets' := targets' + [e.objectKey];
      }
    }
    EndLeading(calls, es', from', out, head);
    forall e | e in calls && e.evident && e.subjectKey == current ensures e.objectKey in visited' {
      assert e in out;
    }
    CurrentExpanded(calls, visited', current);
  }

  lemma NewObject(guard: Text, es: seq<Call>, n: Text)
    requires n !in NodesOf(guard, es)
    ensures forall k :: 0 <= k < |es| ==> es[k].objectKey != n
  {
    AllLength(guard, es);
  }

  lemma CurrentExpanded(calls: seq<Call>, s: set<Text>, n: Text)
    requires forall e :: e in calls && e.evident && e.subjectKey == n ==> e.objectKey in s
    ensures Expanded(calls, s, n)
  {
  }

  /** What was expanded stays expanded as nodes are added. */
  lemma FirstsExpanded(calls: seq<Call>, guard: Text, es: seq<Call>, more: seq<Call>, visited: set<Text>, head: nat)
    requires es <= more && head <= |es| && visited == NodesOf(guard, es) && |All(guard, es)| == |es| + 1
    requires forall k :: 0 <= k < head ==> Expanded(calls, visited, All(guard, es)[k])
    ensures |All(guard, more)| == |more| + 1 && All(guard, more)[head] == All(guard, es)[head]
    ensures forall k :: 0 <= k < head ==> Expanded(calls, NodesOf(guard, more), All(guard, more)[k])
  {
    hide NodesOf, All, Expanded;
    AllPrefix(guard, es, more);
    AllLength(guard, more);
    NodesGrow(guard, es, more);
    forall k | 0 <= k < head ensures Expanded(calls, NodesOf(guard, more), All(guard, more)[k]) {
      ExpandedGrows(calls, visited, NodesOf(guard, more), All(guard, es)[k]);
    }
  }

  lemma AllPrefix(guard: Text, es: seq<Call>, more: seq<Call>)
    requires es <= more
    ensures All(guard, es) <= All(guard, more)
  {
    assert Objects(es) <= Objects(more) by {
      assert forall i :: 0 <= i < |es| ==> es[i] == more[i];
    }
  }

  lemma DiscoveredInNodes(guard: Text, es: seq<Call>, n: Text)
    requires n !in NodesOf(guard, es)
    ensures n !in Objects(es)
  {
    assert All(guard, es)[1..] == Objects(es);
  }

  lemma AppendParents(es: seq<Call>, parent: map<Text, Call>, e: Call)
    requires ParentsRight(es, parent)
    ensures e.objectKey !in Objects(es) ==> ParentsRight(es + [e], parent[e.objectKey := e])
  {
    assert Objects(es + [e]) == Objects(es) + [e.objectKey];
    if e.objectKey !in Objects(es) {
      forall i | 0 <= i < |es| ensures es[i].objectKey != e.objectKey {
        assert Objects(es)[i] == es[i].objectKey;
      }
    }
  }

  lemma AppendTargets(es: seq<Call>, classified: set<Text>, targets: seq<Text>, e: Call)
    requires TargetsRight(es, classified, targets)
    ensures e.objectKey in classified ==> TargetsRight(es + [e], classified, targets + [e.objectKey])
    ensures e.objectKey !in classified ==> TargetsRight(es + [e], classified, targets)
  {
    assert Objects(es + [e]) == Objects(es) + [e.objectKey];
  }

  /** The breadth-first search: a tree that reaches everything reachable. */
  method Explore(calls: seq<Call>, classified: set<Text>, guard: Text)
    returns (es: seq<Call>, parent: map<Text, Call>, targets: seq<Text>, ghost from: seq<nat>)
    ensures BreadthFirst(calls, guard, es, from) && Leading(calls, es, from)
    ensures Tree(calls, guard, es) && ParentsRight(es, parent) && TargetsRight(es, classified, targets)
    ensures forall n :: n in NodesOf(guard, es) ==> Expanded(calls, NodesOf(guard, es), n)
  {
    hide Expanded, Tree, ParentsRight, TargetsRight, NodesOf, All, BreadthFirst, Leading;
    es, parent, targets, from := [], map[], [], [];
    StartOfSearch(calls, classified, guard);
    var visited, queue := {guard}, [guard];
    ghost var head := 0;
    ghost var universe := {guard} + set e | e in calls :: e.objectKey;
    while queue != []
      invariant Tree(calls, guard, es) && visited == NodesOf(guard, es)
      invariant ParentsRight(es, parent) && TargetsRight(es, classified, targets)
      invariant 0 <= head <= |All(guard, es)| && queue == All(guard, es)[head..]
      invariant forall i :: 0 <= i < head ==> Expanded(calls, visited, All(guard, es)[i])
      invariant BreadthFirst(calls, guard, es, from) && forall i :: 0 <= i < |from| ==> from[i] < head
      invariant Leading(calls, es, from)
      decreases |universe| - head
    {
      var current := queue[0];
      queue := queue[1..];
      ghost var before, old', oldVisited := All(guard, es), es, visited;
      InNodes(guard, es, head);
      NodeCount(calls, guard, es, universe);
      AllLength(guard, es);
      es, parent, targets, queue, visited, from :=
        Expand(calls, classified, guard, current, es, parent, targets, queue, visited, from, head);
      AllPrefix(guard, old', es);
      NodesGrow(guard, old', es);
      forall i | 0 <= i < head + 1 ensures Expanded(calls, visited, All(guard, es)[i]) {
        assert All(guard, es)[i] == before[i];
        if i < head { ExpandedGrows(calls, oldVisited, visited, before[i]); }
      }
      QueueStep(before, All(guard, es), head);
      head := head + 1;
    }
    forall n | n in NodesOf(guard, es) ensures Expanded(calls, NodesOf(guard, es), n) {
      var i := IndexOfNode(guard, es, n);
    }
  }

  lemma StartOfSearch(calls: seq<Call>, classified: set<Text>, guard: Text)
    ensures Tree(calls, guard, []) && NodesOf(guard, []) == {guard} && All(guard, []) == [guard]
    ensures ParentsRight([], map[]) && TargetsRight([], classified, []) && BreadthFirst(calls, guard, [], [])
    ensures Leading(calls, [], [])
  {
    assert Objects([]) == [];
  }

  lemma QueueStep(before: seq<Text>, after: seq<Text>, head: nat)
    requires before <= after && head < |before|
    ensures before[head..][1..] + after[|before|..] == after[head + 1..]
  {
    assert before == after[..|before|];
  }

  lemma InNodes(guard: Text, es: seq<Call>, i: nat)
    requires i < |All(guard, es)|
    ensures All(guard, es)[i] in NodesOf(guard, es)
  {
  }

  lemma IndexOfNode(guard: Text, es: seq<Call>, n: Text) returns (i: nat)
    requires n in NodesOf(guard, es)
    ensures i < |All(guard, es)| && All(guard, es)[i] == n
  {
    i :| 0 <= i < |All(guard, es)| && All(guard, es)[i] == n;
  }

  lemma NodesGrow(guard: Text, es: seq<Call>, more: seq<Call>)
    requires es <= more
    ensures NodesOf(guard, es) <= NodesOf(guard, more)
  {
    AllPrefix(guard, es, more);
  }

  lemma ExpandedGrows(calls: seq<Call>, s: set<Text>, t: set<Text>, n: Text)
    requires s <= t && Expanded(calls, s, n)
    ensures Expanded(calls, t, n)
  {
  }

  /** A tree has at most as many nodes as there are symbols. */
  lemma NodeCount(calls: seq<Call>, guard: Text, es: seq<Call>, universe: set<Text>)
    requires Tree(calls, guard, es) && universe == {guard} + set e | e in calls :: e.objectKey
    ensures |All(guard, es)| <= |universe|
  {
    var all := All(guard, es);
    forall i, j | 0 <= i < j < |all| ensures all[i] != all[j] {
      assert j > 0 && all[j] == Objects(es)[j - 1];
      assert i > 0 ==> all[i] == Objects(es)[i - 1];
    }
    DistinctSize(all);
    forall n | n in all ensures n in universe {
      var i :| 0 <= i < |all| && all[i] == n;
      if i > 0 { assert es[i - 1] in calls; }
    }
    var nodes := set n | n in all;
    SubsetSize(nodes, universe);
  }

  lemma SubsetSize<A>(s: set<A>, t: set<A>)
    requires s <= t
    ensures |s| <= |t|
  {
    assert t == s + (t - s);
  }

  // ------------------------------------------------- pruning

  /** `n` is a target or the subject of a discovered edge whose object is kept. */
  ghost predicate Wanted(es: seq<Call>, targets: seq<Text>, used: set<Text>, n: Text) {
    n in targets || exists e :: e in es && e.subjectKey == n && e.objectKey in used
  }

  /**
   The kept nodes: discovered ones, each wanted, and with each the subject of the edge
   that discovered it, except that `open` may still be missing.
   */
  ghost predicate UsedRight(guard: Text, es: seq<Call>, targets: seq<Text>, used: set<Text>, open: Text) {
    && (forall n :: n in used ==> n in Objects(es) && Wanted(es, targets, used, n))
    && (forall e :: e in es && e.objectKey in used ==>
          e.subjectKey == guard || e.subjectKey in used || e.subjectKey == open)
  }

  lemma UseNode(calls: seq<Call>, guard: Text, es: seq<Call>, targets: seq<Text>, used: set<Text>, i: nat)
    requires Tree(calls, guard, es) && i < |es|
    requires UsedRight(guard, es, targets, used, es[i].objectKey) && Wanted(es, targets, used, es[i].objectKey)
    ensures UsedRight(guard, es, targets, used + {es[i].objectKey}, es[i].subjectKey)
    ensures Wanted(es, targets, used + {es[i].objectKey}, es[i].subjectKey)
  {
    var n, more := es[i].objectKey, used + {es[i].objectKey};
    assert Objects(es)[i] == n;
    forall m | m in more ensures m in Objects(es) && Wanted(es, targets, more, m) {
      assert Wanted(es, targets, used, m);
    }
    forall e | e in es && e.objectKey in more
      ensures e.subjectKey == guard || e.subjectKey in more || e.subjectKey == es[i].subjectKey
    {
      if e.objectKey !in used {
        var j :| 0 <= j < |es| && es[j] == e;
        assert Objects(es)[j] == Objects(es)[i];
      }
    }
  }

  lemma OpenAnything(guard: Text, es: seq<Call>, targets: seq<Text>, used: set<Text>, open: Text)
    requires UsedRight(guard, es, targets, used, guard)
    ensures UsedRight(guard, es, targets, used, open)
  {
  }

  /** Where a discovered node stands, one past its index; the guard stands at zero. */
  ghost predicate StandsAt(guard: Text, es: seq<Call>, n: Text, rank: nat) {
    if rank == 0 then n == guard else rank <= |es| && es[rank - 1].objectKey == n
  }

  lemma ParentStands(calls: seq<Call>, guard: Text, es: seq<Call>, rank: nat) returns (lower: nat)
    requires Tree(calls, guard, es) && 0 < rank <= |es|
    ensures lower < rank && StandsAt(guard, es, es[rank - 1].subjectKey, lower)
  {
    assert Grounded(es, guard, rank - 1);
    if es[rank - 1].subjectKey == guard {
      lower := 0;
    } else {
      var j :| 0 <= j < rank - 1 && es[j].objectKey == es[rank - 1].subjectKey;
      lower := j + 1;
    }
  }

  lemma GuardHasNoParent(calls: seq<Call>, guard: Text, es: seq<Call>, parent: map<Text, Call>, n: Text, rank: nat)
    requires Tree(calls, guard, es) && ParentsRight(es, parent) && StandsAt(guard, es, n, rank)
    ensures n in parent <==> rank > 0
    ensures rank > 0 ==> parent[n] == es[rank - 1]
  {
    assert guard !in Objects(es);
  }

  /** The parent walk from one target; `rank` falls with every step. */
  method WalkUp(calls: seq<Call>, guard: Text, ghost es: seq<Call>, parent: map<Text, Call>, ghost targets: seq<Text>,
                used: set<Text>, target: Text)
    returns (used': set<Text>)
    requires Tree(calls, guard, es) && ParentsRight(es, parent)
    requires target in targets && target in Objects(es) && UsedRight(guard, es, targets, used, guard)
    ensures UsedRight(guard, es, targets, used', guard) && used + {target} <= used'
  {
    hide Tree, ParentsRight, UsedRight, Wanted, StandsAt;
    var walk := target;
    used' := used;
    ghost var rank := StartRank(guard, es, targets, used, target);
    OpenAnything(guard, es, targets, used, walk);
    GuardHasNoParent(calls, guard, es, parent, walk, rank);
    while walk in parent
      invariant StandsAt(guard, es, walk, rank) && (walk in parent <==> rank > 0)
      invariant UsedRight(guard, es, targets, used', walk) && Wanted(es, targets, used', walk)
      invariant used <= used' && (walk == target || target in used') && (rank == 0 ==> target in used')
      decreases rank
    {
      GuardHasNoParent(calls, guard, es, parent, walk, rank);
      RankBound(guard, es, walk, rank);
      UseNode(calls, guard, es, targets, used', rank - 1);
      var lower := ParentStands(calls, guard, es, rank);
      used' := used' + {walk};
      walk := parent[walk].subjectKey;
      rank := lower;
      GuardHasNoParent(calls, guard, es, parent, walk, rank);
    }
    RankBound(guard, es, walk, rank);
  }

  lemma StartRank(guard: Text, es: seq<Call>, targets: seq<Text>, used: set<Text>, target: Text) returns (rank: nat)
    requires target in targets && target in Objects(es)
    ensures rank > 0 && StandsAt(guard, es, target, rank) && Wanted(es, targets, used, target)
  {
    var i :| 0 <= i < |es| && Objects(es)[i] == target;
    rank := i + 1;
  }

  lemma RankBound(guard: Text, es: seq<Call>, n: Text, rank: nat)
    requires StandsAt(guard, es, n, rank)
    ensures rank <= |es| && (if rank == 0 then n == guard else es[rank - 1].objectKey == n)
  {
  }

  function Kept(es: seq<Call>, used: set<Text>): seq<Call> {
    if es == [] then []
    else Kept(es[..|es| - 1], used) + if es[|es| - 1].objectKey in used then [es[|es| - 1]] else []
  }

  lemma {:induction false} KeptMembers(es: seq<Call>, used: set<Text>)
    ensures forall e :: e in Kept(es, used) <==> e in es && e.objectKey in used
  {
    if es != [] {
      KeptMembers(es[..|es| - 1], used);
      assert es == es[..|es| - 1] + [es[|es| - 1]];
    }
  }

  lemma ObjectsMember(es: seq<Call>, n: Text)
    ensures n in Objects(es) <==> exists e :: e in es && e.objectKey == n
  {
    if n in Objects(es) {
      var i :| 0 <= i < |es| && Objects(es)[i] == n;
      assert es[i] in es;
    }
    if e :| e in es && e.objectKey == n {
      var i :| 0 <= i < |es| && es[i] == e;
      assert Objects(es)[i] == n;
    }
  }

  lemma GroundedPrefix(es: seq<Call>, guard: Text, m: nat, i: nat)
    requires i < m <= |es| && Grounded(es, guard, i)
    ensures Grounded(es[..m], guard, i)
  {
    if j :| 0 <= j < i && es[j].objectKey == es[i].subjectKey {
      assert es[..m][j].objectKey == es[..m][i].subjectKey;
    }
  }

  lemma GroundedInObjects(es: seq<Call>, guard: Text, i: nat)
    requires i < |es| && Grounded(es, guard, i)
    ensures es[i].subjectKey == guard || es[i].subjectKey in Objects(es[..i])
  {
    if j :| 0 <= j < i && es[j].objectKey == es[i].subjectKey {
      assert Objects(es[..i])[j] == es[j].objectKey;
    }
  }

  lemma TreePrefix(calls: seq<Call>, guard: Text, es: seq<Call>)
    requires Tree(calls, guard, es) && es != []
    ensures Tree(calls, guard, es[..|es| - 1])
    ensures es[|es| - 1].subjectKey == guard || es[|es| - 1].subjectKey in Objects(es[..|es| - 1])
    ensures es[|es| - 1].objectKey !in Objects(es[..|es| - 1])
  {
    hide Grounded;
    var m := |es| - 1;
    assert Objects(es[..m]) == Objects(es)[..m];
    forall i | 0 <= i < m ensures Grounded(es[..m], guard, i) {
      GroundedPrefix(es, guard, m, i);
    }
    GroundedInObjects(es, guard, m);
    assert Objects(es)[m] == es[m].objectKey;
  }

  /** Keeping a set of nodes that holds every kept node's parent leaves a tree. */
  lemma {:induction false} KeptTree(calls: seq<Call>, guard: Text, es: seq<Call>, used: set<Text>)
    requires Tree(calls, guard, es)
    requires forall e :: e in es && e.objectKey in used ==> e.subjectKey == guard || e.subjectKey in used
    ensures Tree(calls, guard, Kept(es, used))
  {
    hide Tree;
    if es == [] {
      StartOfSearch(calls, {}, guard);
    } else {
      var init, e := es[..|es| - 1], es[|es| - 1];
      TreePrefix(calls, guard, es);
      KeptTree(calls, guard, init, used);
      assert Kept(init, used) + [] == Kept(init, used);
      if e.objectKey in used {
        KeptMembers(init, used);
        ObjectsMember(init, e.subjectKey);
        ObjectsMember(Kept(init, used), e.subjectKey);
        ObjectsMember(init, e.objectKey);
        ObjectsMember(Kept(init, used), e.objectKey);
        assert e in es;
        TreeFact(calls, guard, es, |es| - 1);
        assert e.subjectKey in All(guard, Kept(init, used));
        AppendEdge(calls, guard, Kept(init, used), e);
      }
    }
  }

  lemma TreeFact(calls: seq<Call>, guard: Text, es: seq<Call>, i: nat)
    requires Tree(calls, guard, es) && i < |es|
    ensures es[i] in calls && es[i].evident && es[i].objectKey != guard
  {
  }

  /** Every edge's object is classified or is the subject of another edge. */
  ghost predicate Purposeful(es: seq<Call>, classified: set<Text>) {
    forall e :: e in es ==> e.objectKey in classified || Continued(es, e.objectKey)
  }

  ghost predicate Continued(es: seq<Call>, n: Text) { exists e :: e in es && e.subjectKey == n }

  /** Every classified symbol that evidence-bearing calls reach is some edge's object. */
  ghost predicate Covering(calls: seq<Call>, guard: Text, classified: set<Text>, es: seq<Call>) {
    forall p, n :: Walk(calls, p, guard, n) && n in classified && n != guard ==> n in Objects(es)
  }

  /**
   `_reachable_service_model_edges`: a tree of evidence-bearing calls rooted at the
   guard, none of them idle, covering every reachable classified symbol.
   */
  method ReachableServiceModelEdges(calls: seq<Call>, classified: set<Text>, guard: Text) returns (used: seq<Call>)
    ensures Tree(calls, guard, used) && Purposeful(used, classified) && Covering(calls, guard, classified, used)
    ensures forall e :: e in used ==> Shortest(calls, guard, used, e.objectKey)
    ensures Answer(calls, classified, guard, used)
  {
    hide Leading, Pruning, BreadthFirst, Shortest, Tree, ParentsRight, TargetsRight, NodesOf, Expanded, UsedRight,
         Purposeful, Covering;
    var es, parent, targets;
    ghost var from;
    es, parent, targets, from := Explore(calls, classified, guard);
    var nodes: set<Text> := {};
    NothingUsed(guard, es, targets);
    for i := 0 to |targets|
      invariant UsedRight(guard, es, targets, nodes, guard)
      invariant forall j :: 0 <= j < i ==> targets[j] in nodes
    {
      TargetDiscovered(es, classified, targets, i);
      nodes := WalkUp(calls, guard, es, parent, targets, nodes, targets[i]);
    }
    used := [];
    for i := 0 to |es|
      invariant used == Kept(es[..i], nodes)
    {
      assert es[..i + 1][..i] == es[..i] && es[..i + 1][i] == es[i];
      if es[i].objectKey in nodes {
        used := used + [es[i]];
      }
    }
    assert es[..|es|] == es;
    Pruned(calls, classified, guard, es, targets, nodes);
    KeptShortest(calls, guard, es, from, targets, nodes);
    PruningRight(guard, es, classified, targets, nodes);
    assert Searched(calls, guard, es, from);
  }

  /** The whole search: a tree in breadth-first order and order of keys, with every node expanded. */
  ghost predicate Searched(calls: seq<Call>, guard: Text, es: seq<Call>, from: seq<nat>) {
    && Tree(calls, guard, es) && BreadthFirst(calls, guard, es, from) && Leading(calls, es, from)
    && forall n :: n in NodesOf(guard, es) ==> Expanded(calls, NodesOf(guard, es), n)
  }

  /** The nodes kept: the classified ones, and those with a kept child. */
  ghost predicate Pruning(guard: Text, es: seq<Call>, classified: set<Text>, nodes: set<Text>) {
    && (forall n :: n in nodes ==> n in Objects(es) && (n in classified || HasKeptChild(es, nodes, n)))
    && (forall e :: e in es && e.objectKey in classified ==> e.objectKey in nodes)
    && (forall e :: e in es && e.objectKey in nodes ==> e.subjectKey == guard || e.subjectKey in nodes)
  }

  ghost predicate HasKeptChild(es: seq<Call>, nodes: set<Text>, n: Text) {
    exists e :: e in es && e.subjectKey == n && e.objectKey in nodes
  }

  ghost predicate Answer(calls: seq<Call>, classified: set<Text>, guard: Text, used: seq<Call>) {
    exists es, from, nodes ::
      Searched(calls, guard, es, from) && Pruning(guard, es, classified, nodes) && used == Kept(es, nodes)
  }

  lemma PruningRight(guard: Text, es: seq<Call>, classified: set<Text>, targets: seq<Text>, nodes: set<Text>)
    requires TargetsRight(es, classified, targets) && UsedRight(guard, es, targets, nodes, guard)
    requires forall i :: 0 <= i < |targets| ==> targets[i] in nodes
    ensures Pruning(guard, es, classified, nodes)
  {
    forall n | n in nodes ensures n in classified || HasKeptChild(es, nodes, n) {
      assert Wanted(es, targets, nodes, n);
    }
    forall e | e in es && e.objectKey in classified ensures e.objectKey in nodes {
      ObjectsMember(es, e.objectKey);
    }
  }

  lemma NothingUsed(guard: Text, es: seq<Call>, targets: seq<Text>)
    ensures UsedRight(guard, es, targets, {}, guard)
  {
  }

  lemma TargetDiscovered(es: seq<Call>, classified: set<Text>, targets: seq<Text>, i: nat)
    requires TargetsRight(es, classified, targets) && i < |targets|
    ensures targets[i] in Objects(es)
  {
    assert targets[i] in targets;
  }

  lemma Pruned(calls: seq<Call>, classified: set<Text>, guard: Text, es: seq<Call>, targets: seq<Text>,
               nodes: set<Text>)
    requires Tree(calls, guard, es) && TargetsRight(es, classified, targets)
    requires UsedRight(guard, es, targets, nodes, guard)
    requires forall n :: n in NodesOf(guard, es) ==> Expanded(calls, NodesOf(guard, es), n)
    requires forall i :: 0 <= i < |targets| ==> targets[i] in nodes
    ensures Tree(calls, guard, Kept(es, nodes)) && Purposeful(Kept(es, nodes), classified)
    ensures Covering(calls, guard, classified, Kept(es, nodes))
  {
    hide Tree, Walk, Expanded;
    var used := Kept(es, nodes);
    KeptTree(calls, guard, es, nodes);
    KeptMembers(es, nodes);
    forall e | e in used ensures e.objectKey in classified || Continued(used, e.objectKey) {
      assert Wanted(es, targets, nodes, e.objectKey);
      if next :| next in es && next.subjectKey == e.objectKey && next.objectKey in nodes {
        assert next in used;
      }
    }
    forall p, n | Walk(calls, p, guard, n) && n in classified && n != guard ensures n in Objects(used) {
      assert guard in All(guard, es);
      ClosedReaches(calls, NodesOf(guard, es), p, guard, n);
      assert n in Objects(es) && n in targets && n in nodes;
      ObjectsMember(es, n);
      ObjectsMember(used, n);
    }
  }

  // ------------------------------------------------- what the three facts mean

  /** A later edge of a tree that starts where an edge ends. */
  lemma Later(calls: seq<Call>, guard: Text, es: seq<Call>, i: nat, k: nat)
    requires Tree(calls, guard, es) && i < |es| && k < |es| && es[k].subjectKey == es[i].objectKey
    ensures i < k
  {
    assert Grounded(es, guard, k);
    var j :| 0 <= j < k && es[j].objectKey == es[k].subjectKey;
    assert Objects(es)[j] == Objects(es)[i];
  }

  /** Every edge leads on, through returned edges, to a service or model symbol. */
  lemma {:induction false} LeadsToClassified(calls: seq<Call>, guard: Text, es: seq<Call>, classified: set<Text>,
                                             i: nat)
    returns (p: seq<Text>, n: Text)
    requires Tree(calls, guard, es) && Purposeful(es, classified) && i < |es|
    ensures Walk(es, p, es[i].objectKey, n) && n in classified
    decreases |es| - i
  {
    var here := es[i].objectKey;
    assert es[i] in es;
    if here in classified {
      p, n := [here], here;
    } else {
      assert Continued(es, here);
      var next :| next in es && next.subjectKey == here;
      var k :| 0 <= k < |es| && es[k] == next;
      Later(calls, guard, es, i, k);
      var q;
      q, n := LeadsToClassified(calls, guard, es, classified, k);
      assert next.evident;
      assert Linked(es, here, q[0]);
      p := [here] + q;
    }
  }

  /** Every edge is reached from the guard through returned edges. */
  lemma {:induction false} RootedAtGuard(calls: seq<Call>, guard: Text, es: seq<Call>, i: nat) returns (p: seq<Text>)
    requires Tree(calls, guard, es) && i < |es|
    ensures Walk(es, p, guard, es[i].objectKey)
    decreases i
  {
    var e := es[i];
    assert Grounded(es, guard, i);
    var q := [guard];
    if e.subjectKey != guard {
      var j :| 0 <= j < i && es[j].objectKey == e.subjectKey;
      q := RootedAtGuard(calls, guard, es, j);
    }
    assert e in es && e.evident;
    assert Linked(es, e.subjectKey, e.objectKey);
    p := q + [e.objectKey];
  }

  /** A walk over returned edges is a walk over the evidence-bearing calls. */
  lemma WalkWidens(calls: seq<Call>, guard: Text, es: seq<Call>, p: seq<Text>, a: Text, b: Text)
    requires Tree(calls, guard, es) && Walk(es, p, a, b)
    ensures Walk(calls, p, a, b)
  {
    forall i | 0 <= i < |p| - 1 ensures Linked(calls, p[i], p[i + 1]) {
      assert Linked(es, p[i], p[i + 1]);
    }
  }

  /** The classified symbols covered are exactly the reachable ones, the guard apart. */
  lemma CoversExactly(calls: seq<Call>, guard: Text, es: seq<Call>, classified: set<Text>, n: Text)
    requires Tree(calls, guard, es) && Covering(calls, guard, classified, es) && n in classified
    ensures n in Objects(es) <==> n != guard && exists p :: Walk(calls, p, guard, n)
  {
    if n in Objects(es) {
      var i :| 0 <= i < |es| && Objects(es)[i] == n;
      var p := RootedAtGuard(calls, guard, es, i);
      WalkWidens(calls, guard, es, p, guard, n);
    }
  }

  /** Nothing is returned exactly when no classified symbol besides the guard is reachable. */
  lemma EmptyExactly(calls: seq<Call>, guard: Text, es: seq<Call>, classified: set<Text>)
    requires Tree(calls, guard, es) && Purposeful(es, classified) && Covering(calls, guard, classified, es)
    ensures es == [] <==> forall p, n :: Walk(calls, p, guard, n) && n in classified ==> n == guard
  {
    if es != [] {
      var q, n := LeadsToClassified(calls, guard, es, classified, 0);
      var p := RootedAtGuard(calls, guard, es, 0);
      var whole := p + q[1..];
      forall i | 0 <= i < |whole| - 1 ensures Linked(es, whole[i], whole[i + 1]) {
        if i < |p| - 1 {
          assert Linked(es, p[i], p[i + 1]);
        } else {
          assert Linked(es, q[i - |p| + 1], q[i - |p| + 2]);
          assert whole[i] == q[i - |p| + 1];
        }
      }
      WalkWidens(calls, guard, es, whole, guard, n);
      NeverBack(es, guard, q, n);
    }
  }

  /** No walk over returned edges comes back to the guard. */
  lemma NeverBack(es: seq<Call>, guard: Text, q: seq<Text>, n: Text)
    requires q != [] && Walk(es, q, q[0], n) && q[0] != guard
    requires forall e :: e in es ==> e.objectKey != guard
    ensures n != guard
  {
    if |q| > 1 {
      assert Linked(es, q[|q| - 2], q[|q| - 1]);
    }
  }

  // ------------------------------------------------- the tree is one of shortest chains

  /** Some walk over returned edges to `n` is as short as any over evidence-bearing calls. */
  ghost predicate Shortest(calls: seq<Call>, guard: Text, es: seq<Call>, n: Text) {
    exists p :: Walk(es, p, guard, n) && ShortestWalk(calls, p, guard, n)
  }

  ghost predicate ShortestWalk(calls: seq<Call>, p: seq<Text>, guard: Text, n: Text) {
    forall q :: Walk(calls, q, guard, n) ==> |p| <= |q|
  }

  /** The depth in the tree of the node at place `i`. */
  ghost function Depth(calls: seq<Call>, guard: Text, es: seq<Call>, from: seq<nat>, i: nat): nat
    requires BreadthFirst(calls, guard, es, from) && i <= |es|
  {
    if i == 0 then 0
    else
      assert DiscoveredFrom(calls, guard, es, i - 1, from[i - 1]);
      1 + Depth(calls, guard, es, from, from[i - 1])
  }

  /** Nodes are discovered in order of depth. */
  lemma {:induction false} DepthsIncrease(calls: seq<Call>, guard: Text, es: seq<Call>, from: seq<nat>, i: nat, j: nat)
    requires BreadthFirst(calls, guard, es, from) && i <= j <= |es|
    ensures Depth(calls, guard, es, from, i) <= Depth(calls, guard, es, from, j)
    decreases j
  {
    if 0 < i < j {
      assert DiscoveredFrom(calls, guard, es, j - 1, from[j - 1]);
      assert from[i - 1] <= from[j - 1];
      DepthsIncrease(calls, guard, es, from, from[i - 1], from[j - 1]);
    }
  }

  /** No walk over evidence-bearing calls is shorter than the depth. */
  lemma {:induction false} DepthIsLeast(calls: seq<Call>, guard: Text, es: seq<Call>, from: seq<nat>, i: nat,
                                        q: seq<Text>)
    requires BreadthFirst(calls, guard, es, from) && Tree(calls, guard, es)
    requires forall n :: n in NodesOf(guard, es) ==> Expanded(calls, NodesOf(guard, es), n)
    requires i <= |es| && |All(guard, es)| == |es| + 1 && Walk(calls, q, guard, All(guard, es)[i])
    ensures Depth(calls, guard, es, from, i) < |q|
    decreases |q|
  {
    hide Tree, NodesOf, All, Expanded, BreadthFirst, Linked;
    if i > 0 {
      AllLength(guard, es);
      NotTheGuard(calls, guard, es, i - 1);
      var init := q[..|q| - 1];
      var y := q[|q| - 2];
      assert Linked(calls, q[|q| - 2], q[|q| - 1]);
      assert Walk(calls, init, guard, y);
      GuardIn(guard, es);
      ClosedReaches(calls, NodesOf(guard, es), init, guard, y);
      var k := IndexOfNode(guard, es, y);
      EarliestParent(calls, guard, es, from, i - 1, k);
      DepthIsLeast(calls, guard, es, from, k, init);
      DepthsIncrease(calls, guard, es, from, from[i - 1], k);
      DepthStep(calls, guard, es, from, i);
    }
  }

  lemma NotTheGuard(calls: seq<Call>, guard: Text, es: seq<Call>, i: nat)
    requires Tree(calls, guard, es) && i < |es|
    ensures es[i].objectKey != guard
  {
  }

  lemma GuardIn(guard: Text, es: seq<Call>)
    ensures guard in NodesOf(guard, es)
  {
    assert All(guard, es)[0] == guard;
  }

  lemma DepthStep(calls: seq<Call>, guard: Text, es: seq<Call>, from: seq<nat>, i: nat)
    requires BreadthFirst(calls, guard, es, from) && 0 < i <= |es|
    ensures |from| == |es| && from[i - 1] < i
    ensures Depth(calls, guard, es, from, i) == 1 + Depth(calls, guard, es, from, from[i - 1])
  {
    assert DiscoveredFrom(calls, guard, es, i - 1, from[i - 1]);
  }

  lemma EarliestParent(calls: seq<Call>, guard: Text, es: seq<Call>, from: seq<nat>, i: nat, k: nat)
    requires BreadthFirst(calls, guard, es, from) && i < |es| && k < |All(guard, es)|
    requires Linked(calls, All(guard, es)[k], es[i].objectKey)
    ensures |from| == |es| && from[i] <= k
  {
    assert DiscoveredFrom(calls, guard, es, i, from[i]);
  }

  /** The kept edges hold a walk of that depth to each of their objects. */
  lemma {:induction false} KeptWalk(calls: seq<Call>, guard: Text, es: seq<Call>, from: seq<nat>, nodes: set<Text>,
                                    i: nat)
    returns (p: seq<Text>)
    requires BreadthFirst(calls, guard, es, from) && Tree(calls, guard, es) && i < |es| && es[i].objectKey in nodes
    requires forall e :: e in es && e.objectKey in nodes ==> e.subjectKey == guard || e.subjectKey in nodes
    ensures Walk(Kept(es, nodes), p, guard, es[i].objectKey) && |p| == Depth(calls, guard, es, from, i + 1) + 1
    decreases i
  {
    hide Tree, All, BreadthFirst, DiscoveredFrom;
    var e, kept := es[i], Kept(es, nodes);
    KeptMembers(es, nodes);
    assert e in es && e in kept;
    DepthStep(calls, guard, es, from, i + 1);
    SubjectPlace(calls, guard, es, from, i);
    TreeFact(calls, guard, es, i);
    var k := from[i];
    var q := [guard];
    if k > 0 {
      AllLength(guard, es);
      TreeFact(calls, guard, es, k - 1);
      q := KeptWalk(calls, guard, es, from, nodes, k - 1);
    }
    assert Linked(kept, e.subjectKey, e.objectKey);
    p := q + [e.objectKey];
  }

  lemma SubjectPlace(calls: seq<Call>, guard: Text, es: seq<Call>, from: seq<nat>, i: nat)
    requires BreadthFirst(calls, guard, es, from) && i < |es|
    ensures |from| == |es| && from[i] <= i && (from[i] == 0 ==> es[i].subjectKey == guard)
    ensures from[i] > 0 ==> es[i].subjectKey == es[from[i] - 1].objectKey
  {
    assert DiscoveredFrom(calls, guard, es, i, from[i]);
    AllLength(guard, es);
  }

  /** Every returned symbol is reached by a shortest chain of returned edges. */
  lemma KeptShortest(calls: seq<Call>, guard: Text, es: seq<Call>, from: seq<nat>, targets: seq<Text>,
                     nodes: set<Text>)
    requires BreadthFirst(calls, guard, es, from) && Tree(calls, guard, es)
    requires UsedRight(guard, es, targets, nodes, guard)
    requires forall n :: n in NodesOf(guard, es) ==> Expanded(calls, NodesOf(guard, es), n)
    ensures forall e :: e in Kept(es, nodes) ==> Shortest(calls, guard, Kept(es, nodes), e.objectKey)
  {
    hide BreadthFirst, Tree, NodesOf, Expanded, Walk, Objects, Wanted, All;
    KeptMembers(es, nodes);
    forall e | e in Kept(es, nodes) ensures Shortest(calls, guard, Kept(es, nodes), e.objectKey) {
      var i :| 0 <= i < |es| && es[i] == e;
      var p := KeptWalk(calls, guard, es, from, nodes, i);
      AllLength(guard, es);
      forall q | Walk(calls, q, guard, e.objectKey) ensures |p| <= |q| {
        DepthIsLeast(calls, guard, es, from, i + 1, q);
      }
    }
  }
}
