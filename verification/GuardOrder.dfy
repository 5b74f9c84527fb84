/** The pruned calls of a guard do not depend on how calls are stored. */
module GuardOrder {
  // Breadth-first order, the order of the keys and the identifiers leave one search and one
  // pruning for a set of calls.

  import opened Order
  import opened GuardPruning

  /** An edge identifier names one call of the snapshot. */
  ghost predicate UniqueIds(calls: seq<Call>) {
    forall e, f :: e in calls && f in calls && e.edgeId == f.edgeId ==> e == f
  }

  ghost predicate SameCalls(calls: seq<Call>, other: seq<Call>) { forall e :: e in calls <==> e in other }

  lemma AllOfPrefix(guard: Text, es: seq<Call>, n: nat)
    requires n <= |es|
    ensures All(guard, es[..n]) == All(guard, es)[..n + 1]
  {
    assert Objects(es[..n]) == Objects(es)[..n];
  }

  /** The place among the discovered edges of a node that a given node leads to. */
  lemma ReachedAt(calls: seq<Call>, guard: Text, es: seq<Call>, from: seq<nat>, k: nat, n: Text) returns (m: nat)
    requires Searched(calls, guard, es, from) && k <= |es| && |All(guard, es)| == |es| + 1
    requires Linked(calls, All(guard, es)[k], n) && n != guard
    ensures m < |es| && es[m].objectKey == n && |from| == |es| && from[m] <= k
  {
    hide Tree, BreadthFirst, Leading, All, Linked;
    InNodes(guard, es, k);
    AllLength(guard, es);
    NodeLinked(calls, NodesOf(guard, es), All(guard, es)[k], n);
    var i := IndexOfNode(guard, es, n);
    m := i - 1;
    EarliestParent(calls, guard, es, from, m, k);
  }

  lemma NodeLinked(calls: seq<Call>, s: set<Text>, a: Text, b: Text)
    requires Expanded(calls, s, a) && Linked(calls, a, b)
    ensures b in s
  {
  }

  /** What is known of the edge at `n`. */
  lemma EdgeAt(calls: seq<Call>, guard: Text, es: seq<Call>, from: seq<nat>, n: nat)
    requires Searched(calls, guard, es, from) && n < |es|
    ensures |from| == |es| && |All(guard, es)| == |es| + 1 && from[n] <= n
    ensures es[n].subjectKey == All(guard, es)[from[n]] && es[n] in calls && es[n].evident
    ensures es[n].objectKey != guard && Linked(calls, All(guard, es)[from[n]], es[n].objectKey)
    ensures SmallestId(calls, es[n])
    ensures forall i :: 0 <= i < n ==> from[i] <= from[n] && es[i].objectKey != es[n].objectKey
  {
    assert DiscoveredFrom(calls, guard, es, n, from[n]);
    AllLength(guard, es);
    forall i | 0 <= i < n ensures es[i].objectKey != es[n].objectKey {
      assert Objects(es)[i] != Objects(es)[n];
    }
  }

  /** Two searches that agree so far expand the same node next, and never a later one first. */
  lemma NotEarlier(calls: seq<Call>, guard: Text, es: seq<Call>, from: seq<nat>, fs: seq<Call>, from': seq<nat>, n: nat)
    requires Searched(calls, guard, es, from) && Searched(calls, guard, fs, from')
    requires n < |es| && n < |fs| && es[..n] == fs[..n]
    ensures |from| == |es| && |from'| == |fs| && from'[n] <= from[n]
    ensures from'[n] == from[n] ==>
              es[n].objectKey == fs[n].objectKey || TextLt(fs[n].objectKey, es[n].objectKey)
  {
    hide Searched, Linked, SmallestId, All, TextLt;
    EdgeAt(calls, guard, es, from, n);
    EdgeAt(calls, guard, fs, from', n);
    AllOfPrefix(guard, es, n);
    AllOfPrefix(guard, fs, n);
    var k := from[n];
    assert All(guard, es)[k] == All(guard, es)[..n + 1][k] == All(guard, fs)[..n + 1][k] == All(guard, fs)[k];
    assert forall i :: 0 <= i < n ==> fs[i] == fs[..n][i] == es[..n][i] == es[i];
    var m := ReachedAt(calls, guard, fs, from', k, es[n].objectKey);
    EdgeAt(calls, guard, fs, from', m);
    if m > n && from'[n] == k { SameExpansion(calls, guard, fs, from', n, m); }
  }

  lemma SameExpansion(calls: seq<Call>, guard: Text, es: seq<Call>, from: seq<nat>, n: nat, m: nat)
    requires Searched(calls, guard, es, from) && |from| == |es| && n < m < |es| && from[n] == from[m]
    ensures TextLt(es[n].objectKey, es[m].objectKey)
  {
    hide TextLt;
  }

  lemma SameEdge(calls: seq<Call>, e: Call, f: Call)
    requires UniqueIds(calls) && e in calls && f in calls && e.evident && f.evident
    requires e.subjectKey == f.subjectKey && e.objectKey == f.objectKey && SmallestId(calls, e) && SmallestId(calls, f)
    ensures e == f
  {
    hide TextLt;
    TextLtTotal(e.edgeId, f.edgeId);
  }

  /** Two searches agree as far as both go. */
  lemma {:induction false} SearchesAgree(calls: seq<Call>, guard: Text, es: seq<Call>, from: seq<nat>, fs: seq<Call>,
                                         from': seq<nat>, n: nat)
    requires UniqueIds(calls) && Searched(calls, guard, es, from) && Searched(calls, guard, fs, from')
    requires n <= |es| && n <= |fs|
    ensures es[..n] == fs[..n]
  {
    hide Searched, Linked, SmallestId, All, TextLt, UniqueIds;
    if n > 0 {
      var i := n - 1;
      SearchesAgree(calls, guard, es, from, fs, from', i);
      EdgeAt(calls, guard, es, from, i);
      EdgeAt(calls, guard, fs, from', i);
      NotEarlier(calls, guard, es, from, fs, from', i);
      NotEarlier(calls, guard, fs, from', es, from, i);
      TextLtTotal(es[i].objectKey, fs[i].objectKey);
      AllOfPrefix(guard, es, i);
      AllOfPrefix(guard, fs, i);
      assert All(guard, es)[from[i]] == All(guard, es)[..n][from[i]] == All(guard, fs)[..n][from[i]];
      SameEdge(calls, es[i], fs[i]);
      assert es[..n] == es[..i] + [es[i]] && fs[..n] == fs[..i] + [fs[i]];
    }
  }

  /** No search goes on where another has ended. */
  lemma NotLonger(calls: seq<Call>, guard: Text, es: seq<Call>, from: seq<nat>, fs: seq<Call>, from': seq<nat>)
    requires UniqueIds(calls) && Searched(calls, guard, es, from) && Searched(calls, guard, fs, from')
    ensures |es| <= |fs|
  {
    hide Searched, Linked, SmallestId, All, TextLt, UniqueIds;
    if |fs| < |es| {
      var n := |fs|;
      SearchesAgree(calls, guard, es, from, fs, from', n);
      assert es[..n] == fs;
      EdgeAt(calls, guard, es, from, n);
      AllOfPrefix(guard, es, n);
      AllLength(guard, fs);
      assert All(guard, es)[from[n]] == All(guard, es)[..n + 1][from[n]] == All(guard, fs)[from[n]];
      assert forall i :: 0 <= i < n ==> es[i] == es[..n][i] == fs[i];
      var m := ReachedAt(calls, guard, fs, from', from[n], es[n].objectKey);
    }
  }

  lemma SearchUnique(calls: seq<Call>, guard: Text, es: seq<Call>, from: seq<nat>, fs: seq<Call>, from': seq<nat>)
    requires UniqueIds(calls) && Searched(calls, guard, es, from) && Searched(calls, guard, fs, from')
    ensures es == fs
  {
    hide Searched, UniqueIds;
    NotLonger(calls, guard, es, from, fs, from');
    NotLonger(calls, guard, fs, from', es, from);
    SearchesAgree(calls, guard, es, from, fs, from', |es|);
  }

  /** Which nodes are kept is determined from the last discovered edge back to the first. */
  lemma {:induction false} KeptInBoth(calls: seq<Call>, guard: Text, es: seq<Call>, classified: set<Text>,
                                      nodes: set<Text>, other: set<Text>, i: nat)
    requires Tree(calls, guard, es) && i < |es| && es[i].objectKey in nodes
    requires Pruning(guard, es, classified, nodes) && Pruning(guard, es, classified, other)
    ensures es[i].objectKey in other
    decreases |es| - i
  {
    hide Tree;
    var n := es[i].objectKey;
    assert es[i] in es;
    if n !in classified {
      assert HasKeptChild(es, nodes, n);
      var e :| e in es && e.subjectKey == n && e.objectKey in nodes;
      var k :| 0 <= k < |es| && es[k] == e;
      Later(calls, guard, es, i, k);
      KeptInBoth(calls, guard, es, classified, nodes, other, k);
      NotTheGuard(calls, guard, es, i);
    }
  }

  lemma PruningSubset(calls: seq<Call>, guard: Text, es: seq<Call>, classified: set<Text>, nodes: set<Text>,
                      other: set<Text>)
    requires Tree(calls, guard, es) && Pruning(guard, es, classified, nodes) && Pruning(guard, es, classified, other)
    ensures nodes <= other
  {
    hide Tree;
    forall n | n in nodes ensures n in other {
      var i :| 0 <= i < |es| && Objects(es)[i] == n;
      KeptInBoth(calls, guard, es, classified, nodes, other, i);
    }
  }

  lemma SearchedAlike(calls: seq<Call>, other: seq<Call>, guard: Text, es: seq<Call>, from: seq<nat>)
    requires SameCalls(calls, other) && Searched(calls, guard, es, from)
    ensures Searched(other, guard, es, from)
  {
    hide TextLt, NodesOf, All;
    forall a, b ensures Linked(calls, a, b) <==> Linked(other, a, b) {
    }
    forall i | 0 <= i < |es| ensures DiscoveredFrom(other, guard, es, i, from[i]) && SmallestId(other, es[i]) {
      assert DiscoveredFrom(calls, guard, es, i, from[i]) && SmallestId(calls, es[i]);
    }
    forall n | n in NodesOf(guard, es) ensures Expanded(other, NodesOf(guard, es), n) {
      assert Expanded(calls, NodesOf(guard, es), n);
    }
  }

  /** The same calls in any order, repeated or not, give the same edges in the same order. */
  lemma StorageOrderForgotten(calls: seq<Call>, other: seq<Call>, classified: set<Text>, guard: Text, used: seq<Call>,
                              used': seq<Call>)
    requires SameCalls(calls, other) && UniqueIds(calls)
    requires Answer(calls, classified, guard, used) && Answer(other, classified, guard, used')
    ensures used == used'
  {
    hide Searched, Pruning, UniqueIds;
    var es, from, nodes :|
      Searched(calls, guard, es, from) && Pruning(guard, es, classified, nodes) && used == Kept(es, nodes);
    var fs, from', nodes' :|
      Searched(other, guard, fs, from') && Pruning(guard, fs, classified, nodes') && used' == Kept(fs, nodes');
    SearchedAlike(other, calls, guard, fs, from');
    SearchUnique(calls, guard, es, from, fs, from');
    assert Tree(calls, guard, es) by { SearchedTree(calls, guard, es, from); }
    PruningSubset(calls, guard, es, classified, nodes, nodes');
    PruningSubset(calls, guard, es, classified, nodes', nodes);
    assert nodes == nodes';
  }

  lemma SearchedTree(calls: seq<Call>, guard: Text, es: seq<Call>, from: seq<nat>)
    requires Searched(calls, guard, es, from)
    ensures Tree(calls, guard, es)
  {
  }
}
