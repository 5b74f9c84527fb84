/** Purging the facts of failed snapshots. */
module Retention {
  // The fact tables carry foreign keys that delete in cascade, and a delete reports only the
  // rows it names itself, so the order of the tables decides whether the count is right.

  import opened Order

  datatype Kind = Derivations | Evidences | Assertions | Diagnostics | Edges | Observations | Nodes

  datatype EvidenceParent = OfNode(node: nat) | OfEdge(edge: nat) | OfObservation(observation: nat)
  datatype DerivationParent = FromEdge(edge: nat) | FromAssertion(assertion: nat)

  /** A fact row: its snapshot, its row number and its foreign-key columns. */
  datatype Row =
    | Node(snapshot: nat, id: nat, stableKey: Text)
    | Edge(snapshot: nat, id: nat, subject: Text, target: Text)
    | Assertion(snapshot: nat, id: nat, subject: Text)
    | Observation(snapshot: nat, id: nat, subject: Text)
    | Diagnostic(snapshot: nat, id: nat)
    | Evidence(snapshot: nat, id: nat, evidenceParent: EvidenceParent)
    | Derivation(snapshot: nat, id: nat, derivationParent: DerivationParent)

  function KindOf(r: Row): Kind {
    match r
    case Node(_, _, _) => Nodes
    case Edge(_, _, _, _) => Edges
    case Assertion(_, _, _) => Assertions
    case Observation(_, _, _) => Observations
    case Diagnostic(_, _) => Diagnostics
    case Evidence(_, _, _) => Evidences
    case Derivation(_, _, _) => Derivations
  }

  /** What one foreign key names inside its snapshot. */
  datatype Ref = NodeKey(key: Text) | RowOf(kind: Kind, id: nat)

  function Refs(r: Row): set<Ref> {
    match r
    case Node(_, _, _) => {}
    case Edge(_, _, subject, target) => {NodeKey(subject), NodeKey(target)}
    case Assertion(_, _, subject) => {NodeKey(subject)}
    case Observation(_, _, subject) => {NodeKey(subject)}
    case Diagnostic(_, _) => {}
    case Evidence(_, _, parent) =>
      {match parent
       case OfNode(n) => RowOf(Nodes, n)
       case OfEdge(n) => RowOf(Edges, n)
       case OfObservation(n) => RowOf(Observations, n)}
    case Derivation(_, _, parent) =>
      {match parent case FromEdge(n) => RowOf(Edges, n) case FromAssertion(n) => RowOf(Assertions, n)}
  }

  predicate Answers(p: Row, snapshot: nat, ref: Ref) {
    && p.snapshot == snapshot
    && match ref
       case NodeKey(k) => p.Node? && p.stableKey == k
       case RowOf(kind, n) => KindOf(p) == kind && p.id == n
  }

  ghost predicate Answered(rows: set<Row>, snapshot: nat, ref: Ref) {
    exists p :: p in rows && Answers(p, snapshot, ref)
  }

  /** Every foreign key of every row is answered. */
  ghost predicate Integrity(rows: set<Row>) {
    forall r, ref :: r in rows && ref in Refs(r) ==> Answered(rows, r.snapshot, ref)
  }

  ghost predicate NodeIn(rows: set<Row>, snapshot: nat, key: Text) {
    exists n :: n in rows && n.Node? && n.snapshot == snapshot && n.stableKey == key
  }

  ghost predicate ParentIn(rows: set<Row>, child: Row) {
    match child
    case Node(_, _, _) => true
    case Diagnostic(_, _) => true
    case Edge(s, _, subject, target) => NodeIn(rows, s, subject) && NodeIn(rows, s, target)
    case Assertion(s, _, subject) => NodeIn(rows, s, subject)
    case Observation(s, _, subject) => NodeIn(rows, s, subject)
    case Evidence(s, _, OfNode(n)) => exists p :: p in rows && p.Node? && p.snapshot == s && p.id == n
    case Evidence(s, _, OfEdge(n)) => exists p :: p in rows && p.Edge? && p.snapshot == s && p.id == n
    case Evidence(s, _, OfObservation(n)) => exists p :: p in rows && p.Observation? && p.snapshot == s && p.id == n
    case Derivation(s, _, FromEdge(n)) => exists p :: p in rows && p.Edge? && p.snapshot == s && p.id == n
    case Derivation(s, _, FromAssertion(n)) => exists p :: p in rows && p.Assertion? && p.snapshot == s && p.id == n
  }

  /** Integrity, table by table: the nodes an edge joins, subjects, and the owners of evidence and derivations. */
  lemma IntegrityExactly(rows: set<Row>)
    ensures Integrity(rows) <==> forall r :: r in rows ==> ParentIn(rows, r)
  {
    forall r | r in rows
      ensures ParentIn(rows, r) <==> forall ref :: ref in Refs(r) ==> Answered(rows, r.snapshot, ref)
    {
      RefsAnswered(rows, r);
    }
  }

  lemma RefsAnswered(rows: set<Row>, r: Row)
    ensures ParentIn(rows, r) <==> forall ref :: ref in Refs(r) ==> Answered(rows, r.snapshot, ref)
  {
    match r
    case Node(_, _, _) =>
    case Diagnostic(_, _) =>
    case Edge(s, _, subject, target) =>
      NodeAnswers(rows, s, subject);
      NodeAnswers(rows, s, target);
      assert Refs(r) == {NodeKey(subject), NodeKey(target)};
    case Assertion(s, _, subject) => NodeAnswers(rows, s, subject);
    case Observation(s, _, subject) => NodeAnswers(rows, s, subject);
    case Evidence(s, _, OfNode(n)) => RowAnswers(rows, s, Nodes, n);
    case Evidence(s, _, OfEdge(n)) => RowAnswers(rows, s, Edges, n);
    case Evidence(s, _, OfObservation(n)) => RowAnswers(rows, s, Observations, n);
    case Derivation(s, _, FromEdge(n)) => RowAnswers(rows, s, Edges, n);
    case Derivation(s, _, FromAssertion(n)) => RowAnswers(rows, s, Assertions, n);
  }

  lemma RowAnswers(rows: set<Row>, snapshot: nat, kind: Kind, n: nat)
    ensures Answered(rows, snapshot, RowOf(kind, n)) <==>
            exists p :: p in rows && KindOf(p) == kind && p.snapshot == snapshot && p.id == n
    ensures forall p: Row :: (p.Node? <==> KindOf(p) == Nodes) && (p.Edge? <==> KindOf(p) == Edges)
    ensures forall p: Row :: p.Observation? <==> KindOf(p) == Observations
    ensures forall p: Row :: p.Assertion? <==> KindOf(p) == Assertions
  {
    if p :| p in rows && KindOf(p) == kind && p.snapshot == snapshot && p.id == n {
      assert Answers(p, snapshot, RowOf(kind, n));
    }
  }

  lemma NodeAnswers(rows: set<Row>, snapshot: nat, key: Text)
    ensures NodeIn(rows, snapshot, key) <==> Answered(rows, snapshot, NodeKey(key))
  {
    if n :| n in rows && n.Node? && n.snapshot == snapshot && n.stableKey == key {
      assert Answers(n, snapshot, NodeKey(key));
    }
  }

  predicate References(child: Row, parent: Row) {
    exists ref :: ref in Refs(child) && Answers(parent, child.snapshot, ref)
  }

  predicate ReferencesAny(child: Row, parents: set<Row>) { exists p :: p in parents && References(child, p) }

  /** Which tables hold foreign keys into which. */
  predicate MayReference(child: Kind, parent: Kind) {
    match child
    case Edges => parent == Nodes
    case Assertions => parent == Nodes
    case Observations => parent == Nodes
    case Evidences => parent == Nodes || parent == Edges || parent == Observations
    case Derivations => parent == Edges || parent == Assertions
    case Diagnostics => false
    case Nodes => false
  }

  lemma ReferenceKinds(child: Row, parent: Row)
    requires References(child, parent)
    ensures child.snapshot == parent.snapshot && MayReference(KindOf(child), KindOf(parent))
  {
  }

  // ------------------------------------------------- one delete

  /** The deleted rows and, in cascade, all that references them. */
  function Swept(rows: set<Row>, gone: set<Row>): set<Row>
    decreases rows - gone
  {
    var next := set r | r in rows && r !in gone && ReferencesAny(r, gone);
    if next == {} then gone else Swept(rows, gone + next)
  }

  function Named(rows: set<Row>, kind: Kind, snapshot: nat): set<Row> {
    set r | r in rows && r.snapshot == snapshot && KindOf(r) == kind
  }

  function FactsOf(rows: set<Row>, snapshot: nat): set<Row> { set r | r in rows && r.snapshot == snapshot }

  function Delete(rows: set<Row>, kind: Kind, snapshot: nat): set<Row> {
    rows - Swept(rows, Named(rows, kind, snapshot))
  }

  lemma {:induction false} SweptSpan(rows: set<Row>, gone: set<Row>)
    requires gone <= rows
    ensures gone <= Swept(rows, gone) <= rows
    decreases rows - gone
  {
    var next := set r | r in rows && r !in gone && ReferencesAny(r, gone);
    if next != {} { SweptSpan(rows, gone + next); }
  }

  /** A row that references a deleted one goes with it. */
  lemma {:induction false} SweptTakes(rows: set<Row>, gone: set<Row>, child: Row)
    requires gone <= rows && child in rows && ReferencesAny(child, gone)
    ensures child in Swept(rows, gone)
  {
    var next := set r | r in rows && r !in gone && ReferencesAny(r, gone);
    if child !in gone {
      assert child in next;
      SweptSpan(rows, gone + next);
    } else {
      SweptSpan(rows, gone);
    }
  }

  /** A delete keeps referential integrity, whatever it cascades to. */
  lemma {:induction false} SweptKeeps(rows: set<Row>, gone: set<Row>)
    requires Integrity(rows) && gone <= rows
    ensures Integrity(rows - Swept(rows, gone))
    decreases rows - gone
  {
    hide References, Answers;
    var next := set r | r in rows && r !in gone && ReferencesAny(r, gone);
    if next != {} {
      SweptKeeps(rows, gone + next);
    } else {
      forall r, ref | r in rows - gone && ref in Refs(r) ensures Answered(rows - gone, r.snapshot, ref) {
        assert Answered(rows, r.snapshot, ref);
        var p :| p in rows && Answers(p, r.snapshot, ref);
        ReferencesBy(r, p, ref);
        assert p in gone ==> r in next;
      }
    }
  }

  lemma ReferencesBy(child: Row, parent: Row, ref: Ref)
    requires ref in Refs(child) && Answers(parent, child.snapshot, ref)
    ensures References(child, parent)
  {
  }

  /** The rows lost are at least the rows counted, and no more exactly when nothing cascades. */
  lemma DeleteCount(rows: set<Row>, kind: Kind, snapshot: nat)
    ensures |Named(rows, kind, snapshot)| + |Delete(rows, kind, snapshot)| <= |rows|
    ensures |Named(rows, kind, snapshot)| + |Delete(rows, kind, snapshot)| == |rows| <==>
            Swept(rows, Named(rows, kind, snapshot)) == Named(rows, kind, snapshot)
  {
    var named := Named(rows, kind, snapshot);
    var swept := Swept(rows, named);
    SweptSpan(rows, named);
    Disjoint(rows, swept);
    Disjoint(swept, named);
    if |swept - named| == 0 {
      assert swept - named == {};
    }
  }

  lemma Disjoint(whole: set<Row>, part: set<Row>)
    requires part <= whole
    ensures |whole| == |part| + |whole - part|
  {
    assert whole == part + (whole - part);
  }

  // ------------------------------------------------- the tables in order

  /** The rows left after the first `i` tables of `order`. */
  function After(rows: set<Row>, snapshot: nat, order: seq<Kind>, i: nat): set<Row>
    requires i <= |order|
  {
    if i == 0 then rows else Delete(After(rows, snapshot, order, i - 1), order[i - 1], snapshot)
  }

  /** The rows that the first `i` deletes report. */
  function Reported(rows: set<Row>, snapshot: nat, order: seq<Kind>, i: nat): nat
    requires i <= |order|
  {
    if i == 0 then 0
    else Reported(rows, snapshot, order, i - 1) + |Named(After(rows, snapshot, order, i - 1), order[i - 1], snapshot)|
  }

  /** Every table is listed. */
  ghost predicate Complete(order: seq<Kind>) { forall k: Kind :: k in order }

  /** No later table references the table at `i`. */
  ghost predicate NoLaterChild(order: seq<Kind>, i: nat)
    requires i < |order|
  {
    forall j :: i < j < |order| ==> !MayReference(order[j], order[i])
  }

  ghost predicate ChildrenFirst(order: seq<Kind>) { forall i :: 0 <= i < |order| ==> NoLaterChild(order, i) }

  /** Integrity holds after every table, in any order. */
  lemma {:induction false} IntegrityAfter(rows: set<Row>, snapshot: nat, order: seq<Kind>, i: nat)
    requires Integrity(rows) && i <= |order|
    ensures Integrity(After(rows, snapshot, order, i))
  {
    hide Integrity, Swept, Named;
    if i > 0 {
      IntegrityAfter(rows, snapshot, order, i - 1);
      var left := After(rows, snapshot, order, i - 1);
      NamedWithin(left, order[i - 1], snapshot);
      SweptKeeps(left, Named(left, order[i - 1], snapshot));
    }
  }

  lemma NamedWithin(rows: set<Row>, kind: Kind, snapshot: nat)
    ensures Named(rows, kind, snapshot) <= rows
  {
  }

  /** Rows of one snapshot in the first `i` tables. */
  ghost function Early(rows: set<Row>, snapshot: nat, order: seq<Kind>, i: nat): set<Row>
    requires i <= |order|
  {
    set r | r in rows && r.snapshot == snapshot && KindOf(r) in order[..i]
  }

  /** With children first so far, exactly the rows of the tables so far are gone. */
  lemma {:induction false} AfterExact(rows: set<Row>, snapshot: nat, order: seq<Kind>, i: nat)
    requires Complete(order) && i <= |order| && forall k :: 0 <= k < i ==> NoLaterChild(order, k)
    ensures After(rows, snapshot, order, i) == rows - Early(rows, snapshot, order, i)
    ensures Reported(rows, snapshot, order, i) == |Early(rows, snapshot, order, i)|
  {
    hide Complete, NoLaterChild, Swept, Early, Named, After, Reported;
    if i == 0 {
      AtStart(rows, snapshot, order);
    } else {
      AfterExact(rows, snapshot, order, i - 1);
      OneMore(rows, snapshot, order, i - 1);
      NothingCascades(rows, snapshot, order, i - 1);
      EarlyStep(rows, snapshot, order, i - 1);
    }
  }

  lemma AtStart(rows: set<Row>, snapshot: nat, order: seq<Kind>)
    ensures After(rows, snapshot, order, 0) == rows && Reported(rows, snapshot, order, 0) == 0
    ensures Early(rows, snapshot, order, 0) == {}
  {
  }

  lemma OneMore(rows: set<Row>, snapshot: nat, order: seq<Kind>, i: nat)
    requires i < |order|
    ensures After(rows, snapshot, order, i + 1) == Delete(After(rows, snapshot, order, i), order[i], snapshot)
    ensures Reported(rows, snapshot, order, i + 1) ==
            Reported(rows, snapshot, order, i) + |Named(After(rows, snapshot, order, i), order[i], snapshot)|
  {
    hide Delete, Named;
  }

  lemma EarlyStep(rows: set<Row>, snapshot: nat, order: seq<Kind>, i: nat)
    requires i < |order|
    ensures var early := Early(rows, snapshot, order, i);
            var named := Named(rows - early, order[i], snapshot);
            && Early(rows, snapshot, order, i + 1) == early + named
            && |Early(rows, snapshot, order, i + 1)| == |early| + |named|
            && rows - early - named == rows - Early(rows, snapshot, order, i + 1)
  {
    var early := Early(rows, snapshot, order, i);
    var named := Named(rows - early, order[i], snapshot);
    assert order[..i + 1] == order[..i] + [order[i]];
    assert Early(rows, snapshot, order, i + 1) == early + named;
    assert early !! named;
  }

  lemma NothingCascades(rows: set<Row>, snapshot: nat, order: seq<Kind>, i: nat)
    requires Complete(order) && i < |order| && NoLaterChild(order, i)
    ensures var left := rows - Early(rows, snapshot, order, i);
            Swept(left, Named(left, order[i], snapshot)) == Named(left, order[i], snapshot)
  {
    var left := rows - Early(rows, snapshot, order, i);
    var named := Named(left, order[i], snapshot);
    assert forall j :: 0 <= j < i ==> order[j] in order[..i];
    forall r | r in left && r !in named ensures !ReferencesAny(r, named) {
      if p :| p in named && References(r, p) {
        ReferenceKinds(r, p);
        assert KindOf(r) in order;
        var j :| 0 <= j < |order| && order[j] == KindOf(r);
      }
    }
    var next := set r | r in left && r !in named && ReferencesAny(r, named);
    assert next == {};
  }

  lemma {:induction false} ReportedBound(rows: set<Row>, snapshot: nat, order: seq<Kind>, i: nat)
    requires i <= |order|
    ensures Reported(rows, snapshot, order, i) + |After(rows, snapshot, order, i)| <= |rows|
  {
    hide Delete, Named;
    if i > 0 {
      ReportedBound(rows, snapshot, order, i - 1);
      DeleteCount(After(rows, snapshot, order, i - 1), order[i - 1], snapshot);
    }
  }

  lemma {:induction false} ShortfallLasts(rows: set<Row>, snapshot: nat, order: seq<Kind>, i: nat, m: nat)
    requires i <= m <= |order| && Reported(rows, snapshot, order, i) + |After(rows, snapshot, order, i)| < |rows|
    ensures Reported(rows, snapshot, order, m) + |After(rows, snapshot, order, m)| < |rows|
  {
    hide Delete, Named;
    if i < m {
      ShortfallLasts(rows, snapshot, order, i, m - 1);
      DeleteCount(After(rows, snapshot, order, m - 1), order[m - 1], snapshot);
    }
  }

  /** The count is the number of rows lost, in every consistent database. */
  ghost predicate CountsRight(order: seq<Kind>) {
    forall rows, snapshot :: Integrity(rows) ==> Exact(rows, snapshot, order)
  }

  ghost predicate Exact(rows: set<Row>, snapshot: nat, order: seq<Kind>) {
    Reported(rows, snapshot, order, |order|) == |rows| - |After(rows, snapshot, order, |order|)|
  }

  /** One node and a row for every foreign key there is. */
  const SAMPLE: set<Row> := {
    Node(0, 0, []), Edge(0, 0, [], []), Assertion(0, 0, []), Observation(0, 0, []),
    Evidence(0, 0, OfNode(0)), Evidence(0, 1, OfEdge(0)), Evidence(0, 2, OfObservation(0)),
    Derivation(0, 0, FromEdge(0)), Derivation(0, 1, FromAssertion(0))
  }

  function Parent(k: Kind): Row {
    match k
    case Nodes => Node(0, 0, [])
    case Edges => Edge(0, 0, [], [])
    case Observations => Observation(0, 0, [])
    case _ => Assertion(0, 0, [])
  }

  function Child(child: Kind, parent: Kind): Row {
    match child
    case Edges => Edge(0, 0, [], [])
    case Assertions => Assertion(0, 0, [])
    case Observations => Observation(0, 0, [])
    case Evidences =>
      (match parent
       case Nodes => Evidence(0, 0, OfNode(0))
       case Edges => Evidence(0, 1, OfEdge(0))
       case _ => Evidence(0, 2, OfObservation(0)))
    case _ => (match parent case Edges => Derivation(0, 0, FromEdge(0)) case _ => Derivation(0, 1, FromAssertion(0)))
  }

  lemma SampleIntegrity()
    ensures Integrity(SAMPLE)
  {
    forall r, ref | r in SAMPLE && ref in Refs(r) ensures Answered(SAMPLE, r.snapshot, ref) {
      var p := match ref case NodeKey(_) => Parent(Nodes) case RowOf(kind, _) => Parent(kind);
      assert p in SAMPLE && Answers(p, r.snapshot, ref);
    }
  }

  lemma SampleLink(child: Kind, parent: Kind)
    requires MayReference(child, parent)
    ensures Parent(parent) in SAMPLE && KindOf(Parent(parent)) == parent && Parent(parent).snapshot == 0
    ensures Child(child, parent) in SAMPLE && KindOf(Child(child, parent)) == child
    ensures Child(child, parent).snapshot == 0
    ensures References(Child(child, parent), Parent(parent))
  {
    var c, p := Child(child, parent), Parent(parent);
    match child {
      case Evidences => ReferencesBy(c, p, RowOf(parent, 0));
      case Derivations => ReferencesBy(c, p, RowOf(parent, 0));
      case _ => ReferencesBy(c, p, NodeKey([]));
    }
  }

  /** A parent table before a child table loses a row that no delete reports. */
  lemma CascadeMiscounts(rows: set<Row>, snapshot: nat, order: seq<Kind>, i: nat, parent: Row, child: Row)
    requires Complete(order) && i < |order| && forall k :: 0 <= k < i ==> NoLaterChild(order, k)
    requires parent in rows && child in rows && parent.snapshot == child.snapshot == snapshot
    requires References(child, parent)
    requires KindOf(parent) == order[i] && order[i] !in order[..i] && KindOf(child) !in order[..i + 1]
    ensures !Exact(rows, snapshot, order)
  {
    hide Complete, NoLaterChild, Swept, References, MayReference, Reported, After;
    AfterExact(rows, snapshot, order, i);
    assert order[..i + 1] == order[..i] + [order[i]];
    var left := After(rows, snapshot, order, i);
    var named := Named(left, order[i], snapshot);
    assert parent in named && ReferencesAny(child, named);
    SweptTakes(left, named, child);
    DeleteCount(left, order[i], snapshot);
    ReportedBound(rows, snapshot, order, i);
    OneMore(rows, snapshot, order, i);
    ShortfallLasts(rows, snapshot, order, i + 1, |order|);
  }

  lemma ParentFirstMiscounts(order: seq<Kind>, i: nat, j: nat)
    requires Complete(order) && Distinct(order) && i < j < |order| && MayReference(order[j], order[i])
    requires forall k :: 0 <= k < i ==> NoLaterChild(order, k)
    ensures !Exact(SAMPLE, 0, order)
  {
    hide Complete, NoLaterChild, References, MayReference, Exact;
    SampleLink(order[j], order[i]);
    CascadeMiscounts(SAMPLE, 0, order, i, Parent(order[i]), Child(order[j], order[i]));
  }

  lemma FirstParent(order: seq<Kind>, m: nat) returns (i: nat)
    requires m < |order| && !NoLaterChild(order, m)
    ensures i < |order| && !NoLaterChild(order, i) && forall k :: 0 <= k < i ==> NoLaterChild(order, k)
    decreases m
  {
    hide NoLaterChild;
    if k :| 0 <= k < m && !NoLaterChild(order, k) {
      i := FirstParent(order, k);
    } else {
      i := m;
    }
  }

  /** Children first: every fact of the snapshot is gone and counted, and nothing else. */
  lemma ChildrenFirstPurges(rows: set<Row>, snapshot: nat, order: seq<Kind>)
    requires Complete(order) && ChildrenFirst(order)
    ensures After(rows, snapshot, order, |order|) == rows - FactsOf(rows, snapshot)
    ensures Reported(rows, snapshot, order, |order|) == |FactsOf(rows, snapshot)|
  {
    AfterExact(rows, snapshot, order, |order|);
    assert order[..|order|] == order;
    assert Early(rows, snapshot, order, |order|) == FactsOf(rows, snapshot);
  }

  /** An order of the tables reports the right count exactly when it lists children before parents. */
  lemma CountsRightExactly(order: seq<Kind>)
    requires Complete(order) && Distinct(order)
    ensures CountsRight(order) <==> ChildrenFirst(order)
  {
    hide Complete, NoLaterChild, Integrity, Reported, After;
    if ChildrenFirst(order) {
      forall rows, snapshot ensures Exact(rows, snapshot, order) {
        ChildrenFirstPurges(rows, snapshot, order);
        Disjoint(rows, FactsOf(rows, snapshot));
      }
    } else {
      var m :| 0 <= m < |order| && !NoLaterChild(order, m);
      var i := FirstParent(order, m);
      var j := LaterChild(order, i);
      ParentFirstMiscounts(order, i, j);
      SampleIntegrity();
    }
  }

  lemma LaterChild(order: seq<Kind>, i: nat) returns (j: nat)
    requires i < |order| && !NoLaterChild(order, i)
    ensures i < j < |order| && MayReference(order[j], order[i])
  {
    j :| i < j < |order| && MayReference(order[j], order[i]);
  }

  /** The order the purge uses. */
  const FACT_TABLES: seq<Kind> := [Derivations, Evidences, Assertions, Diagnostics, Edges, Observations, Nodes]

  lemma FactTablesInOrder()
    ensures Complete(FACT_TABLES) && Distinct(FACT_TABLES) && ChildrenFirst(FACT_TABLES)
  {
    assert FACT_TABLES[0] == Derivations && FACT_TABLES[1] == Evidences && FACT_TABLES[2] == Assertions;
    assert FACT_TABLES[3] == Diagnostics && FACT_TABLES[4] == Edges && FACT_TABLES[5] == Observations
        && FACT_TABLES[6] == Nodes;
    forall k: Kind ensures k in FACT_TABLES {
      match k case Nodes => case Edges => case _ =>
    }
  }

  // ------------------------------------------------- what a consistent snapshot without roots holds

  /** A snapshot with no node, observation or diagnostic holds no fact at all. */
  lemma NoRootsNoFacts(rows: set<Row>, snapshot: nat)
    requires Integrity(rows)
    requires forall r :: r in rows && r.snapshot == snapshot ==> !r.Node? && !r.Observation? && !r.Diagnostic?
    ensures FactsOf(rows, snapshot) == {}
  {
    if r :| r in FactsOf(rows, snapshot) {
      NoRoots(rows, r);
    }
  }

  lemma SomeRef(r: Row) returns (ref: Ref)
    requires !r.Node? && !r.Diagnostic?
    ensures ref in Refs(r)
  {
    ref := match r
      case Edge(_, _, subject, _) => NodeKey(subject)
      case Assertion(_, _, subject) => NodeKey(subject)
      case Observation(_, _, subject) => NodeKey(subject)
      case Evidence(_, _, OfNode(n)) => RowOf(Nodes, n)
      case Evidence(_, _, OfEdge(n)) => RowOf(Edges, n)
      case Evidence(_, _, OfObservation(n)) => RowOf(Observations, n)
      case Derivation(_, _, FromEdge(n)) => RowOf(Edges, n)
      case Derivation(_, _, FromAssertion(n)) => RowOf(Assertions, n);
  }

  lemma NoRoots(rows: set<Row>, r: Row)
    requires Integrity(rows) && r in rows
    requires forall p :: p in rows && p.snapshot == r.snapshot ==> !p.Node? && !p.Observation? && !p.Diagnostic?
    ensures false
    decreases match r case Derivation(_, _, _) => 2 case Evidence(_, _, _) => 2 case _ => 1
  {
    var ref := SomeRef(r);
    assert Answered(rows, r.snapshot, ref);
    var p :| p in rows && Answers(p, r.snapshot, ref);
    NoRoots(rows, p);
  }

  // ------------------------------------------------- the purge

  datatype Lifecycle = Building | Completed | Failed

  class FactStore {
    const states: map<nat, Lifecycle>
    var rows: set<Row>

    constructor (states: map<nat, Lifecycle>, rows: set<Row>)
      ensures this.states == states && this.rows == rows
    {
      this.states, this.rows := states, rows;
    }

    predicate IsFailed(snapshot: nat) { snapshot in states && states[snapshot] == Failed }

    /** `DELETE FROM table WHERE snapshot_id = …`, with its cascades; counts its own rows. */
    method DeleteRows(kind: Kind, snapshot: nat) returns (rowcount: nat)
      modifies this
      ensures rows == Delete(old(rows), kind, snapshot)
      ensures rowcount == |Named(old(rows), kind, snapshot)|
    {
      rowcount := |Named(rows, kind, snapshot)|;
      rows := rows - Swept(rows, Named(rows, kind, snapshot));
    }

    /** `purge_snapshot_facts`: all facts of a failed snapshot, counted exactly, and no other row. */
    method PurgeSnapshotFacts(snapshot: nat) returns (removed: nat)
      modifies this
      ensures snapshot in states && states[snapshot] == Failed ==>
                rows == (set r | r in old(rows) && r.snapshot != snapshot)
      ensures snapshot !in states || states[snapshot] != Failed ==> rows == old(rows)
      ensures removed == |old(rows)| - |rows|
    {
      hide After, Reported, Named, Delete;
      removed := 0;
      if !IsFailed(snapshot) {
        return;
      }
      AtStart(rows, snapshot, FACT_TABLES);
      for i := 0 to |FACT_TABLES|
        invariant rows == After(old(rows), snapshot, FACT_TABLES, i)
        invariant removed == Reported(old(rows), snapshot, FACT_TABLES, i)
      {
        OneMore(old(rows), snapshot, FACT_TABLES, i);
        var count := DeleteRows(FACT_TABLES[i], snapshot);
        removed := removed + count;
      }
      FactTablesInOrder();
      ChildrenFirstPurges(old(rows), snapshot, FACT_TABLES);
      FactsWithin(old(rows), snapshot);
      OtherFacts(old(rows), snapshot);
      Disjoint(old(rows), FactsOf(old(rows), snapshot));
    }

    /** A failed snapshot with a node, an observation or a diagnostic. */
    predicate Candidate(snapshot: nat)
      reads this
    {
      && IsFailed(snapshot)
      && exists r :: r in rows && r.snapshot == snapshot && (r.Node? || r.Observation? || r.Diagnostic?)
    }

    /** The candidate query: `limit` of the candidates in whatever order, all of them if fewer. */
    method Candidates(limit: nat) returns (found: seq<nat>)
      ensures Distinct(found) && |found| <= limit && forall s :: s in found ==> Candidate(s)
      ensures |found| < limit ==> forall s :: Candidate(s) ==> s in found
    {
      found := [];
      var rest := set s | s in states && Candidate(s);
      while rest != {} && |found| < limit
        invariant Distinct(found) && |found| <= limit && forall s :: s in found ==> Candidate(s) && s !in rest
        invariant forall s :: s in rest ==> Candidate(s)
        invariant forall s :: Candidate(s) ==> s in rest || s in found
        decreases |rest|
      {
        var s :| s in rest;
        rest := rest - {s};
        found := found + [s];
      }
    }

    /** `purge_orphaned_failed_facts`: one bounded sweep. */
    method PurgeOrphanedFailedFacts(limit: nat) returns (removed: nat)
      requires Integrity(rows)
      modifies this
      ensures Integrity(rows) && rows <= old(rows) && removed == |old(rows)| - |rows|
      ensures forall r :: r in old(rows) && r !in rows ==> r.snapshot in states && states[r.snapshot] == Failed
      ensures limit > 0 && removed == 0 ==>
                forall r :: r in rows ==> !(r.snapshot in states && states[r.snapshot] == Failed)
    {
      hide Integrity, FactsOf, PurgedFirst;
      var found := Candidates(limit);
      removed := 0;
      AtFirst(rows, found);
      for i := 0 to |found|
        invariant rows == PurgedFirst(old(rows), found, i) && Integrity(rows)
        invariant removed == |old(rows)| - |rows| && (i > 0 ==> removed > 0)
      {
        assert found[i] in found;
        PurgeStep(old(rows), found, i);
        PurgeKeeps(rows, found[i]);
        OtherFacts(rows, found[i]);
        FactsWithin(rows, found[i]);
        Disjoint(rows, FactsOf(rows, found[i]));
        var count := PurgeSnapshotFacts(found[i]);
        removed := removed + count;
      }
      PurgedRows(old(rows), found);
      if limit > 0 && removed == 0 {
        assert found == [] && rows == old(rows);
        forall r | r in rows ensures !IsFailed(r.snapshot) {
          if IsFailed(r.snapshot) {
            assert !old(Candidate(r.snapshot));
            NoRootsNoFacts(rows, r.snapshot);
            InFacts(rows, r);
          }
        }
      }
    }

    /** The cleanup loop: it ends, and by then no failed snapshot holds any fact. */
    method CleanUp() returns (purged: nat)
      requires Integrity(rows)
      modifies this
      ensures Integrity(rows)
      ensures rows == set r | r in old(rows) && !(r.snapshot in states && states[r.snapshot] == Failed)
      ensures purged == |old(rows)| - |rows|
    {
      hide Integrity;
      purged := 0;
      while true
        invariant Integrity(rows) && rows <= old(rows) && purged == |old(rows)| - |rows|
        invariant forall r :: r in old(rows) && r !in rows ==> r.snapshot in states && states[r.snapshot] == Failed
        decreases |rows|
      {
        var batch := PurgeOrphanedFailedFacts(20);
        if batch == 0 {
          break;
        }
        purged := purged + batch;
      }
    }
  }

  lemma OtherFacts(rows: set<Row>, snapshot: nat)
    ensures rows - FactsOf(rows, snapshot) == set r | r in rows && r.snapshot != snapshot
  {
  }

  lemma InFacts(rows: set<Row>, r: Row)
    requires r in rows
    ensures r in FactsOf(rows, r.snapshot)
  {
  }

  lemma FactsWithin(rows: set<Row>, snapshot: nat)
    ensures FactsOf(rows, snapshot) <= rows
  {
  }

  ghost function PurgedFirst(rows: set<Row>, found: seq<nat>, i: nat): set<Row>
    requires i <= |found|
  {
    set r | r in rows && r.snapshot !in found[..i]
  }

  lemma AtFirst(rows: set<Row>, found: seq<nat>)
    ensures PurgedFirst(rows, found, 0) == rows
  {
  }

  /** A snapshot later in a list without repeats keeps its facts until its turn. */
  lemma PurgeStep(rows: set<Row>, found: seq<nat>, i: nat)
    requires Distinct(found) && i < |found|
    requires exists r :: r in rows && r.snapshot == found[i]
    ensures var left := PurgedFirst(rows, found, i);
            PurgedFirst(rows, found, i + 1) == left - FactsOf(left, found[i]) && |FactsOf(left, found[i])| > 0
  {
    assert found[..i + 1] == found[..i] + [found[i]];
    var r :| r in rows && r.snapshot == found[i];
    assert r in FactsOf(PurgedFirst(rows, found, i), found[i]);
  }

  lemma PurgedRows(rows: set<Row>, found: seq<nat>)
    ensures PurgedFirst(rows, found, |found|) <= rows
    ensures forall r :: r in rows && r !in PurgedFirst(rows, found, |found|) ==> r.snapshot in found
  {
  }

  lemma PurgeKeeps(rows: set<Row>, snapshot: nat)
    requires Integrity(rows)
    ensures Integrity(rows - FactsOf(rows, snapshot))
  {
    hide Integrity;
    FactTablesInOrder();
    ChildrenFirstPurges(rows, snapshot, FACT_TABLES);
    IntegrityAfter(rows, snapshot, FACT_TABLES, |FACT_TABLES|);
  }
}
