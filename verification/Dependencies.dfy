/** Merging dependency facts. */
module Dependencies {
  // In `merge_dependency_facts` the nodes that several files describe become one node per
  // stable key, emitted once per contributing producer with that producer's own evidence,
  // ahead of the entries they came from.

  import opened Order
  import opened StableSort

  datatype Evidence = Evidence(path: Text, startLine: nat, endLine: nat, granularity: Text)

  /** A property value: `None`, or a text. */
  datatype Value = Null | Str(text: Text)

  /** One element of `declarations` or `resolutions`. */
  datatype Record = Record(name: Value, startLine: nat, endLine: nat, extractor: Text, version: Text,
                           fields: map<Text, Value>)

  /** The mapping an extractor wrote, or the one a merged node carries. */
  datatype Properties =
    | Plain(fields: map<Text, Value>)
    | Merged(ecosystem: Value, declarations: seq<Record>, resolutions: seq<Record>)

  datatype Node = Node(nodeKind: Text, stableKey: Text, name: Value, language: Value, evidence: seq<Evidence>,
                       properties: Properties)

  /** One produced extraction; observations and diagnostics are opaque here. */
  datatype Entry = Entry(producer: Text, version: Text, nodes: seq<Node>, observations: seq<Text>,
                         diagnostics: seq<Text>)

  datatype Identity = Identity(producer: Text, version: Text)

  /** A dependency node and the producer of the entry it came from. */
  datatype Member = Member(id: Identity, node: Node)

  function Manifest(): Text { T("dependency-manifest") }

  function Lockfile(): Text { T("dependency-lockfile") }

  predicate Known(producer: Text) { producer == Manifest() || producer == Lockfile() }

  function DeclarationFields(): set<Text> {
    {T("version"), T("dependency_type"), T("manifest_path"), T("workspace_path")}
  }

  function ResolutionFields(): set<Text> {
    {T("resolved_version"), T("dependency_scope"), T("lockfile_path"), T("lockfile_format"), T("lockfile_entry"),
     T("workspace_path")}
  }

  predicate IsDependency(n: Node) { n.nodeKind == T("dependency") }

  function Get(p: Properties, field: Text): Value {
    match p
    case Plain(fields) => if field in fields then fields[field] else Null
    case Merged(ecosystem, _, _) => if field == T("ecosystem") then ecosystem else Null
  }

  function SourcePath(n: Node): Text {
    var manifest, lockfile := Get(n.properties, T("manifest_path")), Get(n.properties, T("lockfile_path"));
    if manifest.Str? && manifest.text != [] then manifest.text
    else if lockfile.Str? then lockfile.text
    else []
  }

  function FirstEvidence(n: Node): Evidence { if n.evidence == [] then Evidence([], 0, 0, []) else n.evidence[0] }

  /** `_member_order`: producer rank, source path, first span. */
  function MemberKey(m: Member): Key {
    var first := FirstEvidence(m.node);
    [Num(if m.id.producer == Manifest() then 0 else 1), Txt(SourcePath(m.node)),
     Num(first.startLine), Num(first.endLine)]
  }

  function TextKey(t: Text): Key { [Txt(t)] }

  function IdentityKey(i: Identity): Key { [Txt(i.producer), Txt(i.version)] }

  // ------------------------------------------------- groups

  function NodeMembers(id: Identity, nodes: seq<Node>, key: Text): seq<Member> {
    if nodes == [] then []
    else
      var n := nodes[|nodes| - 1];
      var here := if IsDependency(n) && n.stableKey == key then [Member(id, n)] else [];
      NodeMembers(id, nodes[..|nodes| - 1], key) + here
  }

  function IdOf(e: Entry): Identity { Identity(e.producer, e.version) }

  function EntryMembers(e: Entry, key: Text): seq<Member> { NodeMembers(IdOf(e), e.nodes, key) }

  /** The dependency nodes with one stable key, in the order they were produced. */
  function Members(entries: seq<Entry>, key: Text): seq<Member> {
    if entries == [] then [] else Members(entries[..|entries| - 1], key) + EntryMembers(entries[|entries| - 1], key)
  }

  lemma {:induction false} NodeMembersIn(id: Identity, nodes: seq<Node>, key: Text)
    ensures forall m :: m in NodeMembers(id, nodes, key) <==>
                        m.id == id && m.node in nodes && IsDependency(m.node) && m.node.stableKey == key
  {
    if nodes != [] {
      NodeMembersIn(id, nodes[..|nodes| - 1], key);
      assert nodes == nodes[..|nodes| - 1] + [nodes[|nodes| - 1]];
    }
  }

  ghost predicate FromSome(entries: seq<Entry>, key: Text, m: Member) {
    exists e :: e in entries && m in EntryMembers(e, key)
  }

  lemma {:induction false} MembersIn(entries: seq<Entry>, key: Text)
    ensures forall m :: m in Members(entries, key) <==> FromSome(entries, key, m)
  {
    if entries != [] {
      var init, last := entries[..|entries| - 1], entries[|entries| - 1];
      MembersIn(init, key);
      assert entries == init + [last];
      forall m ensures m in Members(entries, key) <==> FromSome(entries, key, m) {
        if e :| e in entries && m in EntryMembers(e, key) {
          assert e == last || FromSome(init, key, m);
        }
        if FromSome(init, key, m) {
          var e :| e in init && m in EntryMembers(e, key);
          assert e in entries;
        }
      }
    }
  }

  lemma {:induction false} MembersConcat(a: seq<Entry>, b: seq<Entry>, key: Text)
    ensures Members(a + b, key) == Members(a, key) + Members(b, key)
  {
    hide EntryMembers;
    if b == [] {
      assert a + b == a;
    } else {
      assert (a + b)[..|a + b| - 1] == a + b[..|b| - 1];
      MembersConcat(a, b[..|b| - 1], key);
    }
  }

  ghost function Keys(entries: seq<Entry>): set<Text> {
    set e, n | e in entries && n in e.nodes && IsDependency(n) :: n.stableKey
  }

  lemma KeysHaveMembers(entries: seq<Entry>, key: Text)
    ensures key in Keys(entries) <==> Members(entries, key) != []
  {
    MembersIn(entries, key);
    if key in Keys(entries) {
      var e, n :| e in entries && n in e.nodes && IsDependency(n) && n.stableKey == key;
      NodeMembersIn(IdOf(e), e.nodes, key);
      assert Member(IdOf(e), n) in EntryMembers(e, key);
      assert FromSome(entries, key, Member(IdOf(e), n));
    }
    if Members(entries, key) != [] {
      var m := Members(entries, key)[0];
      assert m in Members(entries, key);
      var e :| e in entries && m in EntryMembers(e, key);
      NodeMembersIn(IdOf(e), e.nodes, key);
      assert m.node in e.nodes;
    }
  }

  predicate AllKnown(members: seq<Member>) { forall m :: m in members ==> Known(m.id.producer) }

  /** The keys that only dependency producers describe. */
  ghost function Mergeable(entries: seq<Entry>): set<Text> {
    set k | k in Keys(entries) && AllKnown(Members(entries, k))
  }

  lemma MergeableMembers(entries: seq<Entry>, key: Text)
    ensures key in Mergeable(entries) <==> Members(entries, key) != [] && AllKnown(Members(entries, key))
  {
    KeysHaveMembers(entries, key);
  }

  // ------------------------------------------------- one merged node

  function Ordered(members: seq<Member>): seq<Member> { Sort(members, MemberKey) }

  predicate IsResolution(m: Member) { m.id.producer == Lockfile() }

  function Fields(p: Properties, names: set<Text>): map<Text, Value> { map f | f in names :: Get(p, f) }

  function RecordOf(m: Member): Record {
    var first := FirstEvidence(m.node);
    Record(m.node.name, first.startLine, first.endLine, m.id.producer, m.id.version,
           Fields(m.node.properties, if IsResolution(m) then ResolutionFields() else DeclarationFields()))
  }

  /** The records of the declaring members, or of the resolving ones. */
  function Records(members: seq<Member>, resolutions: bool): seq<Record> {
    if members == [] then []
    else
      var last := members[|members| - 1];
      var here := if IsResolution(last) == resolutions then [RecordOf(last)] else [];
      Records(members[..|members| - 1], resolutions) + here
  }

  function MergedNode(key: Text, ordered: seq<Member>): Node
    requires ordered != []
  {
    Node(T("dependency"), key, ordered[0].node.name, Null, [],
         Merged(Get(ordered[0].node.properties, T("ecosystem")), Records(ordered, false), Records(ordered, true)))
  }

  /** The evidence of one producer's members. */
  function EvidenceOf(members: seq<Member>, id: Identity): seq<Evidence> {
    if members == [] then []
    else
      var last := members[|members| - 1];
      EvidenceOf(members[..|members| - 1], id) + if last.id == id then last.node.evidence else []
  }

  function Ids(members: seq<Member>): set<Identity> { set m | m in members :: m.id }

  /** `_merged_node`. */
  method BuildMergedNode(key: Text, members: seq<Member>) returns (r: Node)
    requires members != []
    ensures Ordered(members) != [] && r == MergedNode(key, Ordered(members))
  {
    hide Fields, FirstEvidence, Get, DeclarationFields, ResolutionFields, Sort;
    SortPermutes(members, MemberKey);
    var ordered := Sort(members, MemberKey);
    var declarations, resolutions: seq<Record> := [], [];
    for i := 0 to |ordered|
      invariant declarations == Records(ordered[..i], false) && resolutions == Records(ordered[..i], true)
    {
      var m := ordered[i];
      assert ordered[..i + 1][..i] == ordered[..i];
      var first := FirstEvidence(m.node);
      var names := if m.id.producer == Lockfile() then ResolutionFields() else DeclarationFields();
      var record := Record(m.node.name, first.startLine, first.endLine, m.id.producer, m.id.version,
                           Fields(m.node.properties, names));
      if m.id.producer == Lockfile() {
        resolutions := resolutions + [record];
      } else {
        declarations := declarations + [record];
      }
    }
    assert ordered[..|ordered|] == ordered;
    r := Node(T("dependency"), key, ordered[0].node.name, Null, [],
              Merged(Get(ordered[0].node.properties, T("ecosystem")), declarations, resolutions));
  }

  /** Each producer's evidence among `members`, in order. */
  ghost predicate EvidenceMap(r: map<Identity, seq<Evidence>>, members: seq<Member>) {
    r.Keys == Ids(members) && forall id :: Lookup(r, id) == EvidenceOf(members, id)
  }

  lemma EvidenceMapStep(r: map<Identity, seq<Evidence>>, members: seq<Member>, m: Member)
    requires EvidenceMap(r, members)
    ensures EvidenceMap(r[m.id := Lookup(r, m.id) + m.node.evidence], members + [m])
  {
    hide EvidenceOf;
    var next := r[m.id := Lookup(r, m.id) + m.node.evidence];
    assert next.Keys == Ids(members + [m]);
    forall id ensures Lookup(next, id) == EvidenceOf(members + [m], id) {
      assert Lookup(r, id) == EvidenceOf(members, id);
      EvidenceAppended(members, m, id);
    }
  }

  lemma EvidenceAppended(members: seq<Member>, m: Member, id: Identity)
    ensures EvidenceOf(members + [m], id) == EvidenceOf(members, id) + if m.id == id then m.node.evidence else []
  {
    assert (members + [m])[..|members|] == members;
  }

  /** `_evidence_by_producer`. */
  method EvidenceByProducer(members: seq<Member>) returns (r: map<Identity, seq<Evidence>>)
    ensures EvidenceMap(r, Ordered(members))
  {
    hide EvidenceMap;
    var ordered := Sort(members, MemberKey);
    r := map[];
    NoEvidenceYet();
    for i := 0 to |ordered|
      invariant EvidenceMap(r, ordered[..i])
    {
      var m := ordered[i];
      assert ordered[..i + 1] == ordered[..i] + [m];
      EvidenceMapStep(r, ordered[..i], m);
      r := r[m.id := Lookup(r, m.id) + m.node.evidence];
    }
    assert ordered[..|ordered|] == ordered;
  }

  lemma NoEvidenceYet()
    ensures EvidenceMap(map[], [])
  {
  }

  lemma SortedIds(members: seq<Member>)
    ensures Ids(Ordered(members)) == Ids(members)
  {
    forall m ensures m in Ordered(members) <==> m in members {
      SortMembers(members, MemberKey, m);
    }
  }

  // ------------------------------------------------- the merge

  /** The merged nodes that one producer's entry carries, for the first keys of the sorted list. */
  ghost function NodesFor(entries: seq<Entry>, keys: seq<Text>, id: Identity): seq<Node>
    requires forall k :: k in keys ==> Members(entries, k) != []
  {
    if keys == [] then []
    else
      var k := keys[|keys| - 1];
      var here := if id in Ids(Members(entries, k)) then [NodeFor(entries, k, id)] else [];
      NodesFor(entries, keys[..|keys| - 1], id) + here
  }

  ghost function NodeFor(entries: seq<Entry>, k: Text, id: Identity): Node
    requires Members(entries, k) != []
  {
    SortPermutes(Members(entries, k), MemberKey);
    var ordered := Ordered(Members(entries, k));
    MergedNode(k, ordered).(evidence := EvidenceOf(ordered, id))
  }

  lemma KeysSeparate(s: set<Text>)
    ensures Separates(TextKey, s)
  {
    forall x, y | x in s && y in s && TextKey(x) == TextKey(y) ensures x == y {
      assert TextKey(x)[0] == TextKey(y)[0];
    }
  }

  lemma IdentitiesSeparate(s: set<Identity>)
    ensures Separates(IdentityKey, s)
  {
    forall x, y | x in s && y in s && IdentityKey(x) == IdentityKey(y) ensures x == y {
      assert IdentityKey(x)[0] == IdentityKey(y)[0] && IdentityKey(x)[1] == IdentityKey(y)[1];
    }
  }

  ghost function SortedKeys(entries: seq<Entry>): (r: seq<Text>)
    ensures Lists(r, Mergeable(entries), TextKey)
    ensures forall k :: k in r ==> Members(entries, k) != []
  {
    KeysSeparate(Mergeable(entries));
    var r := SortedSet(Mergeable(entries), TextKey);
    assert forall k :: k in r ==> Members(entries, k) != [] by {
      forall k | k in r ensures Members(entries, k) != [] { MergeableMembers(entries, k); }
    }
    r
  }

  /** The producers that describe some mergeable key. */
  ghost function Contributors(entries: seq<Entry>): set<Identity> {
    set k, id | k in Mergeable(entries) && id in Ids(Members(entries, k)) :: id
  }

  ghost function SortedContributors(entries: seq<Entry>): (r: seq<Identity>)
    ensures Lists(r, Contributors(entries), IdentityKey)
  {
    IdentitiesSeparate(Contributors(entries));
    SortedSet(Contributors(entries), IdentityKey)
  }

  ghost function MergedEntry(entries: seq<Entry>, id: Identity): Entry {
    Entry(id.producer, id.version, NodesFor(entries, SortedKeys(entries), id), [], [])
  }

  ghost function MergedEntries(entries: seq<Entry>): seq<Entry> {
    seq(|SortedContributors(entries)|,
        i requires 0 <= i < |SortedContributors(entries)| => MergedEntry(entries, SortedContributors(entries)[i]))
  }

  /** The nodes that an entry keeps. */
  function Kept(nodes: seq<Node>, gone: set<Text>): seq<Node> {
    if nodes == [] then []
    else
      var n := nodes[|nodes| - 1];
      Kept(nodes[..|nodes| - 1], gone) + if IsDependency(n) && n.stableKey in gone then [] else [n]
  }

  ghost function Rewritten(entries: seq<Entry>): seq<Entry> {
    seq(|entries|, i requires 0 <= i < |entries| => entries[i].(nodes := Kept(entries[i].nodes, Mergeable(entries))))
  }

  /** The member order reads the first evidence record, so a mergeable node without one raises. */
  ghost predicate Raises(entries: seq<Entry>) {
    exists k :: k in Mergeable(entries) && !HasEvidence(Members(entries, k))
  }

  predicate HasEvidence(members: seq<Member>) { forall m :: m in members ==> m.node.evidence != [] }

  ghost function Merge(entries: seq<Entry>): seq<Entry> { MergedEntries(entries) + Rewritten(entries) }

  // ------------------------------------------------- the loops

  /** The groups after some entries and some nodes of the next. */
  ghost predicate GroupMap(groups: map<Text, seq<Member>>, done: seq<Entry>, id: Identity, nodes: seq<Node>) {
    && (forall k :: Lookup(groups, k) == Members(done, k) + NodeMembers(id, nodes, k))
    && (forall k :: k in groups ==> groups[k] != [])
  }

  lemma GroupMapStep(groups: map<Text, seq<Member>>, done: seq<Entry>, id: Identity, nodes: seq<Node>, n: Node)
    requires GroupMap(groups, done, id, nodes)
    ensures IsDependency(n) ==>
            GroupMap(groups[n.stableKey := Lookup(groups, n.stableKey) + [Member(id, n)]], done, id, nodes + [n])
    ensures !IsDependency(n) ==> GroupMap(groups, done, id, nodes + [n])
  {
    hide Members, NodeMembers, IsDependency;
    if IsDependency(n) {
      var next := groups[n.stableKey := Lookup(groups, n.stableKey) + [Member(id, n)]];
      forall k ensures Lookup(next, k) == Members(done, k) + NodeMembers(id, nodes + [n], k) {
        assert Lookup(groups, k) == Members(done, k) + NodeMembers(id, nodes, k);
        NodeAppended(id, nodes, n, k);
      }
    } else {
      forall k ensures Lookup(groups, k) == Members(done, k) + NodeMembers(id, nodes + [n], k) {
        assert Lookup(groups, k) == Members(done, k) + NodeMembers(id, nodes, k);
        NodeAppended(id, nodes, n, k);
      }
    }
  }

  lemma NodeAppended(id: Identity, nodes: seq<Node>, n: Node, k: Text)
    ensures NodeMembers(id, nodes + [n], k) ==
            NodeMembers(id, nodes, k) + if IsDependency(n) && n.stableKey == k then [Member(id, n)] else []
  {
    assert (nodes + [n])[..|nodes|] == nodes;
  }

  lemma GroupMapEntry(groups: map<Text, seq<Member>>, done: seq<Entry>, e: Entry, id: Identity)
    requires GroupMap(groups, done, IdOf(e), e.nodes)
    ensures GroupMap(groups, done + [e], id, [])
  {
    assert (done + [e])[..|done|] == done;
    forall k ensures Lookup(groups, k) == Members(done + [e], k) + NodeMembers(id, [], k) {
      assert Lookup(groups, k) == Members(done, k) + NodeMembers(IdOf(e), e.nodes, k);
    }
  }

  lemma NoGroupsYet(id: Identity)
    ensures GroupMap(map[], [], id, [])
  {
  }

  lemma GroupMapDone(groups: map<Text, seq<Member>>, done: seq<Entry>, id: Identity)
    requires GroupMap(groups, done, id, [])
    ensures forall k :: (k in groups <==> Members(done, k) != []) && (k in groups ==> groups[k] == Members(done, k))
  {
    hide Members;
    forall k ensures (k in groups <==> Members(done, k) != []) && (k in groups ==> groups[k] == Members(done, k)) {
      assert Lookup(groups, k) == Members(done, k) + NodeMembers(id, [], k);
    }
  }

  method GroupFacts(entries: seq<Entry>) returns (groups: map<Text, seq<Member>>)
    ensures forall k :: (k in groups <==>
              Members(entries, k) != []) && (k in groups ==> groups[k] == Members(entries, k))
  {
    hide GroupMap, Members;
    groups := map[];
    ghost var any := Identity([], []);
    NoGroupsYet(any);
    for i := 0 to |entries|
      invariant GroupMap(groups, entries[..i], any, [])
    {
      var e := entries[i];
      assert entries[..i + 1] == entries[..i] + [e];
      GroupMapAnyId(groups, entries[..i], any, IdOf(e));
      for j := 0 to |e.nodes|
        invariant GroupMap(groups, entries[..i], IdOf(e), e.nodes[..j])
      {
        var n := e.nodes[j];
        assert e.nodes[..j + 1] == e.nodes[..j] + [n];
        GroupMapStep(groups, entries[..i], IdOf(e), e.nodes[..j], n);
        if IsDependency(n) {
          groups := groups[n.stableKey := Lookup(groups, n.stableKey) + [Member(IdOf(e), n)]];
        }
      }
      assert e.nodes[..|e.nodes|] == e.nodes;
      GroupMapEntry(groups, entries[..i], e, any);
    }
    assert entries[..|entries|] == entries;
    GroupMapDone(groups, entries, any);
  }

  lemma GroupMapAnyId(groups: map<Text, seq<Member>>, done: seq<Entry>, id: Identity, other: Identity)
    requires GroupMap(groups, done, id, [])
    ensures GroupMap(groups, done, other, [])
  {
  }

  /** `defaultdict(list)`. */
  function Lookup<A, B>(m: map<A, seq<B>>, k: A): seq<B> { if k in m then m[k] else [] }

  /** One key's merged node has been added to the producers in `ids`. */
  ghost predicate Added(entries: seq<Entry>, k: Text, before: map<Identity, seq<Node>>,
                        after: map<Identity, seq<Node>>, ids: set<Identity>)
    requires Members(entries, k) != []
  {
    && after.Keys == before.Keys + ids
    && forall id :: Lookup(after, id) == Lookup(before, id) + if id in ids then [NodeFor(entries, k, id)] else []
  }

  lemma AddedStep(entries: seq<Entry>, k: Text, before: map<Identity, seq<Node>>, after: map<Identity, seq<Node>>,
                  ids: set<Identity>, id: Identity)
    requires Members(entries, k) != [] && Added(entries, k, before, after, ids) && id !in ids
    ensures Added(entries, k, before, after[id := Lookup(after, id) + [NodeFor(entries, k, id)]], ids + {id})
  {
    hide Members, NodeFor;
    var next := after[id := Lookup(after, id) + [NodeFor(entries, k, id)]];
    forall other
      ensures Lookup(next, other) ==
              Lookup(before, other) + if other in ids + {id} then [NodeFor(entries, k, other)] else []
    {
      assert Lookup(after, other) == Lookup(before, other) + if other in ids then [NodeFor(entries, k, other)] else [];
    }
  }

  /** Adds one key's merged node to each of its producers. */
  method AddMerged(ghost entries: seq<Entry>, k: Text, members: seq<Member>, byProducer: map<Identity, seq<Node>>)
    returns (r: map<Identity, seq<Node>>)
    requires members == Members(entries, k) && members != []
    ensures Added(entries, k, byProducer, r, Ids(members))
  {
    hide Ids, NodeFor, Members, Ordered, Added, EvidenceOf;
    var merged := BuildMergedNode(k, members);
    var grouped := EvidenceByProducer(members);
    NodeForIs(entries, k);
    SortedIds(members);
    r := byProducer;
    var rest := grouped.Keys;
    NothingAdded(entries, k, byProducer);
    assert grouped.Keys - rest == {};
    while rest != {}
      invariant rest <= grouped.Keys && Added(entries, k, byProducer, r, grouped.Keys - rest)
      decreases |rest|
    {
      var id :| id in rest;
      var node := merged.(evidence := grouped[id]);
      assert Lookup(grouped, id) == grouped[id];
      AddedStep(entries, k, byProducer, r, grouped.Keys - rest, id);
      r := r[id := Lookup(r, id) + [node]];
      assert grouped.Keys - rest + {id} == grouped.Keys - (rest - {id});
      rest := rest - {id};
    }
    assert grouped.Keys - rest == grouped.Keys;
  }

  lemma NothingAdded(entries: seq<Entry>, k: Text, before: map<Identity, seq<Node>>)
    requires Members(entries, k) != []
    ensures Added(entries, k, before, before, {})
  {
  }

  lemma NodeForIs(entries: seq<Entry>, k: Text)
    requires Members(entries, k) != []
    ensures Ordered(Members(entries, k)) != []
    ensures forall id :: NodeFor(entries, k, id) ==
                         var ordered := Ordered(Members(entries, k));
                         MergedNode(k, ordered).(evidence := EvidenceOf(ordered, id))
  {
    SortPermutes(Members(entries, k), MemberKey);
  }

  method KeepNodes(nodes: seq<Node>, gone: set<Text>) returns (kept: seq<Node>)
    ensures kept == Kept(nodes, gone)
  {
    kept := [];
    for i := 0 to |nodes|
      invariant kept == Kept(nodes[..i], gone)
    {
      assert nodes[..i + 1][..i] == nodes[..i];
      if !(IsDependency(nodes[i]) && nodes[i].stableKey in gone) {
        kept := kept + [nodes[i]];
      }
    }
    assert nodes[..|nodes|] == nodes;
  }

  ghost function KeyIds(entries: seq<Entry>, keys: seq<Text>): set<Identity> {
    set k, id | k in keys && id in Ids(Members(entries, k)) :: id
  }

  lemma KeyIdsStep(entries: seq<Entry>, keys: seq<Text>, i: nat)
    requires i < |keys|
    ensures KeyIds(entries, keys[..i + 1]) == KeyIds(entries, keys[..i]) + Ids(Members(entries, keys[i]))
  {
    hide Ids, Members;
    assert keys[..i + 1] == keys[..i] + [keys[i]];
  }

  lemma NodesForStep(entries: seq<Entry>, keys: seq<Text>, i: nat, id: Identity)
    requires i < |keys| && forall k :: k in keys ==> Members(entries, k) != []
    ensures (forall k :: k in keys[..i] ==> k in keys) && (forall k :: k in keys[..i + 1] ==> k in keys)
    ensures keys[i] in keys
    ensures NodesFor(entries, keys[..i + 1], id) ==
            NodesFor(entries, keys[..i], id)
            + if id in Ids(Members(entries, keys[i])) then [NodeFor(entries, keys[i], id)] else []
  {
    assert keys[..i + 1][..i] == keys[..i];
  }

  /** The nodes per producer for the first keys of the sorted list. */
  ghost predicate NodeMap(entries: seq<Entry>, keys: seq<Text>, byProducer: map<Identity, seq<Node>>)
    requires forall k :: k in keys ==> Members(entries, k) != []
  {
    byProducer.Keys == KeyIds(entries, keys) && forall id :: Lookup(byProducer, id) == NodesFor(entries, keys, id)
  }

  lemma NodeMapStep(entries: seq<Entry>, keys: seq<Text>, i: nat, before: map<Identity, seq<Node>>,
                    after: map<Identity, seq<Node>>)
    requires i < |keys| && forall k :: k in keys ==> Members(entries, k) != []
    requires NodeMap(entries, keys[..i], before) && keys[i] in keys
    requires Added(entries, keys[i], before, after, Ids(Members(entries, keys[i])))
    ensures NodeMap(entries, keys[..i + 1], after)
  {
    hide Members, Ids, NodesFor, NodeFor, KeyIds;
    KeyIdsStep(entries, keys, i);
    forall id ensures Lookup(after, id) == NodesFor(entries, keys[..i + 1], id) {
      NodesForStep(entries, keys, i, id);
      assert Lookup(before, id) == NodesFor(entries, keys[..i], id);
    }
  }

  /** The loop over the sorted mergeable keys; `None` when the member order raises. */
  method CollectNodes(ghost entries: seq<Entry>, groups: map<Text, seq<Member>>, keys: seq<Text>)
    returns (r: Option<map<Identity, seq<Node>>>)
    requires keys == SortedKeys(entries) && forall k :: k in keys ==> k in groups && groups[k] == Members(entries, k)
    ensures r == None <==> Raises(entries)
    ensures r.Some? ==> NodeMap(entries, keys, r.value)
  {
    hide Members, Mergeable, Ids, NodeMap, Added, HasEvidence;
    var byProducer: map<Identity, seq<Node>> := map[];
    assert keys[..0] == [];
    EmptyStart(entries);
    for i := 0 to |keys|
      invariant NodeMap(entries, keys[..i], byProducer)
      invariant forall j :: 0 <= j < i ==> HasEvidence(Members(entries, keys[j]))
    {
      var k := keys[i];
      assert k in keys;
      if !HasEvidence(groups[k]) {
        return None;
      }
      ghost var before := byProducer;
      byProducer := AddMerged(entries, k, groups[k], byProducer);
      NodeMapStep(entries, keys, i, before, byProducer);
    }
    assert keys[..|keys|] == keys;
    r := Some(byProducer);
    forall k | k in Mergeable(entries) ensures HasEvidence(Members(entries, k)) {
      assert k in keys;
    }
  }

  /** `merge_dependency_facts`, up to the merged entries. */
  method MergeGroups(ghost entries: seq<Entry>, groups: map<Text, seq<Member>>, mergeable: set<Text>)
    returns (r: Option<seq<Entry>>)
    requires mergeable == Mergeable(entries) && mergeable <= groups.Keys
    requires forall k :: k in groups ==> groups[k] == Members(entries, k)
    ensures r == None <==> Raises(entries)
    ensures r.Some? ==> r.value == MergedEntries(entries)
  {
    hide Members, Mergeable, NodesFor, Separates, KeyIds, Raises;
    KeysSeparate(mergeable);
    var keys := SortSet(mergeable, TextKey);
    var collected := CollectNodes(entries, groups, keys);
    if collected == None {
      return None;
    }
    var merged := BuildEntries(entries, collected.value);
    r := Some(merged);
  }

  method BuildEntries(ghost entries: seq<Entry>, byProducer: map<Identity, seq<Node>>) returns (merged: seq<Entry>)
    requires NodeMap(entries, SortedKeys(entries), byProducer)
    ensures merged == MergedEntries(entries)
  {
    hide Members, Mergeable, NodesFor, Separates, KeyIds, Contributors, Lists, MergedEntries, SortedSet;
    ContributorsAre(entries);
    IdentitiesSeparate(byProducer.Keys);
    var ids := SortSet(byProducer.Keys, IdentityKey);
    ListsMembers(ids, byProducer.Keys, IdentityKey);
    MergedCount(entries);
    merged := [];
    for i := 0 to |ids|
      invariant merged == MergedEntries(entries)[..i]
    {
      assert ids[i] in ids;
      assert Lookup(byProducer, ids[i]) == byProducer[ids[i]];
      MergedAt(entries, i);
      merged := merged + [Entry(ids[i].producer, ids[i].version, byProducer[ids[i]], [], [])];
    }
  }

  lemma MergedCount(entries: seq<Entry>)
    ensures |MergedEntries(entries)| == |SortedContributors(entries)| && |Rewritten(entries)| == |entries|
    ensures SortedContributors(entries)[..|MergedEntries(entries)|] == SortedContributors(entries)
  {
  }

  lemma MergedAt(entries: seq<Entry>, i: nat)
    requires i < |SortedContributors(entries)|
    ensures i < |MergedEntries(entries)|
    ensures MergedEntries(entries)[i] == MergedEntry(entries, SortedContributors(entries)[i])
  {
    hide MergedEntry, SortedContributors;
  }

  lemma EmptyStart(entries: seq<Entry>)
    ensures NodeMap(entries, [], map[])
  {
  }

  lemma ContributorsAre(entries: seq<Entry>)
    ensures KeyIds(entries, SortedKeys(entries)) == Contributors(entries)
  {
    hide Ids, Members, Mergeable;
  }

  /** `merge_dependency_facts`: the merged entries, then every entry without its merged nodes. */
  method MergeDependencyFacts(entries: seq<Entry>) returns (r: Option<seq<Entry>>)
    ensures r == None <==> Raises(entries)
    ensures r.Some? ==> r.value == Merge(entries)
  {
    hide Members, Mergeable, MergedEntries, Raises;
    var groups := GroupFacts(entries);
    var mergeable := set k | k in groups && AllKnown(groups[k]);
    assert mergeable == Mergeable(entries) by {
      forall k ensures k in mergeable <==> k in Mergeable(entries) { MergeableMembers(entries, k); }
    }
    if mergeable == {} {
      NothingToMerge(entries);
      return Some(entries);
    }
    var merged := MergeGroups(entries, groups, mergeable);
    if merged == None {
      return None;
    }
    var rewritten: seq<Entry> := [];
    for i := 0 to |entries|
      invariant rewritten == Rewritten(entries)[..i]
    {
      var kept := KeepNodes(entries[i].nodes, mergeable);
      rewritten := rewritten + [if kept == entries[i].nodes then entries[i] else entries[i].(nodes := kept)];
    }
    r := Some(merged.value + rewritten);
  }

  lemma {:induction false} KeptAll(nodes: seq<Node>)
    ensures Kept(nodes, {}) == nodes
  {
    hide IsDependency;
    if nodes != [] {
      KeptAll(nodes[..|nodes| - 1]);
      assert nodes == nodes[..|nodes| - 1] + [nodes[|nodes| - 1]];
    }
  }

  lemma NothingToMerge(entries: seq<Entry>)
    requires Mergeable(entries) == {}
    ensures Merge(entries) == entries && !Raises(entries)
  {
    hide Mergeable, Members;
    assert Contributors(entries) == {};
    assert forall id :: id !in SortedContributors(entries);
    assert SortedContributors(entries) == [];
    forall i | 0 <= i < |entries| ensures Rewritten(entries)[i] == entries[i] {
      KeptAll(entries[i].nodes);
    }
  }
}
