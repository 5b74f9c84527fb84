/** Merged dependencies in columns. */
module DependencyColumns {
  // What a merged node, its records and its entry hold, told in the columns of the nodes
  // that were merged.

  import opened Order
  import opened StableSort
  import opened Dependencies
  import opened DependencyLaws

  // ------------------------------------------------- which nodes are merged

  ghost predicate DependencyIn(e: Entry, n: Node, k: Text) {
    n in e.nodes && n.nodeKind == T("dependency") && n.stableKey == k
  }

  /** A key is merged exactly when it names a dependency and only the two dependency producers describe it. */
  lemma MergedExactly(entries: seq<Entry>, k: Text)
    ensures k in Mergeable(entries) <==>
            && (exists e, n :: e in entries && DependencyIn(e, n, k))
            && (forall e, n :: e in entries && DependencyIn(e, n, k) ==>
                  e.producer == T("dependency-manifest") || e.producer == T("dependency-lockfile"))
  {
    hide Members, Mergeable, T;
    MergeableMembers(entries, k);
    MembersIn(entries, k);
    forall e, n | e in entries && DependencyIn(e, n, k) ensures Member(IdOf(e), n) in Members(entries, k) {
      NodeMembersIn(IdOf(e), e.nodes, k);
      assert FromSome(entries, k, Member(IdOf(e), n));
    }
    forall m | m in Members(entries, k)
      ensures exists e :: e in entries && DependencyIn(e, m.node, k) && m.id == IdOf(e)
    {
      var e :| e in entries && m in EntryMembers(e, k);
      NodeMembersIn(IdOf(e), e.nodes, k);
      assert DependencyIn(e, m.node, k);
    }
    if Members(entries, k) != [] { assert Members(entries, k)[0] in Members(entries, k); }
  }

  /** The merge raises exactly when a node of a merged key has no evidence. */
  lemma RaisesExactly(entries: seq<Entry>)
    ensures Raises(entries) <==>
            exists e, n :: e in entries && n in e.nodes && n.nodeKind == T("dependency")
                           && n.stableKey in Mergeable(entries) && n.evidence == []
  {
    hide Members, Mergeable, T;
    if Raises(entries) {
      var k :| k in Mergeable(entries) && !HasEvidence(Members(entries, k));
      var m :| m in Members(entries, k) && m.node.evidence == [];
      MembersIn(entries, k);
      var e :| e in entries && m in EntryMembers(e, k);
      NodeMembersIn(IdOf(e), e.nodes, k);
    }
    if e, n :| e in entries && n in e.nodes && n.nodeKind == T("dependency")
               && n.stableKey in Mergeable(entries) && n.evidence == [] {
      var k := n.stableKey;
      MembersIn(entries, k);
      NodeMembersIn(IdOf(e), e.nodes, k);
      assert FromSome(entries, k, Member(IdOf(e), n));
      assert Member(IdOf(e), n) in Members(entries, k);
    }
  }

  // ------------------------------------------------- the order of members

  /** The path a node names: its manifest, else its lockfile, else none. */
  lemma SourcePathExactly(n: Node, manifest: Value, lockfile: Value)
    requires manifest == Get(n.properties, T("manifest_path")) && lockfile == Get(n.properties, T("lockfile_path"))
    ensures manifest.Str? && manifest.text != [] ==> SourcePath(n) == manifest.text
    ensures !(manifest.Str? && manifest.text != []) && lockfile.Str? ==> SourcePath(n) == lockfile.text
    ensures !(manifest.Str? && manifest.text != []) && !lockfile.Str? ==> SourcePath(n) == []
  {
  }

  /** Manifests come before lockfiles, then by source path, then by the lines of the first evidence. */
  predicate Precedes(m: Member, n: Member)
    requires m.node.evidence != [] && n.node.evidence != []
  {
    var e, f := m.node.evidence[0], n.node.evidence[0];
    if (m.id.producer == T("dependency-manifest")) != (n.id.producer == T("dependency-manifest"))
    then m.id.producer == T("dependency-manifest")
    else if SourcePath(m.node) != SourcePath(n.node) then TextLt(SourcePath(m.node), SourcePath(n.node))
    else if e.startLine != f.startLine then e.startLine < f.startLine
    else e.endLine < f.endLine
  }

  lemma KeyPrecedes(m: Member, n: Member)
    requires m.node.evidence != [] && n.node.evidence != []
    ensures KeyLt(MemberKey(m), MemberKey(n)) <==> Precedes(m, n)
  {
    hide TextLt, KeyLt, SourcePath, T;
    var k, l := MemberKey(m), MemberKey(n);
    KeyLtTotal(k, l);
    TextLtTotal(SourcePath(m.node), SourcePath(n.node));
    if k != l {
      var i := if k[0] != l[0] then 0 else if k[1] != l[1] then 1 else if k[2] != l[2] then 2 else 3;
      assert k[..i] == l[..i];
      if KeyLt(k, l) { FirstDifference(k, l, i); }
      if KeyLt(l, k) { FirstDifference(l, k, i); }
    }
  }

  /** No member of a merged node stands after one that it precedes. */
  lemma MembersInOrder(members: seq<Member>, i: nat, j: nat)
    requires HasEvidence(members) && i < j < |Ordered(members)|
    ensures Ordered(members)[i] in members && Ordered(members)[j] in members
    ensures !Precedes(Ordered(members)[j], Ordered(members)[i])
  {
    hide MemberKey, Precedes;
    var s := Ordered(members);
    SortSorted(members, MemberKey);
    SortMembers(members, MemberKey, s[i]);
    SortMembers(members, MemberKey, s[j]);
    assert KeyLe(MemberKey(s[i]), MemberKey(s[j]));
    KeyPrecedes(s[j], s[i]);
  }

  // ------------------------------------------------- the records

  /** The record tells its member: name, first lines, extractor, version, and the named properties. */
  ghost predicate Tells(r: Record, m: Member, names: seq<string>)
    requires m.node.evidence != []
  {
    && r.name == m.node.name && r.startLine == m.node.evidence[0].startLine && r.endLine == m.node.evidence[0].endLine
    && r.extractor == m.id.producer && r.version == m.id.version
    && (forall f :: f in r.fields <==> NamedBy(f, names))
    && forall f :: f in r.fields ==> r.fields[f] == Get(m.node.properties, f)
  }

  predicate NamedBy(f: Text, names: seq<string>) { exists i :: 0 <= i < |names| && f == T(names[i]) }

  const DECLARATION_NAMES: seq<string> := ["version", "dependency_type", "manifest_path", "workspace_path"]

  const RESOLUTION_NAMES: seq<string> :=
    ["resolved_version", "dependency_scope", "lockfile_path", "lockfile_format", "lockfile_entry", "workspace_path"]

  /** The members that lockfiles contribute, or the others, in order. */
  function Part(members: seq<Member>, lockfiles: bool): seq<Member> {
    if members == [] then []
    else
      var last := members[|members| - 1];
      Part(members[..|members| - 1], lockfiles)
      + if (last.id.producer == T("dependency-lockfile")) == lockfiles then [last] else []
  }

  lemma FieldNames()
    ensures forall f :: f in DeclarationFields() <==> NamedBy(f, DECLARATION_NAMES)
    ensures forall f :: f in ResolutionFields() <==> NamedBy(f, RESOLUTION_NAMES)
  {
    hide T;
    assert DECLARATION_NAMES[0] == "version" && DECLARATION_NAMES[1] == "dependency_type";
    assert DECLARATION_NAMES[2] == "manifest_path" && DECLARATION_NAMES[3] == "workspace_path";
    assert RESOLUTION_NAMES[0] == "resolved_version" && RESOLUTION_NAMES[1] == "dependency_scope";
    assert RESOLUTION_NAMES[2] == "lockfile_path" && RESOLUTION_NAMES[3] == "lockfile_format";
    assert RESOLUTION_NAMES[4] == "lockfile_entry" && RESOLUTION_NAMES[5] == "workspace_path";
  }

  lemma RecordTells(m: Member)
    requires m.node.evidence != []
    ensures Tells(RecordOf(m), m,
                  if m.id.producer == T("dependency-lockfile") then RESOLUTION_NAMES else DECLARATION_NAMES)
  {
    hide DeclarationFields, ResolutionFields, NamedBy, Get, RESOLUTION_NAMES, DECLARATION_NAMES;
    FieldNames();
  }

  lemma {:induction false} RecordsTell(members: seq<Member>, lockfiles: bool)
    requires HasEvidence(members)
    ensures |Records(members, lockfiles)| == |Part(members, lockfiles)|
    ensures forall i :: 0 <= i < |Part(members, lockfiles)| ==>
              && Part(members, lockfiles)[i] in members
              && Tells(Records(members, lockfiles)[i], Part(members, lockfiles)[i],
                       if lockfiles then RESOLUTION_NAMES else DECLARATION_NAMES)
  {
    hide Tells, RecordOf, RESOLUTION_NAMES, DECLARATION_NAMES, T;
    if members != [] {
      RecordsTell(members[..|members| - 1], lockfiles);
      RecordTells(members[|members| - 1]);
    }
  }

  /**
   A merged node: named after its first member, with that member's ecosystem, a declaration for
   each manifest member and a resolution for each lockfile member, in order.
   */
  lemma MergedNodeTells(key: Text, members: seq<Member>)
    requires members != [] && HasEvidence(members)
    ensures Ordered(members) != [] && HasEvidence(Ordered(members))
    ensures var s, n := Ordered(members), MergedNode(key, Ordered(members));
            && n.nodeKind == T("dependency") && n.stableKey == key && n.name == s[0].node.name && n.language == Null
            && n.properties.Merged? && n.properties.ecosystem == Get(s[0].node.properties, T("ecosystem"))
            && |n.properties.declarations| == |Part(s, false)| && |n.properties.resolutions| == |Part(s, true)|
            && (forall i :: 0 <= i < |Part(s, false)| ==>
                  && Part(s, false)[i] in s
                  && Tells(n.properties.declarations[i], Part(s, false)[i], DECLARATION_NAMES))
            && forall i :: 0 <= i < |Part(s, true)| ==>
                 Part(s, true)[i] in s && Tells(n.properties.resolutions[i], Part(s, true)[i], RESOLUTION_NAMES)
  {
    hide Tells, RESOLUTION_NAMES, DECLARATION_NAMES, T, MemberKey, Part, Records;
    var s := Ordered(members);
    SortPermutes(members, MemberKey);
    forall m | m in s ensures m.node.evidence != [] { SortMembers(members, MemberKey, m); }
    RecordsTell(s, false);
    RecordsTell(s, true);
  }

  // ------------------------------------------------- the entries

  /** Merged entries come in order of producer and version, one for each that describes a merged key. */
  lemma EntriesInOrder(entries: seq<Entry>, i: nat, j: nat)
    requires i < j < |MergedEntries(entries)|
    ensures var e, f := MergedEntries(entries)[i], MergedEntries(entries)[j];
            TextLt(e.producer, f.producer) || (e.producer == f.producer && TextLt(e.version, f.version))
  {
    hide TextLt, MergedEntry, KeyLt;
    MergedCount(entries);
    MergedAt(entries, i);
    MergedAt(entries, j);
    var x, y := SortedContributors(entries)[i], SortedContributors(entries)[j];
    var k, l := IdentityKey(x), IdentityKey(y);
    assert KeyLt(k, l);
    KeyLtTotal(k, l);
    FirstDifference(k, l, if x.producer != y.producer then 0 else 1);
    EntryOf(entries, x);
    EntryOf(entries, y);
  }

  lemma EntryOf(entries: seq<Entry>, id: Identity)
    ensures var e := MergedEntry(entries, id);
            e.producer == id.producer && e.version == id.version && e.observations == [] && e.diagnostics == []
  {
  }

  lemma TextOrder(a: Text, b: Text)
    requires KeyLt(TextKey(a), TextKey(b))
    ensures TextLt(a, b)
  {
    hide TextLt, KeyLt;
    KeyLtTotal(TextKey(a), TextKey(b));
    FirstDifference(TextKey(a), TextKey(b), 0);
  }

  /** The node of one of the keys, carried for a producer that describes it. */
  ghost predicate CarriedFor(entries: seq<Entry>, keys: seq<Text>, id: Identity, n: Node) {
    && n.stableKey in keys && Members(entries, n.stableKey) != [] && id in Ids(Members(entries, n.stableKey))
    && n == NodeFor(entries, n.stableKey, id)
  }

  ghost predicate ByKey(nodes: seq<Node>) {
    forall i, j :: 0 <= i < j < |nodes| ==> TextLt(nodes[i].stableKey, nodes[j].stableKey)
  }

  lemma {:induction false} NodesInOrder(entries: seq<Entry>, keys: seq<Text>, id: Identity)
    requires (forall k :: k in keys ==> Members(entries, k) != []) && StrictlySortedBy(keys, TextKey)
    ensures ByKey(NodesFor(entries, keys, id))
    ensures forall n :: n in NodesFor(entries, keys, id) ==> CarriedFor(entries, keys, id, n)
    ensures forall k :: k in keys && id in Ids(Members(entries, k)) ==>
              NodeFor(entries, k, id) in NodesFor(entries, keys, id)
  {
    hide Members, TextLt, NodeFor, Ids, KeyLt, TextKey;
    if keys != [] {
      var init, last := keys[..|keys| - 1], keys[|keys| - 1];
      NodesInOrder(entries, init, id);
      NamedNode(entries, last, id);
      var nodes := NodesFor(entries, init, id);
      forall i | 0 <= i < |nodes| ensures TextLt(nodes[i].stableKey, last) {
        assert nodes[i] in nodes;
        var j :| 0 <= j < |init| && init[j] == nodes[i].stableKey;
        assert KeyLt(TextKey(keys[j]), TextKey(last));
        TextOrder(keys[j], last);
      }
      assert keys == init + [last];
    }
  }

  lemma NamedNode(entries: seq<Entry>, k: Text, id: Identity)
    requires Members(entries, k) != []
    ensures NodeFor(entries, k, id).stableKey == k
  {
    hide Members, MemberKey, Records, EvidenceOf;
  }

  /** The nodes of a merged entry come in order of stable key: one for each merged key that its producer describes. */
  lemma EntryNodes(entries: seq<Entry>, id: Identity)
    ensures ByKey(MergedEntry(entries, id).nodes)
    ensures forall k :: (exists n :: n in MergedEntry(entries, id).nodes && n.stableKey == k) <==>
                        k in Mergeable(entries) && id in Ids(Members(entries, k))
  {
    hide Members, Mergeable, TextLt, NodeFor, NodesFor, Ids;
    var keys := SortedKeys(entries);
    ListsMembers(keys, Mergeable(entries), TextKey);
    NodesInOrder(entries, keys, id);
    var nodes := NodesFor(entries, keys, id);
    forall k | k in Mergeable(entries) && id in Ids(Members(entries, k))
      ensures exists n :: n in nodes && n.stableKey == k
    {
      NamedNode(entries, k, id);
      assert NodeFor(entries, k, id) in nodes;
    }
  }
}
