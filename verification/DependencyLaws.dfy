/** What merging dependencies keeps. */
module DependencyLaws {
  import opened Order
  import opened StableSort
  import opened Dependencies

  // ------------------------------------------------- file order

  /** Two entries hold nodes of one key from the same producer name and source path. */
  ghost predicate SharesSource(e: Entry, f: Entry) {
    exists k, m, n ::
      && m in EntryMembers(e, k) && n in EntryMembers(f, k)
      && m.id.producer == n.id.producer && SourcePath(m.node) == SourcePath(n.node)
  }

  /** One entry per producer and source path. */
  ghost predicate OneEntryPerSource(entries: seq<Entry>) {
    forall e, f :: e in entries && f in entries && SharesSource(e, f) ==> e == f && multiset(entries)[e] == 1
  }

  /** The nodes of one entry with one stable key and one sort key. */
  ghost function Piece(e: Entry, k: Text, key: Key): seq<Member> { Tier(EntryMembers(e, k), MemberKey, key) }

  /** At most one entry has such nodes, and it comes once. */
  ghost predicate Lone(entries: seq<Entry>, k: Text, key: Key) {
    forall e, f :: e in entries && f in entries && Piece(e, k, key) != [] && Piece(f, k, key) != [] ==>
        e == f && multiset(entries)[e] == 1
  }

  lemma {:induction false} LonePiece(entries: seq<Entry>, k: Text, key: Key)
    requires Lone(entries, k, key)
    ensures forall e :: e in entries && Piece(e, k, key) != [] ==>
            Tier(Members(entries, k), MemberKey, key) == Piece(e, k, key)
    ensures (forall e :: e in entries ==> Piece(e, k, key) == []) ==> Tier(Members(entries, k), MemberKey, key) == []
  {
    hide Piece, EntryMembers, Tier, Lone;
    if entries == [] {
      TierEmpty(Members(entries, k), MemberKey, key);
    } else {
      var init, last := entries[..|entries| - 1], entries[|entries| - 1];
      assert entries == init + [last];
      LoneInit(init, last, k, key);
      LonePiece(init, k, key);
      TierConcat(Members(init, k), EntryMembers(last, k), MemberKey, key);
      PieceIs(last, k, key);
    }
  }

  lemma LoneInit(init: seq<Entry>, last: Entry, k: Text, key: Key)
    requires Lone(init + [last], k, key)
    ensures Lone(init, k, key)
    ensures Piece(last, k, key) != [] ==> forall e :: e in init ==> Piece(e, k, key) == []
  {
    hide Piece;
    assert multiset(init + [last]) == multiset(init) + multiset{last};
    assert forall e :: e in init ==> e in multiset(init) && e in init + [last];
  }

  lemma PieceIs(e: Entry, k: Text, key: Key)
    ensures Piece(e, k, key) == Tier(EntryMembers(e, k), MemberKey, key)
  {
  }

  lemma KeyTellsSource(m: Member, n: Member)
    requires MemberKey(m) == MemberKey(n) && Known(m.id.producer) && Known(n.id.producer)
    ensures m.id.producer == n.id.producer && SourcePath(m.node) == SourcePath(n.node)
  {
    assert MemberKey(m)[0] == MemberKey(n)[0] && MemberKey(m)[1] == MemberKey(n)[1];
  }

  lemma OneEntryIsLone(entries: seq<Entry>, k: Text, key: Key)
    requires OneEntryPerSource(entries) && AllKnown(Members(entries, k))
    ensures Lone(entries, k, key)
  {
    hide SourcePath, Members, MemberKey, EntryMembers, Known, Tier;
    MembersIn(entries, k);
    forall e, f | e in entries && f in entries && Piece(e, k, key) != [] && Piece(f, k, key) != []
      ensures e == f && multiset(entries)[e] == 1
    {
      var m, n := Piece(e, k, key)[0], Piece(f, k, key)[0];
      TierMembers(EntryMembers(e, k), MemberKey, key);
      TierMembers(EntryMembers(f, k), MemberKey, key);
      assert m in Piece(e, k, key) && n in Piece(f, k, key);
      assert FromSome(entries, k, m) && FromSome(entries, k, n);
      KeyTellsSource(m, n);
      assert SharesSource(e, f);
    }
  }

  lemma SameEntries(p: seq<Entry>, q: seq<Entry>)
    requires multiset(p) == multiset(q)
    ensures forall e :: e in p <==> e in q
  {
    assert forall e :: e in p <==> e in multiset(p);
    assert forall e :: e in q <==> e in multiset(q);
  }

  lemma SameMembers(p: seq<Entry>, q: seq<Entry>, k: Text)
    requires forall e :: e in p <==> e in q
    ensures forall m :: m in Members(p, k) <==> m in Members(q, k)
    ensures Ids(Members(p, k)) == Ids(Members(q, k)) && AllKnown(Members(p, k)) == AllKnown(Members(q, k))
    ensures HasEvidence(Members(p, k)) == HasEvidence(Members(q, k)) && (Members(p, k) == [] <==> Members(q, k) == [])
  {
    hide Members;
    MembersIn(p, k);
    MembersIn(q, k);
    assert forall m :: FromSome(p, k, m) <==> FromSome(q, k, m);
    if Members(p, k) != [] { assert Members(p, k)[0] in Members(q, k); }
    if Members(q, k) != [] { assert Members(q, k)[0] in Members(p, k); }
  }

  lemma SameMergeable(p: seq<Entry>, q: seq<Entry>)
    requires forall e :: e in p <==> e in q
    ensures Mergeable(p) == Mergeable(q) && Contributors(p) == Contributors(q) && Raises(p) == Raises(q)
  {
    hide Members, Mergeable, Ids;
    forall k ensures k in Mergeable(p) <==> k in Mergeable(q) {
      MergeableMembers(p, k);
      MergeableMembers(q, k);
      SameMembers(p, q, k);
    }
    forall k
      ensures Ids(Members(p, k)) == Ids(Members(q, k)) && HasEvidence(Members(p, k)) == HasEvidence(Members(q, k))
    {
      SameMembers(p, q, k);
    }
  }

  lemma SortedKeysMergeable(p: seq<Entry>)
    ensures forall k :: k in SortedKeys(p) <==> k in Mergeable(p)
    ensures Distinct(SortedKeys(p))
  {
    forall i, j | 0 <= i < j < |SortedKeys(p)| ensures SortedKeys(p)[i] != SortedKeys(p)[j] {
      KeyLtTotal(TextKey(SortedKeys(p)[i]), TextKey(SortedKeys(p)[j]));
    }
  }

  // ------------------------------------------------- evidence

  lemma {:induction false} EvidenceConcat(a: seq<Member>, b: seq<Member>, id: Identity)
    ensures EvidenceOf(a + b, id) == EvidenceOf(a, id) + EvidenceOf(b, id)
  {
    if b == [] {
      assert a + b == a;
    } else {
      assert (a + b)[..|a + b| - 1] == a + b[..|b| - 1];
      EvidenceConcat(a, b[..|b| - 1], id);
    }
  }

  function Own(m: Member, id: Identity): seq<Evidence> { if m.id == id then m.node.evidence else [] }

  lemma EvidenceCons(m: Member, s: seq<Member>, id: Identity)
    ensures EvidenceOf([m] + s, id) == Own(m, id) + EvidenceOf(s, id)
  {
    EvidenceConcat([m], s, id);
    assert [m][..0] == [];
  }

  lemma {:induction false} EvidenceInserted(m: Member, s: seq<Member>, id: Identity)
    ensures multiset(EvidenceOf(Insert(m, s, MemberKey), id)) == multiset(Own(m, id)) + multiset(EvidenceOf(s, id))
  {
    hide EvidenceOf, MemberKey, KeyLe;
    if s == [] || KeyLe(MemberKey(m), MemberKey(s[0])) {
      EvidenceCons(m, s, id);
    } else {
      EvidenceInserted(m, s[1..], id);
      EvidenceCons(s[0], Insert(m, s[1..], MemberKey), id);
      EvidenceCons(s[0], s[1..], id);
      assert s == [s[0]] + s[1..];
    }
  }

  lemma {:induction false} EvidenceSorted(s: seq<Member>, id: Identity)
    ensures multiset(EvidenceOf(Ordered(s), id)) == multiset(EvidenceOf(s, id))
  {
    hide EvidenceOf, MemberKey;
    if s != [] {
      EvidenceSorted(s[1..], id);
      EvidenceInserted(s[0], Ordered(s[1..]), id);
      EvidenceCons(s[0], s[1..], id);
      assert s == [s[0]] + s[1..];
    }
  }

  lemma {:induction false} NoEvidenceOfOthers(s: seq<Member>, id: Identity)
    requires id !in Ids(s)
    ensures EvidenceOf(s, id) == []
  {
    if s != [] {
      assert s[|s| - 1] in s;
      NoEvidenceOfOthers(s[..|s| - 1], id);
    }
  }

  // ------------------------------------------------- the tail

  lemma {:induction false} KeptMembers(id: Identity, nodes: seq<Node>, gone: set<Text>, k: Text)
    ensures NodeMembers(id, Kept(nodes, gone), k) == if k in gone then [] else NodeMembers(id, nodes, k)
  {
    if nodes != [] {
      var init, last := nodes[..|nodes| - 1], nodes[|nodes| - 1];
      KeptMembers(id, init, gone, k);
      assert (Kept(init, gone) + [last])[..|Kept(init, gone)|] == Kept(init, gone);
      assert Kept(init, gone) + [] == Kept(init, gone);
    }
  }

  /** No merged key remains in the tail, and every other key keeps its members in order. */
  lemma {:induction false} TailMembers(entries: seq<Entry>, j: nat, k: Text)
    requires j <= |entries|
    ensures Members(Rewritten(entries)[..j], k) == if k in Mergeable(entries) then [] else Members(entries[..j], k)
  {
    hide Mergeable, Kept, Members, NodeMembers;
    if j == 0 {
      NoMembers(k);
      assert entries[..0] == [] && Rewritten(entries)[..0] == [];
    } else {
      var tail := Rewritten(entries);
      TailMembers(entries, j - 1, k);
      KeptMembers(IdOf(entries[j - 1]), entries[j - 1].nodes, Mergeable(entries), k);
      assert tail[..j] == tail[..j - 1] + [tail[j - 1]] && entries[..j] == entries[..j - 1] + [entries[j - 1]];
      MembersAppended(tail[..j - 1], tail[j - 1], k);
      MembersAppended(entries[..j - 1], entries[j - 1], k);
    }
  }

  /** Every entry stays where it was, with its observations and diagnostics; only merged nodes left it. */
  lemma TailInPlace(entries: seq<Entry>, i: nat)
    requires i < |entries|
    ensures |Merge(entries)| == |Contributors(entries)| + |entries|
    ensures var was, now := entries[i], Merge(entries)[|Contributors(entries)| + i];
            && now.observations == was.observations && now.diagnostics == was.diagnostics && IdOf(now) == IdOf(was)
            && forall n :: n in now.nodes <==>
                n in was.nodes && !(IsDependency(n) && n.stableKey in Mergeable(entries))
  {
    hide Mergeable, Contributors, NodesFor, Kept;
    ContributorCount(entries);
    KeptNodes(entries[i].nodes, Mergeable(entries));
  }

  lemma ContributorCount(entries: seq<Entry>)
    ensures |SortedContributors(entries)| == |Contributors(entries)|
  {
    hide Contributors;
    var ids := SortedContributors(entries);
    assert Distinct(ids) by {
      forall i, j | 0 <= i < j < |ids| ensures ids[i] != ids[j] {
        KeyLtTotal(IdentityKey(ids[i]), IdentityKey(ids[j]));
      }
    }
    DistinctSize(ids);
    assert (set x | x in ids) == Contributors(entries);
  }

  lemma {:induction false} KeptNodes(nodes: seq<Node>, gone: set<Text>)
    ensures forall n :: n in Kept(nodes, gone) <==> n in nodes && !(IsDependency(n) && n.stableKey in gone)
  {
    if nodes != [] {
      KeptNodes(nodes[..|nodes| - 1], gone);
      assert nodes == nodes[..|nodes| - 1] + [nodes[|nodes| - 1]];
    }
  }

  // ------------------------------------------------- the merged entries

  lemma NoNodes(id: Identity, k: Text)
    ensures NodeMembers(id, [], k) == []
  {
  }

  lemma NodeForShape(entries: seq<Entry>, k: Text, id: Identity)
    requires Members(entries, k) != []
    ensures IsDependency(NodeFor(entries, k, id)) && NodeFor(entries, k, id).stableKey == k
  {
  }

  /** A producer's merged entry holds each of its keys once. */
  lemma {:induction false} MergedMembers(entries: seq<Entry>, keys: seq<Text>, id: Identity, k: Text)
    requires Distinct(keys) && forall x :: x in keys ==> Members(entries, x) != []
    ensures NodeMembers(id, NodesFor(entries, keys, id), k) ==
            if k in keys && id in Ids(Members(entries, k)) then [Member(id, NodeFor(entries, k, id))] else []
  {
    hide Members, Ids, NodeFor, NodeMembers, IsDependency;
    if keys == [] {
      NoNodes(id, k);
    } else {
      var init, last := keys[..|keys| - 1], keys[|keys| - 1];
      assert keys == init + [last];
      MergedMembers(entries, init, id, k);
      var nodes := NodesFor(entries, init, id);
      if id in Ids(Members(entries, last)) {
        NodeForShape(entries, last, id);
        NodeAppended(id, nodes, NodeFor(entries, last, id), k);
      } else {
        assert nodes + [] == nodes;
      }
    }
  }

  /** The evidence of one key and producer in the merged entries so far. */
  lemma {:induction false} MergedEvidence(entries: seq<Entry>, j: nat, k: Text, id: Identity)
    requires j <= |MergedEntries(entries)|
    ensures EvidenceOf(Members(MergedEntries(entries)[..j], k), id) ==
            if k in Mergeable(entries) && id in SortedContributors(entries)[..j]
            then EvidenceOf(Ordered(Members(entries, k)), id) else []
  {
    hide Mergeable, MergedEntries, SortedContributors, Ordered, EvidenceOf, Members, EntryMembers, MergedEntry;
    var merged, ids := MergedEntries(entries), SortedContributors(entries);
    MergedCount(entries);
    if j == 0 {
      assert merged[..0] == [] && ids[..0] == [];
      NoMembers(k);
      NoMember(id);
    } else {
      MergedEvidence(entries, j - 1, k, id);
      assert merged[..j] == merged[..j - 1] + [merged[j - 1]] && ids[..j] == ids[..j - 1] + [ids[j - 1]];
      MembersAppended(merged[..j - 1], merged[j - 1], k);
      EvidenceConcat(Members(merged[..j - 1], k), EntryMembers(merged[j - 1], k), id);
      MergedAt(entries, j - 1);
      PieceOfMerged(entries, ids[j - 1], k, id);
      ContributorsDistinct(entries, j - 1);
    }
  }

  lemma NoMembers(k: Text)
    ensures Members([], k) == []
  {
  }

  lemma MembersAppended(entries: seq<Entry>, e: Entry, k: Text)
    ensures Members(entries + [e], k) == Members(entries, k) + EntryMembers(e, k)
  {
    assert (entries + [e])[..|entries|] == entries;
  }

  lemma ContributorsDistinct(entries: seq<Entry>, j: nat)
    requires j < |SortedContributors(entries)|
    ensures SortedContributors(entries)[j] !in SortedContributors(entries)[..j]
  {
    hide Contributors;
    var ids := SortedContributors(entries);
    forall i | 0 <= i < j ensures ids[i] != ids[j] {
      KeyLtTotal(IdentityKey(ids[i]), IdentityKey(ids[j]));
    }
  }

  lemma PieceOfMerged(entries: seq<Entry>, owner: Identity, k: Text, id: Identity)
    ensures EvidenceOf(EntryMembers(MergedEntry(entries, owner), k), id) ==
            if k in Mergeable(entries) && id == owner then EvidenceOf(Ordered(Members(entries, k)), id) else []
  {
    hide Mergeable, NodesFor, Members, Ids, EvidenceOf;
    SortedKeysMergeable(entries);
    MergedMembers(entries, SortedKeys(entries), owner, k);
    if k in Mergeable(entries) {
      MergeableMembers(entries, k);
      SortedIds(Members(entries, k));
      if owner in Ids(Members(entries, k)) {
        NodeForIs(entries, k);
        OneMember(Member(owner, NodeFor(entries, k, owner)), id);
      } else {
        NoMember(id);
        if id == owner { NoEvidenceOfOthers(Ordered(Members(entries, k)), id); }
      }
    } else {
      NoMember(id);
    }
  }

  lemma NoMember(id: Identity)
    ensures EvidenceOf([], id) == []
  {
  }

  lemma OneMember(m: Member, id: Identity)
    ensures EvidenceOf([m], id) == Own(m, id)
  {
    assert [m][..0] == [];
  }

  /** For every stable key and producer the multiset of evidence is unchanged. */
  lemma EvidenceConserved(entries: seq<Entry>, k: Text, id: Identity)
    ensures multiset(EvidenceOf(Members(Merge(entries), k), id)) == multiset(EvidenceOf(Members(entries, k), id))
  {
    hide Mergeable, Members, MergedEntries, Rewritten, EvidenceOf, Ids;
    var merged, tail := MergedEntries(entries), Rewritten(entries);
    MembersConcat(merged, tail, k);
    EvidenceConcat(Members(merged, k), Members(tail, k), id);
    MergedCount(entries);
    MergedEvidence(entries, |merged|, k, id);
    TailMembers(entries, |entries|, k);
    assert merged[..|merged|] == merged && tail[..|tail|] == tail && entries[..|entries|] == entries;
    NoMember(id);
    if k in Mergeable(entries) {
      EvidenceSorted(Members(entries, k), id);
      if id !in SortedContributors(entries) {
        OutsideContributors(entries, k, id);
      }
    }
  }

  lemma OutsideContributors(entries: seq<Entry>, k: Text, id: Identity)
    requires k in Mergeable(entries) && id !in SortedContributors(entries)
    ensures EvidenceOf(Members(entries, k), id) == []
  {
    hide Mergeable, EvidenceOf;
    assert id !in Contributors(entries);
    NoEvidenceOfOthers(Members(entries, k), id);
  }

  // ------------------------------------------------- the merged record

  /** The first member in order has the least key of all. */
  lemma FirstIsLeast(members: seq<Member>, m: Member)
    requires m in members
    ensures Ordered(members) != [] && Ordered(members)[0] in members
    ensures KeyLe(MemberKey(Ordered(members)[0]), MemberKey(m))
  {
    hide MemberKey;
    SortSorted(members, MemberKey);
    SortMembers(members, MemberKey, m);
    SortMembers(members, MemberKey, Ordered(members)[0]);
    KeyLtTotal(MemberKey(m), MemberKey(m));
    var j :| 0 <= j < |Ordered(members)| && Ordered(members)[j] == m;
  }

  /** A declared dependency keeps the name and ecosystem that a manifest spelled. */
  lemma DeclaredNameWins(key: Text, members: seq<Member>, m: Member)
    requires AllKnown(members) && m in members && m.id.producer == Manifest()
    ensures Ordered(members) != [] && Ordered(members)[0] in members && Ordered(members)[0].id.producer == Manifest()
    ensures var n := MergedNode(key, Ordered(members));
            n.name == Ordered(members)[0].node.name && n.stableKey == key && IsDependency(n)
  {
    FirstIsLeast(members, m);
    assert MemberKey(m)[0] == Num(0);
  }

  lemma {:induction false} RecordsConcat(a: seq<Member>, b: seq<Member>, resolutions: bool)
    ensures Records(a + b, resolutions) == Records(a, resolutions) + Records(b, resolutions)
  {
    hide RecordOf;
    if b == [] {
      assert a + b == a;
    } else {
      assert (a + b)[..|a + b| - 1] == a + b[..|b| - 1];
      RecordsConcat(a, b[..|b| - 1], resolutions);
    }
  }

  function Single(m: Member, resolutions: bool): seq<Record> {
    if IsResolution(m) == resolutions then [RecordOf(m)] else []
  }

  lemma RecordsCons(m: Member, s: seq<Member>, resolutions: bool)
    ensures Records([m] + s, resolutions) == Single(m, resolutions) + Records(s, resolutions)
  {
    hide RecordOf;
    RecordsConcat([m], s, resolutions);
    assert [m][..0] == [];
  }

  lemma {:induction false} RecordsInserted(m: Member, s: seq<Member>, resolutions: bool)
    ensures multiset(Records(Insert(m, s, MemberKey), resolutions))
         == multiset(Single(m, resolutions)) + multiset(Records(s, resolutions))
  {
    hide Records, MemberKey, KeyLe, RecordOf;
    if s == [] || KeyLe(MemberKey(m), MemberKey(s[0])) {
      RecordsCons(m, s, resolutions);
    } else {
      RecordsInserted(m, s[1..], resolutions);
      RecordsCons(s[0], Insert(m, s[1..], MemberKey), resolutions);
      RecordsCons(s[0], s[1..], resolutions);
      assert s == [s[0]] + s[1..];
    }
  }

  lemma {:induction false} RecordsSorted(s: seq<Member>, resolutions: bool)
    ensures multiset(Records(Ordered(s), resolutions)) == multiset(Records(s, resolutions))
  {
    hide Records, MemberKey, RecordOf;
    if s != [] {
      RecordsSorted(s[1..], resolutions);
      RecordsInserted(s[0], Ordered(s[1..]), resolutions);
      RecordsCons(s[0], s[1..], resolutions);
      assert s == [s[0]] + s[1..];
    }
  }

  lemma {:induction false} RecordsSplit(s: seq<Member>)
    ensures |Records(s, false)| + |Records(s, true)| == |s|
    ensures forall r :: r in Records(s, true) ==> r.extractor == Lockfile()
    ensures forall r :: r in Records(s, false) ==> r.extractor != Lockfile()
  {
    hide Fields, FirstEvidence;
    if s != [] { RecordsSplit(s[..|s| - 1]); }
  }

  /**
   A merged node holds one record per member: resolutions exactly those of lockfiles,
   declarations exactly the others, none lost and none standing in for the other.
   */
  lemma RecordsConserved(key: Text, members: seq<Member>)
    requires members != []
    ensures Ordered(members) != []
    ensures var p := MergedNode(key, Ordered(members)).properties;
            && multiset(p.declarations) == multiset(Records(members, false))
            && multiset(p.resolutions) == multiset(Records(members, true))
            && |p.declarations| + |p.resolutions| == |members|
            && (forall r :: r in p.resolutions ==> r.extractor == Lockfile())
            && (forall r :: r in p.declarations ==> r.extractor != Lockfile())
  {
    hide Records, MemberKey;
    SortPermutes(members, MemberKey);
    RecordsSorted(members, false);
    RecordsSorted(members, true);
    RecordsSplit(Ordered(members));
  }
}
