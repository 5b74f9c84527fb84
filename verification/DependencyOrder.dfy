/** File order of dependencies. */
module DependencyOrder {
  // Files that describe one dependency are merged in the order of `_member_order`; members
  // that tie in it stay in file order. The merge forgets file order exactly when that
  // cannot be seen: when what two tying files contribute commutes.

  import opened Order
  import opened StableSort
  import opened Words
  import opened Dependencies
  import opened DependencyLaws

  // ------------------------------------------------- what a member contributes

  function RecordWord(resolutions: bool): Member -> seq<Record> { (m: Member) => Single(m, resolutions) }

  function EvidenceWord(id: Identity): Member -> seq<Evidence> { (m: Member) => Own(m, id) }

  lemma {:induction false} RecordsFlat(s: seq<Member>, resolutions: bool)
    ensures Records(s, resolutions) == Flat(RecordWord(resolutions), s)
  {
    hide RecordOf;
    if s != [] {
      RecordsFlat(s[1..], resolutions);
      RecordsCons(s[0], s[1..], resolutions);
      assert s == [s[0]] + s[1..];
    }
  }

  lemma {:induction false} EvidenceFlat(s: seq<Member>, id: Identity)
    ensures EvidenceOf(s, id) == Flat(EvidenceWord(id), s)
  {
    if s != [] {
      EvidenceFlat(s[1..], id);
      EvidenceCons(s[0], s[1..], id);
      assert s == [s[0]] + s[1..];
    }
  }

  function Letter(m: Member): seq<Member> { [m] }

  lemma {:induction false} LettersFlat(s: seq<Member>)
    ensures Flat(Letter, s) == s
  {
    if s != [] {
      LettersFlat(s[1..]);
      assert s == [s[0]] + s[1..];
    }
  }

  // ------------------------------------------------- what an entry contributes to one tie

  /** What one entry contributes to the members of key `k` that tie at `key`. */
  ghost function PieceWord<B>(word: Member -> seq<B>, k: Text, key: Key): Entry -> seq<B> {
    (e: Entry) => Flat(word, Piece(e, k, key))
  }

  lemma MembersFront(e: Entry, p: seq<Entry>, k: Text)
    ensures Members([e] + p, k) == EntryMembers(e, k) + Members(p, k)
  {
    hide EntryMembers;
    MembersConcat([e], p, k);
    assert [e] == [] + [e];
    MembersAppended([], e, k);
    NoMembers(k);
  }

  lemma TierFront(e: Entry, p: seq<Entry>, k: Text, key: Key)
    ensures Tier(Members([e] + p, k), MemberKey, key) == Piece(e, k, key) + Tier(Members(p, k), MemberKey, key)
  {
    hide Tier, Members, EntryMembers;
    MembersFront(e, p, k);
    TierConcat(EntryMembers(e, k), Members(p, k), MemberKey, key);
    PieceIs(e, k, key);
  }

  /** The words of a tie are those of its entries, in file order. */
  lemma {:induction false} TierFlat<B>(word: Member -> seq<B>, p: seq<Entry>, k: Text, key: Key)
    ensures Flat(word, Tier(Members(p, k), MemberKey, key)) == Flat(PieceWord(word, k, key), p)
  {
    hide Tier, Members, Piece;
    if p == [] {
      NoMembers(k);
      TierEmpty(Members(p, k), MemberKey, key);
    } else {
      TierFlat(word, p[1..], k, key);
      assert p == [p[0]] + p[1..];
      TierFront(p[0], p[1..], k, key);
      FlatConcat(word, Piece(p[0], k, key), Tier(Members(p[1..], k), MemberKey, key));
    }
  }

  lemma SortedTier(p: seq<Entry>, k: Text, key: Key)
    ensures Tier(Ordered(Members(p, k)), MemberKey, key) == Tier(Members(p, k), MemberKey, key)
  {
    SortTier(Members(p, k), MemberKey, key);
  }

  /** Whatever the file order, ties are as long and so are their words. */
  lemma PermutedParallel<B>(word: Member -> seq<B>, p: seq<Entry>, q: seq<Entry>, k: Text)
    requires multiset(p) == multiset(q)
    ensures Parallel(word, Ordered(Members(p, k)), Ordered(Members(q, k)), MemberKey)
  {
    hide Tier, Members, Flat, MemberKey, Ordered, PieceWord;
    var s, t := Ordered(Members(p, k)), Ordered(Members(q, k));
    forall key
      ensures |Tier(s, MemberKey, key)| == |Tier(t, MemberKey, key)|
      ensures |Flat(word, Tier(s, MemberKey, key))| == |Flat(word, Tier(t, MemberKey, key))|
    {
      SortedTier(p, k, key);
      SortedTier(q, k, key);
      TierFlat(word, p, k, key);
      TierFlat(word, q, k, key);
      FlatLengthPermuted(PieceWord(word, k, key), p, q);
      TierFlat(Letter, p, k, key);
      TierFlat(Letter, q, k, key);
      FlatLengthPermuted(PieceWord(Letter, k, key), p, q);
      LettersFlat(Tier(s, MemberKey, key));
      LettersFlat(Tier(t, MemberKey, key));
    }
  }

  /** The sorted words agree exactly when those of every tie do. */
  lemma PermutedWords<B>(word: Member -> seq<B>, p: seq<Entry>, q: seq<Entry>, k: Text)
    requires multiset(p) == multiset(q)
    ensures Flat(word, Ordered(Members(p, k))) == Flat(word, Ordered(Members(q, k))) <==>
            forall key :: Flat(PieceWord(word, k, key), p) == Flat(PieceWord(word, k, key), q)
  {
    hide Tier, Members, Flat, MemberKey, PieceWord, Parallel, SortedBy;
    var s, t := Ordered(Members(p, k)), Ordered(Members(q, k));
    SortSorted(Members(p, k), MemberKey);
    SortSorted(Members(q, k), MemberKey);
    PermutedParallel(word, p, q, k);
    WordsByTiers(word, s, t, MemberKey);
    forall key
      ensures Flat(word, Tier(s, MemberKey, key)) == Flat(PieceWord(word, k, key), p)
      ensures Flat(word, Tier(t, MemberKey, key)) == Flat(PieceWord(word, k, key), q)
    {
      SortedTier(p, k, key);
      SortedTier(q, k, key);
      TierFlat(word, p, k, key);
      TierFlat(word, q, k, key);
    }
    TierWordsAre(word, p, q, k);
  }

  lemma TierWordsAre<B>(word: Member -> seq<B>, p: seq<Entry>, q: seq<Entry>, k: Text)
    requires forall key ::
               && Flat(word, Tier(Ordered(Members(p, k)), MemberKey, key)) == Flat(PieceWord(word, k, key), p)
               && Flat(word, Tier(Ordered(Members(q, k)), MemberKey, key)) == Flat(PieceWord(word, k, key), q)
    ensures TierWords(word, Ordered(Members(p, k)), Ordered(Members(q, k)), MemberKey) <==>
            forall key :: Flat(PieceWord(word, k, key), p) == Flat(PieceWord(word, k, key), q)
  {
    hide Tier, Members, Flat, MemberKey, PieceWord;
  }

  // ------------------------------------------------- ties that do not show

  function Ecosystem(m: Member): Value { Get(m.node.properties, T("ecosystem")) }

  /** The least of the member keys of `k`. */
  ghost predicate LeastKey(p: seq<Entry>, k: Text, key: Key) {
    && (exists m :: m in Members(p, k) && MemberKey(m) == key)
    && (forall m :: m in Members(p, k) ==> KeyLe(key, MemberKey(m)))
  }

  /** Entries that tie for the first place agree in the ecosystem of their first member. */
  ghost predicate SameEcosystem(p: seq<Entry>, k: Text, key: Key) {
    forall e, f :: e in p && f in p && Piece(e, k, key) != [] && Piece(f, k, key) != [] ==>
                     Ecosystem(Piece(e, k, key)[0]) == Ecosystem(Piece(f, k, key)[0])
  }

  /** What any two entries contribute to a tie commutes: records, evidence and, for the first place, the ecosystem. */
  ghost predicate TieCommutes(p: seq<Entry>, k: Text, key: Key) {
    && AllCommute(PieceWord(RecordWord(false), k, key), p) && AllCommute(PieceWord(RecordWord(true), k, key), p)
    && (forall id :: AllCommute(PieceWord(EvidenceWord(id), k, key), p))
    && (LeastKey(p, k, key) ==> SameEcosystem(p, k, key))
  }

  ghost predicate TiesCommute(p: seq<Entry>) {
    forall k, key :: k in Mergeable(p) ==> TieCommutes(p, k, key)
  }

  lemma CommutingWords<B>(word: Member -> seq<B>, p: seq<Entry>, q: seq<Entry>, k: Text)
    requires multiset(p) == multiset(q) && forall key :: AllCommute(PieceWord(word, k, key), p)
    ensures Flat(word, Ordered(Members(p, k))) == Flat(word, Ordered(Members(q, k)))
  {
    hide Members, Flat, PieceWord, AllCommute;
    forall key ensures Flat(PieceWord(word, k, key), p) == Flat(PieceWord(word, k, key), q) {
      FlatPermuted(PieceWord(word, k, key), p, q);
    }
    PermutedWords(word, p, q, k);
  }

  lemma LeastKeyIs(p: seq<Entry>, k: Text)
    requires Members(p, k) != []
    ensures Ordered(Members(p, k)) != [] && LeastKey(p, k, MemberKey(Ordered(Members(p, k))[0]))
    ensures Ordered(Members(p, k))[0] in Members(p, k)
  {
    hide Members, MemberKey, KeyLe, Ordered;
    var ms := Members(p, k);
    assert ms[0] in ms;
    FirstIsLeast(ms, ms[0]);
    forall m | m in ms ensures KeyLe(MemberKey(Ordered(ms)[0]), MemberKey(m)) { FirstIsLeast(ms, m); }
  }

  lemma LeastKeyUnique(p: seq<Entry>, q: seq<Entry>, k: Text, key: Key, other: Key)
    requires (forall m :: m in Members(p, k) <==> m in Members(q, k)) && LeastKey(p, k, key) && LeastKey(q, k, other)
    ensures key == other
  {
    hide Members, MemberKey;
    KeyLtTotal(key, other);
  }

  /** The first of a tie's members is the first of some entry's. */
  lemma {:induction false} TierFirst(p: seq<Entry>, k: Text, key: Key) returns (e: Entry)
    requires Tier(Members(p, k), MemberKey, key) != []
    ensures e in p && Piece(e, k, key) != [] && Tier(Members(p, k), MemberKey, key)[0] == Piece(e, k, key)[0]
  {
    hide Tier, Members, Piece;
    if p == [] {
      NoMembers(k);
      TierEmpty(Members(p, k), MemberKey, key);
    } else {
      assert p == [p[0]] + p[1..];
      TierFront(p[0], p[1..], k, key);
      if Piece(p[0], k, key) != [] {
        e := p[0];
      } else {
        e := TierFirst(p[1..], k, key);
      }
    }
  }

  lemma FirstMember(p: seq<Entry>, k: Text) returns (e: Entry)
    requires Members(p, k) != []
    ensures Ordered(Members(p, k)) != [] && e in p
    ensures var first := Ordered(Members(p, k))[0]; var key := MemberKey(first);
            Piece(e, k, key) != [] && Piece(e, k, key)[0] == first
  {
    hide Tier, Members, Piece, MemberKey, LeastKey;
    LeastKeyIs(p, k);
    var s := Ordered(Members(p, k));
    TierHead(s, MemberKey);
    SortedTier(p, k, MemberKey(s[0]));
    e := TierFirst(p, k, MemberKey(s[0]));
  }

  /** In a tie of dependency producers all members declare or all resolve, so its records begin with its first. */
  lemma FirstRecord(s: seq<Member>, resolutions: bool)
    requires s != [] && IsResolution(s[0]) == resolutions
    ensures Flat(RecordWord(resolutions), s) != [] && Flat(RecordWord(resolutions), s)[0] == RecordOf(s[0])
  {
    hide RecordOf;
  }

  lemma SameName(s: seq<Member>, t: seq<Member>)
    requires s != [] && t != [] && MemberKey(s[0]) == MemberKey(t[0]) && Known(s[0].id.producer)
    requires Known(t[0].id.producer)
    requires forall b :: Flat(RecordWord(b), s) == Flat(RecordWord(b), t)
    ensures s[0].node.name == t[0].node.name
  {
    hide Flat, Fields, FirstEvidence, MemberKey;
    KeyTellsSource(s[0], t[0]);
    FirstRecord(s, IsResolution(s[0]));
    FirstRecord(t, IsResolution(t[0]));
    assert RecordOf(s[0]).name == RecordOf(t[0]).name;
  }

  /** Ties that commute give the same merged node in every file order. */
  lemma SameNodeFor(p: seq<Entry>, q: seq<Entry>, k: Text, id: Identity)
    requires multiset(p) == multiset(q) && k in Mergeable(p) && forall key :: TieCommutes(p, k, key)
    ensures Members(p, k) != [] && Members(q, k) != [] && NodeFor(p, k, id) == NodeFor(q, k, id)
  {
    hide Members, Mergeable, MemberKey, Flat, AllCommute, PieceWord, SameEcosystem, Piece, LeastKey, AllKnown, Ordered;
    SameEntries(p, q);
    SameMembers(p, q, k);
    MergeableMembers(p, k);
    var s, t := Ordered(Members(p, k)), Ordered(Members(q, k));
    RecordsAgree(p, q, k, false);
    RecordsAgree(p, q, k, true);
    EvidenceAgrees(p, q, k, id);
    SameFirsts(p, q, k);
    KnownFirsts(p, k);
    KnownFirsts(q, k);
    SameName(s, t);
    NodeForIs(p, k);
    NodeForIs(q, k);
  }

  lemma RecordsAgree(p: seq<Entry>, q: seq<Entry>, k: Text, b: bool)
    requires multiset(p) == multiset(q) && forall key :: TieCommutes(p, k, key)
    ensures var s, t := Ordered(Members(p, k)), Ordered(Members(q, k));
            Records(s, b) == Records(t, b) && Flat(RecordWord(b), s) == Flat(RecordWord(b), t)
  {
    hide Members, Flat, AllCommute, SameEcosystem, LeastKey, Ordered, PieceWord, RecordWord;
    forall key ensures AllCommute(PieceWord(RecordWord(b), k, key), p) { assert TieCommutes(p, k, key); }
    CommutingWords(RecordWord(b), p, q, k);
    RecordsFlat(Ordered(Members(p, k)), b);
    RecordsFlat(Ordered(Members(q, k)), b);
  }

  lemma EvidenceAgrees(p: seq<Entry>, q: seq<Entry>, k: Text, id: Identity)
    requires multiset(p) == multiset(q) && forall key :: TieCommutes(p, k, key)
    ensures EvidenceOf(Ordered(Members(p, k)), id) == EvidenceOf(Ordered(Members(q, k)), id)
  {
    hide Members, Flat, AllCommute, SameEcosystem, LeastKey, Ordered, PieceWord, EvidenceWord;
    forall key ensures AllCommute(PieceWord(EvidenceWord(id), k, key), p) { assert TieCommutes(p, k, key); }
    CommutingWords(EvidenceWord(id), p, q, k);
    EvidenceFlat(Ordered(Members(p, k)), id);
    EvidenceFlat(Ordered(Members(q, k)), id);
  }

  lemma KnownFirsts(p: seq<Entry>, k: Text)
    requires Members(p, k) != [] && AllKnown(Members(p, k))
    ensures Ordered(Members(p, k)) != [] && Known(Ordered(Members(p, k))[0].id.producer)
  {
    hide Members, MemberKey, LeastKey, Known;
    LeastKeyIs(p, k);
  }

  lemma SameFirsts(p: seq<Entry>, q: seq<Entry>, k: Text)
    requires multiset(p) == multiset(q) && Members(p, k) != [] && Members(q, k) != []
    requires forall key :: TieCommutes(p, k, key)
    ensures Ordered(Members(p, k)) != [] && Ordered(Members(q, k)) != []
    ensures var s, t := Ordered(Members(p, k)), Ordered(Members(q, k));
            MemberKey(s[0]) == MemberKey(t[0]) && Ecosystem(s[0]) == Ecosystem(t[0])
  {
    hide Members, MemberKey, AllCommute, PieceWord, Piece, Ecosystem, LeastKey, Ordered;
    SameEntries(p, q);
    SameMembers(p, q, k);
    LeastKeyIs(p, k);
    LeastKeyIs(q, k);
    var s, t := Ordered(Members(p, k)), Ordered(Members(q, k));
    LeastKeyUnique(p, q, k, MemberKey(s[0]), MemberKey(t[0]));
    var e := FirstMember(p, k);
    var f := FirstMember(q, k);
    assert TieCommutes(p, k, MemberKey(s[0]));
  }

  lemma {:induction false} SameNodesFor(p: seq<Entry>, q: seq<Entry>, keys: seq<Text>, id: Identity)
    requires multiset(p) == multiset(q) && TiesCommute(p)
    requires forall k :: k in keys ==> k in Mergeable(p) && Members(p, k) != [] && Members(q, k) != []
    ensures NodesFor(p, keys, id) == NodesFor(q, keys, id)
  {
    hide Members, Mergeable, TieCommutes, Ids, NodeFor;
    if keys != [] {
      var k := keys[|keys| - 1];
      assert k in keys;
      SameNodesFor(p, q, keys[..|keys| - 1], id);
      SameEntries(p, q);
      SameMembers(p, q, k);
      SameNodeFor(p, q, k, id);
    }
  }

  /**
   When ties commute, permuting the files gives the same merged entries; in any case it
   raises alike and rewrites each entry alike.
   */
  lemma FileOrderForgotten(p: seq<Entry>, q: seq<Entry>)
    requires multiset(p) == multiset(q)
    ensures Mergeable(p) == Mergeable(q) && (Raises(p) <==> Raises(q))
    ensures forall i, j :: 0 <= i < |p| && 0 <= j < |q| && p[i] == q[j] ==> Rewritten(p)[i] == Rewritten(q)[j]
    ensures TiesCommute(p) ==> MergedEntries(p) == MergedEntries(q)
  {
    hide Members, Mergeable, TiesCommute, Lists, Contributors, Raises, NodesFor, Kept;
    SameEntries(p, q);
    SameMergeable(p, q);
    assert SortedKeys(p) == SortedKeys(q);
    if TiesCommute(p) {
      forall id ensures MergedEntry(p, id) == MergedEntry(q, id) {
        SortedKeysMergeable(p);
        SameNodesFor(p, q, SortedKeys(p), id);
      }
    }
  }

  // ------------------------------------------------- and conversely

  /** Every file order gives the same merged entries. */
  ghost predicate OrderForgotten(p: seq<Entry>) {
    forall q :: multiset(q) == multiset(p) ==> MergedEntries(q) == MergedEntries(p)
  }

  /** Equal merged entries hold equal nodes for each key and contributing producer. */
  lemma NodesAgree(p: seq<Entry>, q: seq<Entry>, k: Text, id: Identity)
    requires (forall e :: e in p <==> e in q) && MergedEntries(p) == MergedEntries(q)
    requires k in Mergeable(p) && id in Ids(Members(p, k))
    ensures Members(p, k) != [] && Members(q, k) != [] && NodeFor(p, k, id) == NodeFor(q, k, id)
  {
    hide Members, Mergeable, NodesFor, NodeFor, Ids, Lists, NodeMembers;
    SameMergeable(p, q);
    SameMembers(p, q, k);
    MergeableMembers(p, k);
    SortedKeysMergeable(p);
    assert SortedKeys(p) == SortedKeys(q) && SortedContributors(p) == SortedContributors(q);
    assert id in Contributors(p);
    ListsMembers(SortedContributors(p), Contributors(p), IdentityKey);
    var i :| 0 <= i < |SortedContributors(p)| && SortedContributors(p)[i] == id;
    MergedAt(p, i);
    MergedAt(q, i);
    MergedMembers(p, SortedKeys(p), id, k);
    MergedMembers(q, SortedKeys(q), id, k);
    OneMemberEach(Member(id, NodeFor(p, k, id)), Member(id, NodeFor(q, k, id)));
  }

  lemma OneMemberEach(m: Member, n: Member)
    ensures [m] == [n] ==> m.node == n.node
  {
    assert [m] == [n] ==> [m][0] == [n][0];
  }

  /** Two entries brought to the front, in either order. */
  lemma Fronts(p: seq<Entry>, e: Entry, f: Entry) returns (rest: seq<Entry>)
    requires e in p && f in p && e != f
    ensures multiset([e] + ([f] + rest)) == multiset(p) && multiset([f] + ([e] + rest)) == multiset(p)
  {
    var without := TakeOut(p, e);
    assert f in multiset(p) && multiset(p)[f] == (multiset{e} + multiset(without))[f];
    assert f in multiset(without);
    rest := TakeOut(without, f);
    Put(f, rest);
    Put(e, [f] + rest);
    Put(e, rest);
    Put(f, [e] + rest);
  }

  lemma TakeOut(p: seq<Entry>, e: Entry) returns (rest: seq<Entry>)
    requires e in p
    ensures multiset(p) == multiset{e} + multiset(rest)
  {
    var i :| 0 <= i < |p| && p[i] == e;
    SplitAt(p, i);
    rest := p[..i] + p[i + 1..];
  }

  lemma Put(e: Entry, s: seq<Entry>)
    ensures multiset([e] + s) == multiset{e} + multiset(s)
  {
  }

  lemma SwappedCommute<B>(word: Member -> seq<B>, e: Entry, f: Entry, rest: seq<Entry>, k: Text, key: Key)
    requires multiset([e] + ([f] + rest)) == multiset([f] + ([e] + rest))
    requires Flat(word, Ordered(Members([e] + ([f] + rest), k))) == Flat(word, Ordered(Members([f] + ([e] + rest), k)))
    ensures Commute(PieceWord(word, k, key)(e), PieceWord(word, k, key)(f))
  {
    hide Members, Flat, PieceWord;
    var w := PieceWord(word, k, key);
    PermutedWords(word, [e] + ([f] + rest), [f] + ([e] + rest), k);
    FlatCons(w, e, [f] + rest);
    FlatCons(w, f, rest);
    FlatCons(w, f, [e] + rest);
    FlatCons(w, e, rest);
    var u, v, x := w(e), w(f), Flat(w, rest);
    assert Flat(w, [e] + ([f] + rest)) == Flat(w, [f] + ([e] + rest));
    assert u + (v + x) == u + v + x && v + (u + x) == v + u + x;
    CommuteFromSwap(u, v, x);
  }

  /** An entry at the front that takes part in the first tie gives the first member. */
  lemma FrontIsFirst(e: Entry, rest: seq<Entry>, k: Text, key: Key)
    requires LeastKey([e] + rest, k, key) && Piece(e, k, key) != []
    ensures Ordered(Members([e] + rest, k)) != [] && Ordered(Members([e] + rest, k))[0] == Piece(e, k, key)[0]
  {
    hide Members, Tier, MemberKey, Piece, Ordered;
    var p := [e] + rest;
    LeastKeyIs(p, k);
    var s := Ordered(Members(p, k));
    LeastKeyUnique(p, p, k, key, MemberKey(s[0]));
    TierHead(s, MemberKey);
    SortedTier(p, k, key);
    TierFront(e, rest, k, key);
  }

  lemma LeastKeyMoves(p: seq<Entry>, q: seq<Entry>, k: Text, key: Key)
    requires (forall m :: m in Members(p, k) <==> m in Members(q, k)) && LeastKey(p, k, key)
    ensures LeastKey(q, k, key)
  {
    hide Members, MemberKey, KeyLe;
  }

  lemma NodeForParts(p: seq<Entry>, q: seq<Entry>, k: Text, id: Identity)
    requires Members(p, k) != [] && Members(q, k) != [] && NodeFor(p, k, id) == NodeFor(q, k, id)
    ensures Ordered(Members(p, k)) != [] && Ordered(Members(q, k)) != []
    ensures var s, t := Ordered(Members(p, k)), Ordered(Members(q, k));
            && Records(s, false) == Records(t, false) && Records(s, true) == Records(t, true)
            && EvidenceOf(s, id) == EvidenceOf(t, id) && Ecosystem(s[0]) == Ecosystem(t[0])
  {
    hide Members, Ordered, Records, EvidenceOf, Get, T;
    NodeForIs(p, k);
    NodeForIs(q, k);
    var n, m := NodeFor(p, k, id), NodeFor(q, k, id);
    assert n.properties == m.properties && n.evidence == m.evidence;
  }

  /** The same, for all of a key's words. */
  lemma SwappedNodes(e: Entry, f: Entry, rest: seq<Entry>, k: Text, key: Key, id: Identity)
    requires var q, r := [e] + ([f] + rest), [f] + ([e] + rest);
             && multiset(q) == multiset(r) && Members(q, k) != [] && Members(r, k) != []
             && NodeFor(q, k, id) == NodeFor(r, k, id)
    ensures Commute(PieceWord(RecordWord(false), k, key)(e), PieceWord(RecordWord(false), k, key)(f))
    ensures Commute(PieceWord(RecordWord(true), k, key)(e), PieceWord(RecordWord(true), k, key)(f))
    ensures Commute(PieceWord(EvidenceWord(id), k, key)(e), PieceWord(EvidenceWord(id), k, key)(f))
    ensures LeastKey([e] + ([f] + rest), k, key) && Piece(e, k, key) != [] && Piece(f, k, key) != [] ==>
              Ecosystem(Piece(e, k, key)[0]) == Ecosystem(Piece(f, k, key)[0])
  {
    hide Members, Ordered, NodeFor, PieceWord, LeastKey, Piece, Ecosystem, Commute, Flat, RecordWord, EvidenceWord;
    var q, r := [e] + ([f] + rest), [f] + ([e] + rest);
    NodeForParts(q, r, k, id);
    var s, t := Ordered(Members(q, k)), Ordered(Members(r, k));
    RecordsFlat(s, false);
    RecordsFlat(t, false);
    SwappedCommute(RecordWord(false), e, f, rest, k, key);
    RecordsFlat(s, true);
    RecordsFlat(t, true);
    SwappedCommute(RecordWord(true), e, f, rest, k, key);
    EvidenceFlat(s, id);
    EvidenceFlat(t, id);
    SwappedCommute(EvidenceWord(id), e, f, rest, k, key);
    if LeastKey(q, k, key) && Piece(e, k, key) != [] && Piece(f, k, key) != [] {
      SameEntries(q, r);
      SameMembers(q, r, k);
      LeastKeyMoves(q, r, k, key);
      FrontIsFirst(e, [f] + rest, k, key);
      FrontIsFirst(f, [e] + rest, k, key);
    }
  }

  /** Producers that do not describe the key contribute no evidence to it. */
  lemma NoStrangeEvidence(p: seq<Entry>, e: Entry, k: Text, key: Key, id: Identity)
    requires e in p && id !in Ids(Members(p, k))
    ensures PieceWord(EvidenceWord(id), k, key)(e) == []
  {
    hide Members, EntryMembers, Tier, EvidenceWord;
    MembersIn(p, k);
    TierMembers(EntryMembers(e, k), MemberKey, key);
    forall m | m in Piece(e, k, key) ensures m.id != id {
      assert FromSome(p, k, m);
    }
    EvidenceFlat(Piece(e, k, key), id);
    NoEvidenceOfOthers(Piece(e, k, key), id);
  }

  lemma EntriesCommute(p: seq<Entry>, k: Text, key: Key, e: Entry, f: Entry, id: Identity)
    requires OrderForgotten(p) && k in Mergeable(p) && e in p && f in p && e != f && id in Ids(Members(p, k))
    ensures Commute(PieceWord(RecordWord(false), k, key)(e), PieceWord(RecordWord(false), k, key)(f))
    ensures Commute(PieceWord(RecordWord(true), k, key)(e), PieceWord(RecordWord(true), k, key)(f))
    ensures Commute(PieceWord(EvidenceWord(id), k, key)(e), PieceWord(EvidenceWord(id), k, key)(f))
    ensures LeastKey(p, k, key) && Piece(e, k, key) != [] && Piece(f, k, key) != [] ==>
              Ecosystem(Piece(e, k, key)[0]) == Ecosystem(Piece(f, k, key)[0])
  {
    hide Members, NodeFor, PieceWord, LeastKey, Piece, Ecosystem, Commute, RecordWord, EvidenceWord, MergedEntries,
         Mergeable, Ids;
    var rest := Fronts(p, e, f);
    var q, r := [e] + ([f] + rest), [f] + ([e] + rest);
    SameEntries(p, q);
    SameEntries(q, r);
    SameMembers(p, q, k);
    SameMergeable(p, q);
    NodesAgree(q, r, k, id);
    SwappedNodes(e, f, rest, k, key, id);
    if LeastKey(p, k, key) { LeastKeyMoves(p, q, k, key); }
  }

  lemma SomeContributor(p: seq<Entry>, k: Text) returns (id: Identity)
    requires k in Mergeable(p)
    ensures id in Ids(Members(p, k))
  {
    hide Members, Mergeable, AllKnown;
    MergeableMembers(p, k);
    id := Members(p, k)[0].id;
    assert Members(p, k)[0] in Members(p, k);
  }

  lemma ForgottenTie(p: seq<Entry>, k: Text, key: Key)
    requires OrderForgotten(p) && k in Mergeable(p)
    ensures TieCommutes(p, k, key)
  {
    hide OrderForgotten, Mergeable, Members, PieceWord, LeastKey, Piece, Ecosystem, RecordWord, EvidenceWord, Ids;
    var some := SomeContributor(p, k);
    forall e, f | e in p && f in p && e != f
      ensures Commute(PieceWord(RecordWord(false), k, key)(e), PieceWord(RecordWord(false), k, key)(f))
      ensures Commute(PieceWord(RecordWord(true), k, key)(e), PieceWord(RecordWord(true), k, key)(f))
      ensures LeastKey(p, k, key) && Piece(e, k, key) != [] && Piece(f, k, key) != [] ==>
                Ecosystem(Piece(e, k, key)[0]) == Ecosystem(Piece(f, k, key)[0])
    {
      EntriesCommute(p, k, key, e, f, some);
    }
    forall id, e, f | e in p && f in p
      ensures Commute(PieceWord(EvidenceWord(id), k, key)(e), PieceWord(EvidenceWord(id), k, key)(f))
    {
      if id in Ids(Members(p, k)) {
        if e != f { EntriesCommute(p, k, key, e, f, id); }
      } else {
        NoStrangeEvidence(p, e, k, key, id);
        NoStrangeEvidence(p, f, k, key, id);
      }
    }
  }

  /** Merging forgets file order exactly when what tying entries contribute commutes. */
  lemma FileOrderExactly(p: seq<Entry>)
    ensures OrderForgotten(p) <==> TiesCommute(p)
  {
    hide MergedEntries, Mergeable, TieCommutes;
    if TiesCommute(p) {
      forall q | multiset(q) == multiset(p) ensures MergedEntries(q) == MergedEntries(p) {
        FileOrderForgotten(p, q);
      }
    }
    if OrderForgotten(p) {
      forall k, key | k in Mergeable(p) ensures TieCommutes(p, k, key) {
        ForgottenTie(p, k, key);
      }
    }
  }

  // ------------------------------------------------- one entry per source

  /** With one entry per producer and source path no two entries tie. */
  lemma OneEntryCommutes(p: seq<Entry>)
    requires OneEntryPerSource(p)
    ensures TiesCommute(p)
  {
    hide OneEntryPerSource, Mergeable, Piece, RecordWord, EvidenceWord, LeastKey, Members;
    forall k, key | k in Mergeable(p) ensures TieCommutes(p, k, key) {
      MergeableMembers(p, k);
      OneEntryIsLone(p, k, key);
      LoneCommutes(RecordWord(false), p, k, key);
      LoneCommutes(RecordWord(true), p, k, key);
      forall id ensures AllCommute(PieceWord(EvidenceWord(id), k, key), p) {
        LoneCommutes(EvidenceWord(id), p, k, key);
      }
    }
  }

  lemma LoneCommutes<B>(word: Member -> seq<B>, p: seq<Entry>, k: Text, key: Key)
    requires Lone(p, k, key)
    ensures AllCommute(PieceWord(word, k, key), p)
  {
    hide Piece;
    forall e, f | e in p && f in p ensures Commute(PieceWord(word, k, key)(e), PieceWord(word, k, key)(f)) {
      if Piece(e, k, key) == [] || Piece(f, k, key) == [] {
        assert Flat(word, Piece(e, k, key)) == [] || Flat(word, Piece(f, k, key)) == [];
      } else {
        assert e == f;
      }
    }
  }

  // ------------------------------------------------- two entries of one source

  function Named(name: Text): Entry {
    var node := Node(T("dependency"), [], Str(name), Null, [Evidence([], 1, 1, [])], Plain(map[]));
    Entry(Manifest(), [], [node], [], [])
  }

  const FIRST_OF_TWO := Named(T("a"))
  const SECOND_OF_TWO := Named(T("b"))

  /** Without the premise the order shows: the merged node is named after the entry that came first. */
  lemma OrderShowsWithinOneSource()
    ensures multiset([FIRST_OF_TWO, SECOND_OF_TWO]) == multiset([SECOND_OF_TWO, FIRST_OF_TWO])
    ensures var p, q := [FIRST_OF_TWO, SECOND_OF_TWO], [SECOND_OF_TWO, FIRST_OF_TWO];
            [] in Mergeable(p) && Members(p, []) != [] && Members(q, []) != []
            && NodeFor(p, [], IdOf(FIRST_OF_TWO)).name == Str(T("a"))
            && NodeFor(q, [], IdOf(FIRST_OF_TWO)).name == Str(T("b"))
  {
    var a, b := FIRST_OF_TWO, SECOND_OF_TWO;
    var m, n := Member(IdOf(a), a.nodes[0]), Member(IdOf(b), b.nodes[0]);
    TwoMembers(a, b, m, n);
    TwoMembers(b, a, n, m);
    MergeableMembers([a, b], []);
  }

  lemma TwoMembers(a: Entry, b: Entry, m: Member, n: Member)
    requires |a.nodes| == 1 && |b.nodes| == 1 && m == Member(IdOf(a), a.nodes[0]) && n == Member(IdOf(b), b.nodes[0])
    requires IsDependency(m.node) && IsDependency(n.node) && m.node.stableKey == n.node.stableKey == []
    requires MemberKey(m) == MemberKey(n)
    ensures Members([a, b], []) == [m, n] && Ordered([m, n]) == [m, n]
  {
    hide MemberKey;
    assert [a, b][..1] == [a] && [a][..0] == [];
    NodeAppended(IdOf(a), [], a.nodes[0], []);
    NodeAppended(IdOf(b), [], b.nodes[0], []);
    assert a.nodes == [] + [a.nodes[0]] && b.nodes == [] + [b.nodes[0]];
    assert EntryMembers(a, []) == [m] && EntryMembers(b, []) == [n];
    assert Members([a], []) == [m];
    KeyLtTotal(MemberKey(m), MemberKey(n));
    assert [m, n][1..] == [n] && [n][1..] == [];
    assert Sort([n], MemberKey) == [n];
  }
}
