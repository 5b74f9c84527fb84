/**
 What a stable sort depends on: for each key, the items with that key in the order
 in which they came. And sorting a set.
 */
module StableSort {
  import opened Order

  ghost function One<A>(x: A, key: A -> Key, k: Key): seq<A> { if key(x) == k then [x] else [] }

  /** The items with key `k`, in order. */
  ghost function Tier<A>(s: seq<A>, key: A -> Key, k: Key): seq<A> {
    if s == [] then [] else One(s[0], key, k) + Tier(s[1..], key, k)
  }

  lemma TierCons<A>(x: A, s: seq<A>, key: A -> Key, k: Key)
    ensures Tier([x] + s, key, k) == One(x, key, k) + Tier(s, key, k)
  {
    assert ([x] + s)[1..] == s;
  }

  lemma {:induction false} TierConcat<A>(s: seq<A>, t: seq<A>, key: A -> Key, k: Key)
    ensures Tier(s + t, key, k) == Tier(s, key, k) + Tier(t, key, k)
  {
    hide Tier, One;
    if s == [] {
      assert s + t == t;
      TierEmpty(s, key, k);
    } else {
      assert s + t == [s[0]] + (s[1..] + t) && s == [s[0]] + s[1..];
      TierCons(s[0], s[1..] + t, key, k);
      TierCons(s[0], s[1..], key, k);
      TierConcat(s[1..], t, key, k);
    }
  }

  lemma TierEmpty<A>(s: seq<A>, key: A -> Key, k: Key)
    requires s == []
    ensures Tier(s, key, k) == []
  {
  }

  lemma {:induction false} TierMembers<A>(s: seq<A>, key: A -> Key, k: Key)
    ensures forall x :: x in Tier(s, key, k) <==> x in s && key(x) == k
  {
    if s != [] {
      TierMembers(s[1..], key, k);
      assert s == [s[0]] + s[1..];
    }
  }

  lemma {:induction false} InsertTier<A>(x: A, s: seq<A>, key: A -> Key, k: Key)
    ensures Tier(Insert(x, s, key), key, k) == One(x, key, k) + Tier(s, key, k)
  {
    hide Tier, KeyLt;
    if s == [] || KeyLe(key(x), key(s[0])) {
      TierCons(x, s, key, k);
    } else {
      KeyLtTotal(key(x), key(s[0]));
      InsertTier(x, s[1..], key, k);
      TierCons(s[0], Insert(x, s[1..], key), key, k);
      TierCons(s[0], s[1..], key, k);
      assert s == [s[0]] + s[1..];
    }
  }

  /** A stable sort keeps the order of items with equal keys. */
  lemma {:induction false} SortTier<A>(s: seq<A>, key: A -> Key, k: Key)
    ensures Tier(Sort(s, key), key, k) == Tier(s, key, k)
  {
    if s != [] {
      SortTier(s[1..], key, k);
      InsertTier(s[0], Sort(s[1..], key), key, k);
    }
  }

  lemma SortedTail<A>(s: seq<A>, key: A -> Key)
    requires s != [] && SortedBy(s, key)
    ensures SortedBy(s[1..], key) && forall x :: x in s ==> KeyLe(key(s[0]), key(x))
  {
    KeyLtTotal(key(s[0]), key(s[0]));
  }

  /** A sorted sequence is determined by its items key by key. */
  lemma {:induction false} TiersDecide<A(!new)>(s: seq<A>, t: seq<A>, key: A -> Key)
    requires SortedBy(s, key) && SortedBy(t, key) && forall k :: Tier(s, key, k) == Tier(t, key, k)
    ensures s == t
  {
    hide SortedBy, Tier;
    if s == [] {
      NoTiers(t, s, key);
    } else if t == [] {
      NoTiers(s, t, key);
    } else {
      var k, l := key(s[0]), key(t[0]);
      SortedTail(s, key);
      SortedTail(t, key);
      TierHead(s, key);
      TierHead(t, key);
      TierMembers(s, key, l);
      TierMembers(t, key, k);
      TierMembers(s, key, k);
      TierMembers(t, key, l);
      assert s[0] in Tier(s, key, k) && t[0] in Tier(t, key, l);
      assert s[0] in t && t[0] in s;
      KeyLtTotal(k, l);
      assert k == l && s[0] == t[0];
      forall j ensures Tier(s[1..], key, j) == Tier(t[1..], key, j) {
        TierTail(s, key, j);
        TierTail(t, key, j);
      }
      TiersDecide(s[1..], t[1..], key);
      assert s == [s[0]] + s[1..] && t == [t[0]] + t[1..];
    }
  }

  lemma TierHead<A>(s: seq<A>, key: A -> Key)
    requires s != []
    ensures Tier(s, key, key(s[0])) != [] && Tier(s, key, key(s[0]))[0] == s[0]
  {
  }

  lemma TierTail<A>(s: seq<A>, key: A -> Key, k: Key)
    requires s != []
    ensures Tier(s, key, k) == One(s[0], key, k) + Tier(s[1..], key, k)
    ensures Tier(s[1..], key, k) == if key(s[0]) == k then Tier(s, key, k)[1..] else Tier(s, key, k)
  {
  }

  lemma NoTiers<A(!new)>(s: seq<A>, t: seq<A>, key: A -> Key)
    requires t == [] && forall k :: Tier(s, key, k) == Tier(t, key, k)
    ensures s == []
  {
    assert s != [] ==> Tier(s, key, key(s[0])) != [];
    assert forall k :: Tier(t, key, k) == [];
  }

  /** Two sequences with the same items key by key sort to the same sequence. */
  lemma SortByTiers<A(!new)>(s: seq<A>, t: seq<A>, key: A -> Key)
    requires forall k :: Tier(s, key, k) == Tier(t, key, k)
    ensures Sort(s, key) == Sort(t, key)
  {
    forall k ensures Tier(Sort(s, key), key, k) == Tier(Sort(t, key), key, k) {
      SortTier(s, key, k);
      SortTier(t, key, k);
    }
    SortSorted(s, key);
    SortSorted(t, key);
    TiersDecide(Sort(s, key), Sort(t, key), key);
  }

  // ------------------------------------------------- sets

  /** `r` lists the set `s` in strictly increasing order. */
  ghost predicate Lists<A(!new)>(r: seq<A>, s: set<A>, key: A -> Key) {
    StrictlySortedBy(r, key) && forall x :: x in r <==> x in s
  }

  ghost predicate Separates<A(!new)>(key: A -> Key, s: set<A>) {
    forall x, y :: x in s && y in s && key(x) == key(y) ==> x == y
  }

  ghost function Enumerate<A(!new)>(s: set<A>): (r: seq<A>)
    ensures Distinct(r) && forall x :: x in r <==> x in s
  {
    if s == {} then [] else var x :| x in s; Enumerate(s - {x}) + [x]
  }

  lemma ListedBySort<A(!new)>(r: seq<A>, s: set<A>, key: A -> Key)
    requires Separates(key, s) && Distinct(r) && forall x :: x in r <==> x in s
    ensures Lists(Sort(r, key), s, key)
  {
    assert DistinctKeys(r, key);
    SortStrict(r, key);
    forall x ensures x in Sort(r, key) <==> x in s {
      SortMembers(r, key, x);
    }
  }

  /** The items of a set in increasing order of their keys. */
  ghost function SortedSet<A(!new)>(s: set<A>, key: A -> Key): (r: seq<A>)
    requires Separates(key, s)
    ensures Lists(r, s, key)
  {
    ListedBySort(Enumerate(s), s, key);
    Sort(Enumerate(s), key)
  }

  /** `sorted(s)` of a set whose items have distinct keys. */
  method SortSet<A(!new)>(s: set<A>, key: A -> Key) returns (r: seq<A>)
    requires Separates(key, s)
    ensures r == SortedSet(s, key)
  {
    r := [];
    var rest := s;
    while rest != {}
      invariant rest <= s && (forall x :: x in r <==> x in s && x !in rest) && Distinct(r)
      decreases |rest|
    {
      var x :| x in rest;
      r := r + [x];
      rest := rest - {x};
    }
    ListedBySort(r, s, key);
    r := Sort(r, key);
    ListsUnique(r, SortedSet(s, key), s, key);
  }

  lemma ListsUnique<A(!new)>(r: seq<A>, t: seq<A>, s: set<A>, key: A -> Key)
    requires Lists(r, s, key) && Lists(t, s, key)
    ensures r == t
  {
    StrictlySortedUnique(r, t, key);
  }

  lemma ListsMembers<A(!new)>(r: seq<A>, s: set<A>, key: A -> Key)
    requires Lists(r, s, key)
    ensures forall x :: x in r <==> x in s
  {
  }
}
