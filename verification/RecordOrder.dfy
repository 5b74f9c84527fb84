/**
 Sort-and-deduplicate with a byte tie-breaker: the shape shared by
 `_order_records` and `sort_derived_from`.
 */
module RecordOrder {
  import opened Order

  ghost predicate HasBytes<A>(s: seq<A>, bytes: A -> Text, b: Text) {
    exists i :: 0 <= i < |s| && bytes(s[i]) == b
  }

  /** The first item of each encoding, in order of appearance. */
  ghost function Unique<A>(s: seq<A>, bytes: A -> Text): seq<A> {
    if s == [] then []
    else
      var r, last := Unique(s[..|s| - 1], bytes), s[|s| - 1];
      if HasBytes(r, bytes, bytes(last)) then r else r + [last]
  }

  function RankKey<A>(key: A -> Key, bytes: A -> Text): A -> Key {
    (a: A) => key(a) + [Txt(bytes(a))]
  }

  ghost function Ordered<A>(s: seq<A>, bytes: A -> Text, key: A -> Key): seq<A> {
    Sort(Unique(s, bytes), RankKey(key, bytes))
  }

  ghost function BytesOf<A>(s: seq<A>, bytes: A -> Text): seq<Text> {
    seq(|s|, i requires 0 <= i < |s| => bytes(s[i]))
  }

  /** The loop of `_order_records` and `sort_derived_from`, then the sort. */
  method OrderBy<A>(s: seq<A>, bytes: A -> Text, key: A -> Key) returns (r: seq<A>)
    ensures r == Ordered(s, bytes, key)
  {
    var seen: set<Text> := {};
    var unique: seq<A> := [];
    for k := 0 to |s|
      invariant unique == Unique(s[..k], bytes)
      invariant forall b :: b in seen <==> HasBytes(unique, bytes, b)
    {
      assert s[..k + 1][..k] == s[..k];
      var encoded := bytes(s[k]);
      if encoded in seen {
        continue;
      }
      HasBytesAppend(unique, s[k], bytes);
      seen := seen + {encoded};
      unique := unique + [s[k]];
    }
    assert s[..|s|] == s;
    r := Sort(unique, RankKey(key, bytes));
  }

  lemma HasBytesAppend<A>(s: seq<A>, x: A, bytes: A -> Text)
    ensures forall b :: HasBytes(s + [x], bytes, b) <==> HasBytes(s, bytes, b) || b == bytes(x)
  {
    forall b ensures HasBytes(s + [x], bytes, b) <==> HasBytes(s, bytes, b) || b == bytes(x) {
      if HasBytes(s, bytes, b) {
        var i :| 0 <= i < |s| && bytes(s[i]) == b;
        assert (s + [x])[i] == s[i];
      }
      if b == bytes(x) {
        assert (s + [x])[|s|] == x;
      }
      if HasBytes(s + [x], bytes, b) {
        var i :| 0 <= i < |s + [x]| && bytes((s + [x])[i]) == b;
        assert i < |s| ==> (s + [x])[i] == s[i];
      }
    }
  }

  ghost predicate DistinctBytes<A>(s: seq<A>, bytes: A -> Text) {
    forall i, j :: 0 <= i < j < |s| ==> bytes(s[i]) != bytes(s[j])
  }

  lemma {:induction false} UniqueKeeps<A>(s: seq<A>, bytes: A -> Text)
    ensures DistinctBytes(Unique(s, bytes), bytes)
    ensures forall b :: HasBytes(Unique(s, bytes), bytes, b) <==> HasBytes(s, bytes, b)
    ensures forall x :: x in Unique(s, bytes) ==> x in s
  {
    if s != [] {
      var init, last := s[..|s| - 1], s[|s| - 1];
      UniqueKeeps(init, bytes);
      assert s == init + [last];
      HasBytesAppend(init, last, bytes);
      HasBytesAppend(Unique(init, bytes), last, bytes);
    }
  }

  lemma RankDistinct<A>(s: seq<A>, bytes: A -> Text, key: A -> Key)
    requires DistinctBytes(s, bytes)
    ensures DistinctKeys(s, RankKey(key, bytes))
  {
    forall i, j | 0 <= i < j < |s| ensures RankKey(key, bytes)(s[i]) != RankKey(key, bytes)(s[j]) {
      var k, l := key(s[i]) + [Txt(bytes(s[i]))], key(s[j]) + [Txt(bytes(s[j]))];
      assert k[|k| - 1] != l[|l| - 1];
    }
  }

  /** Ordering is a function of the set of items when bytes identify them. */
  lemma OrderedBySet<A>(s: seq<A>, t: seq<A>, bytes: A -> Text, key: A -> Key)
    requires forall x, y :: x in s && y in s && bytes(x) == bytes(y) ==> x == y
    requires forall x :: x in s <==> x in t
    ensures Ordered(s, bytes, key) == Ordered(t, bytes, key)
  {
    var u, v := Unique(s, bytes), Unique(t, bytes);
    UniqueKeeps(s, bytes);
    UniqueKeeps(t, bytes);
    RankDistinct(u, bytes, key);
    RankDistinct(v, bytes, key);
    UniqueIsAll(s, bytes);
    UniqueIsAll(t, bytes);
    SortForgetsOrder(u, v, RankKey(key, bytes));
  }

  lemma UniqueIsAll<A>(s: seq<A>, bytes: A -> Text)
    requires forall x, y :: x in s && y in s && bytes(x) == bytes(y) ==> x == y
    ensures forall x :: x in Unique(s, bytes) <==> x in s
  {
    UniqueKeeps(s, bytes);
    var u := Unique(s, bytes);
    forall x | x in s ensures x in u {
      var k :| 0 <= k < |s| && s[k] == x;
      assert HasBytes(s, bytes, bytes(x));
      assert HasBytes(u, bytes, bytes(x));
      var i :| 0 <= i < |u| && bytes(u[i]) == bytes(x);
      assert u[i] in u;
    }
  }

  /** The elements of an ordered list. */
  lemma OrderedFrom<A>(s: seq<A>, bytes: A -> Text, key: A -> Key, x: A)
    requires x in Ordered(s, bytes, key)
    ensures x in s
  {
    UniqueKeeps(s, bytes);
    SortMembers(Unique(s, bytes), RankKey(key, bytes), x);
  }

  lemma OrderedHolds<A>(s: seq<A>, bytes: A -> Text, key: A -> Key, x: A)
    requires x in s && forall x, y :: x in s && y in s && bytes(x) == bytes(y) ==> x == y
    ensures x in Ordered(s, bytes, key)
  {
    UniqueIsAll(s, bytes);
    SortMembers(Unique(s, bytes), RankKey(key, bytes), x);
  }

  ghost predicate KeyByBytes<A>(s: seq<A>, t: seq<A>, bytes: A -> Text, key: A -> Key) {
    forall x, y :: x in s && y in t && bytes(x) == bytes(y) ==> key(x) == key(y)
  }

  /** The encodings of an ordered list are a function of the set of encodings. */
  lemma OrderedByBytes<A>(s: seq<A>, t: seq<A>, bytes: A -> Text, key: A -> Key)
    requires KeyByBytes(s, t, bytes, key)
    requires forall b :: HasBytes(s, bytes, b) <==> HasBytes(t, bytes, b)
    ensures BytesOf(Ordered(s, bytes, key), bytes) == BytesOf(Ordered(t, bytes, key), bytes)
  {
    hide Ordered, HasBytes, BytesOf;
    OrderedStrict(s, bytes, key);
    OrderedStrict(t, bytes, key);
    SortedBytes(Ordered(s, bytes, key), Ordered(t, bytes, key), bytes, RankKey(key, bytes));
  }

  /** Strictly sorted lists with the same encodings have them in the same order. */
  lemma SortedBytes<A>(p: seq<A>, q: seq<A>, bytes: A -> Text, rank: A -> Key)
    requires StrictlySortedBy(p, rank) && StrictlySortedBy(q, rank) && DistinctBytes(p, bytes)
    requires forall x, y :: x in p && y in q && bytes(x) == bytes(y) ==> rank(x) == rank(y)
    requires forall b :: HasBytes(p, bytes, b) <==> HasBytes(q, bytes, b)
    ensures BytesOf(p, bytes) == BytesOf(q, bytes)
  {
    hide KeyLt, HasBytes, DistinctBytes;
    var ranks := RankMap(p, bytes, rank);
    var byRank := (b: Text) => if b in ranks then ranks[b] else [];
    var a, b := BytesOf(p, bytes), BytesOf(q, bytes);
    forall i | 0 <= i < |p| ensures byRank(a[i]) == rank(p[i]) && a[i] in b {
      var j := Partner(p, q, bytes, i);
      assert b[j] == a[i];
    }
    forall j | 0 <= j < |q| ensures byRank(b[j]) == rank(q[j]) && b[j] in a {
      var i := Partner(q, p, bytes, j);
      assert a[i] == b[j] && p[i] in p && q[j] in q;
    }
    StrictlySortedUnique(a, b, byRank);
  }

  lemma RankMap<A>(p: seq<A>, bytes: A -> Text, rank: A -> Key) returns (ranks: map<Text, Key>)
    requires DistinctBytes(p, bytes)
    ensures forall i :: 0 <= i < |p| ==> bytes(p[i]) in ranks && ranks[bytes(p[i])] == rank(p[i])
  {
    ranks := map i | 0 <= i < |p| :: bytes(p[i]) := rank(p[i]);
  }

  lemma Partner<A>(p: seq<A>, q: seq<A>, bytes: A -> Text, i: nat) returns (j: nat)
    requires i < |p| && forall b :: HasBytes(p, bytes, b) ==> HasBytes(q, bytes, b)
    ensures j < |q| && bytes(q[j]) == bytes(p[i])
  {
    assert HasBytes(p, bytes, bytes(p[i]));
    j :| 0 <= j < |q| && bytes(q[j]) == bytes(p[i]);
  }

  lemma OrderedStrict<A>(s: seq<A>, bytes: A -> Text, key: A -> Key)
    ensures var p := Ordered(s, bytes, key);
            && StrictlySortedBy(p, RankKey(key, bytes))
            && DistinctBytes(p, bytes)
            && (forall b :: HasBytes(p, bytes, b) <==> HasBytes(s, bytes, b))
            && forall x :: x in p ==> x in s
  {
    var u := Unique(s, bytes);
    var p := Ordered(s, bytes, key);
    UniqueKeeps(s, bytes);
    RankDistinct(u, bytes, key);
    SortStrict(u, RankKey(key, bytes));
    forall x | x in p ensures x in s { OrderedFrom(s, bytes, key, x); }
    forall b ensures HasBytes(p, bytes, b) <==> HasBytes(u, bytes, b) {
      if HasBytes(p, bytes, b) {
        var i :| 0 <= i < |p| && bytes(p[i]) == b;
        SortMembers(u, RankKey(key, bytes), p[i]);
        var j :| 0 <= j < |u| && u[j] == p[i];
      }
      if HasBytes(u, bytes, b) {
        var i :| 0 <= i < |u| && bytes(u[i]) == b;
        SortMembers(u, RankKey(key, bytes), u[i]);
        var j :| 0 <= j < |p| && p[j] == u[i];
      }
    }
    forall i, j | 0 <= i < j < |p| ensures bytes(p[i]) != bytes(p[j]) {
      SortDistinctBytes(u, bytes, key, i, j);
    }
  }

  lemma SortDistinctBytes<A>(u: seq<A>, bytes: A -> Text, key: A -> Key, i: nat, j: nat)
    requires DistinctBytes(u, bytes) && i < j < |Sort(u, RankKey(key, bytes))|
    ensures bytes(Sort(u, RankKey(key, bytes))[i]) != bytes(Sort(u, RankKey(key, bytes))[j])
  {
    var p := Sort(u, RankKey(key, bytes));
    var byteKey := (a: A) => [Txt(bytes(a))];
    forall m, n | 0 <= m < n < |u| ensures byteKey(u[m]) != byteKey(u[n]) {
      assert byteKey(u[m])[0] != byteKey(u[n])[0];
    }
    SortPermutes(u, RankKey(key, bytes));
    PermutedDistinctKeys(u, p, byteKey);
  }
}
