/** Concatenations, and when their order shows. */
module Words {
  import opened Order
  import opened StableSort

  /** The words of the items, one after another. */
  ghost function Flat<A, B>(word: A -> seq<B>, s: seq<A>): seq<B> {
    if s == [] then [] else word(s[0]) + Flat(word, s[1..])
  }

  lemma {:induction false} FlatConcat<A, B>(word: A -> seq<B>, s: seq<A>, t: seq<A>)
    ensures Flat(word, s + t) == Flat(word, s) + Flat(word, t)
  {
    if s == [] {
      assert s + t == t;
    } else {
      assert (s + t)[1..] == s[1..] + t;
      FlatConcat(word, s[1..], t);
    }
  }

  ghost predicate Commute<B>(u: seq<B>, v: seq<B>) { u + v == v + u }

  ghost predicate AllCommute<A(!new), B>(word: A -> seq<B>, s: seq<A>) {
    forall x, y :: x in s && y in s ==> Commute(word(x), word(y))
  }

  /** A word that commutes with each of some words commutes with them all together. */
  lemma {:induction false} CommuteFlat<A(!new), B>(word: A -> seq<B>, s: seq<A>, u: seq<B>)
    requires forall x :: x in s ==> Commute(u, word(x))
    ensures Commute(u, Flat(word, s))
  {
    if s == [] {
      assert u + [] == [] + u;
    } else {
      CommuteFlat(word, s[1..], u);
      var w, rest := word(s[0]), Flat(word, s[1..]);
      assert s[0] in s && Commute(u, w);
      assert u + (w + rest) == (u + w) + rest == (w + u) + rest == w + (u + rest) == w + (rest + u) == (w + rest) + u;
    }
  }

  lemma SplitAt<A>(s: seq<A>, i: nat)
    requires i < |s|
    ensures s == s[..i] + ([s[i]] + s[i + 1..]) && multiset(s[..i] + s[i + 1..]) == multiset(s) - multiset{s[i]}
    ensures forall x :: x in s[..i] + s[i + 1..] ==> x in s
  {
    assert s == s[..i] + ([s[i]] + s[i + 1..]);
  }

  /** A word that commutes with those before it may be moved to the front. */
  lemma MoveFront<A(!new), B>(word: A -> seq<B>, s: seq<A>, i: nat)
    requires i < |s| && AllCommute(word, s)
    ensures Flat(word, s) == word(s[i]) + Flat(word, s[..i] + s[i + 1..])
  {
    hide Flat;
    FlatConcat(word, s[..i], [s[i]] + s[i + 1..]);
    FlatConcat(word, s[..i], s[i + 1..]);
    FlatCons(word, s[i], s[i + 1..]);
    assert s == s[..i] + ([s[i]] + s[i + 1..]);
    forall x | x in s[..i] ensures Commute(word(s[i]), word(x)) {
      assert x in s && s[i] in s;
    }
    CommuteFlat(word, s[..i], word(s[i]));
    var u, v, w := Flat(word, s[..i]), word(s[i]), Flat(word, s[i + 1..]);
    assert u + (v + w) == (u + v) + w == (v + u) + w == v + (u + w);
  }

  lemma FlatCons<A, B>(word: A -> seq<B>, x: A, s: seq<A>)
    ensures Flat(word, [x] + s) == word(x) + Flat(word, s)
  {
    assert ([x] + s)[1..] == s;
  }

  /** Commuting words may be taken in any order. */
  lemma {:induction false} FlatPermuted<A(!new), B>(word: A -> seq<B>, s: seq<A>, t: seq<A>)
    requires multiset(s) == multiset(t) && AllCommute(word, s)
    ensures Flat(word, s) == Flat(word, t)
    decreases |t|
  {
    hide Flat, Commute;
    assert |s| == |multiset(s)| == |multiset(t)| == |t|;
    if t == [] {
      assert s == t;
    } else {
      assert t[0] in multiset(s);
      var i :| 0 <= i < |s| && s[i] == t[0];
      SplitAt(s, i);
      assert t == [t[0]] + t[1..];
      assert multiset(t[1..]) == multiset(t) - multiset{t[0]};
      FlatPermuted(word, s[..i] + s[i + 1..], t[1..]);
      MoveFront(word, s, i);
      FlatCons(word, t[0], t[1..]);
    }
  }

  lemma {:induction false} FlatLengthPermuted<A, B>(word: A -> seq<B>, s: seq<A>, t: seq<A>)
    requires multiset(s) == multiset(t)
    ensures |Flat(word, s)| == |Flat(word, t)|
    decreases |t|
  {
    hide Flat;
    assert |s| == |multiset(s)| == |multiset(t)| == |t|;
    if t == [] {
      assert s == t;
    } else {
      assert t[0] in multiset(s);
      var i :| 0 <= i < |s| && s[i] == t[0];
      SplitAt(s, i);
      assert t == [t[0]] + t[1..];
      assert multiset(t[1..]) == multiset(t) - multiset{t[0]};
      FlatLengthPermuted(word, s[..i] + s[i + 1..], t[1..]);
      FlatConcat(word, s[..i], [s[i]] + s[i + 1..]);
      FlatConcat(word, s[..i], s[i + 1..]);
      FlatCons(word, s[i], s[i + 1..]);
      FlatCons(word, t[0], t[1..]);
    }
  }

  lemma CommuteFromSwap<B>(u: seq<B>, v: seq<B>, x: seq<B>)
    requires u + v + x == v + u + x
    ensures Commute(u, v)
  {
    assert u + v == (u + v + x)[..|u| + |v|];
    assert v + u == (v + u + x)[..|u| + |v|];
  }

  // ------------------------------------------------- words of a sorted sequence, key by key

  lemma {:induction false} TierAbsent<A>(s: seq<A>, key: A -> Key, k: Key)
    requires forall x :: x in s ==> key(x) != k
    ensures Tier(s, key, k) == []
  {
    if s != [] {
      assert s[0] in s;
      TierAbsent(s[1..], key, k);
    }
  }

  lemma {:induction false} TierWhole<A>(s: seq<A>, key: A -> Key, k: Key)
    requires forall x :: x in s ==> key(x) == k
    ensures Tier(s, key, k) == s
  {
    if s != [] {
      assert s[0] in s;
      TierWhole(s[1..], key, k);
      assert s == [s[0]] + s[1..];
    }
  }

  /** A sorted sequence begins with the items of its least key. */
  lemma {:induction false} LeastTierLeads<A(!new)>(s: seq<A>, key: A -> Key) returns (n: nat)
    requires s != [] && SortedBy(s, key)
    ensures 0 < n <= |s| && Tier(s, key, key(s[0])) == s[..n] && SortedBy(s[n..], key)
    ensures forall x :: x in s[n..] ==> key(x) != key(s[0])
    ensures forall k :: k != key(s[0]) ==> Tier(s, key, k) == Tier(s[n..], key, k)
    ensures Tier(s[n..], key, key(s[0])) == []
  {
    var k := key(s[0]);
    n := 1;
    while n < |s| && key(s[n]) == k
      invariant 0 < n <= |s| && forall i :: 0 <= i < n ==> key(s[i]) == k
    {
      n := n + 1;
    }
    assert s == s[..n] + s[n..];
    forall x | x in s[n..] ensures key(x) != k {
      var j :| n <= j < |s| && s[j] == x;
      KeyLtTotal(k, key(s[n]));
      KeyLtTotal(k, key(x));
      KeyLtTotal(key(s[n]), key(x));
      assert KeyLe(key(s[0]), key(s[n])) && (j > n ==> KeyLe(key(s[n]), key(s[j])));
    }
    TierWhole(s[..n], key, k);
    TierAbsent(s[n..], key, k);
    TierConcat(s[..n], s[n..], key, k);
    forall l | l != k ensures Tier(s, key, l) == Tier(s[n..], key, l) {
      TierAbsent(s[..n], key, l);
      TierConcat(s[..n], s[n..], key, l);
    }
  }

  /** As many items for every key, and words of the same length. */
  ghost predicate Parallel<A(!new), B>(word: A -> seq<B>, s: seq<A>, t: seq<A>, key: A -> Key) {
    forall k ::
      && |Tier(s, key, k)| == |Tier(t, key, k)|
      && |Flat(word, Tier(s, key, k))| == |Flat(word, Tier(t, key, k))|
  }

  lemma ParallelHeads<A(!new), B>(word: A -> seq<B>, s: seq<A>, t: seq<A>, key: A -> Key)
    requires SortedBy(s, key) && SortedBy(t, key) && Parallel(word, s, t, key) && s != []
    ensures t != [] && key(s[0]) == key(t[0])
  {
    hide Flat, Tier;
    TierHead(s, key);
    TierMembers(t, key, key(s[0]));
    assert |Tier(t, key, key(s[0]))| > 0;
    assert Tier(t, key, key(s[0]))[0] in Tier(t, key, key(s[0]));
    TierHead(t, key);
    TierMembers(s, key, key(t[0]));
    assert |Tier(s, key, key(t[0]))| > 0;
    assert Tier(s, key, key(t[0]))[0] in Tier(s, key, key(t[0]));
    SortedTail(s, key);
    SortedTail(t, key);
    KeyLtTotal(key(s[0]), key(t[0]));
  }

  lemma ParallelEmpty<A(!new), B>(word: A -> seq<B>, s: seq<A>, t: seq<A>, key: A -> Key)
    requires Parallel(word, s, t, key) && s == []
    ensures t == []
  {
    assert t != [] ==> |Tier(t, key, key(t[0]))| > 0;
    assert forall k :: |Tier(s, key, k)| == 0;
  }

  /** The words agree key by key. */
  ghost predicate TierWords<A(!new), B>(word: A -> seq<B>, s: seq<A>, t: seq<A>, key: A -> Key) {
    forall k :: Flat(word, Tier(s, key, k)) == Flat(word, Tier(t, key, k))
  }

  /** Sorted sequences whose words agree key by key have the same words, and conversely. */
  lemma {:induction false} WordsByTiers<A(!new), B>(word: A -> seq<B>, s: seq<A>, t: seq<A>, key: A -> Key)
    requires SortedBy(s, key) && SortedBy(t, key) && Parallel(word, s, t, key)
    ensures Flat(word, s) == Flat(word, t) <==> TierWords(word, s, t, key)
    decreases |s|
  {
    hide Tier, SortedBy, Flat;
    if s == [] {
      ParallelEmpty(word, s, t, key);
    } else {
      ParallelHeads(word, s, t, key);
      var k := key(s[0]);
      var m := LeastTierLeads(s, key);
      var n := LeastTierLeads(t, key);
      var s', t' := s[m..], t[n..];
      assert Parallel(word, s', t', key) by {
        forall l
          ensures |Tier(s', key, l)| == |Tier(t', key, l)|
          ensures |Flat(word, Tier(s', key, l))| == |Flat(word, Tier(t', key, l))|
        {
          if l != k { assert |Tier(s, key, l)| == |Tier(t, key, l)|; }
        }
      }
      WordsByTiers(word, s', t', key);
      assert s == s[..m] + s' && t == t[..n] + t';
      FlatConcat(word, s[..m], s');
      FlatConcat(word, t[..n], t');
      var u, v, x, y := Flat(word, s[..m]), Flat(word, t[..n]), Flat(word, s'), Flat(word, t');
      assert |Flat(word, Tier(s, key, k))| == |Flat(word, Tier(t, key, k))|;
      if u + x == v + y {
        assert u == (u + x)[..|u|] && v == (v + y)[..|v|] && x == (u + x)[|u|..] && y == (v + y)[|v|..];
        forall l ensures Flat(word, Tier(s, key, l)) == Flat(word, Tier(t, key, l)) {
          if l != k { assert Flat(word, Tier(s', key, l)) == Flat(word, Tier(t', key, l)); }
        }
      }
      if TierWords(word, s, t, key) {
        assert Flat(word, Tier(s, key, k)) == Flat(word, Tier(t, key, k));
        forall l ensures Flat(word, Tier(s', key, l)) == Flat(word, Tier(t', key, l)) {
          if l != k { assert Flat(word, Tier(s, key, l)) == Flat(word, Tier(t, key, l)); }
        }
        assert TierWords(word, s', t', key);
        assert x == y && u == v;
      }
    }
  }
}
