/**
 Texts, sort keys and the sort that every canonical array, SQL `order_by` and
 grouped member list of the system relies on.

 A Python string is a sequence of code points; bytes are numbers too, so one
 lexicographic order serves both.  A sort key is a Python tuple: a sequence of
 numbers and texts compared from left to right.
 */
module Order {

  type Text = seq<nat>

  datatype Option<+T> = None | Some(value: T)

  datatype Atom = Num(n: int) | Txt(t: Text)

  type Key = seq<Atom>

  /** The text of an ASCII literal. */
  function T(s: string): Text {
    seq(|s|, i requires 0 <= i < |s| => s[i] as nat)
  }

  predicate TextLt(a: Text, b: Text) {
    if b == [] then false
    else if a == [] then true
    else if a[0] != b[0] then a[0] < b[0]
    else TextLt(a[1..], b[1..])
  }

  predicate AtomLt(a: Atom, b: Atom) {
    match (a, b)
    case (Num(m), Num(n)) => m < n
    case (Num(_), Txt(_)) => true
    case (Txt(_), Num(_)) => false
    case (Txt(s), Txt(t)) => TextLt(s, t)
  }

  predicate KeyLt(a: Key, b: Key) {
    if b == [] then false
    else if a == [] then true
    else if a[0] != b[0] then AtomLt(a[0], b[0])
    else KeyLt(a[1..], b[1..])
  }

  lemma {:induction false} TextLtTotal(a: Text, b: Text)
    ensures !(TextLt(a, b) && TextLt(b, a))
    ensures a == b <==> !TextLt(a, b) && !TextLt(b, a)
  {
    if a != [] && b != [] && a[0] == b[0] {
      TextLtTotal(a[1..], b[1..]);
      assert a == [a[0]] + a[1..] && b == [b[0]] + b[1..];
    }
  }

  /** The first difference decides; a proper prefix comes first. */
  lemma {:induction false} TextLtExactly(a: Text, b: Text)
    ensures TextLt(a, b) <==>
            exists i :: 0 <= i <= |a| && i < |b| && a[..i] == b[..i] && (i == |a| || a[i] < b[i])
  {
    if a == [] {
      if b != [] { assert a[..0] == b[..0]; }
    } else if b != [] {
      TextLtExactly(a[1..], b[1..]);
      if TextLt(a, b) {
        if a[0] != b[0] {
          assert a[..0] == b[..0];
        } else {
          var i :| 0 <= i <= |a[1..]| && i < |b[1..]| && a[1..][..i] == b[1..][..i]
                   && (i == |a[1..]| || a[1..][i] < b[1..][i]);
          assert a[..i + 1] == [a[0]] + a[1..][..i] && b[..i + 1] == [b[0]] + b[1..][..i];
        }
      }
      if i :| 0 <= i <= |a| && i < |b| && a[..i] == b[..i] && (i == |a| || a[i] < b[i]) {
        if i > 0 {
          assert a[0] == a[..i][0] == b[..i][0] == b[0];
          assert a[1..][..i - 1] == a[..i][1..] && b[1..][..i - 1] == b[..i][1..];
        }
      }
    }
  }

  lemma {:induction false} TextLtTransitive(a: Text, b: Text, c: Text)
    requires TextLt(a, b) && TextLt(b, c)
    ensures TextLt(a, c)
  {
    if a != [] && a[0] == b[0] && b[0] == c[0] {
      TextLtTransitive(a[1..], b[1..], c[1..]);
    }
  }

  lemma AtomLtTotal(a: Atom, b: Atom)
    ensures !(AtomLt(a, b) && AtomLt(b, a))
    ensures a == b <==> !AtomLt(a, b) && !AtomLt(b, a)
  {
    if a.Txt? && b.Txt? {
      TextLtTotal(a.t, b.t);
    }
  }

  lemma AtomLtTransitive(a: Atom, b: Atom, c: Atom)
    requires AtomLt(a, b) && AtomLt(b, c)
    ensures AtomLt(a, c)
  {
    if a.Txt? && b.Txt? && c.Txt? {
      TextLtTransitive(a.t, b.t, c.t);
    }
  }

  lemma {:induction false} KeyLtTotal(a: Key, b: Key)
    ensures !(KeyLt(a, b) && KeyLt(b, a))
    ensures a == b <==> !KeyLt(a, b) && !KeyLt(b, a)
  {
    if a != [] && b != [] {
      AtomLtTotal(a[0], b[0]);
      if a[0] == b[0] {
        KeyLtTotal(a[1..], b[1..]);
        assert a == [a[0]] + a[1..] && b == [b[0]] + b[1..];
      }
    }
  }

  lemma {:induction false} KeyLtTransitive(a: Key, b: Key, c: Key)
    requires KeyLt(a, b) && KeyLt(b, c)
    ensures KeyLt(a, c)
  {
    if a != [] {
      if a[0] == b[0] && b[0] == c[0] {
        KeyLtTransitive(a[1..], b[1..], c[1..]);
      } else if a[0] != b[0] && b[0] != c[0] {
        AtomLtTransitive(a[0], b[0], c[0]);
        AtomLtTotal(a[0], c[0]);
        AtomLtTotal(a[0], b[0]);
      }
    }
  }

  /** `a <= b`, as a sort sees it. */
  /** Keys are compared where they first differ. */
  lemma {:induction false} FirstDifference(k: Key, l: Key, n: nat)
    requires n < |k| && n < |l| && k[..n] == l[..n] && k[n] != l[n] && KeyLt(k, l)
    ensures AtomLt(k[n], l[n])
  {
    hide AtomLt;
    if n > 0 {
      assert k[0] == k[..n][0] == l[..n][0] == l[0];
      assert k[1..][..n - 1] == k[..n][1..] && l[1..][..n - 1] == l[..n][1..];
      FirstDifference(k[1..], l[1..], n - 1);
    }
  }

  predicate KeyLe(a: Key, b: Key) {
    !KeyLt(b, a)
  }

  lemma KeyLeTransitive(a: Key, b: Key, c: Key)
    requires KeyLe(a, b) && KeyLe(b, c)
    ensures KeyLe(a, c)
  {
    KeyLtTotal(a, b);
    KeyLtTotal(b, c);
    KeyLtTotal(a, c);
    if KeyLt(a, b) && KeyLt(b, c) {
      KeyLtTransitive(a, b, c);
    }
  }

  ghost predicate SortedBy<A>(s: seq<A>, key: A -> Key) {
    forall i, j :: 0 <= i < j < |s| ==> KeyLe(key(s[i]), key(s[j]))
  }

  ghost predicate StrictlySortedBy<A>(s: seq<A>, key: A -> Key) {
    forall i, j :: 0 <= i < j < |s| ==> KeyLt(key(s[i]), key(s[j]))
  }

  /** Python's stable `sorted(s, key=key)`. */
  function Sort<A>(s: seq<A>, key: A -> Key): seq<A> {
    if s == [] then [] else Insert(s[0], Sort(s[1..], key), key)
  }

  function Insert<A>(x: A, s: seq<A>, key: A -> Key): seq<A> {
    if s == [] || KeyLe(key(x), key(s[0])) then [x] + s
    else [s[0]] + Insert(x, s[1..], key)
  }

  lemma {:induction false} InsertPermutes<A>(x: A, s: seq<A>, key: A -> Key)
    ensures multiset(Insert(x, s, key)) == multiset([x] + s)
    ensures |Insert(x, s, key)| == |s| + 1
  {
    if !(s == [] || KeyLe(key(x), key(s[0]))) {
      InsertPermutes(x, s[1..], key);
      assert s == [s[0]] + s[1..];
    }
  }

  lemma {:induction false} SortPermutes<A>(s: seq<A>, key: A -> Key)
    ensures multiset(Sort(s, key)) == multiset(s)
    ensures |Sort(s, key)| == |s|
  {
    if s != [] {
      SortPermutes(s[1..], key);
      InsertPermutes(s[0], Sort(s[1..], key), key);
      assert s == [s[0]] + s[1..];
    }
  }

  lemma {:induction false} InsertSorted<A>(x: A, s: seq<A>, key: A -> Key)
    requires SortedBy(s, key)
    ensures SortedBy(Insert(x, s, key), key)
  {
    var r := Insert(x, s, key);
    if s == [] {
    } else if KeyLe(key(x), key(s[0])) {
      forall j | 1 <= j < |r| ensures KeyLe(key(r[0]), key(r[j])) {
        if j > 1 {
          KeyLeTransitive(key(x), key(s[0]), key(s[j - 1]));
        }
      }
    } else {
      InsertSorted(x, s[1..], key);
      InsertPermutes(x, s[1..], key);
      var t := Insert(x, s[1..], key);
      KeyLtTotal(key(x), key(s[0]));
      forall j | 1 <= j < |r| ensures KeyLe(key(r[0]), key(r[j])) {
        assert r[j] == t[j - 1] && t[j - 1] in multiset(t);
        assert r[j] == x || r[j] in s[1..];
      }
    }
  }

  lemma {:induction false} SortSorted<A>(s: seq<A>, key: A -> Key)
    ensures SortedBy(Sort(s, key), key)
  {
    if s != [] {
      SortSorted(s[1..], key);
      InsertSorted(s[0], Sort(s[1..], key), key);
    }
  }

  lemma SortMembers<A>(s: seq<A>, key: A -> Key, x: A)
    ensures x in Sort(s, key) <==> x in s
  {
    SortPermutes(s, key);
    assert x in Sort(s, key) <==> x in multiset(Sort(s, key));
    assert x in s <==> x in multiset(s);
  }

  ghost predicate Distinct<A>(s: seq<A>) {
    forall i, j :: 0 <= i < j < |s| ==> s[i] != s[j]
  }

  lemma {:induction false} DistinctSize<A>(s: seq<A>)
    requires Distinct(s)
    ensures |set x | x in s| == |s|
  {
    if s != [] {
      var init := s[..|s| - 1];
      DistinctSize(init);
      assert (set x | x in s) == (set x | x in init) + {s[|s| - 1]};
    }
  }

  ghost predicate DistinctKeys<A>(s: seq<A>, key: A -> Key) {
    forall i, j :: 0 <= i < j < |s| ==> key(s[i]) != key(s[j])
  }

  /** A permutation keeps keys distinct. */
  lemma {:induction false} PermutedDistinctKeys<A>(s: seq<A>, t: seq<A>, key: A -> Key)
    requires multiset(s) == multiset(t) && DistinctKeys(s, key)
    ensures DistinctKeys(t, key)
  {
    forall i, j | 0 <= i < j < |t| ensures key(t[i]) != key(t[j]) {
      if key(t[i]) == key(t[j]) {
        assert t[i] in multiset(s) && t[j] in multiset(s);
        var p :| 0 <= p < |s| && s[p] == t[i];
        var q :| 0 <= q < |s| && s[q] == t[j];
        assert p == q;
        TwoPlaces(t, i, j);
        OnePlace(s, key, p);
      }
    }
  }

  lemma TwoPlaces<A>(t: seq<A>, i: nat, j: nat)
    requires i < j < |t| && t[i] == t[j]
    ensures multiset(t)[t[i]] >= 2
  {
    assert t == t[..j] + ([t[j]] + t[j + 1..]);
    assert multiset(t) == multiset(t[..j]) + multiset([t[j]] + t[j + 1..]);
    assert t[..j][i] == t[i] && t[i] in t[..j];
    assert ([t[j]] + t[j + 1..])[0] == t[i];
  }

  lemma OnePlace<A>(s: seq<A>, key: A -> Key, p: nat)
    requires p < |s| && DistinctKeys(s, key)
    ensures multiset(s)[s[p]] == 1
  {
    var x := s[p];
    assert s == s[..p] + [x] + s[p + 1..];
    assert x !in s[..p] && x !in s[p + 1..];
    assert multiset(s) == multiset(s[..p]) + multiset{x} + multiset(s[p + 1..]);
  }

  lemma SortStrict<A>(s: seq<A>, key: A -> Key)
    requires DistinctKeys(s, key)
    ensures StrictlySortedBy(Sort(s, key), key)
  {
    var r := Sort(s, key);
    SortSorted(s, key);
    SortPermutes(s, key);
    PermutedDistinctKeys(s, r, key);
    forall i, j | 0 <= i < j < |r| ensures KeyLt(key(r[i]), key(r[j])) {
      KeyLtTotal(key(r[i]), key(r[j]));
    }
  }

  lemma EmptyOrMember<A>(t: seq<A>)
    ensures t == [] || exists x :: x in t
  {
    if t != [] { assert t[0] in t; }
  }

  /** A strictly sorted sequence is determined by its set of elements. */
  lemma {:induction false} StrictlySortedUnique<A>(s: seq<A>, t: seq<A>, key: A -> Key)
    requires StrictlySortedBy(s, key) && StrictlySortedBy(t, key)
    requires forall x :: x in s <==> x in t
    ensures s == t
  {
    if s == [] {
      EmptyOrMember(t);
    } else {
      assert s[0] in t;
      assert t[0] in s;
      var i :| 0 <= i < |t| && t[i] == s[0];
      var j :| 0 <= j < |s| && s[j] == t[0];
      KeyLtTotal(key(s[0]), key(t[0]));
      assert s[0] == t[0];
      forall x ensures x in s[1..] <==> x in t[1..] {
        if x in s[1..] {
          var k :| 0 <= k < |s[1..]| && s[1..][k] == x;
          assert x == s[k + 1] && KeyLt(key(s[0]), key(x)) && x in t;
          KeyLtTotal(key(s[0]), key(x));
          assert x != t[0];
        }
        if x in t[1..] {
          var k :| 0 <= k < |t[1..]| && t[1..][k] == x;
          assert x == t[k + 1] && KeyLt(key(t[0]), key(x)) && x in s;
          KeyLtTotal(key(t[0]), key(x));
          assert x != s[0];
        }
      }
      StrictlySortedUnique(s[1..], t[1..], key);
      assert s == [s[0]] + s[1..] && t == [t[0]] + t[1..];
    }
  }

  /** Sorting forgets the order of a sequence with distinct keys. */
  lemma SortForgetsOrder<A>(s: seq<A>, t: seq<A>, key: A -> Key)
    requires DistinctKeys(s, key) && DistinctKeys(t, key)
    requires forall x :: x in s <==> x in t
    ensures Sort(s, key) == Sort(t, key)
  {
    SortStrict(s, key);
    SortStrict(t, key);
    forall x ensures x in Sort(s, key) <==> x in Sort(t, key) {
      SortMembers(s, key, x);
      SortMembers(t, key, x);
    }
    StrictlySortedUnique(Sort(s, key), Sort(t, key), key);
  }
}
