/**
 The order in which a mapping is iterated, at any depth, never reaches the
 canonical bytes.
 */
module MappingOrder {
  import opened Order
  import opened Encoding
  import opened Json
  import Canonical

  /** Every mapping has distinct keys, as a Python mapping with string keys does. */
  predicate Keyed(v: Json)
    decreases v
  {
    match v
    case Arr(items) => forall i :: 0 <= i < |items| ==> Keyed(items[i])
    case Obj(ms) =>
      && (forall i, j :: 0 <= i < j < |ms| ==> ms[i].key != ms[j].key)
      && forall i :: 0 <= i < |ms| ==> Keyed(ms[i].value)
    case _ => true
  }

  ghost predicate Uncollided(nfc: Text -> Text, ms: seq<Member>) {
    forall i, j :: 0 <= i < j < |ms| ==> nfc(ms[i].key) != nfc(ms[j].key)
  }

  ghost predicate AllNormal(nfc: Text -> Text, ms: seq<Member>) {
    forall i :: 0 <= i < |ms| ==> Normalize(nfc, ms[i].value).Some?
  }

  /** Keys drawn from an uncollided mapping do not collide. */
  lemma UncollidedCarries(nfc: Text -> Text, m: seq<Member>, n: seq<Member>)
    requires Uncollided(nfc, m) && forall i, j :: 0 <= i < j < |n| ==> n[i].key != n[j].key
    requires forall j :: 0 <= j < |n| ==> KeyIn(n[j].key, m)
    ensures Uncollided(nfc, n)
  {
    forall i, j | 0 <= i < j < |n| ensures nfc(n[i].key) != nfc(n[j].key) {
      assert KeyIn(n[i].key, m) && KeyIn(n[j].key, m);
      var p :| 0 <= p < |m| && m[p].key == n[i].key;
      var q :| 0 <= q < |m| && m[q].key == n[j].key;
    }
  }

  predicate KeyIn(k: Text, m: seq<Member>) {
    exists i :: 0 <= i < |m| && m[i].key == k
  }

  lemma SameObjectsNormalize(nfc: Text -> Text, m: seq<Member>, n: seq<Member>)
    requires Same(Obj(m), Obj(n)) && Keyed(Obj(m)) && Keyed(Obj(n))
    requires forall i, j :: 0 <= i < |m| && 0 <= j < |n| && SameMember(m[i], n[j])
               ==> (Normalize(nfc, m[i].value).Some? <==> Normalize(nfc, n[j].value).Some?)
    ensures Uncollided(nfc, m) && AllNormal(nfc, m) <==> Uncollided(nfc, n) && AllNormal(nfc, n)
  {
    hide Normalize, Same, Keyed;
    KeyedKeys(m);
    KeyedKeys(n);
    if Uncollided(nfc, m) && AllNormal(nfc, m) {
      forall j | 0 <= j < |n| ensures KeyIn(n[j].key, m) && Normalize(nfc, n[j].value).Some? {
        assert HasLeft(m, n[j]) by { SameSides(m, n); }
        var i :| 0 <= i < |m| && SameMember(m[i], n[j]);
      }
      UncollidedCarries(nfc, m, n);
    }
    if Uncollided(nfc, n) && AllNormal(nfc, n) {
      forall i | 0 <= i < |m| ensures KeyIn(m[i].key, n) && Normalize(nfc, m[i].value).Some? {
        assert HasRight(m[i], n) by { SameSides(m, n); }
        var j :| 0 <= j < |n| && SameMember(m[i], n[j]);
      }
      UncollidedCarries(nfc, n, m);
    }
  }

  lemma SameSides(m: seq<Member>, n: seq<Member>)
    requires Same(Obj(m), Obj(n))
    ensures forall i :: 0 <= i < |m| ==> HasRight(m[i], n)
    ensures forall j :: 0 <= j < |n| ==> HasLeft(m, n[j])
  {
  }

  /** Values that stand at the same index under the same key agree. */
  lemma Aligned(m: seq<Member>, n: seq<Member>, i: nat)
    requires Plain(Obj(n)) && Same(Obj(m), Obj(n))
    requires i < |m| && i < |n| && m[i].key == n[i].key
    ensures Same(m[i].value, n[i].value)
  {
    assert HasRight(m[i], n) by { SameSides(m, n); }
    var j :| 0 <= j < |n| && SameMember(m[i], n[j]);
    assert j == i;
  }

  lemma KeyedKeys(m: seq<Member>)
    requires Keyed(Obj(m))
    ensures forall i, j :: 0 <= i < j < |m| ==> m[i].key != m[j].key
  {
  }

  function NormalMembers(nfc: Text -> Text, ms: seq<Member>): seq<Member>
    requires forall i :: 0 <= i < |ms| ==> Normalize(nfc, ms[i].value).Some?
  {
    seq(|ms|, i requires 0 <= i < |ms| => Member(nfc(ms[i].key), Normalize(nfc, ms[i].value).value))
  }

  lemma NormalObject(nfc: Text -> Text, ms: seq<Member>)
    ensures Normalize(nfc, Obj(ms)).Some? <==> Uncollided(nfc, ms) && AllNormal(nfc, ms)
    ensures Normalize(nfc, Obj(ms)).Some? ==> Normalize(nfc, Obj(ms)) == Some(Obj(NormalMembers(nfc, ms)))
  {
  }

  lemma NormalMembersSame(nfc: Text -> Text, m: seq<Member>, n: seq<Member>)
    requires Same(Obj(m), Obj(n)) && AllNormal(nfc, m) && AllNormal(nfc, n)
    requires forall i, j :: 0 <= i < |m| && 0 <= j < |n| && SameMember(m[i], n[j])
               ==> Same(Normalize(nfc, m[i].value).value, Normalize(nfc, n[j].value).value)
    ensures Same(Obj(NormalMembers(nfc, m)), Obj(NormalMembers(nfc, n)))
  {
    hide Normalize;
    var m', n' := NormalMembers(nfc, m), NormalMembers(nfc, n);
    forall i | 0 <= i < |m'| ensures HasRight(m'[i], n') {
      assert HasRight(m[i], n) by { SameSides(m, n); }
      var j :| 0 <= j < |n| && SameMember(m[i], n[j]);
      assert SameMember(m'[i], n'[j]);
    }
    forall j | 0 <= j < |n'| ensures HasLeft(m', n'[j]) {
      assert HasLeft(m, n[j]) by { SameSides(m, n); }
      var i :| 0 <= i < |m| && SameMember(m[i], n[j]);
      assert SameMember(m'[i], n'[j]);
    }
  }

  /** Normalization respects equality of values. */
  lemma {:induction false} NormalizeRespectsSame(nfc: Text -> Text, a: Json, b: Json)
    requires Keyed(a) && Keyed(b) && Same(a, b)
    ensures Normalize(nfc, a).Some? <==> Normalize(nfc, b).Some?
    ensures Normalize(nfc, a).Some? ==> Same(Normalize(nfc, a).value, Normalize(nfc, b).value)
    decreases a
  {
    match (a, b)
    case (Arr(s), Arr(t)) =>
      forall i | 0 <= i < |s| { NormalizeRespectsSame(nfc, s[i], t[i]); }
    case (Obj(m), Obj(n)) =>
      forall i, j | 0 <= i < |m| && 0 <= j < |n| && SameMember(m[i], n[j]) {
        NormalizeRespectsSame(nfc, m[i].value, n[j].value);
      }
      RespectObjects(nfc, m, n);
    case _ =>
  }

  lemma RespectObjects(nfc: Text -> Text, m: seq<Member>, n: seq<Member>)
    requires Same(Obj(m), Obj(n)) && Keyed(Obj(m)) && Keyed(Obj(n))
    requires forall i, j :: 0 <= i < |m| && 0 <= j < |n| && SameMember(m[i], n[j])
               ==> (Normalize(nfc, m[i].value).Some? <==> Normalize(nfc, n[j].value).Some?)
                   && (Normalize(nfc, m[i].value).Some?
                       ==> Same(Normalize(nfc, m[i].value).value, Normalize(nfc, n[j].value).value))
    ensures Normalize(nfc, Obj(m)).Some? <==> Normalize(nfc, Obj(n)).Some?
    ensures Normalize(nfc, Obj(m)).Some? ==> Same(Normalize(nfc, Obj(m)).value, Normalize(nfc, Obj(n)).value)
  {
    hide Normalize, Same, Keyed, SameMember, NormalMembers, Uncollided;
    NormalObject(nfc, m);
    NormalObject(nfc, n);
    SameObjectsNormalize(nfc, m, n);
    if Normalize(nfc, Obj(m)).Some? {
      NormalMembersSame(nfc, m, n);
    }
  }

  lemma {:induction false} EncodableRespectsSame(a: Json, b: Json)
    requires Same(a, b)
    ensures AllEncodable(a) <==> AllEncodable(b)
    decreases a
  {
    match (a, b)
    case (Arr(s), Arr(t)) =>
      forall i | 0 <= i < |s| { EncodableRespectsSame(s[i], t[i]); }
    case (Obj(m), Obj(n)) =>
      forall i, j | 0 <= i < |m| && 0 <= j < |n| && SameMember(m[i], n[j]) {
        EncodableRespectsSame(m[i].value, n[j].value);
      }
      EncodableObjects(m, n);
    case _ =>
  }

  lemma EncodableObjects(m: seq<Member>, n: seq<Member>)
    requires Same(Obj(m), Obj(n))
    requires forall i, j :: 0 <= i < |m| && 0 <= j < |n| && SameMember(m[i], n[j])
               ==> (AllEncodable(m[i].value) <==> AllEncodable(n[j].value))
    ensures AllEncodable(Obj(m)) <==> AllEncodable(Obj(n))
  {
    hide Same, Encodable;
    if AllEncodable(Obj(m)) {
      forall j | 0 <= j < |n| ensures Encodable(n[j].key) && AllEncodable(n[j].value) {
        assert HasLeft(m, n[j]) by { SameSides(m, n); }
        var i :| 0 <= i < |m| && SameMember(m[i], n[j]);
      }
    }
    if AllEncodable(Obj(n)) {
      forall i | 0 <= i < |m| ensures Encodable(m[i].key) && AllEncodable(m[i].value) {
        assert HasRight(m[i], n) by { SameSides(m, n); }
        var j :| 0 <= j < |n| && SameMember(m[i], n[j]);
      }
    }
  }

  /** Equal values have equal canonical bytes, or are both rejected. */
  lemma MappingOrderForgotten(nfc: Text -> Text, a: Json, b: Json)
    requires Keyed(a) && Keyed(b) && Same(a, b)
    ensures CanonicalText(nfc, a) == CanonicalText(nfc, b) && Encode(nfc, a) == Encode(nfc, b)
  {
    hide Normalize, Serialize, Same, AllEncodable, Keyed, Plain;
    NormalizeRespectsSame(nfc, a, b);
    if Normalize(nfc, a).Some? {
      var m, n := Normalize(nfc, a).value, Normalize(nfc, b).value;
      EncodableRespectsSame(m, n);
      NormalizePlain(nfc, a);
      NormalizePlain(nfc, b);
      if AllEncodable(m) {
        Canonical.SameThenSerialize(m, n);
      }
    }
  }

  lemma {:induction false} PlainKeyed(v: Json)
    requires Plain(v)
    ensures Keyed(v)
    decreases v
  {
    match v
    case Arr(items) => forall i | 0 <= i < |items| { PlainKeyed(items[i]); }
    case Obj(ms) => forall i | 0 <= i < |ms| { PlainKeyed(ms[i].value); }
    case _ =>
  }
}
