/**
 `sort_derived_from`: validation, deduplication and ordering of tagged
 references.
 */
module References {
  import opened Order
  import opened Json
  import opened RecordOrder
  import opened Evidence

  /** A tagged reference: its `kind` and the value of the identity field that kind
      asks for, or a mapping of any other shape. */
  datatype Reference = Reference(kind: Text, identity: Text) | Misshapen

  /** `_REFERENCE_RANK` and `_REFERENCE_IDENTITY_FIELD` */
  function Rank(kind: Text): Option<nat> {
    if kind == T("observation") then Some(0)
    else if kind == T("node") then Some(1)
    else if kind == T("edge") then Some(2)
    else if kind == T("assertion") then Some(3)
    else None
  }

  function IdentityField(kind: Text): Text {
    if kind == T("observation") then T("observation_id")
    else if kind == T("node") then T("stable_key")
    else if kind == T("edge") then T("edge_id")
    else T("assertion_id")
  }

  function ReferenceMembers(kind: Text, identity: Text): seq<Member> {
    [Member(T("kind"), Str(kind)), Member(IdentityField(kind), Str(identity))]
  }

  function ReferenceJson(r: Reference): Json {
    match r
    case Reference(kind, identity) => Obj(ReferenceMembers(kind, identity))
    case Misshapen => Unsupported
  }

  /** The reference after `_normalize`. */
  function PrepareReference(lib: Lib, r: Reference): Reference {
    match r
    case Reference(kind, identity) => Reference(lib.nfc(kind), lib.nfc(identity))
    case Misshapen => Misshapen
  }

  function ReferenceBytes(lib: Lib): Reference -> Text {
    (r: Reference) => match Encode(lib.nfc, ReferenceJson(r)) case Some(b) => b case None => []
  }

  /** The reference has a known kind, a non-empty identity, and can be encoded. */
  predicate Sound(lib: Lib, r: Reference) {
    var p := PrepareReference(lib, r);
    && p.Reference? && Rank(p.kind).Some? && p.identity != []
    && Encode(lib.nfc, ReferenceJson(p)).Some?
  }

  predicate AllSound(lib: Lib, rs: seq<Reference>) {
    forall i :: 0 <= i < |rs| ==> Sound(lib, rs[i])
  }

  function ReferenceKey(r: Reference): Key {
    match r
    case Reference(kind, identity) => [Num(match Rank(kind) case Some(n) => n case None => 4), Txt(identity)]
    case Misshapen => []
  }

  function PreparedReferences(lib: Lib, rs: seq<Reference>): seq<Reference> {
    seq(|rs|, i requires 0 <= i < |rs| => PrepareReference(lib, rs[i]))
  }

  /** `sort_derived_from` */
  ghost function SortDerivedFrom(lib: Lib, rs: seq<Reference>): Option<seq<Reference>> {
    if AllSound(lib, rs) then Some(Ordered(PreparedReferences(lib, rs), ReferenceBytes(lib), ReferenceKey)) else None
  }

  /** `sort_derived_from`, with its validation loop. */
  method SortReferences(lib: Lib, rs: seq<Reference>) returns (r: Option<seq<Reference>>)
    ensures r == SortDerivedFrom(lib, rs)
  {
    hide Sound, PrepareReference, Ordered, ReferenceBytes;
    var records: seq<Reference> := [];
    for k := 0 to |rs|
      invariant records == PreparedReferences(lib, rs[..k])
      invariant AllSound(lib, rs[..k])
    {
      if !Sound(lib, rs[k]) {
        return None;
      }
      records := records + [PrepareReference(lib, rs[k])];
    }
    assert rs[..|rs|] == rs;
    var sorted := OrderBy(records, ReferenceBytes(lib), ReferenceKey);
    r := Some(sorted);
  }

  lemma ReferenceBytesIdentify(lib: Lib, p: Reference, q: Reference)
    requires Sound(lib, p) && Sound(lib, q) && PrepareReference(lib, p) == p && PrepareReference(lib, q) == q
    requires ReferenceBytes(lib)(p) == ReferenceBytes(lib)(q)
    ensures p == q
  {
    hide Encode, T, Rank;
    var m, n := ReferenceMembers(p.kind, p.identity), ReferenceMembers(q.kind, q.identity);
    TextAligns(lib, m, n, 0, p.kind, q.kind);
    TextAligns(lib, m, n, 1, p.identity, q.identity);
  }

  /** A second pass over prepared references changes nothing. */
  lemma PreparedAgain(lib: Lib, r: Reference)
    requires Idempotent(lib.nfc)
    ensures PrepareReference(lib, PrepareReference(lib, r)) == PrepareReference(lib, r)
    ensures Sound(lib, r) <==> Sound(lib, PrepareReference(lib, r))
  {
    hide Encode;
  }

  lemma ReferencesIdentified(lib: Lib, rs: seq<Reference>)
    requires Idempotent(lib.nfc) && AllSound(lib, rs)
    ensures var p := PreparedReferences(lib, rs);
            forall x, y :: x in p && y in p && ReferenceBytes(lib)(x) == ReferenceBytes(lib)(y) ==> x == y
  {
    hide Sound, ReferenceBytes, PrepareReference;
    var p := PreparedReferences(lib, rs);
    forall x, y | x in p && y in p && ReferenceBytes(lib)(x) == ReferenceBytes(lib)(y) ensures x == y {
      var i :| 0 <= i < |p| && p[i] == x;
      var j :| 0 <= j < |p| && p[j] == y;
      PreparedAgain(lib, rs[i]);
      PreparedAgain(lib, rs[j]);
      ReferenceBytesIdentify(lib, x, y);
    }
  }

  lemma SoundSubset(lib: Lib, rs: seq<Reference>, qs: seq<Reference>)
    requires AllSound(lib, rs) && forall q :: q in qs ==> q in rs
    ensures AllSound(lib, qs)
  {
    hide Sound;
    forall i | 0 <= i < |qs| ensures Sound(lib, qs[i]) {
      assert qs[i] in rs;
    }
  }

  lemma PreparedSubset(lib: Lib, rs: seq<Reference>, qs: seq<Reference>, x: Reference)
    requires (forall r :: r in rs ==> r in qs) && x in PreparedReferences(lib, rs)
    ensures x in PreparedReferences(lib, qs)
  {
    var i :| 0 <= i < |rs| && PreparedReferences(lib, rs)[i] == x;
    assert rs[i] in qs;
    var j :| 0 <= j < |qs| && qs[j] == rs[i];
    assert PreparedReferences(lib, qs)[j] == x;
  }

  /** Order and repetition of references never matter. */
  lemma SortDerivedFromBySet(lib: Lib, rs: seq<Reference>, qs: seq<Reference>)
    requires Idempotent(lib.nfc) && forall r :: r in rs <==> r in qs
    ensures SortDerivedFrom(lib, rs) == SortDerivedFrom(lib, qs)
  {
    hide Sound, Ordered, ReferenceBytes, PreparedReferences;
    if AllSound(lib, rs) { SoundSubset(lib, rs, qs); }
    if AllSound(lib, qs) { SoundSubset(lib, qs, rs); }
    if AllSound(lib, rs) {
      ReferencesIdentified(lib, rs);
      forall x ensures x in PreparedReferences(lib, rs) <==> x in PreparedReferences(lib, qs) {
        if x in PreparedReferences(lib, rs) { PreparedSubset(lib, rs, qs, x); }
        if x in PreparedReferences(lib, qs) { PreparedSubset(lib, qs, rs, x); }
      }
      OrderedBySet(PreparedReferences(lib, rs), PreparedReferences(lib, qs), ReferenceBytes(lib), ReferenceKey);
    }
  }

  /** Merging two sorted reference lists is sorting the union. */
  lemma MergeDerivedFrom(lib: Lib, rs: seq<Reference>, qs: seq<Reference>)
    requires Idempotent(lib.nfc) && AllSound(lib, rs) && AllSound(lib, qs)
    ensures SortDerivedFrom(lib, SortDerivedFrom(lib, rs).value + SortDerivedFrom(lib, qs).value)
         == SortDerivedFrom(lib, rs + qs)
  {
    hide Sound, Ordered, ReferenceBytes, PrepareReference;
    var x, y, all := SortDerivedFrom(lib, rs).value, SortDerivedFrom(lib, qs).value, rs + qs;
    assert AllSound(lib, all);
    assert PreparedReferences(lib, all) == PreparedReferences(lib, rs) + PreparedReferences(lib, qs);
    ReferencesIdentified(lib, rs);
    ReferencesIdentified(lib, qs);
    ReferencesIdentified(lib, all);
    forall p ensures p in x + y <==> p in PreparedReferences(lib, all) {
      SortedMember(lib, rs, p);
      SortedMember(lib, qs, p);
    }
    forall k | 0 <= k < |x + y| ensures Sound(lib, (x + y)[k]) && PrepareReference(lib, (x + y)[k]) == (x + y)[k] {
      var p := (x + y)[k];
      assert p in x + y;
      var i :| 0 <= i < |all| && PreparedReferences(lib, all)[i] == p;
      PreparedAgain(lib, all[i]);
    }
    assert PreparedReferences(lib, x + y) == x + y;
    OrderedBySet(PreparedReferences(lib, all), x + y, ReferenceBytes(lib), ReferenceKey);
  }

  lemma SortedMember(lib: Lib, rs: seq<Reference>, p: Reference)
    requires Idempotent(lib.nfc) && AllSound(lib, rs)
    ensures p in SortDerivedFrom(lib, rs).value <==> p in PreparedReferences(lib, rs)
  {
    hide Sound, Ordered, ReferenceBytes, PreparedReferences;
    ReferencesIdentified(lib, rs);
    var s := PreparedReferences(lib, rs);
    if p in SortDerivedFrom(lib, rs).value { OrderedFrom(s, ReferenceBytes(lib), ReferenceKey, p); }
    if p in s { OrderedHolds(s, ReferenceBytes(lib), ReferenceKey, p); }
  }
}
