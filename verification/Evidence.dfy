/**
 Evidence records: `canonical_evidence_record` and `order_evidence`.

 `None` stands for a raised `CanonicalizationError` or `PathEscapeError`.
 */
module Evidence {
  import opened Order
  import opened Encoding
  import opened Json
  import opened RecordOrder
  import Canonical
  import MappingOrder
  import RepoPath

  /** The two library functions the canonical layer is parametric in. */
  datatype Lib = Lib(nfc: Text -> Text, isAlpha: nat -> bool)

  /** What Unicode promises of NFC: it is idempotent, erases no text, and both path
      separators are boundaries. */
  ghost predicate Laws(lib: Lib) {
    && Idempotent(lib.nfc)
    && (forall t :: lib.nfc(t) == [] ==> t == [])
    && RepoPath.KeepsSegments(lib.nfc)
  }

  /** One evidence mapping; an absent granularity is the empty text. */
  datatype Evidence = Evidence(path: Text, startLine: int, endLine: int, granularity: Text, extractor: Text,
                               version: Text)

  function EvidenceMembers(e: Evidence): seq<Member> {
    [Member(T("path"), Str(e.path)), Member(T("start_line"), Int(e.startLine)), Member(T("end_line"), Int(e.endLine)),
     Member(T("granularity"), Str(e.granularity)), Member(T("extractor"), Str(e.extractor)),
     Member(T("extractor_version"), Str(e.version))]
  }

  function EvidenceJson(e: Evidence): Json { Obj(EvidenceMembers(e)) }

  /** `canonical_evidence_record` */
  function CanonicalEvidence(lib: Lib, e: Evidence): Option<Evidence> {
    match RepoPath.NormalizePath(lib.nfc, lib.isAlpha, e.path)
    case None => None
    case Some(path) => Some(e.(path := path, granularity := if e.granularity == [] then T("span") else e.granularity))
  }

  /** The canonical record after `_normalize`. */
  function Prepare(lib: Lib, e: Evidence): Option<Evidence> {
    match CanonicalEvidence(lib, e)
    case None => None
    case Some(c) =>
      Some(Evidence(lib.nfc(c.path), c.startLine, c.endLine, lib.nfc(c.granularity), lib.nfc(c.extractor),
                    lib.nfc(c.version)))
  }

  function Bytes(lib: Lib): Evidence -> Text {
    (e: Evidence) => match Encode(lib.nfc, EvidenceJson(e)) case Some(b) => b case None => []
  }

  /** Neither the path nor the encoder raises. */
  predicate Usable(lib: Lib, e: Evidence) {
    Prepare(lib, e).Some? && Encode(lib.nfc, EvidenceJson(Prepare(lib, e).value)).Some?
  }

  function EvidenceKey(e: Evidence): Key {
    [Txt(e.path), Num(e.startLine), Num(e.endLine), Txt(e.granularity), Txt(e.extractor), Txt(e.version)]
  }

  predicate AllUsable(lib: Lib, es: seq<Evidence>) {
    forall i :: 0 <= i < |es| ==> Usable(lib, es[i])
  }

  function Prepared(lib: Lib, es: seq<Evidence>): seq<Evidence>
    requires AllUsable(lib, es)
  {
    seq(|es|, i requires 0 <= i < |es| => Prepare(lib, es[i]).value)
  }

  /** `order_evidence` */
  ghost function OrderEvidence(lib: Lib, es: seq<Evidence>): Option<seq<Evidence>> {
    if AllUsable(lib, es) then Some(Ordered(Prepared(lib, es), Bytes(lib), EvidenceKey)) else None
  }

  /** `order_evidence`, with the loop of `_order_records`. */
  method OrderEvidenceRecords(lib: Lib, es: seq<Evidence>) returns (r: Option<seq<Evidence>>)
    ensures r == OrderEvidence(lib, es)
  {
    hide Encode, CanonicalEvidence, Ordered, Bytes;
    var records: seq<Evidence> := [];
    for k := 0 to |es|
      invariant AllUsable(lib, es[..k])
      invariant records == Prepared(lib, es[..k])
    {
      if !Usable(lib, es[k]) {
        return None;
      }
      records := records + [Prepare(lib, es[k]).value];
    }
    assert es[..|es|] == es;
    var sorted := OrderBy(records, Bytes(lib), EvidenceKey);
    r := Some(sorted);
  }

  /** A record that `Prepare` can return. */
  ghost predicate Settled(lib: Lib, e: Evidence) {
    && lib.nfc(e.path) == e.path && lib.nfc(e.granularity) == e.granularity
    && lib.nfc(e.extractor) == e.extractor && lib.nfc(e.version) == e.version
    && Encode(lib.nfc, EvidenceJson(e)).Some?
  }

  lemma EqualBytesAlign(lib: Lib, m: seq<Member>, n: seq<Member>, i: nat)
    requires Encode(lib.nfc, Obj(m)).Some? && Encode(lib.nfc, Obj(m)) == Encode(lib.nfc, Obj(n))
    requires i < |m| && i < |n| && m[i].key == n[i].key
    ensures Normalize(lib.nfc, m[i].value).Some? && Normalize(lib.nfc, n[i].value).Some?
    ensures Same(Normalize(lib.nfc, m[i].value).value, Normalize(lib.nfc, n[i].value).value)
  {
    hide Same, Plain, Serialize, Utf8, AllEncodable, Normalize;
    Canonical.EncodeDecidesSame(lib.nfc, Obj(m), Obj(n));
    NormalizePlain(lib.nfc, Obj(n));
    MappingOrder.NormalObject(lib.nfc, m);
    MappingOrder.NormalObject(lib.nfc, n);
    MappingOrder.Aligned(MappingOrder.NormalMembers(lib.nfc, m), MappingOrder.NormalMembers(lib.nfc, n), i);
  }

  lemma TextAligns(lib: Lib, m: seq<Member>, n: seq<Member>, i: nat, s: Text, t: Text)
    requires Encode(lib.nfc, Obj(m)).Some? && Encode(lib.nfc, Obj(m)) == Encode(lib.nfc, Obj(n))
    requires i < |m| && i < |n| && m[i] == Member(n[i].key, Str(s)) && n[i].value == Str(t)
    ensures lib.nfc(s) == lib.nfc(t)
  {
    hide Encode;
    EqualBytesAlign(lib, m, n, i);
  }

  lemma IntAligns(lib: Lib, m: seq<Member>, n: seq<Member>, i: nat, s: int, t: int)
    requires Encode(lib.nfc, Obj(m)).Some? && Encode(lib.nfc, Obj(m)) == Encode(lib.nfc, Obj(n))
    requires i < |m| && i < |n| && m[i] == Member(n[i].key, Int(s)) && n[i].value == Int(t)
    ensures s == t
  {
    hide Encode;
    EqualBytesAlign(lib, m, n, i);
  }

  /** Canonical bytes identify a prepared evidence record. */
  lemma BytesIdentify(lib: Lib, e: Evidence, f: Evidence)
    requires Settled(lib, e) && Settled(lib, f) && Bytes(lib)(e) == Bytes(lib)(f)
    ensures e == f
  {
    hide Encode, T;
    var m, n := EvidenceMembers(e), EvidenceMembers(f);
    TextAligns(lib, m, n, 0, e.path, f.path);
    IntAligns(lib, m, n, 1, e.startLine, f.startLine);
    IntAligns(lib, m, n, 2, e.endLine, f.endLine);
    TextAligns(lib, m, n, 3, e.granularity, f.granularity);
    TextAligns(lib, m, n, 4, e.extractor, f.extractor);
    TextAligns(lib, m, n, 5, e.version, f.version);
  }

  lemma PrepareSettles(lib: Lib, e: Evidence)
    requires Idempotent(lib.nfc) && Usable(lib, e)
    ensures Settled(lib, Prepare(lib, e).value)
  {
  }

  lemma PreparedIdentified(lib: Lib, es: seq<Evidence>, fs: seq<Evidence>)
    requires Idempotent(lib.nfc) && AllUsable(lib, es) && AllUsable(lib, fs)
    ensures forall x, y :: x in Prepared(lib, es) && y in Prepared(lib, fs) && Bytes(lib)(x) == Bytes(lib)(y) ==>
            x == y
  {
    hide Settled, Usable, Bytes;
    var p, q := Prepared(lib, es), Prepared(lib, fs);
    forall x, y | x in p && y in q && Bytes(lib)(x) == Bytes(lib)(y) ensures x == y {
      var i :| 0 <= i < |p| && p[i] == x;
      var j :| 0 <= j < |q| && q[j] == y;
      PrepareSettles(lib, es[i]);
      PrepareSettles(lib, fs[j]);
      BytesIdentify(lib, x, y);
    }
  }

  /** Order and repetition of evidence never matter. */
  lemma OrderEvidenceBySet(lib: Lib, es: seq<Evidence>, fs: seq<Evidence>)
    requires Idempotent(lib.nfc) && forall e :: e in es <==> e in fs
    ensures OrderEvidence(lib, es) == OrderEvidence(lib, fs)
  {
    hide Usable, Ordered, Bytes;
    if AllUsable(lib, es) { UsableSubset(lib, es, fs); }
    if AllUsable(lib, fs) { UsableSubset(lib, fs, es); }
    if AllUsable(lib, es) {
      PreparedIdentified(lib, es, es);
      PreparedMembers(lib, es, fs);
      OrderedBySet(Prepared(lib, es), Prepared(lib, fs), Bytes(lib), EvidenceKey);
    }
  }

  lemma UsableSubset(lib: Lib, es: seq<Evidence>, fs: seq<Evidence>)
    requires AllUsable(lib, es) && forall f :: f in fs ==> f in es
    ensures AllUsable(lib, fs)
  {
    forall i | 0 <= i < |fs| ensures Usable(lib, fs[i]) {
      assert fs[i] in es;
    }
  }

  lemma PreparedMembers(lib: Lib, es: seq<Evidence>, fs: seq<Evidence>)
    requires AllUsable(lib, es) && AllUsable(lib, fs) && forall e :: e in es <==> e in fs
    ensures forall x :: x in Prepared(lib, es) <==> x in Prepared(lib, fs)
  {
    hide Usable, Prepare;
    var p, q := Prepared(lib, es), Prepared(lib, fs);
    forall x ensures x in p <==> x in q {
      if x in p {
        var i :| 0 <= i < |p| && p[i] == x;
        assert es[i] in es;
        var j :| 0 <= j < |fs| && fs[j] == es[i];
        assert q[j] == x;
      }
      if x in q {
        var i :| 0 <= i < |q| && q[i] == x;
        assert fs[i] in fs;
        var j :| 0 <= j < |es| && es[j] == fs[i];
        assert p[j] == x;
      }
    }
  }

  /** Preparing a prepared record changes nothing, unless its path reads as a
      drive prefix: then it raises. */
  lemma PrepareAgain(lib: Lib, e: Evidence)
    requires Laws(lib) && Usable(lib, e)
    ensures var p := Prepare(lib, e).value;
            Prepare(lib, p) == if RepoPath.Drive(lib.isAlpha, p.path) then None else Some(p)
  {
    hide Encode, RepoPath.NormalizePath, RepoPath.KeepsSegments;
    var path := RepoPath.NormalizePath(lib.nfc, lib.isAlpha, e.path).value;
    assert lib.nfc(path) == path by { NormalizedPathStable(lib, e.path); }
    RepoPath.FixedPoint(lib.nfc, lib.isAlpha, e.path);
  }

  lemma NormalizedPathStable(lib: Lib, raw: Text)
    requires RepoPath.KeepsSegments(lib.nfc) && RepoPath.NormalizePath(lib.nfc, lib.isAlpha, raw).Some?
    ensures lib.nfc(RepoPath.NormalizePath(lib.nfc, lib.isAlpha, raw).value)
         == RepoPath.NormalizePath(lib.nfc, lib.isAlpha, raw).value
  {
    var names := RepoPath.ResultSegments(lib.nfc, lib.isAlpha, raw);
    assert RepoPath.SegmentsFrom(lib.nfc, raw, names);
  }

  /** Some record's normalized path reads as a drive prefix. */
  predicate DriveLike(lib: Lib, e: Evidence) {
    Prepare(lib, e).Some? && RepoPath.Drive(lib.isAlpha, Prepare(lib, e).value.path)
  }

  predicate AnyDriveLike(lib: Lib, es: seq<Evidence>) {
    exists i :: 0 <= i < |es| && DriveLike(lib, es[i])
  }

  /** Merging two ordered evidence lists is ordering the union, unless a path reads
      as a drive prefix: then the second pass over it raises. */
  lemma MergeEvidence(lib: Lib, es: seq<Evidence>, fs: seq<Evidence>)
    requires Laws(lib) && AllUsable(lib, es) && AllUsable(lib, fs)
    ensures OrderEvidence(lib, OrderEvidence(lib, es).value + OrderEvidence(lib, fs).value)
         == if AnyDriveLike(lib, es + fs) then None else OrderEvidence(lib, es + fs)
  {
    hide Encode, Usable, Ordered, Prepare, Laws, Bytes;
    var x, y := OrderEvidence(lib, es).value, OrderEvidence(lib, fs).value;
    var all := es + fs;
    assert AllUsable(lib, all);
    assert Prepared(lib, all) == Prepared(lib, es) + Prepared(lib, fs);
    MergedMembers(lib, es, fs);
    if AnyDriveLike(lib, all) {
      var i :| 0 <= i < |all| && DriveLike(lib, all[i]);
      var p := Prepare(lib, all[i]).value;
      assert Prepared(lib, all)[i] == p;
      assert p in x + y;
      Reprepared(lib, all, p);
      var k :| 0 <= k < |x + y| && (x + y)[k] == p;
      assert !Usable(lib, (x + y)[k]) by { NotUsable(lib, p); }
    } else {
      forall k | 0 <= k < |x + y| ensures Usable(lib, (x + y)[k]) && Prepare(lib, (x + y)[k]) == Some((x + y)[k]) {
        Reprepared(lib, all, (x + y)[k]);
      }
      assert Prepared(lib, x + y) == x + y;
      assert Idempotent(lib.nfc) by { LawsIdempotent(lib); }
      PreparedIdentified(lib, all, all);
      OrderedBySet(Prepared(lib, all), x + y, Bytes(lib), EvidenceKey);
    }
  }

  lemma LawsIdempotent(lib: Lib)
    requires Laws(lib)
    ensures Idempotent(lib.nfc)
  {
  }

  lemma NotUsable(lib: Lib, p: Evidence)
    requires Prepare(lib, p).None?
    ensures !Usable(lib, p)
  {
  }

  /** What happens to an already prepared record on the second pass. */
  lemma Reprepared(lib: Lib, all: seq<Evidence>, p: Evidence)
    requires Laws(lib) && AllUsable(lib, all) && p in Prepared(lib, all)
    ensures RepoPath.Drive(lib.isAlpha, p.path) ==> Prepare(lib, p).None?
    ensures !RepoPath.Drive(lib.isAlpha, p.path) ==> Usable(lib, p) && Prepare(lib, p) == Some(p)
    ensures RepoPath.Drive(lib.isAlpha, p.path) ==> AnyDriveLike(lib, all)
  {
    hide Encode, Prepare, Laws, RepoPath.Drive;
    var i :| 0 <= i < |all| && Prepared(lib, all)[i] == p;
    assert Usable(lib, all[i]);
    PrepareAgain(lib, all[i]);
  }

  lemma MergedMembers(lib: Lib, es: seq<Evidence>, fs: seq<Evidence>)
    requires Laws(lib) && AllUsable(lib, es) && AllUsable(lib, fs)
    ensures forall p :: p in OrderEvidence(lib, es).value + OrderEvidence(lib, fs).value
                        <==> p in Prepared(lib, es) + Prepared(lib, fs)
  {
    hide Usable, Ordered, Prepare, Bytes;
    PreparedIdentified(lib, es, es);
    PreparedIdentified(lib, fs, fs);
    forall p
      ensures p in OrderEvidence(lib, es).value <==> p in Prepared(lib, es)
      ensures p in OrderEvidence(lib, fs).value <==> p in Prepared(lib, fs)
    {
      if p in OrderEvidence(lib, es).value { OrderedFrom(Prepared(lib, es), Bytes(lib), EvidenceKey, p); }
      if p in Prepared(lib, es) { OrderedHolds(Prepared(lib, es), Bytes(lib), EvidenceKey, p); }
      if p in OrderEvidence(lib, fs).value { OrderedFrom(Prepared(lib, fs), Bytes(lib), EvidenceKey, p); }
      if p in Prepared(lib, fs) { OrderedHolds(Prepared(lib, fs), Bytes(lib), EvidenceKey, p); }
    }
  }
}
