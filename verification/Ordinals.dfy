/** Observation ordinals. */
module Ordinals {
  // `assign_ordinals` and the observation identity documents of
  // `compute_observation_id`, up to SHA-256.

  import opened Order
  import opened Json
  import opened MappingOrder
  import opened Compose
  import opened Evidence
  import RepoPath

  datatype Span = Span(path: Text, startLine: int, endLine: int, lineCount: int, granularity: Text)

  datatype Observation = Observation(observedKind: Text, subjectKind: Text, subjectKey: Text,
                                     referentText: Option<Text>, ordinal: int, evidence: Span)

  /** The grouping key. */
  datatype Identity = Identity(observedKind: Text, subjectKind: Text, subjectKey: Text, referentText: Option<Text>,
                               path: Text, startLine: int, endLine: int)

  function IdentityOf(o: Observation): Identity {
    Identity(o.observedKind, o.subjectKind, o.subjectKey, o.referentText, o.evidence.path, o.evidence.startLine,
             o.evidence.endLine)
  }

  /** How many of the observations have this identity. */
  function Count(os: seq<Observation>, id: Identity): nat {
    if os == [] then 0
    else Count(os[..|os| - 1], id) + if IdentityOf(os[|os| - 1]) == id then 1 else 0
  }

  /** The ordinal of the observation at `i`: its place among its equals so far. */
  function OrdinalAt(os: seq<Observation>, i: nat): nat
    requires i < |os|
  {
    Count(os[..i + 1], IdentityOf(os[i]))
  }

  ghost predicate Assigned(os: seq<Observation>, r: seq<Observation>) {
    |r| == |os| && forall i :: 0 <= i < |os| ==> r[i] == os[i].(ordinal := OrdinalAt(os, i))
  }

  /** `assign_ordinals` */
  method AssignOrdinals(os: seq<Observation>) returns (r: seq<Observation>)
    ensures Assigned(os, r)
  {
    var counts: map<Identity, nat> := map[];
    r := [];
    for k := 0 to |os|
      invariant forall id :: (if id in counts then counts[id] else 0) == Count(os[..k], id)
      invariant |r| == k && forall i :: 0 <= i < k ==> r[i] == os[i].(ordinal := OrdinalAt(os, i))
    {
      var id := IdentityOf(os[k]);
      assert os[..k + 1][..k] == os[..k];
      counts := counts[id := (if id in counts then counts[id] else 0) + 1];
      r := r + [os[k].(ordinal := counts[id])];
    }
    assert os[..|os|] == os;
  }

  lemma {:induction false} CountGrows(os: seq<Observation>, i: nat, j: nat, id: Identity)
    requires i <= j <= |os|
    ensures Count(os[..i], id) <= Count(os[..j], id)
    decreases j - i
  {
    if i < j {
      CountGrows(os, i, j - 1, id);
      assert os[..j][..j - 1] == os[..j - 1];
    }
  }

  lemma OrdinalIsNext(os: seq<Observation>, i: nat)
    requires i < |os|
    ensures OrdinalAt(os, i) == Count(os[..i], IdentityOf(os[i])) + 1 == Count(os[..i + 1], IdentityOf(os[i]))
  {
    assert os[..i + 1][..i] == os[..i];
  }

  /** Equal observations are numbered in source order. */
  lemma OrdinalsIncrease(os: seq<Observation>, i: nat, j: nat)
    requires i < j < |os| && IdentityOf(os[i]) == IdentityOf(os[j])
    ensures 1 <= OrdinalAt(os, i) < OrdinalAt(os, j) <= Count(os, IdentityOf(os[j]))
  {
    hide Count, OrdinalAt, IdentityOf;
    var id := IdentityOf(os[j]);
    OrdinalIsNext(os, i);
    OrdinalIsNext(os, j);
    CountGrows(os, i + 1, j, id);
    CountGrows(os, j + 1, |os|, id);
    assert os[..|os|] == os;
  }

  /** Every number from 1 to the size of a group is given to a member. */
  lemma {:induction false} EveryOrdinalGiven(os: seq<Observation>, id: Identity, m: nat) returns (i: nat)
    requires 1 <= m <= Count(os, id)
    ensures i < |os| && IdentityOf(os[i]) == id && OrdinalAt(os, i) == m
  {
    var last := |os| - 1;
    if m <= Count(os[..last], id) {
      i := EveryOrdinalGiven(os[..last], id, m);
      assert os[..last][..i + 1] == os[..i + 1];
    } else {
      i := last;
      assert os[..last + 1] == os;
    }
  }

  // ------------------------------------------------- identity documents

  /** What one extraction run adds to every identity document. */
  datatype Run = Run(extractor: Text, extractorVersion: Text, revisionKind: Text, revisionValue: Text,
                     schemaVersion: Text)

  function EvidencePart(run: Run, path: Text, e: Span): seq<Member> {
    [Member(T("extractor"), Str(run.extractor)), Member(T("extractor_version"), Str(run.extractorVersion)),
     Member(T("path"), Str(path)), Member(T("start_line"), Int(e.startLine)), Member(T("end_line"), Int(e.endLine))]
  }

  function SubjectPart(o: Observation): seq<Member> {
    [Member(T("kind"), Str(o.subjectKind)), Member(T("stable_key"), Str(o.subjectKey))]
  }

  function RevisionPart(run: Run): Json {
    Obj([Member(T("kind"), Str(run.revisionKind)), Member(T("value"), Str(run.revisionValue))])
  }

  function ReferentPart(o: Observation): Json {
    match o.referentText case None => Null case Some(t) => Str(t)
  }

  function DocumentMembers(run: Run, path: Text, o: Observation): seq<Member> {
    [Member(T("evidence"), Obj(EvidencePart(run, path, o.evidence))), Member(T("observed_kind"), Str(o.observedKind)),
     Member(T("ordinal"), Int(o.ordinal)), Member(T("referent_text"), ReferentPart(o)),
     Member(T("revision"), RevisionPart(run)), Member(T("schema_version"), Str(run.schemaVersion)),
     Member(T("subject"), Obj(SubjectPart(o)))]
  }

  function PathOf(lib: Lib, o: Observation): Option<Text> {
    RepoPath.NormalizePath(lib.nfc, lib.isAlpha, o.evidence.path)
  }

  /** The bytes hashed into an observation id. */
  function PreImage(lib: Lib, run: Run, o: Observation): Option<Text> {
    match PathOf(lib, o)
    case None => None
    case Some(path) => Encode(lib.nfc, Obj(DocumentMembers(run, path, o)))
  }

  /** The grouping key as the document records it. */
  function NormalIdentity(lib: Lib, o: Observation): Option<Identity> {
    match RepoPath.NormalizePath(lib.nfc, lib.isAlpha, o.evidence.path)
    case None => None
    case Some(path) =>
      Some(Identity(lib.nfc(o.observedKind), lib.nfc(o.subjectKind), lib.nfc(o.subjectKey),
                    match o.referentText case None => None case Some(t) => Some(lib.nfc(t)),
                    lib.nfc(path), o.evidence.startLine, o.evidence.endLine))
  }

  lemma NormalAligns(lib: Lib, m: seq<Member>, n: seq<Member>, i: nat)
    requires Normalize(lib.nfc, Obj(m)).Some? && Normalize(lib.nfc, Obj(n)).Some?
    requires Same(Normalize(lib.nfc, Obj(m)).value, Normalize(lib.nfc, Obj(n)).value)
    requires i < |m| && i < |n| && m[i].key == n[i].key
    ensures Normalize(lib.nfc, m[i].value).Some? && Normalize(lib.nfc, n[i].value).Some?
    ensures Same(Normalize(lib.nfc, m[i].value).value, Normalize(lib.nfc, n[i].value).value)
  {
    hide Same, Plain, Normalize;
    NormalizePlain(lib.nfc, Obj(n));
    NormalObject(lib.nfc, m);
    NormalObject(lib.nfc, n);
    Aligned(NormalMembers(lib.nfc, m), NormalMembers(lib.nfc, n), i);
  }

  lemma StringsAlign(lib: Lib, s: Text, t: Text)
    requires Same(Normalize(lib.nfc, Str(s)).value, Normalize(lib.nfc, Str(t)).value)
    ensures lib.nfc(s) == lib.nfc(t)
  {
  }

  lemma NumbersAlign(lib: Lib, s: int, t: int)
    requires Normalize(lib.nfc, Int(s)).Some? && Normalize(lib.nfc, Int(t)).Some?
    requires Same(Normalize(lib.nfc, Int(s)).value, Normalize(lib.nfc, Int(t)).value)
    ensures s == t
  {
  }

  lemma ReferentsAlign(lib: Lib, o: Observation, p: Observation)
    requires Normalize(lib.nfc, ReferentPart(o)).Some? && Normalize(lib.nfc, ReferentPart(p)).Some?
    requires Same(Normalize(lib.nfc, ReferentPart(o)).value, Normalize(lib.nfc, ReferentPart(p)).value)
    ensures o.referentText.Some? <==> p.referentText.Some?
    ensures o.referentText.Some? ==> lib.nfc(o.referentText.value) == lib.nfc(p.referentText.value)
  {
  }

  lemma EvidenceAligns(lib: Lib, run: Run, other: Run, o: Observation, p: Observation, a: Text, b: Text)
    requires Normalize(lib.nfc, Obj(EvidencePart(run, a, o.evidence))).Some?
    requires Normalize(lib.nfc, Obj(EvidencePart(other, b, p.evidence))).Some?
    requires Same(Normalize(lib.nfc, Obj(EvidencePart(run, a, o.evidence))).value,
                  Normalize(lib.nfc, Obj(EvidencePart(other, b, p.evidence))).value)
    ensures lib.nfc(a) == lib.nfc(b) && o.evidence.startLine == p.evidence.startLine
    ensures o.evidence.endLine == p.evidence.endLine
    ensures lib.nfc(run.extractor) == lib.nfc(other.extractor)
    ensures lib.nfc(run.extractorVersion) == lib.nfc(other.extractorVersion)
  {
    hide Normalize, Same, T;
    var m, n := EvidencePart(run, a, o.evidence), EvidencePart(other, b, p.evidence);
    NormalAligns(lib, m, n, 0);
    NormalAligns(lib, m, n, 1);
    NormalAligns(lib, m, n, 2);
    NormalAligns(lib, m, n, 3);
    NormalAligns(lib, m, n, 4);
    StringsAlign(lib, run.extractor, other.extractor);
    StringsAlign(lib, run.extractorVersion, other.extractorVersion);
    StringsAlign(lib, a, b);
    NumbersAlign(lib, o.evidence.startLine, p.evidence.startLine);
    NumbersAlign(lib, o.evidence.endLine, p.evidence.endLine);
  }

  lemma RevisionAligns(lib: Lib, run: Run, other: Run)
    requires Normalize(lib.nfc, RevisionPart(run)).Some? && Normalize(lib.nfc, RevisionPart(other)).Some?
    requires Same(Normalize(lib.nfc, RevisionPart(run)).value, Normalize(lib.nfc, RevisionPart(other)).value)
    ensures lib.nfc(run.revisionKind) == lib.nfc(other.revisionKind)
    ensures lib.nfc(run.revisionValue) == lib.nfc(other.revisionValue)
  {
    hide Normalize, Same, T;
    var m, n := RevisionPart(run).members, RevisionPart(other).members;
    NormalAligns(lib, m, n, 0);
    NormalAligns(lib, m, n, 1);
    StringsAlign(lib, run.revisionKind, other.revisionKind);
    StringsAlign(lib, run.revisionValue, other.revisionValue);
  }

  lemma SubjectAligns(lib: Lib, o: Observation, p: Observation)
    requires Normalize(lib.nfc, Obj(SubjectPart(o))).Some? && Normalize(lib.nfc, Obj(SubjectPart(p))).Some?
    requires Same(Normalize(lib.nfc, Obj(SubjectPart(o))).value, Normalize(lib.nfc, Obj(SubjectPart(p))).value)
    ensures lib.nfc(o.subjectKind) == lib.nfc(p.subjectKind) && lib.nfc(o.subjectKey) == lib.nfc(p.subjectKey)
  {
    hide Normalize, Same, T;
    var m, n := SubjectPart(o), SubjectPart(p);
    NormalAligns(lib, m, n, 0);
    NormalAligns(lib, m, n, 1);
    StringsAlign(lib, o.subjectKind, p.subjectKind);
    StringsAlign(lib, o.subjectKey, p.subjectKey);
  }

  lemma PathColumn(lib: Lib, o: Observation)
    ensures PathOf(lib, o) == RepoPath.NormalizePath(lib.nfc, lib.isAlpha, o.evidence.path)
  {
  }

  /** Two runs have the same extractor, revision and schema once these are normalized. */
  predicate SameRun(lib: Lib, run: Run, other: Run) {
    && lib.nfc(run.extractor) == lib.nfc(other.extractor)
    && lib.nfc(run.extractorVersion) == lib.nfc(other.extractorVersion)
    && lib.nfc(run.revisionKind) == lib.nfc(other.revisionKind)
    && lib.nfc(run.revisionValue) == lib.nfc(other.revisionValue)
    && lib.nfc(run.schemaVersion) == lib.nfc(other.schemaVersion)
  }

  /** Equal bytes come from equal runs, equal normalized identities and equal ordinals. */
  lemma BytesDecideIdentity(lib: Lib, run: Run, other: Run, o: Observation, p: Observation)
    requires PreImage(lib, run, o).Some? && PreImage(lib, run, o) == PreImage(lib, other, p)
    ensures NormalIdentity(lib, o) == NormalIdentity(lib, p) && o.ordinal == p.ordinal && SameRun(lib, run, other)
  {
    hide Normalize, Same, T, Encode, EvidencePart, SubjectPart, ReferentPart, RevisionPart, PathOf,
         RepoPath.NormalizePath;
    PathColumn(lib, o);
    PathColumn(lib, p);
    var a, b := PathOf(lib, o).value, PathOf(lib, p).value;
    var m, n := DocumentMembers(run, a, o), DocumentMembers(other, b, p);
    EqualBytesAlign(lib, m, n, 0);
    EqualBytesAlign(lib, m, n, 1);
    EqualBytesAlign(lib, m, n, 2);
    EqualBytesAlign(lib, m, n, 3);
    EqualBytesAlign(lib, m, n, 4);
    EqualBytesAlign(lib, m, n, 5);
    EqualBytesAlign(lib, m, n, 6);
    EvidenceAligns(lib, run, other, o, p, a, b);
    StringsAlign(lib, o.observedKind, p.observedKind);
    NumbersAlign(lib, o.ordinal, p.ordinal);
    ReferentsAlign(lib, o, p);
    RevisionAligns(lib, run, other);
    StringsAlign(lib, run.schemaVersion, other.schemaVersion);
    SubjectAligns(lib, o, p);
  }

  lemma StringText(lib: Lib, s: Text, t: Text)
    requires lib.nfc(s) == lib.nfc(t)
    ensures CanonicalText(lib.nfc, Str(s)) == CanonicalText(lib.nfc, Str(t))
  {
  }

  /** Equal runs, equal normalized identities and equal ordinals give equal bytes. */
  lemma IdentityDecidesBytes(lib: Lib, run: Run, other: Run, o: Observation, p: Observation)
    requires NormalIdentity(lib, o).Some? && NormalIdentity(lib, o) == NormalIdentity(lib, p) && o.ordinal == p.ordinal
    requires SameRun(lib, run, other)
    ensures PreImage(lib, run, o) == PreImage(lib, other, p)
  {
    hide CanonicalText, T, PathOf, RepoPath.NormalizePath;
    PathColumn(lib, o);
    PathColumn(lib, p);
    var a, b := PathOf(lib, o).value, PathOf(lib, p).value;
    StringText(lib, a, b);
    StringText(lib, o.observedKind, p.observedKind);
    StringText(lib, o.subjectKind, p.subjectKind);
    StringText(lib, o.subjectKey, p.subjectKey);
    if o.referentText.Some? {
      StringText(lib, o.referentText.value, p.referentText.value);
    }
    StringText(lib, run.extractor, other.extractor);
    StringText(lib, run.extractorVersion, other.extractorVersion);
    StringText(lib, run.revisionKind, other.revisionKind);
    StringText(lib, run.revisionValue, other.revisionValue);
    StringText(lib, run.schemaVersion, other.schemaVersion);
    SameParts(lib.nfc, EvidencePart(run, a, o.evidence), EvidencePart(other, b, p.evidence));
    SameParts(lib.nfc, SubjectPart(o), SubjectPart(p));
    SameParts(lib.nfc, RevisionPart(run).members, RevisionPart(other).members);
    SameParts(lib.nfc, DocumentMembers(run, a, o), DocumentMembers(other, b, p));
  }

  // ------------------------------------------------- when ids are distinct

  /** Normalization merges no two grouping keys. */
  ghost predicate KeysStayApart(lib: Lib, os: seq<Observation>) {
    forall i, j :: 0 <= i < |os| && 0 <= j < |os| && NormalIdentity(lib, os[i]) == NormalIdentity(lib, os[j])
                   ==> IdentityOf(os[i]) == IdentityOf(os[j])
  }

  ghost predicate DistinctDocuments(lib: Lib, run: Run, r: seq<Observation>) {
    forall i, j :: 0 <= i < j < |r| ==> PreImage(lib, run, r[i]) != PreImage(lib, run, r[j])
  }

  /** After `assign_ordinals` the identity documents of one run are pairwise distinct
      exactly when normalization merges no two grouping keys. */
  lemma DistinctExactly(lib: Lib, run: Run, os: seq<Observation>, r: seq<Observation>)
    requires Assigned(os, r) && forall i :: 0 <= i < |r| ==> PreImage(lib, run, r[i]).Some?
    ensures DistinctDocuments(lib, run, r) <==> KeysStayApart(lib, os)
  {
    hide PreImage, NormalIdentity, OrdinalAt, IdentityOf;
    forall i | 0 <= i < |os|
      ensures NormalIdentity(lib, r[i]) == NormalIdentity(lib, os[i]) && NormalIdentity(lib, r[i]).Some?
    {
      OrdinalIrrelevant(lib, run, os[i], r[i]);
    }
    if KeysStayApart(lib, os) {
      forall i, j | 0 <= i < j < |r| ensures PreImage(lib, run, r[i]) != PreImage(lib, run, r[j]) {
        if PreImage(lib, run, r[i]) == PreImage(lib, run, r[j]) {
          BytesDecideIdentity(lib, run, run, r[i], r[j]);
          OrdinalsIncrease(os, i, j);
        }
      }
    }
    if DistinctDocuments(lib, run, r) {
      forall i, j | 0 <= i < |os| && 0 <= j < |os| && NormalIdentity(lib, os[i]) == NormalIdentity(lib, os[j])
        ensures IdentityOf(os[i]) == IdentityOf(os[j])
      {
        var p := FirstOf(os, i);
        var q := FirstOf(os, j);
        SameIdentitySameNormal(lib, os[p], os[i]);
        SameIdentitySameNormal(lib, os[q], os[j]);
        IdentityDecidesBytes(lib, run, run, r[p], r[q]);
        assert p == q;
      }
    }
  }

  lemma OrdinalIrrelevant(lib: Lib, run: Run, o: Observation, r: Observation)
    requires r == o.(ordinal := r.ordinal) && PreImage(lib, run, r).Some?
    ensures NormalIdentity(lib, r) == NormalIdentity(lib, o) && NormalIdentity(lib, r).Some?
  {
  }

  lemma SameIdentitySameNormal(lib: Lib, o: Observation, p: Observation)
    requires IdentityOf(o) == IdentityOf(p)
    ensures NormalIdentity(lib, o) == NormalIdentity(lib, p)
  {
    hide PathOf;
    assert IdentityOf(o).path == o.evidence.path && IdentityOf(p).path == p.evidence.path;
    PathByIdentity(lib, o, p);
  }

  lemma PathByIdentity(lib: Lib, o: Observation, p: Observation)
    requires o.evidence.path == p.evidence.path
    ensures PathOf(lib, o) == PathOf(lib, p)
  {
  }

  /** The first observation of a group, whose ordinal is 1. */
  lemma FirstOf(os: seq<Observation>, i: nat) returns (p: nat)
    requires i < |os|
    ensures p < |os| && IdentityOf(os[p]) == IdentityOf(os[i]) && OrdinalAt(os, p) == 1
  {
    var id := IdentityOf(os[i]);
    CountGrows(os, i + 1, |os|, id);
    assert os[..|os|] == os && os[..i + 1][..i] == os[..i];
    p := EveryOrdinalGiven(os, id, 1);
  }
}
