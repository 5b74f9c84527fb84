/** Lineages: what the backfill is to write. */
module Lineage {
  // Grouping, writing and verifying in `0013_lineage_expand.py`. The UUIDv5 hash and the
  // GitHub URL canonicalization are parameters.

  import opened Order
  import opened LineageId

  /** The columns of a repository row that the backfill reads. */
  datatype Facts = Facts(owner: Text, name: Text, source: Text, sourceUrl: Text, revisionKind: Text,
                         revisionValue: Text, revisionRef: Text, createdAt: int)

  /** A lineage row; source and branch may be null, though only together. */
  datatype LineageRow = LineageRow(owner: Text, sourceKey: Option<Text>, branch: Option<Text>, displayName: Text,
                                   latest: Option<Text>, nextSequence: int, createdAt: int)

  /** The two columns the backfill fills in. */
  datatype Attachment = Attachment(lineageId: Text, sequence: int)

  /** What a run reads: the repository rows and the two library functions. */
  datatype Source = Source(canonical: Text -> Option<Text>, uuid: Text -> Text, facts: map<Text, Facts>)

  /** What a run writes. */
  datatype Db = Db(lineages: map<Text, LineageRow>, attached: map<Text, Attachment>)

  /** UUIDv5 in a fixed namespace, taken to be collision-free. */
  ghost predicate Injective(uuid: Text -> Text) {
    forall s, t :: uuid(s) == uuid(t) ==> s == t
  }

  // ------------------------------------------------- eligibility and grouping

  /** `_GIT_SHA_RE.fullmatch` */
  predicate IsSha(t: Text) {
    |t| == 40 && forall i :: 0 <= i < 40 ==> 48 <= t[i] <= 57 || 97 <= t[i] <= 102
  }

  predicate RefChar(c: nat) {
    65 <= c <= 90 || 97 <= c <= 122 || 48 <= c <= 57 || c == 46 || c == 95 || c == 47 || c == 45
  }

  predicate RefUnder(prefix: Text, t: Text) {
    prefix < t && forall i :: |prefix| <= i < |t| ==> RefChar(t[i])
  }

  /** `_REF_RE.fullmatch` */
  predicate IsRef(t: Text) {
    RefUnder(T("refs/heads/"), t) || RefUnder(T("refs/tags/"), t)
  }

  predicate From(c: nat, low: char, high: char) { low as nat <= c <= high as nat }

  /** A commit id: forty lower-case hexadecimal digits. */
  lemma ShaExactly(t: Text)
    ensures IsSha(t) <==> |t| == 40 && forall c :: c in t ==> From(c, '0', '9') || From(c, 'a', 'f')
  {
    assert forall i :: 0 <= i < |t| ==> t[i] in t;
    if IsSha(t) {
      forall c | c in t ensures From(c, '0', '9') || From(c, 'a', 'f') { var i :| 0 <= i < |t| && t[i] == c; }
    }
  }

  predicate PlainChar(c: nat) { From(c, 'A', 'Z') || From(c, 'a', 'z') || From(c, '0', '9') || c in T("._/-") }

  /** A branch or a tag: a prefix and then a name of plain characters. */
  lemma RefExactly(t: Text)
    ensures IsRef(t) <==> exists name ::
              && name != [] && (forall c :: c in name ==> PlainChar(c))
              && (t == T("refs/heads/") + name || t == T("refs/tags/") + name)
  {
    forall c ensures RefChar(c) <==> PlainChar(c) { RefCharacters(c); }
    hide T, PlainChar, RefChar;
    RefUnderExactly(T("refs/heads/"), t);
    RefUnderExactly(T("refs/tags/"), t);
  }

  lemma RefCharacters(c: nat)
    ensures RefChar(c) <==> PlainChar(c)
  {
    assert T("._/-") == [46, 95, 47, 45];
  }

  lemma RefUnderExactly(prefix: Text, t: Text)
    ensures RefUnder(prefix, t) <==> exists name ::
              name != [] && (forall c :: c in name ==> RefChar(c)) && t == prefix + name
  {
    hide RefChar;
    if RefUnder(prefix, t) {
      var name := t[|prefix|..];
      assert t == prefix + name;
    }
    if name :| name != [] && (forall c :: c in name ==> RefChar(c)) && t == prefix + name {
      forall i | |prefix| <= i < |t| ensures RefChar(t[i]) { assert t[i] == name[i - |prefix|]; }
    }
  }

  /** The group of a row, or none for a row that stays standalone. */
  function KeyOf(src: Source, id: Text): Option<GroupKey>
    requires id in src.facts
  {
    var f := src.facts[id];
    if f.source != T("github") || f.revisionKind != T("git") then None
    else if !IsSha(f.revisionValue) || !IsRef(f.revisionRef) || f.sourceUrl == [] then None
    else match src.canonical(f.sourceUrl)
         case None => None
         case Some(key) => Some(GroupKey(f.owner, key, f.revisionRef))
  }

  predicate InGroup(src: Source, id: Text, k: GroupKey) {
    id in src.facts && KeyOf(src, id) == Some(k)
  }

  function LineageIdFor(src: Source, k: GroupKey): Text {
    src.uuid(Encoded(k))
  }

  /** The rows of a group in fetch order. */
  function Filter(src: Source, rows: seq<Text>, k: GroupKey): seq<Text> {
    if rows == [] then []
    else
      var last := rows[|rows| - 1];
      Filter(src, rows[..|rows| - 1], k) + if InGroup(src, last, k) then [last] else []
  }

  function MemberKey(src: Source): Text -> Key {
    (id: Text) => [Num(if id in src.facts then src.facts[id].createdAt else 0), Txt(id)]
  }

  /** The members of a group, by creation time and id. */
  function Members(src: Source, rows: seq<Text>, k: GroupKey): seq<Text> {
    Sort(Filter(src, rows, k), MemberKey(src))
  }

  /** A fetch of all repository rows, in any order. */
  ghost predicate Fetch(src: Source, rows: seq<Text>) {
    Distinct(rows) && forall id :: id in rows <==> id in src.facts
  }

  lemma {:induction false} FilterMembers(src: Source, rows: seq<Text>, k: GroupKey)
    ensures forall id :: id in Filter(src, rows, k) <==> id in rows && InGroup(src, id, k)
    ensures Distinct(rows) ==> Distinct(Filter(src, rows, k))
  {
    hide InGroup;
    if rows != [] {
      FilterMembers(src, rows[..|rows| - 1], k);
      assert rows == rows[..|rows| - 1] + [rows[|rows| - 1]];
    }
  }

  lemma MemberKeysDistinct(src: Source, ids: seq<Text>)
    requires Distinct(ids)
    ensures DistinctKeys(ids, MemberKey(src))
  {
    forall i, j | 0 <= i < j < |ids| ensures MemberKey(src)(ids[i]) != MemberKey(src)(ids[j]) {
      assert MemberKey(src)(ids[i])[1] != MemberKey(src)(ids[j])[1];
    }
  }

  /** Who is in a group, each once. */
  lemma MembersAre(src: Source, rows: seq<Text>, k: GroupKey)
    requires Fetch(src, rows)
    ensures forall id :: id in Members(src, rows, k) <==> InGroup(src, id, k)
    ensures Distinct(Members(src, rows, k)) && StrictlySortedBy(Members(src, rows, k), MemberKey(src))
  {
    hide InGroup, MemberKey;
    var f := Filter(src, rows, k);
    FilterMembers(src, rows, k);
    MemberKeysDistinct(src, f);
    SortStrict(f, MemberKey(src));
    forall id ensures id in Members(src, rows, k) <==> InGroup(src, id, k) {
      SortMembers(f, MemberKey(src), id);
      if InGroup(src, id, k) { InGroupIsRow(src, id, k); }
    }
    var m := Members(src, rows, k);
    forall i, j | 0 <= i < j < |m| ensures m[i] != m[j] {
      KeyLtTotal(MemberKey(src)(m[i]), MemberKey(src)(m[j]));
    }
  }

  /** A row was created before another, or at the same time and has the smaller id. */
  predicate Older(src: Source, a: Text, b: Text)
    requires a in src.facts && b in src.facts
  {
    || src.facts[a].createdAt < src.facts[b].createdAt
    || (src.facts[a].createdAt == src.facts[b].createdAt && TextLt(a, b))
  }

  /** Members stand in order of creation time, then id. */
  lemma OldestFirst(src: Source, rows: seq<Text>, k: GroupKey, i: nat, j: nat)
    requires Fetch(src, rows) && i < j < |Members(src, rows, k)|
    ensures Members(src, rows, k)[i] in src.facts && Members(src, rows, k)[j] in src.facts
    ensures Older(src, Members(src, rows, k)[i], Members(src, rows, k)[j])
  {
    hide Members, InGroup, Fetch, TextLt;
    MembersAre(src, rows, k);
    var m := Members(src, rows, k);
    assert m[i] in m && m[j] in m;
    InGroupIsRow(src, m[i], k);
    InGroupIsRow(src, m[j], k);
    var a, b := MemberKey(src)(m[i]), MemberKey(src)(m[j]);
    FirstDifference(a, b, if a[0] != b[0] then 0 else 1);
  }

  /** The rows of the group that are older than this one. */
  ghost function OlderInGroup(src: Source, k: GroupKey, id: Text): set<Text>
    requires id in src.facts
  {
    set other | other in src.facts && InGroup(src, other, k) && Older(src, other, id)
  }

  /** The place of a member is the number of older ones. */
  lemma PlaceByAge(src: Source, rows: seq<Text>, k: GroupKey, i: nat)
    requires Fetch(src, rows) && i < |Members(src, rows, k)|
    ensures Members(src, rows, k)[i] in src.facts
    ensures i == |OlderInGroup(src, k, Members(src, rows, k)[i])|
  {
    hide Members, InGroup, Fetch, TextLt, Older;
    MembersAre(src, rows, k);
    var m := Members(src, rows, k);
    assert m[i] in m;
    InGroupIsRow(src, m[i], k);
    forall id ensures id in m[..i] <==> id in OlderInGroup(src, k, m[i]) {
      OlderIsBefore(src, rows, k, i, id);
    }
    DistinctSize(m[..i]);
    assert (set id | id in m[..i]) == OlderInGroup(src, k, m[i]);
  }

  lemma OlderIsBefore(src: Source, rows: seq<Text>, k: GroupKey, i: nat, id: Text)
    requires Fetch(src, rows) && i < |Members(src, rows, k)| && Members(src, rows, k)[i] in src.facts
    ensures id in Members(src, rows, k)[..i] <==> id in OlderInGroup(src, k, Members(src, rows, k)[i])
  {
    hide Members, InGroup, Fetch, TextLt;
    MembersAre(src, rows, k);
    var m := Members(src, rows, k);
    if id in m[..i] {
      var j :| 0 <= j < i && m[j] == id;
      OldestFirst(src, rows, k, j, i);
    }
    if id in OlderInGroup(src, k, m[i]) {
      var j :| 0 <= j < |m| && m[j] == id;
      TextLtTotal(m[i], m[j]);
      if i < j { OldestFirst(src, rows, k, i, j); }
      assert id == m[..i][j];
    }
  }

  lemma InGroupIsRow(src: Source, id: Text, k: GroupKey)
    requires InGroup(src, id, k)
    ensures id in src.facts
  {
  }

  /** The order in which rows are fetched does not matter. */
  lemma FetchOrderForgotten(src: Source, rows: seq<Text>, other: seq<Text>, k: GroupKey)
    requires Fetch(src, rows) && Fetch(src, other)
    ensures Members(src, rows, k) == Members(src, other, k)
  {
    hide InGroup, MemberKey, Members;
    MembersAre(src, rows, k);
    MembersAre(src, other, k);
    StrictlySortedUnique(Members(src, rows, k), Members(src, other, k), MemberKey(src));
  }

  // ------------------------------------------------- the intended final state

  ghost function KeySet(src: Source): set<GroupKey> {
    set id | id in src.facts && KeyOf(src, id).Some? :: KeyOf(src, id).value
  }

  /** The lineage row of a group. */
  ghost function RowFor(src: Source, k: GroupKey, members: seq<Text>): LineageRow
    requires members != [] && members[0] in src.facts
  {
    var first := src.facts[members[0]];
    LineageRow(k.owner, Some(k.source), Some(k.branch), first.name, Some(members[|members| - 1]),
               |members| + 1, first.createdAt)
  }

  ghost function Position(s: seq<Text>, id: Text): nat {
    if s == [] || s[0] == id then 0 else 1 + Position(s[1..], id)
  }

  lemma {:induction false} PositionIs(s: seq<Text>, i: nat)
    requires Distinct(s) && i < |s|
    ensures Position(s, s[i]) == i
  {
    if i > 0 {
      PositionIs(s[1..], i - 1);
    }
  }

  lemma {:induction false} PositionFound(s: seq<Text>, id: Text)
    requires id in s
    ensures Position(s, id) < |s| && s[Position(s, id)] == id
  {
    if s[0] != id {
      PositionFound(s[1..], id);
    }
  }

  lemma GroupsNonEmpty(src: Source, rows: seq<Text>, k: GroupKey)
    requires Fetch(src, rows) && k in KeySet(src)
    ensures Members(src, rows, k) != [] && forall id :: id in Members(src, rows, k) ==> id in src.facts
  {
    hide Members;
    MembersAre(src, rows, k);
    var id :| id in src.facts && KeyOf(src, id) == Some(k);
    assert InGroup(src, id, k);
  }

  lemma LineageIdInjective(src: Source, k: GroupKey, l: GroupKey)
    requires Injective(src.uuid) && LineageIdFor(src, k) == LineageIdFor(src, l)
    ensures k == l
  {
    hide Encoded;
    EncodedInjective(k, l);
  }

  /** The intended attachment of a repository row. */
  ghost predicate AttachmentRight(src: Source, rows: seq<Text>, id: Text, a: Attachment) {
    && id in src.facts && KeyOf(src, id).Some?
    && var k := KeyOf(src, id).value;
       a == Attachment(LineageIdFor(src, k), Position(Members(src, rows, k), id) + 1)
  }

  ghost function Eligible(src: Source): set<Text> {
    set id | id in src.facts && KeyOf(src, id).Some?
  }

  // ------------------------------------------------- what a run makes of any earlier state

  /** The row of a group after a run: a row found keeps all but its counter and latest pointer. */
  ghost function RowAfter(src: Source, rows: seq<Text>, before: Db, k: GroupKey): LineageRow
    requires Members(src, rows, k) != [] && Members(src, rows, k)[0] in src.facts
  {
    var m, lid := Members(src, rows, k), LineageIdFor(src, k);
    if lid in before.lineages then before.lineages[lid].(latest := Some(m[|m| - 1]), nextSequence := |m| + 1)
    else RowFor(src, k, m)
  }

  /** The row of the lineage is the one a run leaves. */
  ghost predicate RowDone(src: Source, rows: seq<Text>, before: Db, k: GroupKey, row: LineageRow) {
    var m := Members(src, rows, k);
    m != [] && m[0] in src.facts && row == RowAfter(src, rows, before, k)
  }

  ghost predicate Written(src: Source, rows: seq<Text>, before: Db, lid: Text, row: LineageRow) {
    exists k :: k in KeySet(src) && LineageIdFor(src, k) == lid && RowDone(src, rows, before, k, row)
  }

  /** A state in the middle of a run: everything is as before the run or as after it. */
  ghost predicate Between(src: Source, rows: seq<Text>, before: Db, mid: Db) {
    && before.lineages.Keys <= mid.lineages.Keys && before.attached.Keys <= mid.attached.Keys
    && (forall lid :: lid in mid.lineages ==>
          || (lid in before.lineages && mid.lineages[lid] == before.lineages[lid])
          || Written(src, rows, before, lid, mid.lineages[lid]))
    && (forall id :: id in mid.attached ==>
          || (id in before.attached && mid.attached[id] == before.attached[id])
          || AttachmentRight(src, rows, id, mid.attached[id]))
  }

  /** The state after a run. */
  ghost predicate Outcome(src: Source, rows: seq<Text>, before: Db, after: Db) {
    && Between(src, rows, before, after)
    && (forall k :: k in KeySet(src) ==>
          && LineageIdFor(src, k) in after.lineages
          && RowDone(src, rows, before, k, after.lineages[LineageIdFor(src, k)]))
    && (forall id :: id in Eligible(src) ==>
          id in after.attached && AttachmentRight(src, rows, id, after.attached[id]))
  }

  lemma NothingWritten(src: Source, rows: seq<Text>, before: Db)
    ensures Between(src, rows, before, before)
  {
  }

  /** Two runs from one state, in any fetch orders, end in the same state. */
  lemma OutcomeUnique(src: Source, rows: seq<Text>, other: seq<Text>, before: Db, a: Db, b: Db)
    requires Fetch(src, rows) && Fetch(src, other)
    requires Outcome(src, rows, before, a) && Outcome(src, other, before, b)
    ensures a == b
  {
    hide Outcome, Fetch;
    forall lid | lid in a.lineages ensures lid in b.lineages && b.lineages[lid] == a.lineages[lid] {
      RowsAgree(src, rows, other, before, a, b, lid);
    }
    forall lid | lid in b.lineages ensures lid in a.lineages {
      RowsAgree(src, other, rows, before, b, a, lid);
    }
    forall id | id in a.attached ensures id in b.attached && b.attached[id] == a.attached[id] {
      AttachmentsAgree(src, rows, other, before, a, b, id);
    }
    forall id | id in b.attached ensures id in a.attached {
      AttachmentsAgree(src, other, rows, before, b, a, id);
    }
    assert a.lineages == b.lineages && a.attached == b.attached;
  }

  lemma RowsAgree(src: Source, rows: seq<Text>, other: seq<Text>, before: Db, a: Db, b: Db, lid: Text)
    requires Fetch(src, rows) && Fetch(src, other)
    requires Outcome(src, rows, before, a) && Outcome(src, other, before, b) && lid in a.lineages
    ensures lid in b.lineages && b.lineages[lid] == a.lineages[lid]
  {
    hide Members, RowFor, Fetch, LineageIdFor, KeySet, AttachmentRight, KeyOf;
    if k :| k in KeySet(src) && LineageIdFor(src, k) == lid {
      assert RowDone(src, rows, before, k, a.lineages[lid]) && RowDone(src, other, before, k, b.lineages[lid]);
      FetchOrderForgotten(src, rows, other, k);
    } else {
      assert !Written(src, rows, before, lid, a.lineages[lid]);
      assert lid in before.lineages && lid in b.lineages;
      assert !Written(src, other, before, lid, b.lineages[lid]);
    }
  }

  lemma AttachmentsAgree(src: Source, rows: seq<Text>, other: seq<Text>, before: Db, a: Db, b: Db, id: Text)
    requires Fetch(src, rows) && Fetch(src, other)
    requires Outcome(src, rows, before, a) && Outcome(src, other, before, b) && id in a.attached
    ensures id in b.attached && b.attached[id] == a.attached[id]
  {
    hide Members, Fetch, LineageIdFor, KeySet, KeyOf, Written, RowDone;
    if id in Eligible(src) {
      assert AttachmentRight(src, rows, id, a.attached[id]) && AttachmentRight(src, other, id, b.attached[id]);
      FetchOrderForgotten(src, rows, other, KeyOf(src, id).value);
    } else {
      assert !AttachmentRight(src, rows, id, a.attached[id]);
      assert id in before.attached && id in b.attached;
      assert !AttachmentRight(src, other, id, b.attached[id]);
    }
  }

  /** Members and what is written of them do not depend on the fetch order. */
  lemma BetweenForgetsOrder(src: Source, rows: seq<Text>, other: seq<Text>, before: Db, mid: Db)
    requires Fetch(src, rows) && Fetch(src, other) && Between(src, rows, before, mid)
    ensures Between(src, other, before, mid)
  {
    hide Members, Fetch, LineageIdFor, KeySet, KeyOf, RowFor;
    forall lid | lid in mid.lineages && Written(src, rows, before, lid, mid.lineages[lid])
      ensures Written(src, other, before, lid, mid.lineages[lid])
    {
      var k :| k in KeySet(src) && LineageIdFor(src, k) == lid && RowDone(src, rows, before, k, mid.lineages[lid]);
      FetchOrderForgotten(src, rows, other, k);
      assert RowDone(src, other, before, k, mid.lineages[lid]);
    }
    forall id | id in mid.attached && AttachmentRight(src, rows, id, mid.attached[id])
      ensures AttachmentRight(src, other, id, mid.attached[id])
    {
      FetchOrderForgotten(src, rows, other, KeyOf(src, id).value);
    }
  }

  /** From the middle of a run a group's row still ends as it would have. */
  lemma SameRowAfter(src: Source, rows: seq<Text>, before: Db, mid: Db, k: GroupKey)
    requires Injective(src.uuid) && Between(src, rows, before, mid) && k in KeySet(src)
    requires Members(src, rows, k) != [] && Members(src, rows, k)[0] in src.facts
    ensures RowAfter(src, rows, mid, k) == RowAfter(src, rows, before, k)
  {
    hide Members, LineageIdFor, KeySet, Injective, AttachmentRight;
    var lid := LineageIdFor(src, k);
    if lid in mid.lineages && Written(src, rows, before, lid, mid.lineages[lid]) {
      var l :| l in KeySet(src) && LineageIdFor(src, l) == lid && RowDone(src, rows, before, l, mid.lineages[lid]);
      LineageIdInjective(src, k, l);
    }
  }

  /** What a run makes of a state in the middle of a run, that run would have made itself. */
  lemma OutcomeFromBetween(src: Source, rows: seq<Text>, before: Db, mid: Db, after: Db)
    requires Injective(src.uuid) && Fetch(src, rows) && Between(src, rows, before, mid)
    requires Outcome(src, rows, mid, after)
    ensures Outcome(src, rows, before, after)
  {
    hide Members, LineageIdFor, KeySet, Injective, Fetch, RowAfter, KeyOf;
    forall k | k in KeySet(src)
      ensures LineageIdFor(src, k) in after.lineages
      ensures RowDone(src, rows, before, k, after.lineages[LineageIdFor(src, k)])
    {
      GroupsNonEmpty(src, rows, k);
      assert Members(src, rows, k)[0] in Members(src, rows, k);
      SameRowAfter(src, rows, before, mid, k);
    }
    forall lid | lid in after.lineages
      ensures || (lid in before.lineages && after.lineages[lid] == before.lineages[lid])
              || Written(src, rows, before, lid, after.lineages[lid])
    {
      if Written(src, rows, mid, lid, after.lineages[lid]) {
        var k :| k in KeySet(src) && LineageIdFor(src, k) == lid && RowDone(src, rows, mid, k, after.lineages[lid]);
        assert RowDone(src, rows, before, k, after.lineages[LineageIdFor(src, k)]);
      }
    }
  }

  /**
   A run interrupted after any of its writes, from whatever state it started, leaves a state
   from which a rerun in any fetch order ends where the undisturbed run does.
   */
  lemma CrashSafe(src: Source, rows: seq<Text>, other: seq<Text>, before: Db, mid: Db, rerun: Db, undisturbed: Db)
    requires Injective(src.uuid) && Fetch(src, rows) && Fetch(src, other) && Between(src, rows, before, mid)
    requires Outcome(src, other, mid, rerun) && Outcome(src, rows, before, undisturbed)
    ensures rerun == undisturbed
  {
    hide Between, Outcome, Fetch, Injective;
    BetweenForgetsOrder(src, rows, other, before, mid);
    OutcomeFromBetween(src, other, before, mid, rerun);
    OutcomeUnique(src, other, rows, before, rerun, undisturbed);
  }

  // ------------------------------------------------- writes

  datatype Write =
    | InsertLineage(lid: Text, row: LineageRow)
    | ReconcileLineage(lid: Text, latest: Text, nextSequence: int)
    | AttachRepository(id: Text, attachment: Attachment)

  function Apply(db: Db, w: Write): Db {
    match w
    case InsertLineage(lid, row) => db.(lineages := db.lineages[lid := row])
    case ReconcileLineage(lid, latest, next) =>
      if lid in db.lineages
      then db.(lineages := db.lineages[lid := db.lineages[lid].(latest := Some(latest), nextSequence := next)]) else db
    case AttachRepository(id, a) => db.(attached := db.attached[id := a])
  }

  function ApplyAll(db: Db, ws: seq<Write>): Db {
    if ws == [] then db else Apply(ApplyAll(db, ws[..|ws| - 1]), ws[|ws| - 1])
  }

  lemma ApplyAllAppend(db: Db, ws: seq<Write>, w: Write)
    ensures ApplyAll(db, ws + [w]) == Apply(ApplyAll(db, ws), w)
  {
    hide Apply;
    assert (ws + [w])[..|ws + [w]| - 1] == ws;
  }

  /** One eligible group with its sorted members. */
  datatype Group = Group(key: GroupKey, members: seq<Text>)

  /** A group list as `_eligible_groups` returns it, in some order. */
  ghost predicate Grouping(src: Source, rows: seq<Text>, groups: seq<Group>) {
    && (forall i :: 0 <= i < |groups| ==>
          groups[i].key in KeySet(src) && groups[i].members == Members(src, rows, groups[i].key))
    && (forall k :: k in KeySet(src) ==> exists i :: 0 <= i < |groups| && groups[i].key == k)
    && (forall i, j :: 0 <= i < j < |groups| ==> groups[i].key != groups[j].key)
  }

  /** The lineage write of a group, given what is already there. */
  ghost function LineageWrite(src: Source, db: Db, g: Group): Write
    requires g.members != [] && g.members[0] in src.facts
  {
    var lid := LineageIdFor(src, g.key);
    if lid in db.lineages then ReconcileLineage(lid, g.members[|g.members| - 1], |g.members| + 1)
    else InsertLineage(lid, RowFor(src, g.key, g.members))
  }

  /** Either lineage write sets the group's row to what a run leaves of it. */
  lemma LineageWriteSets(src: Source, rows: seq<Text>, db: Db, g: Group)
    requires g.members == Members(src, rows, g.key) && g.members != [] && g.members[0] in src.facts
    ensures var lid, row := LineageIdFor(src, g.key), RowAfter(src, rows, db, g.key);
            Apply(db, LineageWrite(src, db, g)) == db.(lineages := db.lineages[lid := row])
  {
    hide Members, LineageIdFor;
  }

  lemma RowWritten(src: Source, rows: seq<Text>, before: Db, db: Db, lid: Text, row: LineageRow)
    requires Between(src, rows, before, db) && Written(src, rows, before, lid, row)
    ensures Between(src, rows, before, db.(lineages := db.lineages[lid := row]))
  {
    hide AttachmentRight, Written;
  }

  /** A group's lineage write stays between and leaves its row as after the run. */
  lemma LineageWritten(src: Source, rows: seq<Text>, before: Db, db: Db, g: Group)
    requires Injective(src.uuid) && Between(src, rows, before, db) && g.key in KeySet(src)
    requires g.members == Members(src, rows, g.key) && g.members != [] && g.members[0] in src.facts
    ensures var after, lid := Apply(db, LineageWrite(src, db, g)), LineageIdFor(src, g.key);
            && Between(src, rows, before, after) && after.attached == db.attached
            && lid in after.lineages && after.lineages == db.lineages[lid := after.lineages[lid]]
            && RowDone(src, rows, before, g.key, after.lineages[lid])
  {
    hide Members, LineageIdFor, KeySet, Injective, Between, RowAfter, Apply, LineageWrite;
    SameRowAfter(src, rows, before, db, g.key);
    LineageWriteSets(src, rows, db, g);
    var lid, row := LineageIdFor(src, g.key), RowAfter(src, rows, before, g.key);
    assert RowDone(src, rows, before, g.key, row);
    assert Written(src, rows, before, lid, row);
    RowWritten(src, rows, before, db, lid, row);
  }

  lemma AttachRight(src: Source, rows: seq<Text>, k: GroupKey, i: nat)
    requires Fetch(src, rows) && i < |Members(src, rows, k)|
    ensures AttachmentRight(src, rows, Members(src, rows, k)[i], Attachment(LineageIdFor(src, k), i + 1))
  {
    hide Members, LineageIdFor, Fetch;
    MembersAre(src, rows, k);
    var m := Members(src, rows, k);
    assert m[i] in m;
    assert InGroup(src, m[i], k);
    PositionIs(m, i);
  }

  lemma AttachWritten(src: Source, rows: seq<Text>, before: Db, db: Db, id: Text, a: Attachment)
    requires Between(src, rows, before, db) && AttachmentRight(src, rows, id, a)
    ensures Between(src, rows, before, Apply(db, AttachRepository(id, a)))
  {
    hide AttachmentRight, Written;
  }

  // ------------------------------------------------- the unique index

  /** The row holds the owner, source and branch of the group. */
  predicate Takes(row: LineageRow, k: GroupKey) {
    row.owner == k.owner && row.sourceKey == Some(k.source) && row.branch == Some(k.branch)
  }

  ghost predicate Taken(db: Db, k: GroupKey) {
    exists lid :: lid in db.lineages && Takes(db.lineages[lid], k)
  }

  /** Some group has no row of its own while a row of another id holds its owner, source and branch. */
  ghost predicate Conflict(src: Source, db: Db) {
    exists k :: k in KeySet(src) && LineageIdFor(src, k) !in db.lineages && Taken(db, k)
  }

  /** The row's lineage has no row, and a lineage row holds its owner, source and ref. */
  ghost predicate Displaced(src: Source, db: Db, f: Facts, row: LineageRow) {
    && Resolvable(src, f) && row.owner == f.owner && row.sourceKey == src.canonical(f.sourceUrl)
    && row.branch == Some(f.revisionRef)
    && LineageIdFor(src, GroupKey(f.owner, row.sourceKey.value, f.revisionRef)) !in db.lineages
  }

  /** A conflict in columns. */
  lemma ConflictExactly(src: Source, db: Db)
    ensures Conflict(src, db) <==>
            exists id, lid ::
              id in src.facts && lid in db.lineages && Displaced(src, db, src.facts[id], db.lineages[lid])
  {
    hide IsSha, IsRef, T, LineageIdFor;
    if Conflict(src, db) {
      var k :| k in KeySet(src) && LineageIdFor(src, k) !in db.lineages && Taken(db, k);
      var id :| id in src.facts && KeyOf(src, id) == Some(k);
      var lid :| lid in db.lineages && Takes(db.lineages[lid], k);
      assert Displaced(src, db, src.facts[id], db.lineages[lid]);
    }
    if id, lid :| id in src.facts && lid in db.lineages && Displaced(src, db, src.facts[id], db.lineages[lid]) {
      var k := KeyOf(src, id).value;
      assert k in KeySet(src) && Takes(db.lineages[lid], k);
    }
  }

  /** A run takes no group's place: what is taken in its middle was taken before it. */
  lemma TakenBefore(src: Source, rows: seq<Text>, before: Db, mid: Db, k: GroupKey)
    requires Between(src, rows, before, mid) && LineageIdFor(src, k) !in mid.lineages
    ensures Taken(mid, k) <==> Taken(before, k)
  {
    hide Members, LineageIdFor, KeySet, AttachmentRight;
    if lid :| lid in mid.lineages && Takes(mid.lineages[lid], k) {
      WrittenTakes(src, rows, before, mid, k, lid);
    }
    if lid :| lid in before.lineages && Takes(before.lineages[lid], k) {
      WrittenTakes(src, rows, before, mid, k, lid);
    }
  }

  lemma WrittenTakes(src: Source, rows: seq<Text>, before: Db, mid: Db, k: GroupKey, lid: Text)
    requires Between(src, rows, before, mid) && LineageIdFor(src, k) !in mid.lineages && lid in mid.lineages
    ensures Takes(mid.lineages[lid], k) ==> lid in before.lineages
    ensures lid in before.lineages ==> (Takes(mid.lineages[lid], k) <==> Takes(before.lineages[lid], k))
  {
    hide Members, LineageIdFor, KeySet, AttachmentRight;
    if Written(src, rows, before, lid, mid.lineages[lid]) {
      var l :| l in KeySet(src) && LineageIdFor(src, l) == lid && RowDone(src, rows, before, l, mid.lineages[lid]);
      assert l != k;
    }
  }

  /** A run that could start without a conflict leaves none behind at any point. */
  lemma NoNewConflict(src: Source, rows: seq<Text>, before: Db, mid: Db)
    requires Between(src, rows, before, mid) && Conflict(src, mid)
    ensures Conflict(src, before)
  {
    hide LineageIdFor, KeySet, Taken;
    var k :| k in KeySet(src) && LineageIdFor(src, k) !in mid.lineages && Taken(mid, k);
    TakenBefore(src, rows, before, mid, k);
    assert LineageIdFor(src, k) !in before.lineages by { BetweenKeeps(src, rows, before, mid); }
  }

  lemma BetweenKeeps(src: Source, rows: seq<Text>, before: Db, mid: Db)
    requires Between(src, rows, before, mid)
    ensures before.lineages.Keys <= mid.lineages.Keys
  {
  }

  // ------------------------------------------------- verification

  /** What `_verify_backfill` checks of one group's lineage row. */
  predicate LineageOk(src: Source, lineages: map<Text, LineageRow>, g: Group) {
    var lid := LineageIdFor(src, g.key);
    && lid in lineages && lineages[lid].owner == g.key.owner
    && g.members != [] && lineages[lid].latest == Some(g.members[|g.members| - 1])
    && lineages[lid].nextSequence == |g.members| + 1
  }

  /** The intended attachments, exactly, and every lineage row checked. */
  ghost predicate Verified(src: Source, rows: seq<Text>, db: Db) {
    && (forall k :: k in KeySet(src) ==> LineageOk(src, db.lineages, Group(k, Members(src, rows, k))))
    && db.attached.Keys == Eligible(src)
    && (forall id :: id in db.attached ==> AttachmentRight(src, rows, id, db.attached[id]))
  }

  /** Lineage rows found for a group belong to its owner. */
  ghost predicate OwnersRight(src: Source, before: Db) {
    forall k :: k in KeySet(src) && LineageIdFor(src, k) in before.lineages ==>
        before.lineages[LineageIdFor(src, k)].owner == k.owner
  }

  /** A run passes verification exactly when it found no foreign lineage row and no attachment that is not eligible. */
  lemma VerifiedExactly(src: Source, rows: seq<Text>, before: Db, after: Db)
    requires Fetch(src, rows) && Outcome(src, rows, before, after)
    ensures Verified(src, rows, after) <==> OwnersRight(src, before) && before.attached.Keys <= Eligible(src)
  {
    hide Members, Fetch, LineageIdFor, KeySet, Written;
    forall k | k in KeySet(src)
      ensures LineageOk(src, after.lineages, Group(k, Members(src, rows, k))) <==>
              (LineageIdFor(src, k) in before.lineages ==> before.lineages[LineageIdFor(src, k)].owner == k.owner)
    {
      assert RowDone(src, rows, before, k, after.lineages[LineageIdFor(src, k)]);
    }
    OutcomeAttached(src, rows, before, after);
    if Verified(src, rows, after) {
      forall k | k in KeySet(src) && LineageIdFor(src, k) in before.lineages
        ensures before.lineages[LineageIdFor(src, k)].owner == k.owner
      {
        assert LineageOk(src, after.lineages, Group(k, Members(src, rows, k)));
      }
    }
  }

  lemma OutcomeAttached(src: Source, rows: seq<Text>, before: Db, after: Db)
    requires Outcome(src, rows, before, after)
    ensures after.attached.Keys == before.attached.Keys + Eligible(src)
    ensures before.attached.Keys <= Eligible(src) ==> forall id :: id in after.attached ==>
            AttachmentRight(src, rows, id, after.attached[id])
  {
    hide Members, LineageIdFor, KeySet, KeyOf, Written, RowDone;
    forall id | id in after.attached ensures id in before.attached || id in Eligible(src) {
      if id !in before.attached { assert AttachmentRight(src, rows, id, after.attached[id]); }
    }
    forall id | id in before.attached ensures id in after.attached {
    }
  }

  ghost function RowsOf(src: Source, k: GroupKey): set<Text> { set id | id in src.facts && InGroup(src, id, k) }

  lemma MembersSet(src: Source, rows: seq<Text>, k: GroupKey)
    requires Fetch(src, rows)
    ensures forall id :: id in Members(src, rows, k) <==> id in RowsOf(src, k)
    ensures |RowsOf(src, k)| == |Members(src, rows, k)|
  {
    hide Members, Fetch, InGroup;
    var m := Members(src, rows, k);
    MembersAre(src, rows, k);
    forall id ensures id in m <==> id in RowsOf(src, k) {
      if id in m { InGroupIsRow(src, id, k); }
    }
    DistinctSize(m);
    assert (set id | id in m) == RowsOf(src, k);
  }

  /** A member's number and the youngest member, by age. */
  lemma MemberByAge(src: Source, rows: seq<Text>, k: GroupKey, id: Text) returns (i: nat)
    requires Fetch(src, rows) && id in RowsOf(src, k)
    ensures var m := Members(src, rows, k);
            && i < |m| && m[i] == id && i == |OlderInGroup(src, k, id)|
            && m[|m| - 1] in src.facts && (id != m[|m| - 1] ==> Older(src, id, m[|m| - 1]))
  {
    hide Members, Fetch, InGroup, Older, OlderInGroup;
    var m := Members(src, rows, k);
    MembersSet(src, rows, k);
    i :| 0 <= i < |m| && m[i] == id;
    PlaceByAge(src, rows, k, i);
    if i < |m| - 1 { OldestFirst(src, rows, k, i, |m| - 1); }
  }

  /** The row is the youngest of its group. */
  ghost predicate Youngest(src: Source, k: GroupKey, id: Text) {
    id in RowsOf(src, k) && forall other :: other in RowsOf(src, k) && other != id ==> Older(src, other, id)
  }

  /**
   In a verified state a row's sequence is one more than the number of its group's rows that
   are older, the latest pointer names the youngest row, and the next sequence follows.
   */
  lemma NumberedExactly(src: Source, rows: seq<Text>, db: Db, k: GroupKey)
    requires Injective(src.uuid) && Fetch(src, rows) && Verified(src, rows, db) && k in KeySet(src)
    ensures var lid := LineageIdFor(src, k);
            && lid in db.lineages && db.lineages[lid].nextSequence == |RowsOf(src, k)| + 1
            && db.lineages[lid].latest.Some? && Youngest(src, k, db.lineages[lid].latest.value)
            && (forall id :: (id in db.attached && db.attached[id].lineageId == lid) <==> id in RowsOf(src, k))
            && forall id :: id in RowsOf(src, k) ==> db.attached[id].sequence == |OlderInGroup(src, k, id)| + 1
  {
    hide Members, Fetch, Injective, LineageIdFor, KeySet, Verified, RowsOf, OlderInGroup, Older;
    var m, lid := Members(src, rows, k), LineageIdFor(src, k);
    NumberedInOrder(src, rows, db, k);
    MembersSet(src, rows, k);
    assert m[|m| - 1] in m;
    forall id | id in RowsOf(src, k)
      ensures id in src.facts && id in db.attached
      ensures db.attached[id] == Attachment(lid, |OlderInGroup(src, k, id)| + 1)
      ensures m[|m| - 1] in src.facts && (id != m[|m| - 1] ==> Older(src, id, m[|m| - 1]))
    {
      var i := MemberByAge(src, rows, k, id);
      assert id in src.facts by { RowsAreRows(src, k, id); }
    }
    forall id | id in db.attached && db.attached[id].lineageId == lid ensures id in RowsOf(src, k) {
      assert m[db.attached[id].sequence - 1] in m;
    }
  }

  lemma RowsAreRows(src: Source, k: GroupKey, id: Text)
    requires id in RowsOf(src, k)
    ensures id in src.facts
  {
  }

  /** In a verified state a lineage numbers exactly its members, from 1 to n. */
  lemma NumberedInOrder(src: Source, rows: seq<Text>, db: Db, k: GroupKey)
    requires Injective(src.uuid) && Fetch(src, rows) && Verified(src, rows, db) && k in KeySet(src)
    ensures var m, lid := Members(src, rows, k), LineageIdFor(src, k);
            && m != [] && lid in db.lineages
            && db.lineages[lid].latest == Some(m[|m| - 1]) && db.lineages[lid].nextSequence == |m| + 1
            && (forall i :: 0 <= i < |m| ==> m[i] in db.attached && db.attached[m[i]] == Attachment(lid, i + 1))
            && (forall id :: id in db.attached && db.attached[id].lineageId == lid ==>
                  1 <= db.attached[id].sequence <= |m| && m[db.attached[id].sequence - 1] == id)
  {
    hide Members, Fetch, Injective, LineageIdFor, KeySet;
    var m, lid := Members(src, rows, k), LineageIdFor(src, k);
    assert LineageOk(src, db.lineages, Group(k, m));
    MembersAre(src, rows, k);
    forall i | 0 <= i < |m| ensures m[i] in db.attached && db.attached[m[i]] == Attachment(lid, i + 1) {
      assert m[i] in m;
      assert InGroup(src, m[i], k);
      assert m[i] in Eligible(src);
      assert AttachmentRight(src, rows, m[i], db.attached[m[i]]);
      PositionIs(m, i);
    }
    forall id | id in db.attached && db.attached[id].lineageId == lid
      ensures 1 <= db.attached[id].sequence <= |m| && m[db.attached[id].sequence - 1] == id
    {
      assert AttachmentRight(src, rows, id, db.attached[id]);
      LineageIdInjective(src, k, KeyOf(src, id).value);
      assert InGroup(src, id, k);
      PositionFound(m, id);
    }
  }

  /** A GitHub import of a commit on a named branch or tag, with a canonical source. */
  predicate Resolvable(src: Source, f: Facts) {
    && f.source == T("github") && f.revisionKind == T("git") && IsSha(f.revisionValue) && IsRef(f.revisionRef)
    && f.sourceUrl != [] && src.canonical(f.sourceUrl).Some?
  }

  /** In a verified state two rows share a lineage exactly when both are resolvable, with one owner, source and ref. */
  lemma SameLineageExactly(src: Source, rows: seq<Text>, db: Db, a: Text, b: Text)
    requires Injective(src.uuid) && Fetch(src, rows) && Verified(src, rows, db) && a in src.facts && b in src.facts
    ensures a in db.attached && b in db.attached && db.attached[a].lineageId == db.attached[b].lineageId <==>
            var f, g := src.facts[a], src.facts[b];
            && Resolvable(src, f) && Resolvable(src, g) && f.owner == g.owner
            && src.canonical(f.sourceUrl) == src.canonical(g.sourceUrl) && f.revisionRef == g.revisionRef
  {
    hide Members, Fetch, Injective, LineageIdFor, IsSha, IsRef, T;
    assert a in db.attached <==> KeyOf(src, a).Some?;
    assert b in db.attached <==> KeyOf(src, b).Some?;
    if a in db.attached && b in db.attached {
      assert AttachmentRight(src, rows, a, db.attached[a]) && AttachmentRight(src, rows, b, db.attached[b]);
      if db.attached[a].lineageId == db.attached[b].lineageId {
        LineageIdInjective(src, KeyOf(src, a).value, KeyOf(src, b).value);
      }
    }
  }

  /** The row is the oldest of its group. */
  ghost predicate Oldest(src: Source, k: GroupKey, id: Text) {
    id in RowsOf(src, k) && forall other :: other in RowsOf(src, k) && other != id ==> Older(src, id, other)
  }

  /**
   What a run leaves of a group's row: one that was there keeps all but the latest pointer and
   the counter, a new one is named and dated after the oldest member.
   */
  lemma RowAfterRun(src: Source, rows: seq<Text>, before: Db, after: Db, k: GroupKey) returns (oldest: Text)
    requires Fetch(src, rows) && Outcome(src, rows, before, after) && k in KeySet(src)
    ensures Oldest(src, k, oldest) && oldest in src.facts
    ensures var lid := LineageIdFor(src, k);
            && lid in after.lineages && after.lineages[lid].latest.Some?
            && Youngest(src, k, after.lineages[lid].latest.value)
            && var newRow := LineageRow(k.owner, Some(k.source), Some(k.branch), src.facts[oldest].name, None, 0,
                                       src.facts[oldest].createdAt);
               after.lineages[lid] == (if lid in before.lineages then before.lineages[lid] else newRow)
                                      .(latest := after.lineages[lid].latest, nextSequence := |RowsOf(src, k)| + 1)
  {
    hide Members, Fetch, LineageIdFor, KeySet, RowsOf, Older, OlderInGroup, Between;
    var m, lid := Members(src, rows, k), LineageIdFor(src, k);
    assert RowDone(src, rows, before, k, after.lineages[lid]);
    MembersSet(src, rows, k);
    oldest := m[0];
    assert m[0] in m && m[|m| - 1] in m;
    forall id | id in RowsOf(src, k)
      ensures id in src.facts && (id != m[0] ==> Older(src, m[0], id))
      ensures m[|m| - 1] in src.facts && (id != m[|m| - 1] ==> Older(src, id, m[|m| - 1]))
    {
      RowsAreRows(src, k, id);
      var i := MemberByAge(src, rows, k, id);
      if i > 0 { OldestFirst(src, rows, k, 0, i); }
    }
  }
}
