/** The lineage backfill and its verifier. */
module Backfill {
  // `_eligible_groups`, `_backfill_lineages` and `_verify_backfill` run over the two tables.

  import opened Order
  import opened LineageId
  import opened Lineage

  ghost predicate Seen(src: Source, rows: seq<Text>, k: GroupKey) {
    exists i :: 0 <= i < |rows| && InGroup(src, rows[i], k)
  }

  /** The distinct group keys of some rows are exactly those in `order`. */
  ghost predicate KeysSeen(src: Source, rows: seq<Text>, order: seq<GroupKey>) {
    Distinct(order) && forall k :: k in order <==> Seen(src, rows, k)
  }

  lemma SeenAppend(src: Source, rows: seq<Text>, id: Text, k: GroupKey)
    ensures Seen(src, rows + [id], k) <==> Seen(src, rows, k) || InGroup(src, id, k)
  {
    hide InGroup;
    var more := rows + [id];
    if i :| 0 <= i < |rows| && InGroup(src, rows[i], k) { assert more[i] == rows[i]; }
    if InGroup(src, id, k) { assert more[|rows|] == id; }
    if i :| 0 <= i < |more| && InGroup(src, more[i], k) { assert i < |rows| ==> more[i] == rows[i]; }
  }

  lemma KeysSeenAppend(src: Source, rows: seq<Text>, order: seq<GroupKey>, id: Text)
    requires KeysSeen(src, rows, order) && id in src.facts
    ensures KeyOf(src, id).None? ==> KeysSeen(src, rows + [id], order)
    ensures KeyOf(src, id).Some? && KeyOf(src, id).value in order ==> KeysSeen(src, rows + [id], order)
    ensures KeyOf(src, id).Some? && KeyOf(src, id).value !in order ==>
            KeysSeen(src, rows + [id], order + [KeyOf(src, id).value])
  {
    hide KeyOf, Seen;
    forall k ensures Seen(src, rows + [id], k) <==> Seen(src, rows, k) || KeyOf(src, id) == Some(k) {
      SeenAppend(src, rows, id, k);
    }
  }

  lemma AllKeysSeen(src: Source, rows: seq<Text>, order: seq<GroupKey>)
    requires Fetch(src, rows) && KeysSeen(src, rows, order)
    ensures forall k :: k in order <==> k in KeySet(src)
  {
    hide KeyOf;
    forall k ensures k in order <==> k in KeySet(src) {
      if k in order {
        assert Seen(src, rows, k);
        var i :| 0 <= i < |rows| && InGroup(src, rows[i], k);
      }
      if k in KeySet(src) {
        var id :| id in src.facts && KeyOf(src, id) == Some(k);
        assert id in rows;
        var i :| 0 <= i < |rows| && rows[i] == id;
        assert InGroup(src, rows[i], k);
      }
    }
  }

  /** The loop of `_eligible_groups` that files each row under its key. */
  method FileRows(src: Source, rows: seq<Text>) returns (byKey: map<GroupKey, seq<Text>>, order: seq<GroupKey>)
    requires Fetch(src, rows)
    ensures KeysSeen(src, rows, order) && byKey.Keys == (set k | k in order)
    ensures forall k :: k in byKey ==> byKey[k] == Filter(src, rows, k)
  {
    hide KeyOf, InGroup, Seen, Filter;
    byKey, order := map[], [];
    NothingFiled(src);
    for i := 0 to |rows|
      invariant KeysSeen(src, rows[..i], order) && byKey.Keys == (set k | k in order)
      invariant forall k :: Filter(src, rows[..i], k) == if k in byKey then byKey[k] else []
    {
      var id := rows[i];
      assert id in src.facts;
      assert rows[..i + 1] == rows[..i] + [id] && rows[..i + 1][..i] == rows[..i];
      KeysSeenAppend(src, rows[..i], order, id);
      var key := KeyOf(src, id);
      FilterStep(src, rows[..i], id);
      if key.Some? {
        if key.value !in byKey {
          order := order + [key.value];
        }
        byKey := byKey[key.value := (if key.value in byKey then byKey[key.value] else []) + [id]];
      }
    }
    assert rows[..|rows|] == rows;
  }

  lemma NothingFiled(src: Source)
    ensures KeysSeen(src, [], []) && forall k :: Filter(src, [], k) == []
  {
  }

  lemma FilterStep(src: Source, rows: seq<Text>, id: Text)
    requires id in src.facts
    ensures forall k :: Filter(src, rows + [id], k)
                        == if KeyOf(src, id) == Some(k) then Filter(src, rows, k) + [id] else Filter(src, rows, k)
  {
    hide KeyOf;
    assert (rows + [id])[..|rows + [id]| - 1] == rows;
    forall k ensures Filter(src, rows + [id], k)
                     == if KeyOf(src, id) == Some(k) then Filter(src, rows, k) + [id] else Filter(src, rows, k) {
      assert Filter(src, rows, k) + [] == Filter(src, rows, k);
    }
  }

  lemma GroupingFromOrder(src: Source, rows: seq<Text>, order: seq<GroupKey>, groups: seq<Group>)
    requires Distinct(order) && (forall k :: k in order <==> k in KeySet(src)) && |groups| == |order|
    requires forall j :: 0 <= j < |order| ==> groups[j] == Group(order[j], Members(src, rows, order[j]))
    ensures Grouping(src, rows, groups)
  {
    hide KeySet, Members;
    forall i | 0 <= i < |groups| ensures groups[i].key in KeySet(src) {
      assert order[i] in order;
    }
    forall k | k in KeySet(src) ensures exists i :: 0 <= i < |groups| && groups[i].key == k {
      var i :| 0 <= i < |order| && order[i] == k;
      assert groups[i].key == k;
    }
  }

  /** `_eligible_groups` */
  method EligibleGroups(src: Source, rows: seq<Text>) returns (groups: seq<Group>)
    requires Fetch(src, rows)
    ensures Grouping(src, rows, groups)
  {
    hide MemberKey, KeySet, Seen, Filter, Sort, Grouping, Fetch;
    var byKey, order := FileRows(src, rows);
    AllKeysSeen(src, rows, order);
    groups := [];
    for i := 0 to |order|
      invariant |groups| == i
      invariant forall j :: 0 <= j < i ==> groups[j] == Group(order[j], Members(src, rows, order[j]))
    {
      assert order[i] in order;
      var members := Sort(byKey[order[i]], MemberKey(src));
      groups := groups + [Group(order[i], members)];
    }
    GroupingFromOrder(src, rows, order, groups);
  }

  /** Of a group, its row and its first `n` members are written. */
  ghost predicate GroupWritten(src: Source, rows: seq<Text>, start: Db, db: Db, g: Group, n: nat)
    requires n <= |g.members|
  {
    var lid := LineageIdFor(src, g.key);
    && lid in db.lineages && RowDone(src, rows, start, g.key, db.lineages[lid])
    && forall i :: 0 <= i < n ==>
        g.members[i] in db.attached && AttachmentRight(src, rows, g.members[i], db.attached[g.members[i]])
  }

  /** Nothing is written but the row of the group and its members. */
  ghost predicate OnlyGroup(src: Source, g: Group, before: Db, after: Db) {
    var lid := LineageIdFor(src, g.key);
    && before.lineages.Keys <= after.lineages.Keys <= before.lineages.Keys + {lid}
    && (forall k :: k in before.lineages && k != lid ==> after.lineages[k] == before.lineages[k])
    && forall id :: id in before.attached && id !in g.members ==>
        id in after.attached && after.attached[id] == before.attached[id]
  }

  /** The lineage table and the two new repository columns during the migration. */
  class Migration {
    const src: Source
    var lineages: map<Text, LineageRow>
    var attached: map<Text, Attachment>
    ghost var log: seq<Write>   // every write so far, in order

    constructor (src: Source)
      ensures this.src == src && State() == Db(map[], map[]) && log == []
    {
      this.src := src;
      lineages, attached := map[], map[];
      log := [];
    }

    ghost function State(): Db
      reads this
    {
      Db(lineages, attached)
    }

    /** The state is what the writes since `mark` make of `start`, and lay between at every point. */
    ghost predicate Faithful(rows: seq<Text>, start: Db, mark: nat)
      reads this
    {
      && mark <= |log| && State() == ApplyAll(start, log[mark..])
      && forall n :: 0 <= n <= |log| - mark ==> Between(src, rows, start, ApplyAll(start, log[mark..][..n]))
    }

    /** One SQL statement. */
    method Execute(ghost rows: seq<Text>, ghost start: Db, ghost mark: nat, w: Write)
      requires Faithful(rows, start, mark) && Between(src, rows, start, Apply(State(), w))
      modifies this
      ensures Faithful(rows, start, mark) && State() == Apply(old(State()), w) && log == old(log) + [w]
    {
      hide Between, ApplyAll;
      ghost var before := log[mark..];
      ApplyAllAppend(start, before, w);
      assert (log + [w])[mark..] == before + [w];
      forall n | 0 <= n <= |log| + 1 - mark ensures Between(src, rows, start, ApplyAll(start, (before + [w])[..n])) {
        if n <= |before| {
          assert (before + [w])[..n] == before[..n];
        } else {
          assert (before + [w])[..n] == before + [w];
        }
      }
      match w {
        case InsertLineage(lid, row) => lineages := lineages[lid := row];
        case ReconcileLineage(lid, latest, next) =>
          if lid in lineages {
            lineages := lineages[lid := lineages[lid].(latest := Some(latest), nextSequence := next)];
          }
        case AttachRepository(id, a) => attached := attached[id := a];
      }
      log := log + [w];
    }

    /**
     The writes for one group: its lineage row, inserted or reconciled, then its members in
     order. The insert raises when another row holds the group's owner, source and branch.
     */
    method WriteGroup(ghost rows: seq<Text>, ghost start: Db, ghost mark: nat, g: Group) returns (raised: bool)
      requires Injective(src.uuid) && Fetch(src, rows) && Faithful(rows, start, mark)
      requires g.key in KeySet(src) && g.members == Members(src, rows, g.key)
      modifies this
      ensures Faithful(rows, start, mark) && old(log) <= log
      ensures raised <==> LineageIdFor(src, g.key) !in old(lineages) && Taken(start, g.key)
      ensures raised ==> State() == old(State())
      ensures !raised ==> GroupWritten(src, rows, start, State(), g, |g.members|)
      ensures OnlyGroup(src, g, old(State()), State())
    {
      hide Between, Members, KeySet, Fetch, Injective, LineageIdFor, AttachmentRight, RowDone, ApplyAll, Takes,
           Faithful, Taken, Eligible;
      GroupsNonEmpty(src, rows, g.key);
      var lid := LineageIdFor(src, g.key);
      var first, last := g.members[0], g.members[|g.members| - 1];
      assert first in g.members;
      var nextSequence := |g.members| + 1;
      NowBetween(rows, start, mark);
      LineageWritten(src, rows, start, State(), g);
      if lid !in lineages {
        TakenBefore(src, rows, start, State(), g.key);
        if Occupied(g.key) {
          return true;
        }
        var f := src.facts[first];
        var row := LineageRow(g.key.owner, Some(g.key.source), Some(g.key.branch), f.name, Some(last),
                              nextSequence, f.createdAt);
        Execute(rows, start, mark, InsertLineage(lid, row));
      } else {
        Execute(rows, start, mark, ReconcileLineage(lid, last, nextSequence));
      }
      AttachMembers(rows, start, mark, g);
      raised := false;
    }

    /** The unique index on owner, source and branch. */
    predicate Occupied(k: GroupKey)
      reads this
      ensures Occupied(k) <==> Taken(State(), k)
    {
      exists other :: other in lineages && Takes(lineages[other], k)
    }

    /** The inner loop: the members of a group in their order. */
    method AttachMembers(ghost rows: seq<Text>, ghost start: Db, ghost mark: nat, g: Group)
      requires Fetch(src, rows) && Faithful(rows, start, mark)
      requires g.key in KeySet(src) && g.members == Members(src, rows, g.key)
      requires GroupWritten(src, rows, start, State(), g, 0)
      modifies this
      ensures Faithful(rows, start, mark) && old(log) <= log && lineages == old(lineages)
      ensures GroupWritten(src, rows, start, State(), g, |g.members|)
      ensures forall id :: id in old(attached) && id !in g.members ==>
                id in attached && attached[id] == old(attached)[id]
    {
      hide Between, Members, KeySet, Fetch, LineageIdFor, AttachmentRight, RowDone, ApplyAll, Faithful;
      for i := 0 to |g.members|
        invariant Faithful(rows, start, mark) && old(log) <= log && lineages == old(lineages)
        invariant GroupWritten(src, rows, start, State(), g, i)
        invariant forall id :: id in old(attached) && id !in g.members ==>
                    id in attached && attached[id] == old(attached)[id]
      {
        var id, a := g.members[i], Attachment(LineageIdFor(src, g.key), i + 1);
        AttachRight(src, rows, g.key, i);
        NowBetween(rows, start, mark);
        AttachWritten(src, rows, start, State(), id, a);
        Execute(rows, start, mark, AttachRepository(id, a));
      }
    }

    lemma NowBetween(rows: seq<Text>, start: Db, mark: nat)
      requires Faithful(rows, start, mark)
      ensures Between(src, rows, start, State())
    {
      hide Between;
      var n := |log| - mark;
      assert log[mark..][..n] == log[mark..];
    }

    /**
     `_backfill_lineages`: it raises exactly when some group's place is taken by a row of
     another id; otherwise the outcome is reached. In either case the state lies between
     after every single write.
     */
    method BackfillLineages(rows: seq<Text>) returns (groups: seq<Group>, raised: bool)
      requires Injective(src.uuid) && Fetch(src, rows)
      modifies this
      ensures Grouping(src, rows, groups) && (raised <==> Conflict(src, old(State())))
      ensures !raised ==> Outcome(src, rows, old(State()), State())
      ensures old(log) <= log && State() == ApplyAll(old(State()), log[|old(log)|..])
      ensures forall n :: 0 <= n <= |log| - |old(log)| ==>
                Between(src, rows, old(State()), ApplyAll(old(State()), log[|old(log)|..][..n]))
    {
      hide Between, Members, KeySet, Fetch, Injective, LineageIdFor, AttachmentRight, RowDone, Taken, ApplyAll,
           OnlyGroup, GroupWritten, Conflict, Outcome;
      groups := EligibleGroups(src, rows);
      ghost var start, mark := State(), |log|;
      StartsFaithful(rows);
      for n := 0 to |groups|
        invariant Faithful(rows, start, mark) && old(log) <= log
        invariant forall i :: 0 <= i < n ==> GroupWritten(src, rows, start, State(), groups[i], |groups[i].members|)
        invariant forall i :: 0 <= i < n ==> Free(src, start, groups[i].key)
        invariant forall i :: n <= i < |groups| ==>
                    (HasRow(src, State(), groups[i].key) <==> HasRow(src, start, groups[i].key))
      {
        ghost var now := State();
        raised := WriteGroup(rows, start, mark, groups[n]);
        if raised {
          Raises(src, start, groups[n].key);
          return;
        }
        OthersStay(src, rows, start, groups, n, now, State());
      }
      raised := false;
      NowBetween(rows, start, mark);
      AllWritten(src, rows, groups, start, State());
      AllFree(src, rows, groups, start);
    }

    lemma StartsFaithful(rows: seq<Text>)
      ensures Faithful(rows, State(), |log|)
    {
      hide Between;
      NothingWritten(src, rows, State());
      assert log[|log|..] == [] && ApplyAll(State(), []) == State();
    }
  }

  lemma Raises(src: Source, db: Db, k: GroupKey)
    requires k in KeySet(src) && LineageIdFor(src, k) !in db.lineages && Taken(db, k)
    ensures Conflict(src, db)
  {
    hide KeySet, LineageIdFor, Taken;
  }

  /** Writing one group leaves the groups before it written and the rows of those after it as they were. */
  lemma OthersStay(src: Source, rows: seq<Text>, start: Db, groups: seq<Group>, n: nat, before: Db, after: Db)
    requires Injective(src.uuid) && Fetch(src, rows) && Grouping(src, rows, groups) && n < |groups|
    requires OnlyGroup(src, groups[n], before, after)
    ensures forall i :: 0 <= i < n && GroupWritten(src, rows, start, before, groups[i], |groups[i].members|) ==>
              GroupWritten(src, rows, start, after, groups[i], |groups[i].members|)
    ensures forall i :: n < i < |groups| ==>
              (HasRow(src, after, groups[i].key) <==> HasRow(src, before, groups[i].key))
  {
    hide Fetch, Injective, LineageIdFor, Grouping, RowDone, AttachmentRight;
    forall i | 0 <= i < n && GroupWritten(src, rows, start, before, groups[i], |groups[i].members|)
      ensures GroupWritten(src, rows, start, after, groups[i], |groups[i].members|)
    {
      GroupsApart(src, rows, groups, i, n);
      forall j | 0 <= j < |groups[i].members| ensures groups[i].members[j] !in groups[n].members {
        assert groups[i].members[j] in groups[i].members;
      }
    }
    forall i | n < i < |groups|
      ensures HasRow(src, after, groups[i].key) <==> HasRow(src, before, groups[i].key)
    {
      GroupsApart(src, rows, groups, n, i);
    }
  }

  /** The group's lineage has its row. */
  ghost predicate HasRow(src: Source, db: Db, k: GroupKey) { LineageIdFor(src, k) in db.lineages }

  /** The group has a row already, or its place is free. */
  ghost predicate Free(src: Source, db: Db, k: GroupKey) { HasRow(src, db, k) || !Taken(db, k) }

  lemma AllFree(src: Source, rows: seq<Text>, groups: seq<Group>, db: Db)
    requires Grouping(src, rows, groups) && forall i :: 0 <= i < |groups| ==> Free(src, db, groups[i].key)
    ensures !Conflict(src, db)
  {
    hide Taken, LineageIdFor, Members;
    forall k | k in KeySet(src) ensures Free(src, db, k) {
      var i :| 0 <= i < |groups| && groups[i].key == k;
    }
  }

  /** Different groups have different lineages and no member in common. */
  lemma GroupsApart(src: Source, rows: seq<Text>, groups: seq<Group>, i: nat, n: nat)
    requires Injective(src.uuid) && Fetch(src, rows) && Grouping(src, rows, groups) && i < n < |groups|
    ensures LineageIdFor(src, groups[i].key) != LineageIdFor(src, groups[n].key)
    ensures forall id :: id in groups[i].members ==> id !in groups[n].members
  {
    hide Members, Fetch, Injective, LineageIdFor, KeyOf;
    MembersAre(src, rows, groups[i].key);
    MembersAre(src, rows, groups[n].key);
    if LineageIdFor(src, groups[i].key) == LineageIdFor(src, groups[n].key) {
      LineageIdInjective(src, groups[i].key, groups[n].key);
    }
  }

  lemma AllWritten(src: Source, rows: seq<Text>, groups: seq<Group>, before: Db, after: Db)
    requires Fetch(src, rows) && Grouping(src, rows, groups) && Between(src, rows, before, after)
    requires forall i :: 0 <= i < |groups| ==> GroupWritten(src, rows, before, after, groups[i], |groups[i].members|)
    ensures Outcome(src, rows, before, after)
  {
    hide Members, Fetch, LineageIdFor, KeyOf, Between, RowDone, AttachmentRight;
    forall k | k in KeySet(src)
      ensures LineageIdFor(src, k) in after.lineages
      ensures RowDone(src, rows, before, k, after.lineages[LineageIdFor(src, k)])
    {
      var i :| 0 <= i < |groups| && groups[i].key == k;
    }
    forall id | id in Eligible(src)
      ensures id in after.attached && AttachmentRight(src, rows, id, after.attached[id])
    {
      var k := KeyOf(src, id).value;
      assert k in KeySet(src);
      var i :| 0 <= i < |groups| && groups[i].key == k;
      MembersAre(src, rows, k);
      assert InGroup(src, id, k);
      assert id in groups[i].members;
      var j :| 0 <= j < |groups[i].members| && groups[i].members[j] == id;
    }
  }

  // ------------------------------------------------- verification

  /** The members of one group are rows of its owner, attached as numbered. */
  ghost predicate MembersOk(src: Source, attached: map<Text, Attachment>, g: Group) {
    forall i :: 0 <= i < |g.members| ==> MemberOk(src, attached, g, i)
  }

  predicate MemberOk(src: Source, attached: map<Text, Attachment>, g: Group, i: nat)
    requires i < |g.members|
  {
    var id := g.members[i];
    && id in src.facts && src.facts[id].owner == g.key.owner
    && id in attached && attached[id] == Attachment(LineageIdFor(src, g.key), i + 1)
  }

  /** The inner loop of `_verify_backfill`, for any group. */
  method VerifyGroup(src: Source, attached: map<Text, Attachment>, g: Group) returns (ok: bool, touched: nat)
    ensures ok <==> MembersOk(src, attached, g)
    ensures ok ==> touched == |g.members|
  {
    hide LineageIdFor;
    var lid := LineageIdFor(src, g.key);
    var seen: set<int> := {};
    touched := 0;
    for i := 0 to |g.members|
      invariant touched == i && forall n :: n in seen ==> 1 <= n <= i
      invariant forall j :: 0 <= j < i ==> MemberOk(src, attached, g, j)
    {
      var member := g.members[i];
      assert MembersOk(src, attached, g) ==> MemberOk(src, attached, g, i);
      if member !in src.facts || member !in attached
         || attached[member].lineageId != lid || attached[member].sequence != i + 1 {
        return false, touched;
      }
      if src.facts[member].owner != g.key.owner {
        return false, touched;
      }
      if attached[member].sequence in seen {
        return false, touched;
      }
      seen := seen + {attached[member].sequence};
      touched := touched + 1;
    }
    return true, touched;
  }

  lemma GroupOwners(src: Source, rows: seq<Text>, k: GroupKey, i: nat)
    requires Fetch(src, rows) && i < |Members(src, rows, k)|
    ensures var id := Members(src, rows, k)[i];
            id in src.facts && src.facts[id].owner == k.owner && KeyOf(src, id) == Some(k)
  {
    hide Members;
    MembersAre(src, rows, k);
    var id := Members(src, rows, k)[i];
    assert id in Members(src, rows, k);
    assert InGroup(src, id, k);
  }

  /** A group's numbering is the intended attachment of its members. */
  lemma MembersOkRight(src: Source, rows: seq<Text>, attached: map<Text, Attachment>, k: GroupKey)
    requires Fetch(src, rows)
    ensures MembersOk(src, attached, Group(k, Members(src, rows, k))) <==>
            forall id :: InGroup(src, id, k) ==> id in attached && AttachmentRight(src, rows, id, attached[id])
  {
    hide Members, Fetch, LineageIdFor, KeyOf;
    MembersAre(src, rows, k);
    var m := Members(src, rows, k);
    forall i | 0 <= i < |m|
      ensures InGroup(src, m[i], k) && Position(m, m[i]) == i && m[i] in src.facts && src.facts[m[i]].owner == k.owner
    {
      assert m[i] in m;
      PositionIs(m, i);
      GroupOwners(src, rows, k, i);
    }
    if MembersOk(src, attached, Group(k, m)) {
      forall id | InGroup(src, id, k) ensures id in attached && AttachmentRight(src, rows, id, attached[id]) {
        assert id in m;
        var i :| 0 <= i < |m| && m[i] == id;
        assert MemberOk(src, attached, Group(k, m), i);
      }
    }
  }

  /** `_verify_backfill`: it accepts exactly the verified states. */
  method VerifyBackfill(src: Source, db: Db, ghost rows: seq<Text>, groups: seq<Group>) returns (ok: bool)
    requires Fetch(src, rows) && Grouping(src, rows, groups)
    ensures ok <==> Verified(src, rows, db)
  {
    hide Members, Fetch, LineageIdFor, KeyOf, LineageOk, MembersOk, KeySet, AttachmentRight;
    var touched: nat := 0;
    ghost var covered: set<Text> := {};
    for n := 0 to |groups|
      invariant touched == |covered|
      invariant forall id :: id in covered <==> CoveredBy(src, groups, n, id)
      invariant forall i :: 0 <= i < n ==>
              LineageOk(src, db.lineages, groups[i]) && MembersOk(src, db.attached, groups[i])
    {
      var g := groups[n];
      if !LineageOk(src, db.lineages, g) {
        RejectedLineage(src, rows, db, g);
        return false;
      }
      var fine, count := VerifyGroup(src, db.attached, g);
      if !fine {
        RejectedMembers(src, rows, db, g);
        return false;
      }
      covered := CoverGroup(src, rows, groups, n, covered);
      touched := touched + count;
    }
    CoveredAll(src, rows, groups, covered);
    var stray := |db.attached|;
    assert stray == |db.attached.Keys|;
    GroupsVerified(src, rows, db, groups);
    if stray != touched {
      return false;
    }
    SameSizeSubset(Eligible(src), db.attached.Keys);
    return true;
  }

  lemma SameSizeSubset<A>(s: set<A>, t: set<A>)
    requires s <= t && |s| == |t|
    ensures s == t
  {
    assert t == s + (t - s);
    assert |t - s| == 0;
  }

  lemma RejectedLineage(src: Source, rows: seq<Text>, db: Db, g: Group)
    requires g.key in KeySet(src) && g.members == Members(src, rows, g.key) && !LineageOk(src, db.lineages, g)
    ensures !Verified(src, rows, db)
  {
    assert g == Group(g.key, Members(src, rows, g.key));
  }

  lemma RejectedMembers(src: Source, rows: seq<Text>, db: Db, g: Group)
    requires Fetch(src, rows) && g.members == Members(src, rows, g.key) && !MembersOk(src, db.attached, g)
    ensures !Verified(src, rows, db)
  {
    hide Members, Fetch, LineageOk, MembersOk, AttachmentRight;
    assert g == Group(g.key, Members(src, rows, g.key));
    MembersOkRight(src, rows, db.attached, g.key);
    var id :| InGroup(src, id, g.key) && !(id in db.attached && AttachmentRight(src, rows, id, db.attached[id]));
    assert id in Eligible(src);
  }

  ghost predicate CoveredBy(src: Source, groups: seq<Group>, n: nat, id: Text)
    requires n <= |groups|
  {
    exists i :: 0 <= i < n && InGroup(src, id, groups[i].key)
  }

  /** The members of one more group are all new. */
  lemma CoverGroup(src: Source, rows: seq<Text>, groups: seq<Group>, n: nat, covered: set<Text>)
    returns (more: set<Text>)
    requires Fetch(src, rows) && Grouping(src, rows, groups) && n < |groups|
    requires forall id :: id in covered <==> CoveredBy(src, groups, n, id)
    ensures |more| == |covered| + |groups[n].members|
    ensures forall id :: id in more <==> CoveredBy(src, groups, n + 1, id)
  {
    hide Members, Fetch, KeySet, CoveredBy, InGroup;
    var m := groups[n].members;
    MembersAre(src, rows, groups[n].key);
    var added := set id | id in m;
    DistinctSize(m);
    forall id ensures CoveredBy(src, groups, n + 1, id) <==>
        CoveredBy(src, groups, n, id) || InGroup(src, id, groups[n].key)
              ensures InGroup(src, id, groups[n].key) ==> !CoveredBy(src, groups, n, id)
    {
      CoveredNext(src, rows, groups, n, id);
    }
    more := covered + added;
    assert covered !! added;
  }

  lemma CoveredNext(src: Source, rows: seq<Text>, groups: seq<Group>, n: nat, id: Text)
    requires Grouping(src, rows, groups) && n < |groups|
    ensures CoveredBy(src, groups, n + 1, id) <==> CoveredBy(src, groups, n, id) || InGroup(src, id, groups[n].key)
    ensures InGroup(src, id, groups[n].key) ==> !CoveredBy(src, groups, n, id)
  {
    hide Members, KeySet, KeyOf;
  }

  lemma CoveredAll(src: Source, rows: seq<Text>, groups: seq<Group>, covered: set<Text>)
    requires Grouping(src, rows, groups)
    requires forall id :: id in covered <==> CoveredBy(src, groups, |groups|, id)
    ensures covered == Eligible(src)
  {
    hide Members, KeyOf;
    forall id ensures id in covered <==> id in Eligible(src) {
      if id in Eligible(src) {
        var k := KeyOf(src, id).value;
        assert k in KeySet(src);
        var i :| 0 <= i < |groups| && groups[i].key == k;
        assert InGroup(src, id, groups[i].key);
        assert CoveredBy(src, groups, |groups|, id);
      }
    }
  }

  /** When every group passes, only stray attachments can be wrong. */
  lemma GroupsVerified(src: Source, rows: seq<Text>, db: Db, groups: seq<Group>)
    requires Fetch(src, rows) && Grouping(src, rows, groups)
    requires forall i :: 0 <= i < |groups| ==>
            LineageOk(src, db.lineages, groups[i]) && MembersOk(src, db.attached, groups[i])
    ensures Eligible(src) <= db.attached.Keys
    ensures Verified(src, rows, db) <==> db.attached.Keys == Eligible(src)
  {
    hide Members, Fetch, KeyOf, LineageOk, MembersOk, AttachmentRight;
    forall id | id in Eligible(src) ensures id in db.attached && AttachmentRight(src, rows, id, db.attached[id]) {
      var k := KeyOf(src, id).value;
      assert k in KeySet(src);
      var i :| 0 <= i < |groups| && groups[i].key == k;
      assert groups[i] == Group(k, Members(src, rows, k));
      MembersOkRight(src, rows, db.attached, k);
      assert InGroup(src, id, k);
    }
    forall k | k in KeySet(src) ensures LineageOk(src, db.lineages, Group(k, Members(src, rows, k))) {
      var i :| 0 <= i < |groups| && groups[i].key == k;
      assert groups[i] == Group(k, Members(src, rows, k));
    }
  }
}
