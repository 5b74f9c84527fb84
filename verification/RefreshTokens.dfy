/** Refresh-token families. */
module RefreshTokens {
  // A raw token is identified with its row in `auth/service.py`, because the stored hash is
  // unique; identifiers that the service draws at random are parameters that differ from
  // every stored one.

  import opened Order

  datatype Token = Token(user: nat, family: nat, expiresAt: int, usedAt: Option<int>, revokedAt: Option<int>)

  type Tokens = map<nat, Token>

  /** What `refresh` decides from the row it reads. */
  datatype Verdict = Refuse | Revoke(family: nat) | Proceed(user: nat, family: nat)

  function Judge(ts: Tokens, id: nat, now: int, active: set<nat>): Verdict {
    if id !in ts || ts[id].revokedAt != None || ts[id].expiresAt <= now then Refuse
    else if ts[id].usedAt != None then Revoke(ts[id].family)
    else if ts[id].user !in active then Revoke(ts[id].family)
    else Proceed(ts[id].user, ts[id].family)
  }

  ghost function FamilyIds(ts: Tokens, f: nat): set<nat> { set i | i in ts && ts[i].family == f }

  ghost function UnusedIds(ts: Tokens, f: nat): set<nat> {
    set i | i in ts && ts[i].family == f && ts[i].usedAt == None
  }

  ghost function Families(ts: Tokens): set<nat> { set i | i in ts :: ts[i].family }

  /** The rows of a family that carry no revocation time yet. */
  function Unrevoked(ts: Tokens, f: nat): set<nat> { set i | i in ts && ts[i].family == f && ts[i].revokedAt == None }

  function Stamp(ts: Tokens, ids: set<nat>, now: int): Tokens {
    map i | i in ts :: if i in ids then ts[i].(revokedAt := Some(now)) else ts[i]
  }

  function RevokeAll(ts: Tokens, f: nat, now: int): Tokens { Stamp(ts, Unrevoked(ts, f), now) }

  function MarkUsed(ts: Tokens, id: nat, now: int): Tokens
    requires id in ts
  {
    ts[id := ts[id].(usedAt := Some(now))]
  }

  function Issue(ts: Tokens, id: nat, user: nat, f: nat, expires: int): Tokens {
    ts[id := Token(user, f, expires, None, None)]
  }

  /** The claim, and the successor issued in the same transaction. */
  function Rotate(ts: Tokens, id: nat, now: int, successor: nat, user: nat, f: nat, expires: int): Tokens
    requires id in ts
  {
    Issue(MarkUsed(ts, id, now), successor, user, f, expires)
  }

  // ------------------------------------------------- whole requests

  /** One request, with the identifiers and the lifetime it draws. */
  datatype Request =
    | Login(user: nat, id: nat, family: nat, ttl: int)
    | Refresh(token: nat, active: set<nat>, successor: nat, ttl: int)
    | Logout(token: nat)

  ghost predicate FreshFor(ts: Tokens, r: Request) {
    match r
    case Login(_, id, family, _) => id !in ts && family !in Families(ts)
    case Refresh(_, _, successor, _) => successor !in ts
    case Logout(_) => true
  }

  /** The rows after a request that nothing interrupts. */
  function Serve(ts: Tokens, r: Request, now: int): Tokens {
    match r
    case Login(user, id, family, ttl) => Issue(ts, id, user, family, now + ttl)
    case Refresh(token, active, successor, ttl) =>
      (match Judge(ts, token, now, active)
       case Refuse => ts
       case Revoke(f) => RevokeAll(ts, f, now)
       case Proceed(user, f) => if token in ts then Rotate(ts, token, now, successor, user, f, now + ttl) else ts)
    case Logout(token) => if token in ts then RevokeAll(ts, ts[token].family, now) else ts
  }

  /** A refresh that returns a successor. */
  predicate Succeeds(ts: Tokens, r: Request, now: int) {
    r.Refresh? && Judge(ts, r.token, now, r.active).Proceed?
  }

  /** The table of refresh tokens; each method is one request or a part of one. */
  class AuthService {
    var tokens: Tokens

    constructor ()
      ensures tokens == map[]
    {
      tokens := map[];
    }

    /** `_revoke_family`: stamps the unstamped rows one by one, in any order. */
    method RevokeFamily(family: nat, now: int)
      modifies this
      ensures tokens == RevokeAll(old(tokens), family, now)
    {
      var records := set i | i in tokens && tokens[i].family == family;
      var rest := records;
      while rest != {}
        invariant rest <= records && tokens.Keys == old(tokens).Keys
        invariant tokens == Stamp(old(tokens), Unrevoked(old(tokens), family) - rest, now)
        decreases |rest|
      {
        var record :| record in rest;
        if tokens[record].revokedAt == None {
          tokens := tokens[record := tokens[record].(revokedAt := Some(now))];
        }
        rest := rest - {record};
      }
      assert Unrevoked(old(tokens), family) - {} == Unrevoked(old(tokens), family);
    }

    /** `_claim_token`: the conditional update that only one caller wins. */
    method ClaimToken(id: nat, now: int) returns (won: bool)
      modifies this
      ensures won <==> id in old(tokens) && old(tokens)[id].usedAt == None
      ensures tokens == if won then MarkUsed(old(tokens), id, now) else old(tokens)
    {
      won := id in tokens && tokens[id].usedAt == None;
      if won {
        tokens := tokens[id := tokens[id].(usedAt := Some(now))];
      }
    }

    /** The part of `refresh` from the claim on, for a request whose read let it proceed. */
    method FinishRefresh(id: nat, user: nat, family: nat, now: int, successor: nat, expires: int) returns (ok: bool)
      requires successor !in tokens
      modifies this
      ensures ok <==> id in old(tokens) && old(tokens)[id].usedAt == None
      ensures tokens == if ok then Rotate(old(tokens), id, now, successor, user, family, expires)
                        else RevokeAll(old(tokens), family, now)
    {
      ok := ClaimToken(id, now);
      if !ok {
        RevokeFamily(family, now);
        return;
      }
      tokens := tokens[successor := Token(user, family, expires, None, None)];
    }

    /** `refresh` as one uninterrupted request. */
    method RefreshToken(token: nat, active: set<nat>, now: int, successor: nat, ttl: int) returns (ok: bool)
      requires successor !in tokens
      modifies this
      ensures ok <==> Succeeds(old(tokens), Refresh(token, active, successor, ttl), now)
      ensures tokens == Serve(old(tokens), Refresh(token, active, successor, ttl), now)
    {
      ok := false;
      if token !in tokens || tokens[token].revokedAt != None || tokens[token].expiresAt <= now {
        return;
      }
      var record := tokens[token];
      if record.usedAt != None {
        RevokeFamily(record.family, now);
        return;
      }
      if record.user !in active {
        RevokeFamily(record.family, now);
        return;
      }
      ok := FinishRefresh(token, record.user, record.family, now, successor, now + ttl);
    }

    /** `logout`: revokes the family of a known token, and nothing otherwise. */
    method EndSession(token: Option<nat>, now: int)
      modifies this
      ensures tokens == if token == None then old(tokens) else Serve(old(tokens), Logout(token.value), now)
    {
      if token == None || token.value !in tokens {
        return;
      }
      RevokeFamily(tokens[token.value].family, now);
    }

    /** `open_session`: the first token of a new family. */
    method OpenSession(user: nat, id: nat, family: nat, now: int, ttl: int)
      requires id !in tokens
      modifies this
      ensures tokens == Serve(old(tokens), Login(user, id, family, ttl), now)
    {
      tokens := tokens[id := Token(user, family, now + ttl, None, None)];
    }
  }

  // ------------------------------------------------- families under whole requests

  /** A request and the time it runs at. */
  datatype Timed = Timed(request: Request, now: int)

  /** The requests run one after another, each drawing identifiers of its own. */
  ghost predicate Runs(ts: Tokens, rs: seq<Timed>)
    decreases |rs|
  {
    rs == [] || (FreshFor(ts, rs[0].request) && Runs(Serve(ts, rs[0].request, rs[0].now), rs[1..]))
  }

  function ServeAll(ts: Tokens, rs: seq<Timed>): Tokens
    decreases |rs|
  {
    if rs == [] then ts else ServeAll(Serve(ts, rs[0].request, rs[0].now), rs[1..])
  }

  /** In each family either every row is revoked or none is. */
  ghost predicate AllOrNone(ts: Tokens) {
    forall i, j :: i in ts && j in ts && ts[i].family == ts[j].family ==> (ts[i].revokedAt == None <==>
          ts[j].revokedAt == None)
  }

  /** Each family has exactly one unused row. */
  ghost predicate OneUnused(ts: Tokens) {
    forall f :: f in Families(ts) ==> |UnusedIds(ts, f)| == 1
  }

  /** All rows of a family belong to one user. */
  ghost predicate OneUser(ts: Tokens) {
    forall i, j :: i in ts && j in ts && ts[i].family == ts[j].family ==> ts[i].user == ts[j].user
  }

  ghost predicate Ended(ts: Tokens, f: nat) {
    f in Families(ts) && forall i :: i in ts && ts[i].family == f ==> ts[i].revokedAt != None
  }

  lemma IssueRows(ts: Tokens, id: nat, user: nat, f: nat, expires: int)
    requires id !in ts
    ensures Families(Issue(ts, id, user, f, expires)) == Families(ts) + {f}
    ensures forall g :: UnusedIds(Issue(ts, id, user, f, expires), g) == UnusedIds(ts, g) + if g == f then {id} else {}
    ensures forall g :: FamilyIds(Issue(ts, id, user, f, expires), g) == FamilyIds(ts, g) + if g == f then {id} else {}
  {
    var after := Issue(ts, id, user, f, expires);
    assert after[id].family == f;
    forall g ensures g in Families(after) <==> g in Families(ts) + {f} {
      if g in Families(ts) {
        var i :| i in ts && ts[i].family == g;
        assert after[i].family == g;
      }
    }
  }

  lemma LoginFamily(ts: Tokens, id: nat, user: nat, f: nat, expires: int, g: nat)
    requires id !in ts && f !in Families(ts)
    ensures FamilyIds(Issue(ts, id, user, f, expires), g) == if g == f then {id} else FamilyIds(ts, g)
  {
    assert forall i :: i in ts ==> ts[i].family in Families(ts);
  }

  lemma StampRows(ts: Tokens, ids: set<nat>, now: int)
    ensures Families(Stamp(ts, ids, now)) == Families(ts)
    ensures forall g :: UnusedIds(Stamp(ts, ids, now), g) == UnusedIds(ts, g)
    ensures forall g :: FamilyIds(Stamp(ts, ids, now), g) == FamilyIds(ts, g)
  {
    var after := Stamp(ts, ids, now);
    assert forall i :: i in ts ==> after[i].family == ts[i].family && after[i].usedAt == ts[i].usedAt;
  }

  /** Rotating the unused token of a family leaves the successor as its unused token. */
  lemma RotateRows(ts: Tokens, id: nat, now: int, successor: nat, expires: int)
    requires id in ts && ts[id].usedAt == None && successor !in ts && OneUnused(ts)
    ensures var f := ts[id].family;
            var after := Rotate(ts, id, now, successor, ts[id].user, f, expires);
            && Families(after) == Families(ts) && OneUnused(after)
            && UnusedIds(ts, f) == {id} && UnusedIds(after, f) == {successor}
            && FamilyIds(after, f) == FamilyIds(ts, f) + {successor}
            && (forall g :: g != f ==>
                  FamilyIds(after, g) == FamilyIds(ts, g) && UnusedIds(after, g) == UnusedIds(ts, g))
  {
    hide Families, FamilyIds, UnusedIds, Rotate, OneUnused;
    var f := ts[id].family;
    var after := Rotate(ts, id, now, successor, ts[id].user, f, expires);
    UnusedPlace(ts, id);
    UnusedAt(ts, f);
    OnlyMember(UnusedIds(ts, f), id);
    RotateFamilies(ts, id, now, successor, expires);
    RotateFamily(ts, id, now, successor, expires, f);
    forall g | g != f ensures FamilyIds(after, g) == FamilyIds(ts, g) && UnusedIds(after, g) == UnusedIds(ts, g) {
      RotateFamily(ts, id, now, successor, expires, g);
    }
    forall g | g in Families(after) ensures |UnusedIds(after, g)| == 1 {
      if g != f { UnusedAt(ts, g); }
    }
    UnusedEverywhere(after);
  }

  lemma UnusedAt(ts: Tokens, g: nat)
    requires OneUnused(ts) && g in Families(ts)
    ensures |UnusedIds(ts, g)| == 1
  {
  }

  lemma UnusedEverywhere(ts: Tokens)
    requires forall g :: g in Families(ts) ==> |UnusedIds(ts, g)| == 1
    ensures OneUnused(ts)
  {
  }

  lemma RotateFamily(ts: Tokens, id: nat, now: int, successor: nat, expires: int, g: nat)
    requires id in ts && ts[id].usedAt == None && successor !in ts
    ensures var f := ts[id].family;
            var after := Rotate(ts, id, now, successor, ts[id].user, f, expires);
            && FamilyIds(after, g) == (if g == f then FamilyIds(ts, g) + {successor} else FamilyIds(ts, g))
            && UnusedIds(after, g) == if g == f then UnusedIds(ts, g) - {id} + {successor} else UnusedIds(ts, g)
  {
  }

  lemma RotateFamilies(ts: Tokens, id: nat, now: int, successor: nat, expires: int)
    requires id in ts && successor !in ts
    ensures Families(Rotate(ts, id, now, successor, ts[id].user, ts[id].family, expires)) == Families(ts)
  {
    var after := Rotate(ts, id, now, successor, ts[id].user, ts[id].family, expires);
    forall g | g in Families(ts) ensures g in Families(after) {
      var i :| i in ts && ts[i].family == g;
      assert after[i].family == g;
    }
  }

  lemma UnusedPlace(ts: Tokens, id: nat)
    requires id in ts && ts[id].usedAt == None
    ensures ts[id].family in Families(ts) && id in UnusedIds(ts, ts[id].family)
    ensures forall g :: g != ts[id].family ==> id !in UnusedIds(ts, g)
  {
  }

  lemma OnlyMember(s: set<nat>, x: nat)
    requires |s| == 1 && x in s
    ensures s == {x}
  {
    assert s == {x} + (s - {x});
    assert |s - {x}| == 0;
  }

  lemma LoginRows(ts: Tokens, id: nat, user: nat, f: nat, expires: int)
    requires id !in ts && f !in Families(ts)
    ensures UnusedIds(ts, f) == {} && FamilyIds(ts, f) == {}
    ensures OneUnused(ts) ==> OneUnused(Issue(ts, id, user, f, expires))
  {
    assert forall i :: i in ts ==> ts[i].family in Families(ts);
    IssueRows(ts, id, user, f, expires);
  }

  /** Every request keeps revocation all-or-none, one unused token and one user per family. */
  lemma ServeKeeps(ts: Tokens, r: Request, now: int)
    requires AllOrNone(ts) && OneUnused(ts) && OneUser(ts) && FreshFor(ts, r)
    ensures AllOrNone(Serve(ts, r, now)) && OneUnused(Serve(ts, r, now)) && OneUser(Serve(ts, r, now))
  {
    hide OneUnused, Families, UnusedIds, FamilyIds, AllOrNone, OneUser;
    match r
    case Login(user, id, f, ttl) =>
      LoginRows(ts, id, user, f, now + ttl);
      LoginAllOrNone(ts, id, user, f, now + ttl);
      LoginOneUser(ts, id, user, f, now + ttl);
    case Refresh(token, active, successor, ttl) =>
      match Judge(ts, token, now, active) {
        case Refuse =>
        case Revoke(f) =>
          RevokeKeeps(ts, f, now);
          StampOneUser(ts, Unrevoked(ts, f), now);
        case Proceed(user, f) =>
          RotateRows(ts, token, now, successor, now + ttl);
          RotateAllOrNone(ts, token, now, successor, now + ttl);
          RotateOneUser(ts, token, now, successor, now + ttl);
      }
    case Logout(token) =>
      if token in ts {
        RevokeKeeps(ts, ts[token].family, now);
        StampOneUser(ts, Unrevoked(ts, ts[token].family), now);
      }
  }

  lemma LoginOneUser(ts: Tokens, id: nat, user: nat, f: nat, expires: int)
    requires OneUser(ts) && id !in ts && f !in Families(ts)
    ensures OneUser(Issue(ts, id, user, f, expires))
  {
    assert forall i :: i in ts ==> ts[i].family in Families(ts);
  }

  lemma RotateOneUser(ts: Tokens, id: nat, now: int, successor: nat, expires: int)
    requires OneUser(ts) && id in ts && successor !in ts
    ensures OneUser(Rotate(ts, id, now, successor, ts[id].user, ts[id].family, expires))
  {
  }

  lemma StampOneUser(ts: Tokens, ids: set<nat>, now: int)
    requires OneUser(ts)
    ensures OneUser(Stamp(ts, ids, now))
  {
  }

  lemma LoginAllOrNone(ts: Tokens, id: nat, user: nat, f: nat, expires: int)
    requires AllOrNone(ts) && id !in ts && f !in Families(ts)
    ensures AllOrNone(Issue(ts, id, user, f, expires))
  {
    assert forall i :: i in ts ==> ts[i].family in Families(ts);
  }

  lemma RotateAllOrNone(ts: Tokens, id: nat, now: int, successor: nat, expires: int)
    requires AllOrNone(ts) && id in ts && ts[id].revokedAt == None && successor !in ts
    ensures AllOrNone(Rotate(ts, id, now, successor, ts[id].user, ts[id].family, expires))
  {
  }

  lemma RevokeKeeps(ts: Tokens, f: nat, now: int)
    requires AllOrNone(ts) && OneUnused(ts)
    ensures AllOrNone(RevokeAll(ts, f, now)) && OneUnused(RevokeAll(ts, f, now))
  {
    StampRows(ts, Unrevoked(ts, f), now);
  }

  /** So does every run of whole requests, from the empty table on. */
  lemma {:induction false} EveryRunKeeps(ts: Tokens, rs: seq<Timed>)
    requires AllOrNone(ts) && OneUnused(ts) && OneUser(ts) && Runs(ts, rs)
    ensures AllOrNone(ServeAll(ts, rs)) && OneUnused(ServeAll(ts, rs)) && OneUser(ServeAll(ts, rs))
    decreases |rs|
  {
    if rs != [] {
      ServeKeeps(ts, rs[0].request, rs[0].now);
      EveryRunKeeps(Serve(ts, rs[0].request, rs[0].now), rs[1..]);
    }
  }

  /** A logout ends the family of a known token. */
  lemma LogoutEnds(ts: Tokens, token: nat, now: int)
    requires token in ts
    ensures Ended(Serve(ts, Logout(token), now), ts[token].family)
  {
    StampRows(ts, Unrevoked(ts, ts[token].family), now);
    assert ts[token].family in Families(ts);
  }

  /** Replaying a used token that is neither expired nor revoked ends its family. */
  lemma ReplayEnds(ts: Tokens, r: Request, now: int)
    requires r.Refresh? && r.token in ts
    requires ts[r.token].usedAt != None && ts[r.token].revokedAt == None && now < ts[r.token].expiresAt
    ensures !Succeeds(ts, r, now) && Ended(Serve(ts, r, now), ts[r.token].family)
  {
    LogoutEnds(ts, r.token, now);
  }

  /**
   Exactly when a refresh ends a family that was live: its token is of the family, neither
   revoked nor expired, and it is used already or its user is not active.
   */
  lemma RefreshEndsExactly(ts: Tokens, f: nat, r: Request, now: int)
    requires r.Refresh? && FreshFor(ts, r) && f in Families(ts) && !Ended(ts, f)
    ensures Ended(Serve(ts, r, now), f) <==>
            && r.token in ts && ts[r.token].family == f
            && ts[r.token].revokedAt == None && now < ts[r.token].expiresAt
            && (ts[r.token].usedAt != None || ts[r.token].user !in r.active)
  {
    var i :| i in ts && ts[i].family == f && ts[i].revokedAt == None;
    var after := Serve(ts, r, now);
    if r.token in ts && Judge(ts, r.token, now, r.active).Revoke? {
      LogoutEnds(ts, r.token, now);
      if ts[r.token].family != f { assert after[i] == ts[i]; }
    } else if Judge(ts, r.token, now, r.active).Proceed? {
      RotatedRows(ts, r, now);
      if ts[r.token].family == f { assert after[r.successor].family == f; } else { assert after[i] == ts[i]; }
    }
  }

  /** A refresh that succeeds uses up its token and adds its successor, unused, to the family; nothing else changes. */
  lemma RotatedRows(ts: Tokens, r: Request, now: int)
    requires r.Refresh? && FreshFor(ts, r) && Succeeds(ts, r, now)
    ensures var t := ts[r.token];
            && t.revokedAt == None && now < t.expiresAt && t.usedAt == None && t.user in r.active
            && Serve(ts, r, now) == ts[r.token := t.(usedAt := Some(now))]
                                      [r.successor := Token(t.user, t.family, now + r.ttl, None, None)]
  {
  }

  /** A login adds one unused, unrevoked token that expires after its lifetime. */
  lemma LoginRow(ts: Tokens, user: nat, id: nat, family: nat, ttl: int, now: int)
    ensures Serve(ts, Login(user, id, family, ttl), now) == ts[id := Token(user, family, now + ttl, None, None)]
  {
  }

  /** Ending a family stamps its unrevoked rows and leaves every other row alone. */
  lemma EndedRows(ts: Tokens, token: nat, now: int)
    requires token in ts
    ensures var after := Serve(ts, Logout(token), now);
            && after.Keys == ts.Keys
            && forall i :: i in ts ==>
                 after[i] == if ts[i].family == ts[token].family && ts[i].revokedAt == None
                             then ts[i].(revokedAt := Some(now)) else ts[i]
  {
  }

  /** An ended family stays ended through any request, and no refresh of it succeeds. */
  lemma EndedStays(ts: Tokens, f: nat, r: Request, now: int)
    requires Ended(ts, f) && FreshFor(ts, r)
    ensures Ended(Serve(ts, r, now), f)
    ensures r.Refresh? && r.token in FamilyIds(ts, f) ==> !Succeeds(ts, r, now)
  {
    var i :| i in ts && ts[i].family == f;
    var after := Serve(ts, r, now);
    assert i in after && after[i].family == f;
  }

  /** A step of a run succeeds with a token of the family. */
  ghost predicate SucceedsAt(ts: Tokens, rs: seq<Timed>, k: nat, f: nat)
    requires k < |rs|
  {
    var before := ServeAll(ts, rs[..k]);
    rs[k].request.Refresh? && rs[k].request.token in FamilyIds(before, f) && Succeeds(before, rs[k].request, rs[k].now)
  }

  /** After a family has ended, no later refresh with any of its tokens ever succeeds. */
  lemma {:induction false} EndedForever(ts: Tokens, f: nat, rs: seq<Timed>, k: nat)
    requires Ended(ts, f) && Runs(ts, rs) && k < |rs|
    ensures !SucceedsAt(ts, rs, k, f)
    decreases k
  {
    hide Serve, FreshFor, Succeeds, Ended, FamilyIds;
    var first := rs[0];
    EndedStays(ts, f, first.request, first.now);
    if k == 0 {
      assert rs[..0] == [];
    } else {
      var next := Serve(ts, first.request, first.now);
      EndedForever(next, f, rs[1..], k - 1);
      assert rs[..k][0] == first && rs[..k][1..] == rs[1..][..k - 1];
      assert rs[1..][k - 1] == rs[k];
    }
  }

  /**
   Exactly when some refresh of a family succeeds: its unused token is unexpired and
   the family has not ended.
   */
  lemma LiveExactly(ts: Tokens, f: nat, now: int, active: set<nat>)
    requires AllOrNone(ts) && OneUnused(ts) && f in Families(ts)
    ensures (exists i :: i in FamilyIds(ts, f) && Judge(ts, i, now, active).Proceed?) <==>
            !Ended(ts, f) && exists i :: i in UnusedIds(ts, f) && now < ts[i].expiresAt && ts[i].user in active
  {
    if i :| i in FamilyIds(ts, f) && Judge(ts, i, now, active).Proceed? {
      assert i in UnusedIds(ts, f);
    }
    if i :| !Ended(ts, f) && i in UnusedIds(ts, f) && now < ts[i].expiresAt && ts[i].user in active {
      var j :| j in ts && ts[j].family == f && ts[j].revokedAt == None;
      assert ts[i].revokedAt == None;
      assert Judge(ts, i, now, active).Proceed?;
      assert i in FamilyIds(ts, f);
    }
  }
}
