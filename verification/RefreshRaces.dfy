/** Refresh requests that interleave. */
module RefreshRaces {
  // A refresh reads its row in one step and claims it in another; the claim, the successor
  // and the commit are one transaction. `_revoke_family` selects its rows in one step and
  // stamps them in another. The claim tests `used_at` only, never `revoked_at`.

  import opened Order
  import opened RefreshTokens

  /** Where a request that has not returned yet stands. */
  datatype Phase =
    | Passed(id: nat, user: nat, family: nat, started: int)
    | Revoking(family: nat, started: int)
    | Selected(rows: set<nat>, started: int)

  /** One refresh that returned a successor. */
  datatype Exchange = Exchange(presented: nat, successor: nat, family: nat)

  /** The table, the requests under way, the clock and the exchanges made so far. */
  datatype State = State(tokens: Tokens, requests: map<nat, Phase>, clock: int, exchanges: seq<Exchange>)

  datatype Step =
    | Tick(now: int)
    | Open(user: nat, id: nat, family: nat, ttl: int)
    | Read(req: nat, token: nat, active: set<nat>)
    | Leave(req: nat, token: nat)
    | Claim(req: nat, successor: nat, ttl: int)
    | Select(req: nat)
    | Write(req: nat)

  ghost predicate Enabled(s: State, step: Step) {
    match step
    case Tick(now) => s.clock <= now
    case Open(_, id, family, _) => id !in s.tokens && family !in Families(s.tokens)
    case Read(req, _, _) => req !in s.requests
    case Leave(req, _) => req !in s.requests
    case Claim(req, successor, _) => req in s.requests && s.requests[req].Passed? && successor !in s.tokens
    case Select(req) => req in s.requests && s.requests[req].Revoking?
    case Write(req) => req in s.requests && s.requests[req].Selected?
  }

  /** The claim succeeds: the row it names is still unused. */
  predicate Wins(s: State, step: Step) {
    && step.Claim? && step.req in s.requests && s.requests[step.req].Passed?
    && s.requests[step.req].id in s.tokens && s.tokens[s.requests[step.req].id].usedAt == None
  }

  function Apply(s: State, step: Step): State {
    match step
    case Tick(now) => s.(clock := now)
    case Open(user, id, family, ttl) => s.(tokens := Issue(s.tokens, id, user, family, s.clock + ttl))
    case Read(req, token, active) =>
      (match Judge(s.tokens, token, s.clock, active)
       case Refuse => s
       case Revoke(f) => s.(requests := s.requests[req := Revoking(f, s.clock)])
       case Proceed(user, f) => s.(requests := s.requests[req := Passed(token, user, f, s.clock)]))
    case Leave(req, token) =>
      if token in s.tokens then s.(requests := s.requests[req := Revoking(s.tokens[token].family, s.clock)]) else s
    case Claim(req, successor, ttl) =>
      if Wins(s, step) then
        var p := s.requests[req];
        State(Rotate(s.tokens, p.id, p.started, successor, p.user, p.family, s.clock + ttl), s.requests - {req},
              s.clock, s.exchanges + [Exchange(p.id, successor, p.family)])
      else if req in s.requests && s.requests[req].Passed? then
        s.(requests := s.requests[req := Revoking(s.requests[req].family, s.requests[req].started)])
      else s
    case Select(req) =>
      if req in s.requests && s.requests[req].Revoking? then
        var p := s.requests[req];
        s.(requests := s.requests[req := Selected(Unrevoked(s.tokens, p.family), p.started)])
      else s
    case Write(req) =>
      if req in s.requests && s.requests[req].Selected? then
        s.(tokens := Stamp(s.tokens, s.requests[req].rows, s.requests[req].started), requests := s.requests - {req})
      else s
  }

  ghost predicate Runs(s: State, steps: seq<Step>)
    decreases |steps|
  {
    steps == [] || (Enabled(s, steps[0]) && Runs(Apply(s, steps[0]), steps[1..]))
  }

  function ApplyAll(s: State, steps: seq<Step>): State
    decreases |steps|
  {
    if steps == [] then s else ApplyAll(Apply(s, steps[0]), steps[1..])
  }

  const INITIAL := State(map[], map[], 0, [])

  /** A claim that wins marks the row used at the time of the read and issues the successor at the time of the claim. */
  lemma ClaimRows(s: State, step: Step)
    requires Enabled(s, step) && Wins(s, step)
    ensures var p := s.requests[step.req];
            && s.tokens[p.id].usedAt == None
            && Apply(s, step).tokens == s.tokens[p.id := s.tokens[p.id].(usedAt := Some(p.started))]
                                          [step.successor := Token(p.user, p.family, s.clock + step.ttl, None, None)]
            && Apply(s, step).requests == s.requests - {step.req}
            && Apply(s, step).exchanges == s.exchanges + [Exchange(p.id, step.successor, p.family)]
  {
  }

  /** A write stamps the selected rows with the time the request began and leaves the others alone. */
  lemma WriteRows(s: State, step: Step)
    requires step.Write? && Enabled(s, step)
    ensures var p, after := s.requests[step.req], Apply(s, step).tokens;
            && after.Keys == s.tokens.Keys && Apply(s, step).requests == s.requests - {step.req}
            && forall i :: i in s.tokens ==>
                 after[i] == if i in p.rows then s.tokens[i].(revokedAt := Some(p.started)) else s.tokens[i]
  {
  }

  // ------------------------------------------------- what every step keeps

  function Count(xs: seq<Exchange>, f: nat): nat {
    if xs == [] then 0 else Count(xs[..|xs| - 1], f) + if xs[|xs| - 1].family == f then 1 else 0
  }

  ghost predicate Presented(xs: seq<Exchange>, id: nat) { exists x :: x in xs && x.presented == id }

  /** No token is exchanged twice. */
  ghost predicate Once(xs: seq<Exchange>) {
    forall i, j :: 0 <= i < j < |xs| ==> xs[i].presented != xs[j].presented
  }

  /** A token is used exactly when an exchange presented it. */
  ghost predicate UsedIsPresented(ts: Tokens, xs: seq<Exchange>) {
    && (forall i :: i in ts ==> (ts[i].usedAt != None <==> Presented(xs, i)))
    && (forall x :: x in xs ==>
          x.presented in ts && x.successor in ts && ts[x.presented].family == x.family == ts[x.successor].family)
  }

  /** Each family has made one exchange fewer than it has tokens. */
  ghost predicate Counted(ts: Tokens, xs: seq<Exchange>) {
    && (forall f :: f in Families(ts) ==> |FamilyIds(ts, f)| == Count(xs, f) + 1)
    && |ts| == |xs| + |Families(ts)|
  }

  /** A request that passed its read still names a row of its family and user. */
  ghost predicate PhasesRight(ts: Tokens, rs: map<nat, Phase>) {
    forall q :: q in rs && rs[q].Passed? ==>
        rs[q].id in ts && ts[rs[q].id].family == rs[q].family && ts[rs[q].id].user == rs[q].user
  }

  ghost predicate Inv(s: State) {
    && OneUnused(s.tokens) && OneUser(s.tokens) && Once(s.exchanges) && UsedIsPresented(s.tokens, s.exchanges)
    && Counted(s.tokens, s.exchanges) && PhasesRight(s.tokens, s.requests)
  }

  lemma InitialInv()
    ensures Inv(INITIAL)
  {
    assert Families(map[]) == {};
  }

  lemma StampKeeps(s: State, rows: set<nat>, now: int, rs: map<nat, Phase>)
    requires Inv(s) && PhasesRight(s.tokens, rs)
    ensures Inv(s.(tokens := Stamp(s.tokens, rows, now), requests := rs))
  {
    var after := Stamp(s.tokens, rows, now);
    StampRows(s.tokens, rows, now);
    StampOneUser(s.tokens, rows, now);
    assert after.Keys == s.tokens.Keys;
    MapSize(after, s.tokens);
  }

  lemma MapSize(a: Tokens, b: Tokens)
    requires a.Keys == b.Keys
    ensures |a| == |b|
  {
    assert |a| == |a.Keys| && |b| == |b.Keys|;
  }

  lemma {:induction false} CountNone(xs: seq<Exchange>, f: nat)
    requires forall x :: x in xs ==> x.family != f
    ensures Count(xs, f) == 0
  {
    if xs != [] {
      assert xs[|xs| - 1] in xs;
      CountNone(xs[..|xs| - 1], f);
    }
  }

  lemma IssueSize(ts: Tokens, id: nat, user: nat, f: nat, expires: int)
    requires id !in ts
    ensures |Issue(ts, id, user, f, expires)| == |ts| + 1
  {
    var after := Issue(ts, id, user, f, expires);
    assert after.Keys == ts.Keys + {id};
    assert |after| == |after.Keys| && |ts| == |ts.Keys|;
  }

  lemma OpenCounted(ts: Tokens, xs: seq<Exchange>, id: nat, user: nat, f: nat, expires: int)
    requires Counted(ts, xs) && UsedIsPresented(ts, xs) && id !in ts && f !in Families(ts)
    ensures Counted(Issue(ts, id, user, f, expires), xs)
  {
    hide Families, FamilyIds, Count, Issue, UsedIsPresented;
    var after := Issue(ts, id, user, f, expires);
    FamilyAdded(ts, id, user, f, expires);
    IssueSize(ts, id, user, f, expires);
    NoExchangeYet(ts, xs, f);
    forall g | g in Families(after) ensures |FamilyIds(after, g)| == Count(xs, g) + 1 {
      LoginFamily(ts, id, user, f, expires, g);
    }
  }

  lemma FamilyAdded(ts: Tokens, id: nat, user: nat, f: nat, expires: int)
    requires id !in ts && f !in Families(ts)
    ensures Families(Issue(ts, id, user, f, expires)) == Families(ts) + {f}
    ensures |Families(Issue(ts, id, user, f, expires))| == |Families(ts)| + 1
  {
    hide Families, FamilyIds, UnusedIds, Issue;
    IssueRows(ts, id, user, f, expires);
  }

  lemma NoExchangeYet(ts: Tokens, xs: seq<Exchange>, f: nat)
    requires UsedIsPresented(ts, xs) && f !in Families(ts)
    ensures Count(xs, f) == 0
  {
    hide Families, Count;
    FamilyKnown(ts);
    CountNone(xs, f);
  }

  lemma OpenPresented(ts: Tokens, xs: seq<Exchange>, id: nat, user: nat, f: nat, expires: int)
    requires UsedIsPresented(ts, xs) && id !in ts
    ensures UsedIsPresented(Issue(ts, id, user, f, expires), xs)
  {
  }

  lemma OpenKeeps(s: State, id: nat, user: nat, f: nat, expires: int)
    requires Inv(s) && id !in s.tokens && f !in Families(s.tokens)
    ensures Inv(s.(tokens := Issue(s.tokens, id, user, f, expires)))
  {
    hide OneUnused, OneUser, Families, Once, UsedIsPresented, Counted;
    LoginRows(s.tokens, id, user, f, expires);
    LoginOneUser(s.tokens, id, user, f, expires);
    OpenCounted(s.tokens, s.exchanges, id, user, f, expires);
    OpenPresented(s.tokens, s.exchanges, id, user, f, expires);
  }

  lemma FamilyKnown(ts: Tokens)
    ensures forall i :: i in ts ==> ts[i].family in Families(ts) && i in FamilyIds(ts, ts[i].family)
  {
  }

  lemma RotateCounted(ts: Tokens, xs: seq<Exchange>, id: nat, now: int, successor: nat, expires: int)
    requires id in ts && ts[id].usedAt == None && successor !in ts && OneUnused(ts) && Counted(ts, xs)
    ensures var f := ts[id].family;
            Counted(Rotate(ts, id, now, successor, ts[id].user, f, expires), xs + [Exchange(id, successor, f)])
  {
    hide OneUnused, Families, UnusedIds, FamilyIds;
    var f := ts[id].family;
    var after, more := Rotate(ts, id, now, successor, ts[id].user, f, expires), xs + [Exchange(id, successor, f)];
    RotateRows(ts, id, now, successor, expires);
    FamilyKnown(ts);
    NotInFamily(ts, successor, f);
    assert more[..|more| - 1] == xs;
    assert MarkUsed(ts, id, now).Keys == ts.Keys;
    MapSize(MarkUsed(ts, id, now), ts);
    IssueSize(MarkUsed(ts, id, now), successor, ts[id].user, f, expires);
  }

  lemma NotInFamily(ts: Tokens, id: nat, f: nat)
    requires id !in ts
    ensures id !in FamilyIds(ts, f)
  {
  }

  lemma RotatePresented(ts: Tokens, xs: seq<Exchange>, id: nat, now: int, successor: nat, expires: int)
    requires id in ts && ts[id].usedAt == None && successor !in ts && Once(xs) && UsedIsPresented(ts, xs)
    ensures var f := ts[id].family;
            var more := xs + [Exchange(id, successor, f)];
            Once(more) && UsedIsPresented(Rotate(ts, id, now, successor, ts[id].user, f, expires), more)
  {
    var f := ts[id].family;
    var x := Exchange(id, successor, f);
    var more, after := xs + [x], Rotate(ts, id, now, successor, ts[id].user, f, expires);
    assert !Presented(xs, id);
    assert forall i :: 0 <= i < |xs| ==> xs[i] in xs;
    forall i | i in after ensures after[i].usedAt != None <==> Presented(more, i) {
      PresentedAppend(xs, x, i);
    }
  }

  lemma PresentedAppend(xs: seq<Exchange>, x: Exchange, i: nat)
    ensures Presented(xs + [x], i) <==> Presented(xs, i) || x.presented == i
  {
    if Presented(xs, i) {
      var y :| y in xs && y.presented == i;
      assert y in xs + [x];
    }
    if x.presented == i {
      assert x in xs + [x];
    }
  }

  lemma WinKeeps(s: State, step: Step)
    requires Inv(s) && Enabled(s, step) && Wins(s, step)
    ensures Inv(Apply(s, step))
  {
    hide OneUnused, OneUser, Families, UnusedIds, FamilyIds, Count, Once, UsedIsPresented, Counted, Rotate;
    var p := s.requests[step.req];
    var expires := s.clock + step.ttl;
    RotateRows(s.tokens, p.id, p.started, step.successor, expires);
    RotateCounted(s.tokens, s.exchanges, p.id, p.started, step.successor, expires);
    RotatePresented(s.tokens, s.exchanges, p.id, p.started, step.successor, expires);
    RotateOneUser(s.tokens, p.id, p.started, step.successor, expires);
    RotateRest(s.tokens, p.id, p.started, step.successor, expires);
    assert PhasesRight(Apply(s, step).tokens, s.requests);
  }

  lemma RotateRest(ts: Tokens, id: nat, now: int, successor: nat, expires: int)
    requires id in ts && successor !in ts
    ensures var after := Rotate(ts, id, now, successor, ts[id].user, ts[id].family, expires);
            forall i :: i in ts ==> i in after && after[i].family == ts[i].family && after[i].user == ts[i].user
  {
  }

  /** Every step keeps the invariant. */
  lemma StepKeeps(s: State, step: Step)
    requires Inv(s) && Enabled(s, step)
    ensures Inv(Apply(s, step))
  {
    hide OneUnused, OneUser, UsedIsPresented, Counted, Once, Families;
    match step
    case Tick(_) =>
    case Open(user, id, f, ttl) => OpenKeeps(s, id, user, f, s.clock + ttl);
    case Read(_, _, _) =>
    case Leave(_, _) =>
    case Claim(_, _, _) => if Wins(s, step) { WinKeeps(s, step); }
    case Select(_) =>
    case Write(req) => StampKeeps(s, s.requests[req].rows, s.requests[req].started, s.requests - {req});
  }

  /**
   Under every interleaving each family has exactly one unused token and one user, no token is
   exchanged twice, and each family has made one exchange fewer than it has tokens.
   */
  lemma {:induction false} EveryInterleaving(s: State, steps: seq<Step>)
    requires Inv(s) && Runs(s, steps)
    ensures Inv(ApplyAll(s, steps))
    decreases |steps|
  {
    hide Inv, Enabled, Apply;
    if steps != [] {
      StepKeeps(s, steps[0]);
      EveryInterleaving(Apply(s, steps[0]), steps[1..]);
    }
  }

  /** The same, spelled out for the runs of the service from an empty table. */
  lemma SingleWinner(steps: seq<Step>, f: nat)
    requires Runs(INITIAL, steps)
    ensures var s := ApplyAll(INITIAL, steps);
            && (f in Families(s.tokens) ==>
                  |UnusedIds(s.tokens, f)| == 1 && Count(s.exchanges, f) == |FamilyIds(s.tokens, f)| - 1)
            && (forall i, j :: 0 <= i < j < |s.exchanges| ==> s.exchanges[i].presented != s.exchanges[j].presented)
            && |s.exchanges| == |s.tokens| - |Families(s.tokens)|
            && (forall i, j :: i in s.tokens && j in s.tokens && s.tokens[i].family == s.tokens[j].family ==>
                  s.tokens[i].user == s.tokens[j].user)
  {
    InitialInv();
    EveryInterleaving(INITIAL, steps);
  }

  // ------------------------------------------------- when a family is closed for good

  /** The unused token can still pass a read, or a request under way has already passed it. */
  ghost predicate Exchangeable(s: State, f: nat) {
    exists i :: && i in UnusedIds(s.tokens, f)
                && ((s.tokens[i].revokedAt == None && s.clock < s.tokens[i].expiresAt) || Held(s, i))
  }

  ghost predicate Held(s: State, i: nat) {
    exists q :: q in s.requests && s.requests[q].Passed? && s.requests[q].id == i
  }

  /** Some continuation exchanges a token of the family. */
  ghost predicate CanExchange(s: State, f: nat) {
    exists steps :: Runs(s, steps) && Count(ApplyAll(s, steps).exchanges, f) > Count(s.exchanges, f)
  }

  lemma HeldElsewhere(s: State, req: nat, p: Phase, i: nat)
    requires req !in s.requests || !s.requests[req].Passed? || !p.Passed?
    requires !Held(s, i) && (p.Passed? ==> p.id != i)
    ensures !Held(s.(requests := s.requests[req := p]), i)
  {
    var t := s.(requests := s.requests[req := p]);
    forall q | q in t.requests && t.requests[q].Passed? ensures t.requests[q].id != i {
      if q != req { assert q in s.requests; }
    }
  }

  /** No step brings a family back once it is not exchangeable, or exchanges a token of it. */
  lemma ClosedStays(s: State, f: nat, step: Step)
    requires Inv(s) && Enabled(s, step) && f in Families(s.tokens) && !Exchangeable(s, f)
    ensures f in Families(Apply(s, step).tokens) && !Exchangeable(Apply(s, step), f)
    ensures Count(Apply(s, step).exchanges, f) == Count(s.exchanges, f)
  {
    hide OneUnused, UsedIsPresented, Counted, Once, Families, UnusedIds, Count, Held, FamilyIds;
    match step
    case Tick(_) => ClosedTick(s, f, step);
    case Open(user, id, g, ttl) =>
      IssueRows(s.tokens, id, user, g, s.clock + ttl);
      ClosedOpen(s, f, step);
    case Read(req, _, _) => ClosedRead(s, f, step);
    case Leave(req, _) => ClosedPhase(s, f, step);
    case Claim(req, _, _) => if Wins(s, step) { ClosedWin(s, f, step); } else { ClosedPhase(s, f, step); }
    case Select(_) => ClosedPhase(s, f, step);
    case Write(req) =>
      StampRows(s.tokens, s.requests[req].rows, s.requests[req].started);
      ClosedWrite(s, f, step);
  }

  lemma ClosedTick(s: State, f: nat, step: Step)
    requires step.Tick? && Enabled(s, step) && !Exchangeable(s, f)
    ensures !Exchangeable(Apply(s, step), f)
  {
    var t := Apply(s, step);
    forall i | i in UnusedIds(t.tokens, f)
      ensures !Held(t, i) && !(t.tokens[i].revokedAt == None && t.clock < t.tokens[i].expiresAt)
    {
      assert !Held(s, i);
    }
  }

  lemma ClosedOpen(s: State, f: nat, step: Step)
    requires step.Open? && Enabled(s, step) && f in Families(s.tokens) && !Exchangeable(s, f)
    ensures !Exchangeable(Apply(s, step), f)
  {
    hide Families;
    var t := Apply(s, step);
    forall i | i in UnusedIds(t.tokens, f)
      ensures !Held(t, i) && !(t.tokens[i].revokedAt == None && t.clock < t.tokens[i].expiresAt)
    {
      assert i in UnusedIds(s.tokens, f);
      assert !Held(s, i);
    }
  }

  lemma ClosedRead(s: State, f: nat, step: Step)
    requires step.Read? && Enabled(s, step) && !Exchangeable(s, f)
    ensures !Exchangeable(Apply(s, step), f)
  {
    hide Held;
    var t := Apply(s, step);
    forall i | i in UnusedIds(t.tokens, f)
      ensures !Held(t, i) && !(t.tokens[i].revokedAt == None && t.clock < t.tokens[i].expiresAt)
    {
      assert i in UnusedIds(s.tokens, f);
      if t != s {
        HeldElsewhere(s, step.req, t.requests[step.req], i);
      }
    }
  }

  lemma ClosedPhase(s: State, f: nat, step: Step)
    requires (step.Leave? || step.Select? || (step.Claim? && !Wins(s, step))) && Enabled(s, step)
    requires !Exchangeable(s, f)
    ensures !Exchangeable(Apply(s, step), f)
  {
    hide Held;
    var t := Apply(s, step);
    forall i | i in UnusedIds(t.tokens, f)
      ensures !Held(t, i) && !(t.tokens[i].revokedAt == None && t.clock < t.tokens[i].expiresAt)
    {
      assert i in UnusedIds(s.tokens, f);
      if t != s {
        HeldElsewhere(s, step.req, t.requests[step.req], i);
      }
    }
  }

  lemma ClosedWrite(s: State, f: nat, step: Step)
    requires step.Write? && Enabled(s, step) && !Exchangeable(s, f)
    ensures !Exchangeable(Apply(s, step), f)
  {
    var t := Apply(s, step);
    forall i | i in UnusedIds(t.tokens, f)
      ensures !Held(t, i) && !(t.tokens[i].revokedAt == None && t.clock < t.tokens[i].expiresAt)
    {
      assert i in UnusedIds(s.tokens, f);
      assert !Held(s, i);
    }
  }

  /** A winning claim is on another family: the token it holds was unused and held. */
  lemma ClosedWin(s: State, f: nat, step: Step)
    requires Inv(s) && Enabled(s, step) && Wins(s, step) && f in Families(s.tokens) && !Exchangeable(s, f)
    ensures f in Families(Apply(s, step).tokens) && !Exchangeable(Apply(s, step), f)
    ensures Count(Apply(s, step).exchanges, f) == Count(s.exchanges, f)
  {
    hide OneUnused, Families, Counted, UsedIsPresented, Once, FamilyIds;
    var t, p := Apply(s, step), s.requests[step.req];
    assert Held(s, p.id);
    assert p.id in UnusedIds(s.tokens, p.family);
    assert p.family != f;
    RotateRows(s.tokens, p.id, p.started, step.successor, s.clock + step.ttl);
    assert t.exchanges[..|t.exchanges| - 1] == s.exchanges;
    forall i | i in UnusedIds(t.tokens, f)
      ensures !Held(t, i) && !(t.tokens[i].revokedAt == None && t.clock < t.tokens[i].expiresAt)
    {
      assert i in UnusedIds(s.tokens, f);
      assert !Held(s, i);
      assert t.tokens[i] == s.tokens[i];
    }
  }

  lemma {:induction false} ClosedForever(s: State, f: nat, steps: seq<Step>)
    requires Inv(s) && Runs(s, steps) && f in Families(s.tokens) && !Exchangeable(s, f)
    ensures Count(ApplyAll(s, steps).exchanges, f) == Count(s.exchanges, f)
    decreases |steps|
  {
    hide Inv, Enabled, Apply, Families, Exchangeable, Count;
    if steps != [] {
      StepKeeps(s, steps[0]);
      ClosedStays(s, f, steps[0]);
      ClosedForever(Apply(s, steps[0]), f, steps[1..]);
    }
  }

  /** An identifier that no row or request uses. */
  lemma FreshId(s: set<nat>) returns (x: nat)
    ensures x !in s
  {
    x := 0;
    var rest := s;
    while rest != {}
      invariant forall y :: y in s && y !in rest ==> y < x
      decreases |rest|
    {
      var y :| y in rest;
      rest := rest - {y};
      x := if y >= x then y + 1 else x;
    }
  }

  lemma ClaimHeld(s: State, f: nat, q: nat) returns (step: Step)
    requires Inv(s) && q in s.requests && s.requests[q].Passed? && s.requests[q].id in UnusedIds(s.tokens, f)
    ensures Enabled(s, step) && Count(Apply(s, step).exchanges, f) == Count(s.exchanges, f) + 1
  {
    var successor := FreshId(s.tokens.Keys);
    step := Claim(q, successor, 0);
    var t := Apply(s, step);
    assert t.exchanges[..|t.exchanges| - 1] == s.exchanges;
  }

  /**
   A family can still be exchanged exactly when its unused token is unrevoked and
   unexpired, or a request that already passed its read holds that token.
   */
  lemma ClosedExactly(s: State, f: nat)
    requires Inv(s) && f in Families(s.tokens)
    ensures CanExchange(s, f) <==> Exchangeable(s, f)
  {
    hide Inv, Families, Count, Runs, ApplyAll, Apply, Enabled, Held;
    if CanExchange(s, f) && !Exchangeable(s, f) {
      var steps :| Runs(s, steps) && Count(ApplyAll(s, steps).exchanges, f) > Count(s.exchanges, f);
      ClosedForever(s, f, steps);
    }
    if Exchangeable(s, f) {
      var i :| && i in UnusedIds(s.tokens, f)
               && ((s.tokens[i].revokedAt == None && s.clock < s.tokens[i].expiresAt) || Held(s, i));
      if Held(s, i) {
        var q := Holder(s, i);
        var step := ClaimHeld(s, f, q);
        RunOne(s, step);
      } else {
        var q := FreshId(s.requests.Keys);
        var read := Read(q, i, {s.tokens[i].user});
        ReadPasses(s, read);
        StepKeeps(s, read);
        var step := ClaimHeld(Apply(s, read), f, q);
        RunTwo(s, read, step);
      }
    }
  }

  lemma Holder(s: State, i: nat) returns (q: nat)
    requires Held(s, i)
    ensures q in s.requests && s.requests[q].Passed? && s.requests[q].id == i
  {
    q :| q in s.requests && s.requests[q].Passed? && s.requests[q].id == i;
  }

  lemma ReadPasses(s: State, read: Step)
    requires read.Read? && read.req !in s.requests && read.token in s.tokens && s.tokens[read.token].usedAt == None
    requires s.tokens[read.token].revokedAt == None && s.clock < s.tokens[read.token].expiresAt
    requires read.active == {s.tokens[read.token].user}
    ensures Enabled(s, read) && Apply(s, read).tokens == s.tokens && Apply(s, read).exchanges == s.exchanges
    ensures read.req in Apply(s, read).requests
    ensures Apply(s, read).requests[read.req].Passed? && Apply(s, read).requests[read.req].id == read.token
  {
  }

  lemma RunOne(s: State, a: Step)
    requires Enabled(s, a)
    ensures Runs(s, [a]) && ApplyAll(s, [a]) == Apply(s, a)
  {
    hide Enabled, Apply;
    assert [a][1..] == [];
  }

  lemma RunTwo(s: State, a: Step, b: Step)
    requires Enabled(s, a) && Enabled(Apply(s, a), b)
    ensures Runs(s, [a, b]) && ApplyAll(s, [a, b]) == Apply(Apply(s, a), b)
  {
    hide Enabled, Apply;
    RunOne(Apply(s, a), b);
    assert [a, b][1..] == [b];
  }

  /**
   A revocation whose select and write nothing separates leaves the family closed for
   good exactly when no request under way holds its unused token.
   */
  lemma RevocationCloses(s: State, q: nat)
    requires Inv(s) && q in s.requests && s.requests[q].Revoking? && s.requests[q].family in Families(s.tokens)
    ensures var t := Apply(Apply(s, Select(q)), Write(q));
            var f := s.requests[q].family;
            CanExchange(t, f) <==> exists i :: i in UnusedIds(s.tokens, f) && Held(s, i)
  {
    hide Inv, Families, CanExchange, Held;
    var f := s.requests[q].family;
    var m := Apply(s, Select(q));
    var t := Apply(m, Write(q));
    StepKeeps(s, Select(q));
    StepKeeps(m, Write(q));
    StampRows(s.tokens, Unrevoked(s.tokens, f), s.requests[q].started);
    ClosedExactly(t, f);
    forall i ensures Held(t, i) <==> Held(s, i) {
      HeldAfterRevocation(s, q, i);
    }
    forall i | i in UnusedIds(t.tokens, f) ensures t.tokens[i].revokedAt != None {
    }
  }

  lemma HeldAfterRevocation(s: State, q: nat, i: nat)
    requires q in s.requests && s.requests[q].Revoking?
    ensures Held(Apply(Apply(s, Select(q)), Write(q)), i) <==> Held(s, i)
  {
    var t := Apply(Apply(s, Select(q)), Write(q));
    assert t.requests == s.requests - {q};
    if r :| r in s.requests && s.requests[r].Passed? && s.requests[r].id == i {
      assert r in t.requests;
    }
    if r :| r in t.requests && t.requests[r].Passed? && t.requests[r].id == i {
      assert r in s.requests;
    }
  }

  lemma RunThree(s: State, a: Step, b: Step, c: Step)
    requires Enabled(s, a) && Enabled(Apply(s, a), b) && Enabled(Apply(Apply(s, a), b), c)
    ensures Runs(s, [a, b, c]) && ApplyAll(s, [a, b, c]) == Apply(Apply(Apply(s, a), b), c)
  {
    hide Enabled, Apply;
    RunTwo(Apply(s, a), b, c);
    assert [a, b, c][1..] == [b, c];
  }

  /**
   An uninterrupted request is one way of interleaving: some run from any state makes
   exactly its change to the table and leaves no request behind.
   */
  lemma RequestIsRun(s: State, r: Request, q: nat) returns (steps: seq<Step>)
    requires FreshFor(s.tokens, r) && q !in s.requests
    ensures Runs(s, steps) && ApplyAll(s, steps).tokens == Serve(s.tokens, r, s.clock)
    ensures ApplyAll(s, steps).requests == s.requests
    ensures |ApplyAll(s, steps).exchanges| == |s.exchanges| + if Succeeds(s.tokens, r, s.clock) then 1 else 0
  {
    hide Families, Issue, Stamp, Unrevoked, Rotate;
    match r
    case Login(user, id, f, ttl) =>
      RunOne(s, Open(user, id, f, ttl));
      steps := [Open(user, id, f, ttl)];
    case Refresh(token, active, successor, ttl) =>
      var read := Read(q, token, active);
      match Judge(s.tokens, token, s.clock, active) {
        case Refuse =>
          RunOne(s, read);
          steps := [read];
        case Revoke(_) =>
          RunThree(s, read, Select(q), Write(q));
          steps := [read, Select(q), Write(q)];
        case Proceed(_, _) =>
          RunTwo(s, read, Claim(q, successor, ttl));
          steps := [read, Claim(q, successor, ttl)];
      }
    case Logout(token) =>
      if token in s.tokens {
        RunThree(s, Leave(q, token), Select(q), Write(q));
        steps := [Leave(q, token), Select(q), Write(q)];
      } else {
        RunOne(s, Leave(q, token));
        steps := [Leave(q, token)];
      }
  }

  // ------------------------------------------------- two races that revocation loses

  /** A session of user 0 with one token that a refresh has read. */
  const RACING := State(map[0 := Token(0, 0, 10, None, None)], map[0 := Passed(0, 0, 0, 0)], 0, [])

  lemma RacingReached()
    ensures Runs(INITIAL, [Open(0, 0, 0, 10), Read(0, 0, {0})])
    ensures ApplyAll(INITIAL, [Open(0, 0, 0, 10), Read(0, 0, {0})]) == RACING
  {
    RunTwo(INITIAL, Open(0, 0, 0, 10), Read(0, 0, {0}));
  }

  lemma RacingInv()
    ensures Inv(RACING) && Inv(Apply(RACING, Leave(1, 0)))
  {
    hide Inv;
    RacingReached();
    InitialInv();
    EveryInterleaving(INITIAL, [Open(0, 0, 0, 10), Read(0, 0, {0})]);
    StepKeeps(RACING, Leave(1, 0));
  }

  /** A logout that completes between the read and the claim does not stop the exchange. */
  lemma ClaimOutlivesLogout()
    ensures var t := Apply(Apply(Apply(RACING, Leave(1, 0)), Select(1)), Write(1));
            && Runs(RACING, [Leave(1, 0), Select(1), Write(1)])
            && ApplyAll(RACING, [Leave(1, 0), Select(1), Write(1)]) == t
            && Ended(t.tokens, 0) && CanExchange(t, 0)
  {
    hide CanExchange, Inv;
    var a := Apply(RACING, Leave(1, 0));
    RunThree(RACING, Leave(1, 0), Select(1), Write(1));
    assert Families(a.tokens) == {0};
    RacingInv();
    RevocationCloses(a, 1);
    assert Held(a, 0) by { assert 0 in a.requests; }
    assert 0 in UnusedIds(a.tokens, 0);
    LogoutEnds(RACING.tokens, 0, 0);
  }

  /** A claim between the select and the write leaves its successor unrevoked. */
  lemma SuccessorEscapesWrite()
    ensures var m := Apply(Apply(RACING, Leave(1, 0)), Select(1));
            var t := Apply(Apply(m, Claim(0, 1, 10)), Write(1));
            && Enabled(m, Claim(0, 1, 10)) && Enabled(Apply(m, Claim(0, 1, 10)), Write(1))
            && t.requests == map[] && t.tokens.Keys == {0, 1}
            && t.tokens[0].revokedAt == Some(0) && t.tokens[1].revokedAt == None && !AllOrNone(t.tokens)
  {
    var m := Apply(Apply(RACING, Leave(1, 0)), Select(1));
    var c := Apply(m, Claim(0, 1, 10));
    var t := Apply(c, Write(1));
    assert t.tokens[0].family == t.tokens[1].family;
  }
}
