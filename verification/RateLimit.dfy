/** The fixed-window limiter. */
module RateLimit {
  // Per key it keeps a window start and a count; a new window begins once the old one is a
  // full length old, and a request is refused when its count exceeds the budget. Clock
  // values are exact reals.

  import opened Order

  datatype Window = Window(start: real, count: nat)

  const WINDOW_SECONDS: int := 60

  function Ceil(x: real): int { if x == x.Floor as real then x.Floor else x.Floor + 1 }

  /** The window a hit at `now` falls in, counting that hit. */
  function Next(w: Option<Window>, now: real, length: int): Window {
    if w == None || now - w.value.start >= length as real then Window(now, 1)
    else Window(w.value.start, w.value.count + 1)
  }

  function RetryAfter(w: Window, now: real, length: int): int {
    var rest := Ceil(length as real - (now - w.start));
    if rest < 1 then 1 else rest
  }

  function Lookup(windows: map<Text, Window>, key: Text): Option<Window> {
    if key in windows then Some(windows[key]) else None
  }

  class MemoryRateLimitStore {
    var windows: map<Text, Window>

    constructor ()
      ensures windows == map[]
    {
      windows := map[];
    }

    /** `hit`: the count in the current window and the seconds to wait; other keys keep theirs. */
    method Hit(key: Text, length: int, now: real) returns (count: nat, retryAfter: int)
      modifies this
      ensures windows == old(windows)[key := Next(Lookup(old(windows), key), now, length)]
      ensures count == windows[key].count && retryAfter == RetryAfter(windows[key], now, length)
    {
      var start, n := now, 0;
      if key in windows {
        start, n := windows[key].start, windows[key].count;
      }
      if now - start >= length as real {
        start, n := now, 0;
      }
      n := n + 1;
      windows := windows[key := Window(start, n)];
      count := n;
      var rest := Ceil(length as real - (now - start));
      retryAfter := if rest < 1 then 1 else rest;
    }

    /** The decision of `dispatch` for one counted request. */
    method Admit(key: Text, limit: nat, now: real) returns (admitted: bool, retryAfter: int)
      modifies this
      ensures windows == old(windows)[key := Next(Lookup(old(windows), key), now, 60)]
      ensures admitted <==> windows[key].count <= limit
      ensures retryAfter == RetryAfter(windows[key], now, 60)
    {
      var count: nat;
      count, retryAfter := Hit(key, WINDOW_SECONDS, now);
      admitted := !(count > limit);
    }
  }

  // ------------------------------------------------- runs

  datatype Arrival = Arrival(key: Text, now: real)

  /** The table after a run of hits on any keys. */
  function After(run: seq<Arrival>, length: int): map<Text, Window> {
    if run == [] then map[]
    else
      var before, last := After(run[..|run| - 1], length), run[|run| - 1];
      before[last.key := Next(Lookup(before, last.key), last.now, length)]
  }

  /** The times of the hits on one key. */
  function Times(run: seq<Arrival>, key: Text): seq<real> {
    if run == [] then []
    else Times(run[..|run| - 1], key) + if run[|run| - 1].key == key then [run[|run| - 1].now] else []
  }

  /** The window of the last of a key's hits. */
  function Last(times: seq<real>, length: int): Option<Window> {
    if times == [] then None else Some(Next(Last(times[..|times| - 1], length), times[|times| - 1], length))
  }

  /** Keys do not disturb each other: each sees only its own hits. */
  lemma {:induction false} KeysApart(run: seq<Arrival>, length: int, key: Text)
    ensures Lookup(After(run, length), key) == Last(Times(run, key), length)
  {
    if run != [] {
      var init, last := run[..|run| - 1], run[|run| - 1];
      KeysApart(init, length, key);
      var times := Times(init, key);
      assert (times + [last.now])[..|times|] == times && times + [] == times;
    }
  }

  ghost predicate Monotone(times: seq<real>) { forall i, j :: 0 <= i < j < |times| ==> times[i] <= times[j] }

  /** The window of hit `i`. */
  ghost function At(times: seq<real>, length: int, i: nat): Window
    requires i < |times|
  {
    Last(times[..i + 1], length).value
  }

  lemma AtNext(times: seq<real>, length: int, i: nat)
    requires i < |times|
    ensures At(times, length, i) == Next(if i == 0 then None else Some(At(times, length, i - 1)), times[i], length)
  {
    var t := times[..i + 1];
    assert t[..|t| - 1] == times[..i] && t[|t| - 1] == times[i];
    assert Last(t, length) == Some(Next(Last(times[..i], length), times[i], length));
    if i == 0 {
      assert times[..i] == [];
    } else {
      assert times[..i - 1 + 1] == times[..i];
      assert Last(times[..i], length) == Some(At(times, length, i - 1));
    }
  }

  /** A hit lies in its window, after its start and before its end. */
  lemma {:induction false} HitInWindow(times: seq<real>, length: int, i: nat)
    requires Monotone(times) && i < |times| && length >= 1
    ensures At(times, length, i).start <= times[i] < At(times, length, i).start + length as real
    ensures At(times, length, i).count >= 1
  {
    hide At;
    AtNext(times, length, i);
    if i > 0 { HitInWindow(times, length, i - 1); }
  }

  /** Two hits share a window, or their windows start a full length apart. */
  lemma {:induction false} WindowsApart(times: seq<real>, length: int, i: nat, j: nat)
    requires Monotone(times) && i < j < |times| && length >= 1
    ensures var a, b := At(times, length, i), At(times, length, j);
            || (a.start == b.start && a.count < b.count)
            || (a.start + length as real <= b.start && times[i] <= b.start)
    decreases j
  {
    hide At;
    AtNext(times, length, j);
    HitInWindow(times, length, j - 1);
    if i < j - 1 { WindowsApart(times, length, i, j - 1); }
  }

  lemma CeilBounds(x: real)
    ensures Ceil(x) as real - 1.0 < x <= Ceil(x) as real
  {
  }

  lemma CeilLeast(x: real, r: int)
    ensures Ceil(x) <= r <==> x <= r as real
  {
    CeilBounds(x);
  }

  /** Whatever the clock does, the wait is a positive number of seconds, the next whole one when that is positive. */
  lemma RetryAfterPositive(w: Window, now: real, length: int)
    ensures RetryAfter(w, now, length) >= 1
    ensures var rest := length as real - (now - w.start);
            rest > 0.0 ==> RetryAfter(w, now, length) as real - 1.0 < rest <= RetryAfter(w, now, length) as real
    ensures length as real - (now - w.start) <= 0.0 ==> RetryAfter(w, now, length) == 1
  {
  }

  /** The wait is at least a second and at most a window. */
  lemma RetryAfterRange(times: seq<real>, length: int, i: nat)
    requires Monotone(times) && i < |times| && length >= 1
    ensures 1 <= RetryAfter(At(times, length, i), times[i], length) <= length
  {
    HitInWindow(times, length, i);
    CeilLeast(length as real - (times[i] - At(times, length, i).start), length);
  }

  /** A later hit that waited as told falls in a later window. */
  lemma RetryAfterSuffices(times: seq<real>, length: int, i: nat, j: nat)
    requires Monotone(times) && i < j < |times| && length >= 1
    requires times[j] >= times[i] + RetryAfter(At(times, length, i), times[i], length) as real
    ensures At(times, length, j).start >= At(times, length, i).start + length as real
  {
    hide At;
    var a := At(times, length, i);
    CeilBounds(length as real - (times[i] - a.start));
    HitInWindow(times, length, j);
    WindowsApart(times, length, i, j);
  }

  /** It is the least such wait in whole seconds, when no other hit comes between. */
  lemma RetryAfterLeast(times: seq<real>, length: int, i: nat, wait: int)
    requires Monotone(times) && i + 1 < |times| && length >= 1 && wait >= 1 && times[i + 1] == times[i] + wait as real
    ensures At(times, length, i + 1).start == At(times, length, i).start <==>
            wait < RetryAfter(At(times, length, i), times[i], length)
  {
    hide At;
    var a := At(times, length, i);
    AtNext(times, length, i + 1);
    HitInWindow(times, length, i);
    CeilLeast(length as real - (times[i] - a.start), wait);
  }

  // ------------------------------------------------- how many are admitted

  ghost predicate Admitted(times: seq<real>, length: int, limit: nat, i: nat)
    requires i < |times|
  {
    At(times, length, i).count <= limit
  }

  /** Admitted hits among the first `n` in the window that starts at `s`. */
  ghost function InWindow(times: seq<real>, length: int, limit: nat, s: real, n: nat): nat
    requires n <= |times|
  {
    if n == 0 then 0
    else
      var one := At(times, length, n - 1).start == s && Admitted(times, length, limit, n - 1);
      InWindow(times, length, limit, s, n - 1) + if one then 1 else 0
  }

  /** Admitted hits among the first `n` in the half-open interval of one window length from `a`. */
  ghost function InInterval(times: seq<real>, length: int, limit: nat, a: real, n: nat): nat
    requires n <= |times|
  {
    if n == 0 then 0
    else
      var one := a <= times[n - 1] < a + length as real && Admitted(times, length, limit, n - 1);
      InInterval(times, length, limit, a, n - 1) + if one then 1 else 0
  }

  function Min(a: int, b: int): int { if a < b then a else b }

  /** In a window the admitted hits are its first ones, up to the limit. */
  lemma {:induction false} WindowBudget(times: seq<real>, length: int, limit: nat, s: real, n: nat)
    requires Monotone(times) && n <= |times| && length >= 1
    ensures InWindow(times, length, limit, s, n) <= limit
    ensures n > 0 && At(times, length, n - 1).start == s ==>
            InWindow(times, length, limit, s, n) == Min(limit, At(times, length, n - 1).count)
    ensures n > 0 && At(times, length, n - 1).start < s ==> InWindow(times, length, limit, s, n) == 0
  {
    hide At;
    if n > 0 {
      WindowBudget(times, length, limit, s, n - 1);
      AtNext(times, length, n - 1);
      if n > 1 { HitInWindow(times, length, n - 2); }
    }
  }

  /** A window whose first hit is before the interval has one admitted hit fewer to give. */
  lemma {:induction false} OlderWindow(times: seq<real>, length: int, limit: nat, a: real, s: real, n: nat)
    requires Monotone(times) && n <= |times| && length >= 1 && s < a
    ensures InIntervalOf(times, length, limit, a, s, n) <= InWindow(times, length, limit, s, n)
    ensures limit > 0 && InIntervalOf(times, length, limit, a, s, n) > 0 ==>
              InIntervalOf(times, length, limit, a, s, n) < InWindow(times, length, limit, s, n)
  {
    hide At;
    if n > 0 {
      OlderWindow(times, length, limit, a, s, n - 1);
      WindowBudget(times, length, limit, s, n - 1);
      AtNext(times, length, n - 1);
      if n > 1 { HitInWindow(times, length, n - 2); }
    }
  }

  /** Admitted hits both in the interval and in the window that starts at `s`. */
  ghost function InIntervalOf(times: seq<real>, length: int, limit: nat, a: real, s: real, n: nat): nat
    requires n <= |times|
  {
    if n == 0 then 0
    else
      var inside := a <= times[n - 1] < a + length as real && At(times, length, n - 1).start == s;
      InIntervalOf(times, length, limit, a, s, n - 1) + if inside && Admitted(times, length, limit, n - 1) then 1 else 0
  }

  lemma {:induction false} IntervalWithin(times: seq<real>, length: int, limit: nat, a: real, s: real, n: nat)
    requires n <= |times|
    ensures InIntervalOf(times, length, limit, a, s, n) <= InWindow(times, length, limit, s, n)
  {
    if n > 0 { IntervalWithin(times, length, limit, a, s, n - 1); }
  }

  lemma {:induction false} TwoWindows(times: seq<real>, length: int, limit: nat, a: real, s: real, t: real, n: nat)
    requires n <= |times|
    requires forall i :: 0 <= i < n && a <= times[i] < a + length as real ==>
            At(times, length, i).start == s || At(times, length, i).start == t
    ensures InInterval(times, length, limit, a, n)
         <= InIntervalOf(times, length, limit, a, s, n) + InIntervalOf(times, length, limit, a, t, n)
    ensures s == t ==> InInterval(times, length, limit, a, n) <= InIntervalOf(times, length, limit, a, s, n)
  {
    hide At;
    if n > 0 { TwoWindows(times, length, limit, a, s, t, n - 1); }
  }

  /**
   Any half-open interval of one window length admits fewer than twice the limit: at
   most two windows meet it, and the older one began before it.
   */
  lemma IntervalBudget(times: seq<real>, length: int, limit: nat, a: real)
    requires Monotone(times) && length >= 1
    ensures InInterval(times, length, limit, a, |times|) <= if limit == 0 then 0 else 2 * limit - 1
  {
    hide At, Monotone;
    var n := |times|;
    if p :| 0 <= p < n && a <= times[p] < a + length as real && forall i :: 0 <= i < p ==>
        !(a <= times[i] < a + length as real) {
      var s := At(times, length, p).start;
      WindowBudget(times, length, limit, s, n);
      IntervalWithin(times, length, limit, a, s, n);
      if q :| p < q < n && times[q] < a + length as real && At(times, length, q).start != s {
        var t := At(times, length, q).start;
        OnlyTwo(times, length, a, p, q);
        TwoWindows(times, length, limit, a, s, t, n);
        OlderWindow(times, length, limit, a, s, n);
        WindowBudget(times, length, limit, t, n);
        IntervalWithin(times, length, limit, a, t, n);
      } else {
        InOrder(times, p);
        TwoWindows(times, length, limit, a, s, s, n);
      }
    } else {
      NoFirst(times, length, limit, a, n);
    }
  }

  lemma InOrder(times: seq<real>, p: nat)
    requires Monotone(times) && p < |times|
    ensures forall i :: p < i < |times| ==> times[p] <= times[i]
  {
  }

  lemma OnlyTwo(times: seq<real>, length: int, a: real, p: nat, q: nat)
    requires Monotone(times) && length >= 1 && p < q < |times| && a <= times[p] && times[q] < a + length as real
    requires At(times, length, q).start != At(times, length, p).start
    requires forall i :: 0 <= i < p ==> !(a <= times[i] < a + length as real)
    ensures At(times, length, p).start < a
    ensures forall i :: 0 <= i < |times| && a <= times[i] < a + length as real ==>
              || At(times, length, i).start == At(times, length, p).start
              || At(times, length, i).start == At(times, length, q).start
  {
    hide At;
    WindowsApart(times, length, p, q);
    HitInWindow(times, length, q);
    forall i | 0 <= i < |times| && a <= times[i] < a + length as real
      ensures || At(times, length, i).start == At(times, length, p).start
              || At(times, length, i).start == At(times, length, q).start
    {
      HitInWindow(times, length, i);
      if p < i { WindowsApart(times, length, p, i); }
      if q < i { WindowsApart(times, length, q, i); }
      if i < q { WindowsApart(times, length, i, q); }
    }
  }

  /** With no first hit in the interval there is none. */
  lemma {:induction false} NoFirst(times: seq<real>, length: int, limit: nat, a: real, n: nat)
    requires n <= |times|
    requires forall p :: 0 <= p < n && a <= times[p] < a + length as real ==>
            exists i :: 0 <= i < p && a <= times[i] < a + length as real
    ensures InInterval(times, length, limit, a, n) == 0
    ensures forall p :: 0 <= p < n ==> !(a <= times[p] < a + length as real)
  {
    hide At;
    if n > 0 { NoFirst(times, length, limit, a, n - 1); }
  }

  /** One hit, then the rest of the budget just before the window ends, then a full budget at its end. */
  ghost function Burst(limit: nat, length: int): seq<real> {
    seq(2 * limit, i => if i == 0 then 0.0 else if i < limit then length as real - 0.5 else length as real)
  }

  lemma {:induction false} BurstWindows(limit: nat, length: int, i: nat)
    requires length >= 1 && i < 2 * limit
    ensures At(Burst(limit, length), length, i) ==
            if i < limit then Window(0.0, i + 1) else Window(length as real, i - limit + 1)
  {
    hide At;
    AtNext(Burst(limit, length), length, i);
    if i > 0 { BurstWindows(limit, length, i - 1); }
  }

  lemma {:induction false} BurstAdmitted(limit: nat, length: int, n: nat)
    requires length >= 1 && 1 <= n <= 2 * limit
    ensures InInterval(Burst(limit, length), length, limit, length as real - 0.5, n) == n - 1
  {
    hide At;
    BurstWindows(limit, length, n - 1);
    if n > 1 { BurstAdmitted(limit, length, n - 1); }
  }

  /** The bound is met, for every limit and every window length. */
  lemma BoundIsMet(limit: nat, length: int)
    requires limit >= 1 && length >= 1
    ensures Monotone(Burst(limit, length))
    ensures InInterval(Burst(limit, length), length, limit, length as real - 0.5, 2 * limit) == 2 * limit - 1
  {
    BurstAdmitted(limit, length, 2 * limit);
  }

  /** The clock of a run never goes back. */
  ghost predicate Ticking(run: seq<Arrival>) { forall i, j :: 0 <= i < j < |run| ==> run[i].now <= run[j].now }

  lemma {:induction false} TimesMonotone(run: seq<Arrival>, key: Text)
    requires Ticking(run)
    ensures Monotone(Times(run, key))
    ensures forall t :: t in Times(run, key) ==> exists i :: 0 <= i < |run| && run[i].now == t
  {
    if run != [] {
      var init, last := run[..|run| - 1], run[|run| - 1];
      TimesMonotone(init, key);
      assert forall i :: 0 <= i < |init| ==> init[i] == run[i];
      forall t | t in Times(init, key) ensures t <= last.now && exists i :: 0 <= i < |run| && run[i].now == t {
        var i :| 0 <= i < |init| && init[i].now == t;
        assert run[i].now == t;
      }
      assert run[|run| - 1].now == last.now;
      assert forall i :: 0 <= i < |Times(init, key)| ==> Times(init, key)[i] in Times(init, key);
    }
  }

  /** In any run over any keys, each key is admitted fewer than twice its limit per window length. */
  lemma KeyBudget(run: seq<Arrival>, key: Text, limit: nat, a: real)
    requires Ticking(run)
    ensures InInterval(Times(run, key), 60, limit, a, |Times(run, key)|) <=
            if limit == 0 then 0 else 2 * limit - 1
  {
    TimesMonotone(run, key);
    IntervalBudget(Times(run, key), 60, limit, a);
  }
}
