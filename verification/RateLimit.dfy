// The packets-per-second limit of a rule: ppsratecheck (ipfilter/fil.c).

module RateLimit {
  import opened Basics

  const SECOND: int := 1_000_000

  datatype Time = Time(sec: int, usec: int)

  predicate Normal(t: Time) { 0 <= t.sec && 0 <= t.usec < SECOND }

  function Micros(t: Time): int { t.sec * SECOND + t.usec }

  // The limiter between calls: when the current window began, and the calls in it.
  datatype State = State(last: int, cur: nat)

  predicate Resets(s: State, now: int) { s.last == 0 || now - s.last >= SECOND }

  predicate Accepts(s: State, now: int, maxpps: int) {
    Resets(s, now) || maxpps < 0 || s.cur < maxpps
  }

  function Next(s: State, now: int): State {
    if Resets(s, now) then State(now, 1) else State(s.last, s.cur + 1)
  }

  class Limiter {
    var lasttime: Time
    var curpps: nat

    constructor ()
      ensures Valid() && Now() == State(0, 0)
    {
      lasttime, curpps := Time(0, 0), 0;
    }

    ghost predicate Valid()
      reads this
    {
      Normal(lasttime)
    }

    function Now(): State
      reads this
    {
      State(Micros(lasttime), curpps)
    }

    method PpsRateCheck(tv: Time, maxpps: int) returns (ok: bool)
      requires Valid() && Normal(tv)
      modifies this
      ensures Valid() && Now() == Next(old(Now()), Micros(tv))
      ensures ok == Accepts(old(Now()), Micros(tv), maxpps)
    {
      var deltaSec, deltaUsec := tv.sec - lasttime.sec, tv.usec - lasttime.usec;
      if deltaUsec < 0 {
        deltaSec, deltaUsec := deltaSec - 1, deltaUsec + SECOND;
      }
      if (lasttime.sec == 0 && lasttime.usec == 0) || deltaSec >= 1 {
        lasttime := tv;
        curpps := 0;
        ok := true;
      } else if maxpps < 0 {
        ok := true;
      } else if curpps < maxpps {
        ok := true;
      } else {
        ok := false;
      }
      curpps := curpps + 1;
    }
  }

  // ---------- runs ----------

  function After(ts: seq<int>, n: nat): State
    requires n <= |ts|
  {
    if n == 0 then State(0, 0) else Next(After(ts, n - 1), ts[n - 1])
  }

  // Calls i up to j that were let through.
  function Passed(ts: seq<int>, maxpps: int, i: nat, j: nat): nat
    requires i <= j <= |ts|
    decreases j
  {
    if i == j then 0
    else Passed(ts, maxpps, i, j - 1) + if Accepts(After(ts, j - 1), ts[j - 1], maxpps) then 1 else 0
  }

  // A clock that does not go back and never shows zero.
  ghost predicate Clock(ts: seq<int>) {
    && (forall i | 0 <= i < |ts| :: ts[i] > 0)
    && (forall i, j | 0 <= i < j < |ts| :: ts[i] <= ts[j])
  }

  function Limit(maxpps: int): int { if maxpps > 1 then maxpps else 1 }

  lemma {:induction false} LastInPast(ts: seq<int>, n: nat)
    requires Clock(ts) && n <= |ts|
    ensures n > 0 ==> 0 < After(ts, n).last <= ts[n - 1]
    ensures n == 0 ==> After(ts, n).last == 0
  {
    if n > 1 { LastInPast(ts, n - 1); }
  }

  // Windows begin at least a second apart.
  lemma {:induction false} WindowsApart(ts: seq<int>, m: nat, n: nat)
    requires Clock(ts) && m < n < |ts|
    requires Resets(After(ts, m), ts[m]) && Resets(After(ts, n), ts[n])
    ensures ts[n] - ts[m] >= 1_000_000
  {
    LastInPast(ts, n);
    LastSince(ts, m, n);
  }

  lemma {:induction false} LastSince(ts: seq<int>, m: nat, n: nat)
    requires Clock(ts) && m < n <= |ts| && Resets(After(ts, m), ts[m])
    ensures After(ts, n).last >= ts[m]
    decreases n
  {
    if m + 1 < n {
      LastSince(ts, m, n - 1);
    }
  }

  // Within one window at most max(1, maxpps) calls pass.
  lemma {:induction false} WindowBound(ts: seq<int>, maxpps: int, i: nat, j: nat)
    requires i <= j <= |ts| && maxpps >= 0
    requires forall k | i < k < j :: !Resets(After(ts, k), ts[k])
    ensures Passed(ts, maxpps, i, j) <= Limit(maxpps)
    ensures i < j ==> Passed(ts, maxpps, i, j) <= Min(After(ts, j).cur, Limit(maxpps))
    decreases j
  {
    if i < j {
      WindowBound(ts, maxpps, i, j - 1);
      assert i + 1 < j ==> !Resets(After(ts, j - 1), ts[j - 1]);
    }
  }

  // Two beginnings of a window make a span of at least a second.
  lemma TwoWindows(ts: seq<int>, i: nat, j: nat, m: nat, n: nat)
    requires Clock(ts) && i < m < n < j <= |ts|
    requires Resets(After(ts, m), ts[m]) && Resets(After(ts, n), ts[n])
    ensures ts[j - 1] - ts[i] >= SECOND
  {
    WindowsApart(ts, m, n);
    Later(ts, i, m);
    Later(ts, n, j - 1);
  }

  lemma Later(ts: seq<int>, a: nat, b: nat)
    requires Clock(ts) && a <= b < |ts|
    ensures ts[a] <= ts[b]
  {
  }

  // Any span shorter than a second lets at most twice that many through.
  lemma SpanBound(ts: seq<int>, maxpps: int, i: nat, j: nat)
    requires Clock(ts) && maxpps >= 0 && i < j <= |ts|
    ensures ts[j - 1] - ts[i] < 1_000_000 ==> Passed(ts, maxpps, i, j) <= 2 * Limit(maxpps)
  {
    if k :| i < k < j && Resets(After(ts, k), ts[k]) {
      if n :| i < n < j && n != k && Resets(After(ts, n), ts[n]) {
        if n < k { TwoWindows(ts, i, j, n, k); } else { TwoWindows(ts, i, j, k, n); }
      } else {
        WindowBound(ts, maxpps, i, k);
        WindowBound(ts, maxpps, k, j);
        PassedSplit(ts, maxpps, i, k, j);
      }
    } else {
      WindowBound(ts, maxpps, i, j);
    }
  }

  lemma {:induction false} PassedSplit(ts: seq<int>, maxpps: int, i: nat, k: nat, j: nat)
    requires i <= k <= j <= |ts|
    ensures Passed(ts, maxpps, i, j) == Passed(ts, maxpps, i, k) + Passed(ts, maxpps, k, j)
    decreases j
  {
    if k < j { PassedSplit(ts, maxpps, i, k, j - 1); }
  }

  // Call k begins a window.
  ghost predicate Opens(ts: seq<int>, k: int) {
    0 <= k < |ts| && Resets(After(ts, k), ts[k])
  }

  // Exactly which calls pass: with window m the last to begin, call j does if there is no
  // limit, if it begins the window, or if fewer than maxpps calls of the window came before.
  lemma WindowExact(ts: seq<int>, maxpps: int, m: nat, j: nat)
    requires m <= j < |ts| && Opens(ts, m) && forall k | m < k <= j :: !Opens(ts, k)
    ensures Accepts(After(ts, j), ts[j], maxpps) <==> maxpps < 0 || j == m || j - m < maxpps
  {
    if m < j {
      WindowCount(ts, m, j);
      assert !Opens(ts, j);
    }
  }

  lemma {:induction false} WindowCount(ts: seq<int>, m: nat, j: nat)
    requires m < j <= |ts| && Opens(ts, m) && forall k | m < k < j :: !Opens(ts, k)
    ensures After(ts, j) == State(ts[m], j - m)
    decreases j
  {
    assert After(ts, j) == Next(After(ts, j - 1), ts[j - 1]);
    if m + 1 < j {
      WindowCount(ts, m, j - 1);
      assert !Opens(ts, j - 1);
    }
  }
}
