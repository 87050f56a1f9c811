/**
  The sliding-window rate limiter. The monotonic clock's reading is a parameter; readings never decrease.
*/
module RateLimit {

  const MINUTE: real := 60.0

  predicate Ascending(s: seq<real>) {
    forall i, j :: 0 <= i <= j < |s| ==> s[i] <= s[j]
  }

  /** How many of `s` lie in the closed interval from `low` to `high`. */
  function Within(s: seq<real>, low: real, high: real): nat {
    if s == [] then 0
    else Within(s[..|s| - 1], low, high) + if low <= s[|s| - 1] <= high then 1 else 0
  }

  /** The reference policy: a call at `now` is let through when fewer than `limit` earlier ones were within a minute. */
  predicate Allows(admitted: seq<real>, now: real, limit: nat) {
    Within(admitted, now - MINUTE, now) < limit
  }

  /** The calls let through out of all `calls`. */
  function Admitted(calls: seq<real>, limit: nat): seq<real> {
    if calls == [] then []
    else
      var (earlier, now) := (Admitted(calls[..|calls| - 1], limit), calls[|calls| - 1]);
      if Allows(earlier, now, limit) then earlier + [now] else earlier
  }

  /** The entries not before `cutoff`, in order. */
  function Since(s: seq<real>, cutoff: real): seq<real> {
    if s == [] then []
    else Since(s[..|s| - 1], cutoff) + if s[|s| - 1] >= cutoff then [s[|s| - 1]] else []
  }

  /** Appending to a `deque` with a maximal length drops the oldest entry of a full one. */
  function Appended(q: seq<real>, x: real, maxlen: nat): seq<real> {
    if maxlen == 0 then [] else if |q| >= maxlen then q[|q| - maxlen + 1..] + [x] else q + [x]
  }

  class Enforcement {
    const maxCalls: nat
    const maxlen: nat
    var callTimes: seq<real>
    ghost var calls: seq<real>
    ghost var admitted: seq<real>

    ghost predicate Valid()
      reads this
    {
      && maxlen == (if maxCalls == 0 then 1 else maxCalls)
      && Ascending(calls) && admitted == Admitted(calls, maxCalls)
      && callTimes == (if calls == [] then [] else Since(Admitted(calls, maxCalls), calls[|calls| - 1] - MINUTE))
    }

    /** A negative maximal length is no `deque`. */
    constructor (maxCallsPerMinute: nat)
      ensures Valid() && maxCalls == maxCallsPerMinute && calls == [] && admitted == []
    {
      maxCalls := maxCallsPerMinute;
      maxlen := if maxCallsPerMinute == 0 then 1 else maxCallsPerMinute;
      callTimes := [];
      calls, admitted := [], [];
    }

    method AssertRateLimit(now: real) returns (ok: bool)
      requires Valid()
      requires calls != [] ==> calls[|calls| - 1] <= now
      modifies this
      ensures Valid()
      ensures maxCalls == 0 ==> ok && calls == old(calls) && callTimes == old(callTimes) && admitted == old(admitted)
      ensures maxCalls > 0 ==> calls == old(calls) + [now] && admitted == old(admitted) + if ok then [now] else []
      ensures maxCalls > 0 ==> (ok <==> |Recent(old(admitted), now - 60.0, now)| < maxCalls)
      ensures maxCalls > 0 ==> callTimes == Since(old(admitted), now - 60.0) + if ok then [now] else []
    {
      hide Ascending, Admitted, Since, Within, Allows, Recent;
      if maxCalls == 0 { return true; }
      var cutoff := now - MINUTE;
      AllowsIsCount(admitted, now, maxCalls);
      ghost var was := callTimes;
      Held(calls, callTimes, now, maxCalls);
      while callTimes != [] && callTimes[0] < cutoff
        invariant calls == old(calls) && admitted == old(admitted) && Ascending(callTimes) && Since(callTimes, cutoff) == Since(was, cutoff)
        decreases |callTimes|
      {
        DropOld(callTimes, cutoff);
        callTimes := callTimes[1..];
      }
      AllSince(callTimes, cutoff);
      OneMore(calls, now, maxCalls);
      calls := calls + [now];
      if |callTimes| >= maxCalls { return false; }
      callTimes := Appended(callTimes, now, maxlen);
      admitted := admitted + [now];
      ok := true;
    }
  }

  /** Which entries lie in the closed interval from `low` to `high`. */
  ghost function Recent(s: seq<real>, low: real, high: real): set<nat> {
    set i: nat | i < |s| && low <= s[i] && s[i] <= high
  }

  lemma {:induction false} WithinIsCount(s: seq<real>, low: real, high: real)
    ensures Within(s, low, high) == |Recent(s, low, high)|
  {
    if s == [] {
      assert Recent(s, low, high) == {};
    } else {
      var (k, front) := (|s| - 1, s[..|s| - 1]);
      WithinIsCount(front, low, high);
      assert Recent(s, low, high) == Recent(front, low, high) + if low <= s[k] <= high then {k} else {};
    }
  }

  lemma AllowsIsCount(admitted: seq<real>, now: real, limit: nat)
    ensures Allows(admitted, now, limit) <==> |Recent(admitted, now - 60.0, now)| < limit
  {
    WithinIsCount(admitted, now - 60.0, now);
  }

  lemma OneMore(calls: seq<real>, now: real, limit: nat)
    requires Ascending(calls) && (calls != [] ==> calls[|calls| - 1] <= now)
    ensures var (before, after) := (Admitted(calls, limit), Admitted(calls + [now], limit));
            && Ascending(calls + [now])
            && after == before + (if Allows(before, now, limit) then [now] else [])
            && Since(after, now - MINUTE) == Since(before, now - MINUTE) + if Allows(before, now, limit) then [now] else []
  {
    var before := Admitted(calls, limit);
    assert (calls + [now])[..|calls|] == calls;
    assert (before + [now])[..|before|] == before;
  }

  // ----- the deque holds just the last minute

  lemma {:induction false} AdmittedAscends(calls: seq<real>, limit: nat)
    requires Ascending(calls)
    ensures var a := Admitted(calls, limit); Ascending(a) && (a != [] ==> a[|a| - 1] <= calls[|calls| - 1])
  {
    if calls != [] { AdmittedAscends(calls[..|calls| - 1], limit); }
  }

  lemma {:induction false} SinceAscends(s: seq<real>, cutoff: real)
    requires Ascending(s)
    ensures var r := Since(s, cutoff); Ascending(r) && forall x :: x in r ==> x in s && x >= cutoff
  {
    if s != [] {
      var front := s[..|s| - 1];
      SinceAscends(front, cutoff);
      var r := Since(front, cutoff);
      assert forall i :: 0 <= i < |r| ==> r[i] in r;
    }
  }

  lemma {:induction false} SinceTwice(s: seq<real>, cutoff: real, later: real)
    requires cutoff <= later
    ensures Since(Since(s, cutoff), later) == Since(s, later)
  {
    if s != [] {
      var front := s[..|s| - 1];
      SinceTwice(front, cutoff, later);
      if s[|s| - 1] >= cutoff {
        var r := Since(front, cutoff);
        assert (r + [s[|s| - 1]])[..|r|] == r;
        assert Since(s, cutoff) == r + [s[|s| - 1]];
      } else {
        assert Since(s, cutoff) == Since(front, cutoff);
      }
    }
  }

  /** Trimming what the deque held leaves the admitted calls of the last minute. */
  lemma Held(calls: seq<real>, callTimes: seq<real>, now: real, limit: nat)
    requires Ascending(calls) && (calls != [] ==> calls[|calls| - 1] <= now)
    requires callTimes == if calls == [] then [] else Since(Admitted(calls, limit), calls[|calls| - 1] - MINUTE)
    ensures var recent := Since(Admitted(calls, limit), now - MINUTE);
            && Ascending(callTimes) && Since(callTimes, now - MINUTE) == recent
            && (|recent| < limit <==> Allows(Admitted(calls, limit), now, limit))
  {
    var admitted := Admitted(calls, limit);
    AdmittedAscends(calls, limit);
    CountSince(admitted, now - MINUTE, now);
    if calls != [] {
      SinceAscends(admitted, calls[|calls| - 1] - MINUTE);
      SinceTwice(admitted, calls[|calls| - 1] - MINUTE, now - MINUTE);
    }
  }

  lemma {:induction false} DropOld(s: seq<real>, cutoff: real)
    requires s != [] && s[0] < cutoff
    ensures Since(s[1..], cutoff) == Since(s, cutoff)
    ensures Ascending(s) ==> Ascending(s[1..])
  {
    if |s| > 1 {
      var front := s[..|s| - 1];
      DropOld(front, cutoff);
      assert s[1..][..|s| - 2] == front[1..];
    }
  }

  lemma {:induction false} AllSince(s: seq<real>, cutoff: real)
    requires Ascending(s) && (s != [] ==> s[0] >= cutoff)
    ensures Since(s, cutoff) == s
  {
    if s != [] { AllSince(s[..|s| - 1], cutoff); }
  }

  lemma {:induction false} CountSince(s: seq<real>, cutoff: real, now: real)
    requires Ascending(s) && (s != [] ==> s[|s| - 1] <= now)
    ensures |Since(s, cutoff)| == Within(s, cutoff, now)
  {
    if s != [] { CountSince(s[..|s| - 1], cutoff, now); }
  }

  // ----- over all runs

  lemma {:induction false} Narrower(s: seq<real>, low: real, high: real, low2: real, high2: real)
    requires forall x :: x in s && low <= x <= high ==> low2 <= x <= high2
    ensures Within(s, low, high) <= Within(s, low2, high2)
  {
    if s != [] {
      var front := s[..|s| - 1];
      assert s == front + [s[|s| - 1]];
      assert forall x :: x in front ==> x in s;
      Narrower(front, low, high, low2, high2);
      assert s[|s| - 1] in s;
    }
  }

  /** No closed minute contains more than `limit` calls let through. */
  lemma {:induction false} WindowBound(calls: seq<real>, limit: nat, low: real)
    requires Ascending(calls)
    ensures Within(Admitted(calls, limit), low, low + 60.0) <= limit
  {
    if calls != [] {
      var (front, now) := (calls[..|calls| - 1], calls[|calls| - 1]);
      var earlier := Admitted(front, limit);
      WindowBound(front, limit, low);
      AdmittedAscends(front, limit);
      assert (earlier + [now])[..|earlier|] == earlier;
      if low <= now <= low + MINUTE { Narrower(earlier, low, low + MINUTE, now - MINUTE, now); }
    }
  }

  /** A call is refused exactly when `limit` calls were let through in the minute up to it. */
  lemma RefusedIffFull(calls: seq<real>, limit: nat, now: real)
    requires Ascending(calls)
    ensures !Allows(Admitted(calls, limit), now, limit) <==> Within(Admitted(calls, limit), now - 60.0, now) == limit
  {
    WindowBound(calls, limit, now - MINUTE);
  }

  lemma {:induction false} SplitWindow(s: seq<real>, low: real, mid: real, high: real)
    ensures Within(s, low, high) <= Within(s, low, mid) + Within(s, mid, high)
  {
    if s != [] { SplitWindow(s[..|s| - 1], low, mid, high); }
  }

  /** Over `minutes` minutes at most `minutes` times `limit` calls get through. */
  lemma {:induction false} LongWindowBound(calls: seq<real>, limit: nat, low: real, minutes: nat)
    requires Ascending(calls) && minutes > 0
    ensures Within(Admitted(calls, limit), low, low + 60.0 * minutes as real) <= limit * minutes
  {
    if minutes == 1 {
      WindowBound(calls, limit, low);
    } else {
      var mid := low + MINUTE * (minutes - 1) as real;
      LongWindowBound(calls, limit, low, minutes - 1);
      WindowBound(calls, limit, mid);
      assert mid + MINUTE == low + MINUTE * minutes as real;
      SplitWindow(Admitted(calls, limit), low, mid, mid + MINUTE);
      assert limit * (minutes - 1) + limit == limit * minutes;
    }
  }

  /** At any moment of a limiter's life, no closed minute contains more than its limit of calls let through. */
  lemma NeverMore(e: Enforcement, low: real)
    requires e.Valid() && e.maxCalls > 0
    ensures |Recent(e.admitted, low, low + 60.0)| <= e.maxCalls
    ensures |e.callTimes| <= e.maxCalls == e.maxlen
  {
    WindowBound(e.calls, e.maxCalls, low);
    WithinIsCount(e.admitted, low, low + 60.0);
    if e.calls != [] {
      var now := e.calls[|e.calls| - 1];
      WindowBound(e.calls, e.maxCalls, now - 60.0);
      AdmittedAscends(e.calls, e.maxCalls);
      CountSince(e.admitted, now - 60.0, now);
    }
  }
}
