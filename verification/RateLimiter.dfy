/** Fixed-window rate limiter: `resilience/rate_limiter.py`. */
module RateLimiter {

  datatype Config = Config(maxRequests: int, window: int) {
    predicate Valid() { maxRequests >= 1 && window > 0 }
  }

  datatype Counter = Counter(window: int, count: int)

  type Counters = map<string, Counter>

  /** `floor(now / window)`; Dafny's division by a positive number is the floor for every reading. */
  function WindowIndex(c: Config, now: int): int
    requires c.Valid()
  {
    now / c.window
  }

  function CountFor(counters: Counters, key: string, windowIndex: int): int {
    if key in counters && counters[key].window == windowIndex then counters[key].count else 0
  }

  predicate Admits(c: Config, counters: Counters, key: string, now: int)
    requires c.Valid()
  {
    CountFor(counters, key, WindowIndex(c, now)) < c.maxRequests
  }

  function Allowed(c: Config, counters: Counters, key: string, now: int): Counters
    requires c.Valid()
  {
    var w := WindowIndex(c, now);
    if Admits(c, counters, key, now) then counters[key := Counter(w, CountFor(counters, key, w) + 1)] else counters
  }

  function RetryAfter(c: Config, now: int): int
    requires c.Valid()
  {
    var remaining := (WindowIndex(c, now) + 1) * c.window - now;
    if remaining > 0 then remaining else 0
  }

  class FixedWindowRateLimiter {
    const config: Config
    var counters: Counters

    constructor (config: Config)
      requires config.Valid()
      ensures this.config == config && counters == map[]
    {
      this.config, counters := config, map[];
    }

    /** The decision without its effect. */
    method DecisionFor(key: string, now: int) returns (allowed: bool, retryAfter: int)
      requires config.Valid()
      ensures allowed == Admits(config, counters, key, now)
      ensures retryAfter == if allowed then 0 else RetryAfter(config, now)
    {
      var w := WindowIndex(config, now);
      var count := CountFor(counters, key, w);
      if count < config.maxRequests { return true, 0; }
      return false, RetryAfter(config, now);
    }

    /** Returns whether the request is admitted; on rejection also how long to wait. */
    method Allow(key: string, now: int) returns (allowed: bool, retryAfter: int)
      requires config.Valid()
      modifies this
      ensures allowed == Admits(config, old(counters), key, now)
      ensures counters == Allowed(config, old(counters), key, now)
      ensures retryAfter == if allowed then 0 else RetryAfter(config, now)
    {
      var w := WindowIndex(config, now);
      var count := CountFor(counters, key, w);
      if count >= config.maxRequests { return false, RetryAfter(config, now); }
      counters := counters[key := Counter(w, count + 1)];
      return true, 0;
    }
  }

  // ---------- the full admission history ----------

  datatype Call = Call(key: string, now: int)

  function Replay(c: Config, calls: seq<Call>): Counters
    requires c.Valid()
  {
    if calls == [] then map[] else
      var last := calls[|calls| - 1];
      Allowed(c, Replay(c, calls[..|calls| - 1]), last.key, last.now)
  }

  predicate Nondecreasing(calls: seq<Call>) {
    forall i, j :: 0 <= i < j < |calls| ==> calls[i].now <= calls[j].now
  }

  /** How many calls with this key were admitted in the half-open interval. */
  function AdmittedIn(c: Config, calls: seq<Call>, key: string, lo: int, hi: int): nat
    requires c.Valid()
  {
    if calls == [] then 0 else
      var before, last := calls[..|calls| - 1], calls[|calls| - 1];
      AdmittedIn(c, before, key, lo, hi)
      + if last.key == key && lo <= last.now < hi && Admits(c, Replay(c, before), key, last.now) then 1 else 0
  }

  function AdmittedInWindow(c: Config, calls: seq<Call>, key: string, w: int): nat
    requires c.Valid()
  {
    AdmittedIn(c, calls, key, w * c.window, (w + 1) * c.window)
  }

  lemma InWindow(c: Config, now: int, w: int)
    requires c.Valid()
    ensures w * c.window <= now < (w + 1) * c.window <==> WindowIndex(c, now) == w
  {
    var q, r := now / c.window, now % c.window;
    assert now == q * c.window + r && 0 <= r < c.window;
    MulSucc(q, c.window);
    MulSucc(w, c.window);
    if q < w { MulLeq(c.window, q + 1, w); }
    if w < q { MulLeq(c.window, w + 1, q); }
  }

  lemma MulSucc(a: int, r: int)
    ensures (a + 1) * r == a * r + r
  {
  }

  lemma MulLeq(r: int, a: int, b: int)
    requires r >= 0 && a <= b
    ensures a * r <= b * r
  {
  }

  /** One stored pair per key is the count of the latest window in which the key was admitted. */
  lemma {:induction false} CountersFollowHistory(c: Config, calls: seq<Call>, key: string, w: int)
    requires c.Valid() && Nondecreasing(calls)
    ensures AdmittedInWindow(c, calls, key, w) <= c.maxRequests
    ensures var counters := Replay(c, calls);
            && (key in counters && counters[key].window == w ==> counters[key].count == AdmittedInWindow(c, calls, key, w))
            && (key in counters && counters[key].window < w ==> AdmittedInWindow(c, calls, key, w) == 0)
            && (key !in counters ==> AdmittedInWindow(c, calls, key, w) == 0)
            && (key in counters ==> calls != [] && counters[key].window <= WindowIndex(c, calls[|calls| - 1].now))
  {
    if calls != [] {
      var before, last := calls[..|calls| - 1], calls[|calls| - 1];
      CountersFollowHistory(c, before, key, w);
      InWindow(c, last.now, w);
      if before != [] { WindowMonotone(c, before[|before| - 1].now, last.now); }
    }
  }

  lemma WindowMonotone(c: Config, a: int, b: int)
    requires c.Valid() && a <= b
    ensures WindowIndex(c, a) <= WindowIndex(c, b)
  {
    InWindow(c, a, WindowIndex(c, a));
    InWindow(c, b, WindowIndex(c, b));
    if WindowIndex(c, b) < WindowIndex(c, a) {
      MulLeq(c.window, WindowIndex(c, b) + 1, WindowIndex(c, a));
    }
  }

  /** Refinement: a request is admitted exactly when its own window has admitted fewer than the maximum so far. */
  lemma LimiterRefinesHistory(c: Config, calls: seq<Call>, key: string, now: int)
    requires c.Valid() && Nondecreasing(calls) && (calls != [] ==> calls[|calls| - 1].now <= now)
    ensures Admits(c, Replay(c, calls), key, now)
            <==> AdmittedInWindow(c, calls, key, WindowIndex(c, now)) < c.maxRequests
  {
    CountersFollowHistory(c, calls, key, WindowIndex(c, now));
    if calls != [] { WindowMonotone(c, calls[|calls| - 1].now, now); }
  }

  lemma {:induction false} AdmittedSplits(c: Config, calls: seq<Call>, key: string, a: int, b: int, d: int)
    requires c.Valid() && a <= b <= d
    ensures AdmittedIn(c, calls, key, a, d) == AdmittedIn(c, calls, key, a, b) + AdmittedIn(c, calls, key, b, d)
  {
    if calls != [] { AdmittedSplits(c, calls[..|calls| - 1], key, a, b, d); }
  }

  lemma {:induction false} AdmittedOverWindows(c: Config, calls: seq<Call>, key: string, w: int, n: nat)
    requires c.Valid() && Nondecreasing(calls)
    ensures AdmittedIn(c, calls, key, w * c.window, (w + n) * c.window) <= n * c.maxRequests
    decreases n
  {
    if n == 0 {
      EmptyInterval(c, calls, key, w * c.window);
    } else {
      AdmittedOverWindows(c, calls, key, w, n - 1);
      CountersFollowHistory(c, calls, key, w + n - 1);
      MulLeq(c.window, w, w + n - 1);
      MulLeq(c.window, w + n - 1, w + n);
      AdmittedSplits(c, calls, key, w * c.window, (w + n - 1) * c.window, (w + n) * c.window);
      MulSucc(n - 1, c.maxRequests);
    }
  }

  lemma {:induction false} EmptyInterval(c: Config, calls: seq<Call>, key: string, a: int)
    requires c.Valid()
    ensures AdmittedIn(c, calls, key, a, a) == 0
  {
    if calls != [] { EmptyInterval(c, calls[..|calls| - 1], key, a); }
  }

  function CeilDiv(a: nat, b: int): nat
    requires b > 0
  {
    (a + b - 1) / b
  }

  /** Any half-open interval of length L admits at most (ceil(L / window) + 1) * maximum requests per key. */
  lemma IntervalBound(c: Config, calls: seq<Call>, key: string, start: int, length: nat)
    requires c.Valid() && Nondecreasing(calls)
    ensures AdmittedIn(c, calls, key, start, start + length) <= (CeilDiv(length, c.window) + 1) * c.maxRequests
  {
    var w, n := WindowIndex(c, start), CeilDiv(length, c.window) + 1;
    InWindow(c, start, w);
    var lo, hi := w * c.window, (w + n) * c.window;
    CeilCovers(length, c.window);
    assert hi == (w + 1) * c.window + (n - 1) * c.window;
    AdmittedOverWindows(c, calls, key, w, n);
    AdmittedSplits(c, calls, key, lo, start, hi);
    AdmittedSplits(c, calls, key, start, start + length, hi);
  }

  lemma CeilCovers(a: nat, b: int)
    requires b > 0
    ensures a <= CeilDiv(a, b) * b
  {
    var s := a + b - 1;
    assert s == (s / b) * b + s % b;
  }

  /** At most twice the maximum in any stretch as long as one window. */
  lemma TwiceTheMaximum(c: Config, calls: seq<Call>, key: string, start: int)
    requires c.Valid() && Nondecreasing(calls)
    ensures AdmittedIn(c, calls, key, start, start + c.window) <= 2 * c.maxRequests
  {
    IntervalBound(c, calls, key, start, c.window);
    InWindow(Config(1, c.window), c.window + c.window - 1, 1);
  }

  lemma {:induction false} NoneAdmittedLater(c: Config, calls: seq<Call>, key: string, lo: int, hi: int)
    requires c.Valid() && forall i :: 0 <= i < |calls| ==> calls[i].now < lo
    ensures AdmittedIn(c, calls, key, lo, hi) == 0
  {
    if calls != [] { NoneAdmittedLater(c, calls[..|calls| - 1], key, lo, hi); }
  }

  /** The reported wait is positive and ends exactly where the next window starts. */
  lemma WindowEnd(c: Config, now: int, wait: int) returns (w: int)
    requires c.Valid() && wait == RetryAfter(c, now)
    ensures wait > 0 && w == WindowIndex(c, now) + 1
    ensures now + wait == w * c.window && WindowIndex(c, now + wait) == w
  {
    w := WindowIndex(c, now) + 1;
    InWindow(c, now, w - 1);
    MulSucc(w, c.window);
    InWindow(c, w * c.window, w);
  }

  ghost predicate AllEarlier(calls: seq<Call>, end: int) {
    Nondecreasing(calls) && forall i :: 0 <= i < |calls| ==> calls[i].now < end
  }

  /** `end` is the first moment of some window. */
  ghost predicate StartsWindow(c: Config, end: int)
    requires c.Valid()
  {
    exists w :: end == w * c.window && WindowIndex(c, end) == w
  }

  lemma AdmittedAtWindowStart(c: Config, calls: seq<Call>, key: string, end: int)
    requires c.Valid() && AllEarlier(calls, end) && StartsWindow(c, end)
    ensures Admits(c, Replay(c, calls), key, end)
  {
    var w :| end == w * c.window && WindowIndex(c, end) == w;
    NoneAdmittedLater(c, calls, key, end, (w + 1) * c.window);
    LimiterRefinesHistory(c, calls, key, end);
  }

  lemma WaitEndsAtWindowStart(c: Config, now: int, end: int)
    requires c.Valid() && end == now + RetryAfter(c, now)
    ensures now < end && StartsWindow(c, end)
  {
    var w := WindowEnd(c, now, end - now);
  }

  /** A caller that waits exactly the reported time is admitted, whatever other calls came before that moment. */
  lemma WaitingIsEnough(c: Config, calls: seq<Call>, now: int, end: int, between: seq<Call>, key: string)
    requires c.Valid() && Nondecreasing(calls + between) && (calls != [] ==> calls[|calls| - 1].now <= now)
    requires end == now + RetryAfter(c, now) && forall i :: 0 <= i < |between| ==> between[i].now < end
    ensures now < end && Admits(c, Replay(c, calls + between), key, end)
  {
    WaitEndsAtWindowStart(c, now, end);
    AllBefore(calls, now, between, end);
    AdmittedAtWindowStart(c, calls + between, key, end);
  }

  lemma AllBefore(calls: seq<Call>, now: int, between: seq<Call>, end: int)
    requires Nondecreasing(calls + between) && (calls != [] ==> calls[|calls| - 1].now <= now) && now < end
    requires forall i :: 0 <= i < |between| ==> between[i].now < end
    ensures AllEarlier(calls + between, end)
  {
    var all := calls + between;
    forall i | 0 <= i < |all| ensures all[i].now < end {
      if i < |calls| { assert all[i].now <= all[|calls| - 1].now; }
    }
  }
}
