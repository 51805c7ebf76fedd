/** One budget per packet: `resilience/deadline.py`, `resilience/timeout_policy.py` and the worker budget of `routing/dispatch.py`. */
module PacketBudget {
  import opened Wrappers

  function Max(a: real, b: real): real { if a >= b then a else b }

  function Min(a: real, b: real): real { if a <= b then a else b }

  /** Seconds on a monotonic clock. */
  datatype Deadline = Deadline(total: real, startedAt: real) {
    function Elapsed(now: real): real {
      Max(0.0, now - startedAt)
    }

    function Remaining(now: real): real {
      Max(0.0, total - Elapsed(now))
    }

    predicate Expired(now: real) {
      Remaining(now) <= 0.0
    }

    function BoundedBy(cap: real, now: real): real {
      Min(Remaining(now), cap)
    }

    /** The moment at which the budget is spent. */
    function End(): real {
      startedAt + total
    }
  }

  datatype DeadlineExceeded = DeadlineExceeded

  /** A configured timeout of at least one millisecond. */
  type Millis = n: int | n >= 1 witness 1

  datatype TimeoutPolicy = TimeoutPolicy(defaultTimeoutMs: int, responseMarginMs: int) {
    predicate Valid() {
      defaultTimeoutMs >= 1 && responseMarginMs >= 0
    }

    /** `None` and `0` both mean the default. */
    function Advertised(timeoutMs: Option<int>): int {
      if timeoutMs.None? || timeoutMs.value == 0 then defaultTimeoutMs else timeoutMs.value
    }

    predicate MarginApplies(timeoutMs: Option<int>) {
      responseMarginMs != 0 && Advertised(timeoutMs) > 2 * responseMarginMs
    }

    function BudgetMs(timeoutMs: Option<int>): int {
      if MarginApplies(timeoutMs) then Advertised(timeoutMs) - responseMarginMs else Advertised(timeoutMs)
    }

    function DeadlineFor(timeoutMs: Option<int>, now: real): Deadline {
      Deadline(BudgetMs(timeoutMs) as real / 1000.0, now)
    }
  }

  /** `int(x)` of a number that is not negative. */
  function Truncated(x: real): int
    requires x >= 0.0
  {
    x.Floor
  }

  /** `_worker_budget_ms`; the clock is read once for the expiry check and once more, later, for the remainder. */
  function WorkerBudgetMs(nodeTimeoutMs: Millis, deadline: Option<Deadline>, checkedAt: real, now: real): Result<int, DeadlineExceeded>
  {
    var cap := nodeTimeoutMs as real / 1000.0;
    if deadline.Some? && deadline.value.Expired(checkedAt) then Failure(DeadlineExceeded)
    else
      var seconds := if deadline.None? then cap else deadline.value.BoundedBy(cap, now);
      var ms := Truncated(seconds * 1000.0);
      if ms <= 0 then Failure(DeadlineExceeded) else Success(ms)
  }

  /** Without a deadline the worker gets the node's whole cap. */
  lemma NoDeadlineWholeCap(nodeTimeoutMs: Millis, checkedAt: real, now: real)
    ensures WorkerBudgetMs(nodeTimeoutMs, None, checkedAt, now) == Success(nodeTimeoutMs)
  {
    assert nodeTimeoutMs as real / 1000.0 * 1000.0 == nodeTimeoutMs as real;
  }

  lemma TruncationIsLargest(x: real, n: int)
    requires x >= 0.0
    ensures n <= Truncated(x) <==> n as real <= x
  {
    if n <= x.Floor {
      assert n as real <= x.Floor as real;
    } else {
      assert n as real >= (x.Floor + 1) as real;
    }
  }

  /** A worker is given the most whole milliseconds that fit both the node cap and the packet's remaining budget, or none fit. */
  lemma WorkerBudgetIsLargest(nodeTimeoutMs: Millis, d: Deadline, checkedAt: real, now: real, n: int)
    requires d.startedAt <= checkedAt <= now && n >= 1
    ensures n <= nodeTimeoutMs && now + n as real / 1000.0 <= d.End()
            <==> WorkerBudgetMs(nodeTimeoutMs, Some(d), checkedAt, now).Success?
                 && n <= WorkerBudgetMs(nodeTimeoutMs, Some(d), checkedAt, now).value
  {
    var seconds := d.BoundedBy(nodeTimeoutMs as real / 1000.0, now);
    TruncationIsLargest(seconds * 1000.0, n);
    assert n as real <= nodeTimeoutMs as real <==> n <= nodeTimeoutMs;
  }

  /** The wait a packet asks for: its timeout, where none and zero both mean the configured default. */
  ghost predicate AsksFor(p: TimeoutPolicy, timeoutMs: Option<int>, asked: int) {
    match timeoutMs
    case None => asked == p.defaultTimeoutMs
    case Some(ms) => if ms == 0 then asked == p.defaultTimeoutMs else asked == ms
  }

  /** The margin is kept in full when it fits twice into what was asked, else not at all; Gate always keeps more than half. */
  lemma GateBudgetBounds(p: TimeoutPolicy, timeoutMs: Option<int>, asked: int)
    requires p.Valid() && AsksFor(p, timeoutMs, asked) && asked >= 1
    ensures p.Advertised(timeoutMs) == asked
    ensures 1 <= p.BudgetMs(timeoutMs) <= asked < 2 * p.BudgetMs(timeoutMs)
    ensures asked > 2 * p.responseMarginMs ==> p.BudgetMs(timeoutMs) + p.responseMarginMs == asked
    ensures asked <= 2 * p.responseMarginMs ==> p.BudgetMs(timeoutMs) == asked
  {
  }

  /** A deadline expires exactly at its end, and until then what remains is the time to its end. */
  lemma ExpiresAtEnd(d: Deadline, now: real)
    requires d.startedAt <= now
    ensures d.Expired(now) <==> d.End() <= now
    ensures !d.Expired(now) ==> now + d.Remaining(now) == d.End()
    ensures d.Expired(now) ==> d.Remaining(now) == 0.0
  {
  }

  /** What every worker timeout chosen under one packet's deadline satisfies. */
  predicate WithinPacket(p: TimeoutPolicy, timeoutMs: Option<int>, start: real, nodeTimeoutMs: int, now: real, workerMs: int) {
    var asked := if timeoutMs.None? || timeoutMs.value == 0 then p.defaultTimeoutMs else timeoutMs.value;
    && 1 <= workerMs <= nodeTimeoutMs
    && now + workerMs as real / 1000.0 <= start + p.BudgetMs(timeoutMs) as real / 1000.0
    && now + workerMs as real / 1000.0 <= start + asked as real / 1000.0
    && (asked > 2 * p.responseMarginMs
        ==> now + workerMs as real / 1000.0 + p.responseMarginMs as real / 1000.0 <= start + asked as real / 1000.0)
  }

  /** For every packet, clock reading and node: the worker finishes or times out inside Gate's wait, margin and all. */
  lemma WorkerTimeoutWithinPacket(p: TimeoutPolicy, timeoutMs: Option<int>, start: real, nodeTimeoutMs: Millis, checkedAt: real, now: real)
    requires p.Valid() && p.Advertised(timeoutMs) >= 1 && start <= checkedAt <= now
    ensures var r := WorkerBudgetMs(nodeTimeoutMs, Some(p.DeadlineFor(timeoutMs, start)), checkedAt, now);
            r.Success? ==> WithinPacket(p, timeoutMs, start, nodeTimeoutMs, now, r.value)
  {
    var d := p.DeadlineFor(timeoutMs, start);
    var r := WorkerBudgetMs(nodeTimeoutMs, Some(d), checkedAt, now);
    if r.Success? {
      WorkerBudgetIsLargest(nodeTimeoutMs, d, checkedAt, now, r.value);
      GateBudgetBounds(p, timeoutMs, p.Advertised(timeoutMs));
      assert p.BudgetMs(timeoutMs) as real <= p.Advertised(timeoutMs) as real;
    }
  }

  /** Exactly the timeouts that fit the node's cap and end early enough for the response, read off the packet's own fields. */
  lemma WorkerGetsWhatFits(
    p: TimeoutPolicy, timeoutMs: Option<int>, asked: int, start: real, nodeTimeoutMs: Millis, checkedAt: real, now: real, n: int)
    requires p.Valid() && AsksFor(p, timeoutMs, asked) && asked >= 1 && start <= checkedAt <= now && n >= 1
    ensures var r := WorkerBudgetMs(nodeTimeoutMs, Some(p.DeadlineFor(timeoutMs, start)), checkedAt, now);
            var kept := if asked > 2 * p.responseMarginMs then p.responseMarginMs else 0;
            r.Success? && n <= r.value
            <==> n <= nodeTimeoutMs && now + n as real / 1000.0 + kept as real / 1000.0 <= start + asked as real / 1000.0
  {
    GateBudgetBounds(p, timeoutMs, asked);
    WorkerBudgetIsLargest(nodeTimeoutMs, p.DeadlineFor(timeoutMs, start), checkedAt, now, n);
    var kept := if asked > 2 * p.responseMarginMs then p.responseMarginMs else 0;
    assert p.BudgetMs(timeoutMs) as real == asked as real - kept as real;
  }
}
