/** Three-state circuit breaker: `resilience/circuit_breaker.py`. */
module CircuitBreaker {
  import opened Wrappers

  datatype Mode = Closed | Open | HalfOpen

  datatype Config = Config(threshold: int, recovery: int) {
    predicate Valid() { threshold >= 1 && recovery > 0 }
  }

  datatype State = State(mode: Mode, failures: int, openedAt: Option<int>)

  const FRESH := State(Closed, 0, None)

  predicate Admits(c: Config, s: State, now: int) {
    s.mode.Open? && s.openedAt.Some? ==> now - s.openedAt.value >= c.recovery
  }

  function Called(c: Config, s: State, now: int): State {
    if s.mode.Open? && Admits(c, s, now) then s.(mode := HalfOpen) else s
  }

  function Tripped(s: State, now: int): State {
    s.(mode := Open, openedAt := Some(now))
  }

  function Failed(c: Config, s: State, now: int): State {
    if s.mode.HalfOpen? then Tripped(s, now)
    else if s.failures + 1 >= c.threshold then Tripped(s.(failures := s.failures + 1), now)
    else s.(failures := s.failures + 1)
  }

  class CircuitBreaker {
    const config: Config
    var mode: Mode
    var failures: int
    var openedAt: Option<int>

    constructor (config: Config)
      requires config.Valid()
      ensures this.config == config && View() == FRESH
    {
      this.config := config;
      mode, failures, openedAt := Closed, 0, None;
    }

    function View(): State
      reads this
    {
      State(mode, failures, openedAt)
    }

    /** Returns whether the call may proceed; `false` is the "breaker is open" error. */
    method BeforeCall(now: int) returns (admitted: bool)
      requires mode.Open? ==> openedAt.Some?
      modifies this
      ensures admitted == Admits(config, old(View()), now)
      ensures View() == Called(config, old(View()), now)
    {
      if mode.Open? {
        assert openedAt.Some?;
        var elapsed := now - openedAt.value;
        if elapsed >= config.recovery {
          mode := HalfOpen;
          return true;
        }
        return false;
      }
      return true;
    }

    method RecordSuccess()
      modifies this
      ensures View() == FRESH
    {
      mode, failures, openedAt := Closed, 0, None;
    }

    method TripOpen(now: int)
      modifies this
      ensures View() == Tripped(old(View()), now)
    {
      mode, openedAt := Open, Some(now);
    }

    method RecordFailure(now: int)
      modifies this
      ensures View() == Failed(config, old(View()), now)
    {
      if mode.HalfOpen? {
        TripOpen(now);
        return;
      }
      failures := failures + 1;
      if failures >= config.threshold { TripOpen(now); }
    }
  }

  // ---------- the history and the stateless rule ----------

  datatype Event = CallAt(now: int) | SuccessAt(now: int) | FailureAt(now: int)

  function Step(c: Config, s: State, e: Event): State {
    match e
    case CallAt(now) => Called(c, s, now)
    case SuccessAt(_) => FRESH
    case FailureAt(now) => Failed(c, s, now)
  }

  function Replay(c: Config, history: seq<Event>): State {
    if history == [] then FRESH else Step(c, Replay(c, history[..|history| - 1]), history[|history| - 1])
  }

  lemma ReplaySnoc(c: Config, history: seq<Event>, e: Event)
    ensures Replay(c, history + [e]) == Step(c, Replay(c, history), e)
  {
    assert (history + [e])[..|history|] == history;
  }

  predicate Nondecreasing(history: seq<Event>) {
    forall i, j :: 0 <= i < j < |history| ==> history[i].now <= history[j].now
  }

  function FailuresSinceSuccess(history: seq<Event>): nat {
    if history == [] then 0 else
      var before := FailuresSinceSuccess(history[..|history| - 1]);
      match history[|history| - 1]
      case CallAt(_) => before
      case SuccessAt(_) => 0
      case FailureAt(_) => before + 1
  }

  function LatestFailure(history: seq<Event>): Option<int> {
    if history == [] then None
    else if history[|history| - 1].FailureAt? then Some(history[|history| - 1].now)
    else LatestFailure(history[..|history| - 1])
  }

  /** Enough failures since the last success, the latest of them less than the recovery time ago. */
  predicate RuleRejects(c: Config, history: seq<Event>, now: int) {
    && FailuresSinceSuccess(history) >= c.threshold
    && LatestFailure(history).Some? && now - LatestFailure(history).value < c.recovery
  }

  lemma {:induction false} StateFollowsHistory(c: Config, history: seq<Event>)
    requires c.Valid() && Nondecreasing(history)
    ensures var s, f, latest := Replay(c, history), FailuresSinceSuccess(history), LatestFailure(history);
            && (f > 0 ==> latest.Some?)
            && (s.mode.Closed? ==> s.failures == f < c.threshold && s.openedAt == None)
            && (!s.mode.Closed? ==> s.failures >= c.threshold && f >= c.threshold && s.openedAt == latest && latest.Some?)
            && (s.mode.HalfOpen? ==> history != [] && history[|history| - 1].now - latest.value >= c.recovery)
  {
    if history != [] {
      StateFollowsHistory(c, history[..|history| - 1]);
    }
  }

  /** A closed breaker is one without an opening time, which is one below its failure threshold. */
  lemma ClosedIffBelowThreshold(c: Config, history: seq<Event>)
    requires c.Valid() && Nondecreasing(history)
    ensures var s := Replay(c, history);
            (s.mode.Closed? <==> s.openedAt.None?) && (s.mode.Closed? <==> s.failures < c.threshold)
            && (s.mode.Closed? <==> FailuresSinceSuccess(history) < c.threshold)
  {
    StateFollowsHistory(c, history);
  }

  /** With a nondecreasing clock the three-state machine rejects exactly the calls the stateless rule rejects. */
  lemma BreakerRefinesRule(c: Config, history: seq<Event>, now: int)
    requires c.Valid() && Nondecreasing(history) && (history != [] ==> history[|history| - 1].now <= now)
    ensures !Admits(c, Replay(c, history), now) <==> RuleRejects(c, history, now)
  {
    StateFollowsHistory(c, history);
  }

  function Failures(n: nat, now: int): seq<Event> {
    seq(n, _ => FailureAt(now))
  }

  lemma {:induction false} FailuresCount(n: nat, now: int)
    ensures FailuresSinceSuccess(Failures(n, now)) == n
    ensures LatestFailure(Failures(n, now)) == if n == 0 then None else Some(now)
  {
    if n > 0 {
      assert Failures(n, now)[..n - 1] == Failures(n - 1, now);
      FailuresCount(n - 1, now);
    }
  }

  /** The clock matters: for any configuration, a half-open breaker admits a call dated back, which the rule rejects. */
  lemma BackwardClockBreaksRule(c: Config)
    requires c.Valid()
    ensures var history := Failures(c.threshold, 0) + [CallAt(c.recovery)];
            Nondecreasing(history) && Admits(c, Replay(c, history), 0) && RuleRejects(c, history, 0)
  {
    var failures := Failures(c.threshold, 0);
    FailuresCount(c.threshold, 0);
    StateFollowsHistory(c, failures);
    ReplaySnoc(c, failures, CallAt(c.recovery));
    assert (failures + [CallAt(c.recovery)])[..|failures|] == failures;
  }
}
