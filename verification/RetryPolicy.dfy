/** Retries under one deadline: `resilience/retry_policy.py` and `resilience/replay_safety.py`. */
module RetryPolicy {
  import opened Wrappers
  import opened PacketBudget
  import Text

  // ---------- how many attempts ----------

  /** Empty in the program; every statement below is about any such set. */
  const GATE_REPLAY_SAFE_ACTIONS: set<string> := {}
  const DEFAULT_MAX_ATTEMPTS := 1
  const REPLAY_SAFE_MAX_ATTEMPTS := 3

  function MaxAttemptsFor(safeActions: set<string>, action: string, hasKey: bool): int {
    if Text.Normalize(action) !in safeActions then DEFAULT_MAX_ATTEMPTS
    else if !hasKey then DEFAULT_MAX_ATTEMPTS
    else REPLAY_SAFE_MAX_ATTEMPTS
  }

  datatype Policy = Policy(maxAttempts: int, delay: real, multiplier: real) {
    predicate Valid() {
      maxAttempts >= 1 && delay >= 0.0 && multiplier >= 1.0
    }
  }

  /** `_retry_policy_for`: the template is a ceiling; a key of blanks still counts as a key here. */
  function PolicyFor(template: Policy, safeActions: set<string>, action: string, key: Option<string>): Policy {
    var resolved := MaxAttemptsFor(safeActions, action, key.Some? && key.value != "");
    var effective := if resolved <= template.maxAttempts then resolved else template.maxAttempts;
    if effective == template.maxAttempts then template else Policy(effective, template.delay, template.multiplier)
  }

  /** Exactly min(3, ceiling) attempts for a declared action that carries a key, exactly one for any other; delays as configured. */
  lemma AttemptBudget(template: Policy, safeActions: set<string>, action: string, key: Option<string>)
    requires template.Valid()
    ensures var p := PolicyFor(template, safeActions, action, key);
            && p.Valid() && p.delay == template.delay && p.multiplier == template.multiplier
            && (if Text.Normalize(action) in safeActions && key.Some? && key.value != "" then
                  p.maxAttempts == if template.maxAttempts < 3 then template.maxAttempts else 3
                else p.maxAttempts == 1)
            && (safeActions == GATE_REPLAY_SAFE_ACTIONS ==> p.maxAttempts == 1)
  {
  }

  // ---------- the run ----------

  datatype Outcome<+T, +E> = Returned(value: T) | Raised(error: E)

  /** One call of the wrapped function, starting at a given time: how long it takes and how it ends. */
  datatype Attempt<+T, +E> = Attempt(duration: real, outcome: Outcome<T, E>)

  /** What the policy cannot see: the calls, how long a sleep really takes, and which errors are retryable. */
  datatype Environment<!T, !E> = Environment(
    call: (int, real) -> Attempt<T, E>,
    sleep: (int, real) -> real,
    retryable: E -> bool)

  /** Time passes forward, and a sleep takes at least its delay. */
  ghost predicate Sound<T(!new), E(!new)>(env: Environment<T, E>) {
    && (forall k, now :: env.call(k, now).duration >= 0.0)
    && (forall k, delay :: env.sleep(k, delay) >= delay)
  }

  function Power(x: real, n: nat): real {
    if n == 0 then 1.0 else x * Power(x, n - 1)
  }

  predicate ShouldRetry(p: Policy, attempt: int, retryable: bool) {
    retryable && attempt < p.maxAttempts
  }

  function DelayAfter(p: Policy, attempt: int): real
    requires attempt >= 1
  {
    p.delay * Power(p.multiplier, attempt - 1)
  }

  /** The starts of the attempts, the delays slept, how the run ended and when. */
  datatype Trace<T, E> = Trace(result: Outcome<T, E>, starts: seq<real>, delays: seq<real>, end: real)

  /** One pass of the loop: the run ends, or goes on at a later time. */
  datatype Pass<T, E> = Stop(result: Outcome<T, E>, delays: seq<real>, end: real) | Again(delays: seq<real>, next: real)

  function OnePass<T, E>(p: Policy, env: Environment<T, E>, deadline: Option<Deadline>, attempt: int, now: real): Pass<T, E>
    requires p.Valid() && 1 <= attempt <= p.maxAttempts
  {
    var a := env.call(attempt, now);
    var after := now + a.duration;
    if a.outcome.Returned? || !ShouldRetry(p, attempt, env.retryable(a.outcome.error)) then Stop(a.outcome, [], after)
    else
      var delay := DelayAfter(p, attempt);
      if deadline.Some? && delay >= deadline.value.Remaining(after) then Stop(a.outcome, [], after)
      else
        var awake, delays := if delay > 0.0 then after + env.sleep(attempt, delay) else after, if delay > 0.0 then [delay] else [];
        if deadline.Some? && deadline.value.Expired(awake) then Stop(a.outcome, delays, awake) else Again(delays, awake)
  }

  function RunFrom<T, E>(p: Policy, env: Environment<T, E>, deadline: Option<Deadline>, attempt: int, now: real): Trace<T, E>
    requires p.Valid() && 1 <= attempt <= p.maxAttempts
    decreases p.maxAttempts - attempt
  {
    match OnePass(p, env, deadline, attempt, now)
    case Stop(result, delays, end) => Trace(result, [now], delays, end)
    case Again(delays, next) =>
      var rest := RunFrom(p, env, deadline, attempt + 1, next);
      Trace(rest.result, [now] + rest.starts, delays + rest.delays, rest.end)
  }

  /** The body of the loop. */
  method TryOnce<T, E>(p: Policy, env: Environment<T, E>, deadline: Option<Deadline>, attempt: int, start: real)
    returns (pass: Pass<T, E>)
    requires p.Valid() && 1 <= attempt <= p.maxAttempts
    ensures pass == OnePass(p, env, deadline, attempt, start)
  {
    var a := env.call(attempt, start);
    var now := start + a.duration;
    if a.outcome.Returned? { return Stop(a.outcome, [], now); }
    if !ShouldRetry(p, attempt, env.retryable(a.outcome.error)) { return Stop(a.outcome, [], now); }
    var delay, delays := DelayAfter(p, attempt), [];
    if deadline.Some? && delay >= deadline.value.Remaining(now) { return Stop(a.outcome, [], now); }
    if delay > 0.0 {
      delays := [delay];
      now := now + env.sleep(attempt, delay);
    }
    if deadline.Some? && deadline.value.Expired(now) { return Stop(a.outcome, delays, now); }
    return Again(delays, now);
  }

  /** `run`: every pass leaves or goes on to a further permitted attempt, so the raise after the loop is dead code. */
  method Run<T, E>(p: Policy, env: Environment<T, E>, deadline: Option<Deadline>, start: real) returns (t: Trace<T, E>)
    requires p.Valid()
    ensures t == RunFrom(p, env, deadline, 1, start)
  {
    var now, starts, delays := start, [], [];
    ghost var whole, rest := RunFrom(p, env, deadline, 1, start), RunFrom(p, env, deadline, 1, start);
    for attempt := 1 to p.maxAttempts + 1
      invariant attempt <= p.maxAttempts && rest == RunFrom(p, env, deadline, attempt, now)
      invariant whole == RunFrom(p, env, deadline, 1, start) && Continues(whole, starts, delays, rest)
    {
      var pass := TryOnce(p, env, deadline, attempt, now);
      RunUnfolds(p, env, deadline, attempt, now, pass);
      if pass.Stop? { return Trace(pass.result, starts + [now], delays + pass.delays, pass.end); }
      ghost var further := RunFrom(p, env, deadline, attempt + 1, pass.next);
      ContinuesFurther(whole, starts, delays, now, pass.delays, rest, further);
      starts, delays, now, rest := starts + [now], delays + pass.delays, pass.next, further;
    }
    assert false;
  }

  lemma ContinuesFurther<T, E>(
    whole: Trace<T, E>, starts: seq<real>, delays: seq<real>, now: real, slept: seq<real>, rest: Trace<T, E>, further: Trace<T, E>)
    requires Continues(whole, starts, delays, rest)
    requires rest == Trace(further.result, [now] + further.starts, slept + further.delays, further.end)
    ensures Continues(whole, starts + [now], delays + slept, further)
  {
    assert starts + ([now] + further.starts) == starts + [now] + further.starts;
    assert delays + (slept + further.delays) == delays + slept + further.delays;
  }

  /** `whole` is what has happened so far followed by `rest`. */
  ghost predicate Continues<T, E>(whole: Trace<T, E>, starts: seq<real>, delays: seq<real>, rest: Trace<T, E>) {
    whole.result == rest.result && whole.end == rest.end && whole.starts == starts + rest.starts && whole.delays == delays + rest.delays
  }

  lemma RunUnfolds<T, E>(p: Policy, env: Environment<T, E>, deadline: Option<Deadline>, attempt: int, now: real, pass: Pass<T, E>)
    requires p.Valid() && 1 <= attempt <= p.maxAttempts && pass == OnePass(p, env, deadline, attempt, now)
    ensures pass.Stop? ==> RunFrom(p, env, deadline, attempt, now) == Trace(pass.result, [now], pass.delays, pass.end)
    ensures pass.Again? ==>
              attempt < p.maxAttempts
              && var rest := RunFrom(p, env, deadline, attempt + 1, pass.next);
                 RunFrom(p, env, deadline, attempt, now) == Trace(rest.result, [now] + rest.starts, pass.delays + rest.delays, rest.end)
  {
  }

  function Sum(xs: seq<real>): real {
    if xs == [] then 0.0 else xs[0] + Sum(xs[1..])
  }

  lemma {:induction false} PowerPositive(x: real, n: nat)
    requires x >= 1.0
    ensures Power(x, n) >= 1.0
  {
    if n > 0 {
      PowerPositive(x, n - 1);
      assert x * Power(x, n - 1) >= 1.0 * Power(x, n - 1);
    }
  }

  lemma DelayNotNegative(p: Policy, attempt: int)
    requires p.Valid() && attempt >= 1
    ensures DelayAfter(p, attempt) >= 0.0
  {
    PowerPositive(p.multiplier, attempt - 1);
  }

  /** Few attempts, none but the first after expiry, and less slept than there was left. */
  ghost predicate FitsDeadline<T, E>(p: Policy, d: Deadline, attempt: int, now: real, t: Trace<T, E>) {
    && 1 <= |t.starts| <= p.maxAttempts - attempt + 1 && t.starts[0] == now <= t.end
    && (forall i :: 0 < i < |t.starts| ==> !d.Expired(t.starts[i]))
    && (forall i :: 0 <= i < |t.starts| ==> now <= t.starts[i] <= t.end)
    && (t.delays != [] ==> Sum(t.delays) < d.Remaining(now))
  }

  lemma FitsDeadlineCons<T, E>(p: Policy, d: Deadline, attempt: int, now: real, slept: seq<real>, next: real, rest: Trace<T, E>)
    requires FitsDeadline(p, d, attempt + 1, next, rest) && now <= next && !d.Expired(next)
    requires Sum(slept) + d.Remaining(next) <= d.Remaining(now) && (slept != [] ==> Sum(slept) < d.Remaining(now))
    ensures FitsDeadline(p, d, attempt, now, Trace(rest.result, [now] + rest.starts, slept + rest.delays, rest.end))
  {
    SumConcat(slept, rest.delays);
    assert forall i :: 0 < i < |rest.starts| + 1 ==> ([now] + rest.starts)[i] == rest.starts[i - 1];
    assert rest.delays == [] ==> slept + rest.delays == slept;
  }

  /** Under a deadline: sleeps sum to less than the remaining budget and no further attempt starts after expiry. */
  lemma {:induction false} RetriesFitDeadline<T(!new), E(!new)>(p: Policy, env: Environment<T, E>, d: Deadline, attempt: int, now: real)
    requires p.Valid() && 1 <= attempt <= p.maxAttempts && Sound(env) && d.startedAt <= now
    ensures FitsDeadline(p, d, attempt, now, RunFrom(p, env, Some(d), attempt, now))
    decreases p.maxAttempts - attempt
  {
    var pass := OnePass(p, env, Some(d), attempt, now);
    PassFits(p, env, d, attempt, now);
    RunUnfolds(p, env, Some(d), attempt, now, pass);
    if pass.Again? {
      RetriesFitDeadline(p, env, d, attempt + 1, pass.next);
      FitsDeadlineCons(p, d, attempt, now, pass.delays, pass.next, RunFrom(p, env, Some(d), attempt + 1, pass.next));
    }
  }

  lemma {:induction false} SumConcat(xs: seq<real>, ys: seq<real>)
    ensures Sum(xs + ys) == Sum(xs) + Sum(ys)
  {
    if xs == [] {
      assert xs + ys == ys;
    } else {
      assert (xs + ys)[1..] == xs[1..] + ys;
      SumConcat(xs[1..], ys);
    }
  }

  /** One pass: what it sleeps is less than what remained, and it goes on only before expiry. */
  lemma PassFits<T(!new), E(!new)>(p: Policy, env: Environment<T, E>, d: Deadline, attempt: int, now: real)
    requires p.Valid() && 1 <= attempt <= p.maxAttempts && Sound(env) && d.startedAt <= now
    ensures match OnePass(p, env, Some(d), attempt, now)
            case Stop(_, delays, end) => now <= end && (delays != [] ==> Sum(delays) < d.Remaining(now))
            case Again(delays, next) =>
              now <= next && !d.Expired(next) && attempt < p.maxAttempts
              && Sum(delays) + d.Remaining(next) <= d.Remaining(now) && (delays != [] ==> Sum(delays) < d.Remaining(now))
  {
    DelayNotNegative(p, attempt);
    var a := env.call(attempt, now);
    var delay := DelayAfter(p, attempt);
    assert Sum([delay]) == delay + Sum([]) by { assert [delay][1..] == []; }
    assert env.sleep(attempt, delay) >= delay && a.duration >= 0.0;
  }

  /** At most `max_attempts` calls and strictly less than the whole deadline spent asleep. */
  lemma RunIsBounded<T(!new), E(!new)>(p: Policy, env: Environment<T, E>, d: Deadline)
    requires p.Valid() && Sound(env) && d.total > 0.0
    ensures var t := RunFrom(p, env, Some(d), 1, d.startedAt);
            && 1 <= |t.starts| <= p.maxAttempts
            && Sum(t.delays) < d.total
            && forall i :: 0 < i < |t.starts| ==> t.starts[i] < d.End()
  {
    RetriesFitDeadline(p, env, d, 1, d.startedAt);
  }

  ghost predicate ReportsLast<T, E>(p: Policy, env: Environment<T, E>, deadline: Option<Deadline>, attempt: int, t: Trace<T, E>) {
    var last := |t.starts| - 1;
    && last >= 0 && t.result == env.call(attempt + last, t.starts[last]).outcome
    && (forall i :: 0 <= i < last ==> RaisedRetryable(env, env.call(attempt + i, t.starts[i]).outcome))
    && (deadline.None? && RaisedRetryable(env, t.result) ==> attempt + last >= p.maxAttempts)
  }

  predicate RaisedRetryable<T, E>(env: Environment<T, E>, o: Outcome<T, E>) {
    o.Raised? && env.retryable(o.error)
  }

  lemma ReportsLastCons<T, E>(
    p: Policy, env: Environment<T, E>, deadline: Option<Deadline>, attempt: int, now: real, slept: seq<real>, rest: Trace<T, E>)
    requires ReportsLast(p, env, deadline, attempt + 1, rest) && RaisedRetryable(env, env.call(attempt, now).outcome)
    ensures ReportsLast(p, env, deadline, attempt, Trace(rest.result, [now] + rest.starts, slept + rest.delays, rest.end))
  {
    var starts, last := [now] + rest.starts, |rest.starts| - 1;
    assert starts[last + 1] == rest.starts[last];
    forall i | 0 <= i < last + 1 ensures RaisedRetryable(env, env.call(attempt + i, starts[i]).outcome) {
      if i > 0 { assert starts[i] == rest.starts[i - 1] && attempt + 1 + (i - 1) == attempt + i; }
    }
  }

  /** The answer is the last call's own; earlier calls all raised a retryable error; it stops early for a stated reason only. */
  lemma {:induction false} RunReportsLastAttempt<T, E>(p: Policy, env: Environment<T, E>, deadline: Option<Deadline>, attempt: int, now: real)
    requires p.Valid() && 1 <= attempt <= p.maxAttempts
    ensures ReportsLast(p, env, deadline, attempt, RunFrom(p, env, deadline, attempt, now))
    decreases p.maxAttempts - attempt
  {
    var pass := OnePass(p, env, deadline, attempt, now);
    RunUnfolds(p, env, deadline, attempt, now, pass);
    if pass.Again? {
      RunReportsLastAttempt(p, env, deadline, attempt + 1, pass.next);
      ReportsLastCons(p, env, deadline, attempt, now, pass.delays, RunFrom(p, env, deadline, attempt + 1, pass.next));
    }
  }

  // ---------- when a retry happens, and when it starts ----------

  lemma DelaysGrow(p: Policy, attempt: int)
    requires p.Valid() && attempt >= 1
    ensures DelayAfter(p, 1) == p.delay && DelayAfter(p, attempt + 1) == p.multiplier * DelayAfter(p, attempt)
    ensures DelayAfter(p, attempt) >= 0.0
  {
    DelayNotNegative(p, attempt);
    var x := Power(p.multiplier, attempt - 1);
    assert Power(p.multiplier, attempt) == p.multiplier * x;
    assert p.delay * (p.multiplier * x) == p.multiplier * (p.delay * x);
  }

  /** When the call that starts at `now` has ended. */
  function EndOf<T, E>(env: Environment<T, E>, attempt: int, now: real): real {
    now + env.call(attempt, now).duration
  }

  /** When the attempt after it starts, if there is one: no sleep at all for a delay of zero. */
  function NextStart<T, E>(p: Policy, env: Environment<T, E>, attempt: int, now: real): real
    requires attempt >= 1
  {
    if DelayAfter(p, attempt) > 0.0 then EndOf(env, attempt, now) + env.sleep(attempt, DelayAfter(p, attempt)) else EndOf(env, attempt, now)
  }

  /** A further attempt is made: a retryable error, an attempt left, and the deadline later than the planned and the actual wake-up. */
  predicate Retried<T, E>(p: Policy, env: Environment<T, E>, deadline: Option<Deadline>, attempt: int, now: real)
    requires attempt >= 1
  {
    && RaisedRetryable(env, env.call(attempt, now).outcome) && attempt < p.maxAttempts
    && (deadline.Some? ==>
          && EndOf(env, attempt, now) + DelayAfter(p, attempt) < deadline.value.End()
          && NextStart(p, env, attempt, now) < deadline.value.End())
  }

  lemma AgainIffRetried<T(!new), E(!new)>(p: Policy, env: Environment<T, E>, deadline: Option<Deadline>, attempt: int, now: real)
    requires p.Valid() && 1 <= attempt <= p.maxAttempts && Sound(env) && (deadline.Some? ==> deadline.value.startedAt <= now)
    ensures var pass := OnePass(p, env, deadline, attempt, now);
            (pass.Again? <==> Retried(p, env, deadline, attempt, now)) && (pass.Again? ==> pass.next == NextStart(p, env, attempt, now))
  {
    DelayNotNegative(p, attempt);
    assert env.sleep(attempt, DelayAfter(p, attempt)) >= DelayAfter(p, attempt) && env.call(attempt, now).duration >= 0.0;
    if deadline.Some? {
      ExpiresAtEnd(deadline.value, EndOf(env, attempt, now));
      ExpiresAtEnd(deadline.value, NextStart(p, env, attempt, now));
    }
  }

  /** Every attempt but the last is retried, at its time, and the last one is not: neither too few nor too many. */
  ghost predicate OnSchedule<T, E>(p: Policy, env: Environment<T, E>, deadline: Option<Deadline>, attempt: int, starts: seq<real>)
    requires attempt >= 1
  {
    && starts != []
    && (forall i :: 0 <= i < |starts| - 1 ==>
          Retried(p, env, deadline, attempt + i, starts[i]) && starts[i + 1] == NextStart(p, env, attempt + i, starts[i]))
    && !Retried(p, env, deadline, attempt + |starts| - 1, starts[|starts| - 1])
  }

  lemma OnScheduleCons<T, E>(p: Policy, env: Environment<T, E>, deadline: Option<Deadline>, attempt: int, now: real, rest: seq<real>)
    requires attempt >= 1 && Retried(p, env, deadline, attempt, now) && OnSchedule(p, env, deadline, attempt + 1, rest)
    requires rest[0] == NextStart(p, env, attempt, now)
    ensures OnSchedule(p, env, deadline, attempt, [now] + rest)
  {
    var starts := [now] + rest;
    forall i | 0 <= i < |starts| - 1
      ensures Retried(p, env, deadline, attempt + i, starts[i]) && starts[i + 1] == NextStart(p, env, attempt + i, starts[i])
    {
      if i > 0 {
        assert starts[i] == rest[i - 1] && starts[i + 1] == rest[i] && attempt + 1 + (i - 1) == attempt + i;
      }
    }
    assert starts[|starts| - 1] == rest[|rest| - 1] && attempt + 1 + |rest| - 1 == attempt + |starts| - 1;
  }

  lemma {:induction false} RunOnSchedule<T(!new), E(!new)>(
    p: Policy, env: Environment<T, E>, deadline: Option<Deadline>, attempt: int, now: real)
    requires p.Valid() && 1 <= attempt <= p.maxAttempts && Sound(env) && (deadline.Some? ==> deadline.value.startedAt <= now)
    ensures var starts := RunFrom(p, env, deadline, attempt, now).starts;
            OnSchedule(p, env, deadline, attempt, starts) && starts[0] == now
    decreases p.maxAttempts - attempt
  {
    var pass := OnePass(p, env, deadline, attempt, now);
    AgainIffRetried(p, env, deadline, attempt, now);
    RunUnfolds(p, env, deadline, attempt, now, pass);
    if pass.Again? {
      DelayNotNegative(p, attempt);
      assert env.sleep(attempt, DelayAfter(p, attempt)) >= 0.0 && env.call(attempt, now).duration >= 0.0;
      RunOnSchedule(p, env, deadline, attempt + 1, pass.next);
      OnScheduleCons(p, env, deadline, attempt, now, RunFrom(p, env, deadline, attempt + 1, pass.next).starts);
    }
  }
}
