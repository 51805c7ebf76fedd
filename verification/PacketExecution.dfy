/** One packet from deadline to answer: the retries of `services/execute_service.py` around workflow steps or one dispatch. */
module PacketExecution {
  import opened Wrappers
  import opened PacketBudget
  import RetryPolicy
  import WorkflowEngine
  import Text

  /** What `_run` does: a workflow of any length, or a single dispatch. */
  datatype Operation<V> = Workflow(steps: seq<WorkflowEngine.Step<V>>) | Direct(action: string)

  datatype Request<V> = Request(
    action: string, idempotencyKey: Option<string>, timeoutMs: Option<int>,
    payload: WorkflowEngine.Payload<V>, operation: Operation<V>)

  /** Everything outside Gate, which may behave differently on every attempt. */
  datatype World<!V> = World(
    attempt: int -> WorkflowEngine.Environment<V>,
    sleep: (int, real) -> real,
    retryable: WorkflowEngine.WorkflowError -> bool)

  ghost predicate Sound<V(!new)>(w: World<V>) {
    (forall k :: WorkflowEngine.Sound(w.attempt(k))) && forall k, delay :: w.sleep(k, delay) >= delay
  }

  /** `_run_dispatch`: no condition, and no header timeout of its own. */
  function RunDirect<V>(env: WorkflowEngine.Environment<V>, deadline: Deadline, r: Request<V>, action: string, now: real)
    : WorkflowEngine.Trace<V>
  {
    var checkedAt := now + env.checkLag(0);
    var readAt := checkedAt + env.readLag(0);
    var cap := env.nodeTimeoutMs(0);
    var budget := WorkerBudgetMs(cap, Some(deadline), checkedAt, readAt);
    if budget.Failure? then WorkflowEngine.Trace(Failure(WorkflowEngine.BudgetExhausted), [], readAt) else
      var sent := env.send(0, action, r.payload, budget.value);
      var answer := if sent.result.Success? then Some(sent.result.value) else None;
      WorkflowEngine.Trace(
        if sent.result.Success? then Success(sent.result.value.payload) else Failure(WorkflowEngine.WorkerFailed(sent.result.error)),
        [WorkflowEngine.Dispatch(0, action, r.payload, r.timeoutMs, cap, readAt, budget.value, answer)],
        readAt + sent.duration)
  }

  /** One attempt of the whole operation, under the deadline that all attempts share. */
  function OneAttempt<V>(env: WorkflowEngine.Environment<V>, deadline: Deadline, r: Request<V>, now: real): WorkflowEngine.Trace<V> {
    match r.operation
    case Workflow(steps) =>
      WorkflowEngine.RunSteps(env, WorkflowEngine.GranterFor(env, Some(deadline)), steps, 0, r.payload, None, r.timeoutMs, now)
    case Direct(action) => RunDirect(env, deadline, r, action, now)
  }

  /** An attempt at a workflow starts at its first step with the request's payload and timeout and no response yet. */
  lemma WorkflowAttemptFollows<V>(env: WorkflowEngine.Environment<V>, d: Deadline, r: Request<V>, now: real)
    requires r.operation.Workflow?
    ensures WorkflowEngine.Follows(env, WorkflowEngine.GranterFor(env, Some(d)), r.operation.steps, 0,
                                   WorkflowEngine.Point(r.payload, None, r.timeoutMs, now), OneAttempt(env, d, r, now))
  {
    WorkflowEngine.RunFollowsSteps(env, WorkflowEngine.GranterFor(env, Some(d)), r.operation.steps, 0,
                                   WorkflowEngine.Point(r.payload, None, r.timeoutMs, now));
  }

  /** A single dispatch sends the request's own payload with the largest timeout that fits, or nothing when no millisecond is left. */
  lemma DirectAttemptMeans<V(!new)>(env: WorkflowEngine.Environment<V>, d: Deadline, r: Request<V>, now: real, n: int)
    requires WorkflowEngine.Sound(env) && d.startedAt <= now && n >= 1 && r.operation.Direct?
    ensures var t, at := OneAttempt(env, d, r, now), now + env.checkLag(0) + env.readLag(0);
            if t.dispatches == [] then t.result == Failure(WorkflowEngine.BudgetExhausted) && d.End() < at + 1.0 / 1000.0
            else
              var s := t.dispatches[0];
              var sent := env.send(0, r.operation.action, r.payload, s.workerMs);
              && |t.dispatches| == 1 && s.action == r.operation.action && s.payload == r.payload
              && s.headerMs == r.timeoutMs && s.capMs == env.nodeTimeoutMs(0) && s.now == at && t.end == at + sent.duration
              && (n <= s.workerMs <==> n <= s.capMs && at + n as real / 1000.0 <= d.End())
              && t.result == match sent.result
                             case Success(answer) => Success(answer.payload)
                             case Failure(message) => Failure(WorkflowEngine.WorkerFailed(message))
  {
    var checkedAt := now + env.checkLag(0);
    WorkerBudgetIsLargest(env.nodeTimeoutMs(0), d, checkedAt, checkedAt + env.readLag(0), n);
    WorkerBudgetIsLargest(env.nodeTimeoutMs(0), d, checkedAt, checkedAt + env.readLag(0), 1);
  }

  function AttemptTrace<V>(w: World<V>, deadline: Deadline, r: Request<V>, k: int, now: real): WorkflowEngine.Trace<V> {
    OneAttempt(w.attempt(k), deadline, r, now)
  }

  /** The operation as the retry loop sees it. */
  function AsRetried<V>(w: World<V>, deadline: Deadline, r: Request<V>)
    : RetryPolicy.Environment<WorkflowEngine.Payload<V>, WorkflowEngine.WorkflowError>
  {
    RetryPolicy.Environment(
      (k, now) =>
        (var t := AttemptTrace(w, deadline, r, k, now);
         RetryPolicy.Attempt(t.end - now,
                             if t.result.Success? then RetryPolicy.Returned(t.result.value) else RetryPolicy.Raised(t.result.error))),
      w.sleep, w.retryable)
  }

  /** Every dispatch of every attempt, in order. */
  function AllDispatches<V>(w: World<V>, deadline: Deadline, r: Request<V>, first: int, starts: seq<real>)
    : seq<WorkflowEngine.Dispatch<V>>
    decreases starts
  {
    if starts == [] then []
    else AttemptTrace(w, deadline, r, first, starts[0]).dispatches + AllDispatches(w, deadline, r, first + 1, starts[1..])
  }

  function StepCount<V>(r: Request<V>): nat {
    match r.operation
    case Workflow(steps) => |steps|
    case Direct(_) => 1
  }

  lemma {:induction false} StepsTakeTime<V(!new)>(
    env: WorkflowEngine.Environment<V>, grant: WorkflowEngine.Granter, steps: seq<WorkflowEngine.Step<V>>, k: int,
    payload: WorkflowEngine.Payload<V>, response: Option<WorkflowEngine.Payload<V>>, timeoutMs: Option<int>, now: real)
    requires WorkflowEngine.Sound(env) && 0 <= k <= |steps|
    requires forall i, stepMs, packetMs, t ::
               var g := grant(i, stepMs, packetMs, t); t <= if g.Denied? then g.at else g.now
    ensures now <= WorkflowEngine.RunSteps(env, grant, steps, k, payload, response, timeoutMs, now).end
    decreases |steps| - k
  {
    if k < |steps| {
      match WorkflowEngine.TakeStep(env, grant, steps[k], k, payload, response, timeoutMs, now)
      case Skip => StepsTakeTime(env, grant, steps, k + 1, payload, response, timeoutMs, now);
      case Abort(_, _, _) =>
      case Go(_, answer, end) =>
        StepsTakeTime(env, grant, steps, k + 1, WorkflowEngine.Merged(env, steps[k].merge, payload, answer.payload),
                      Some(answer.payload), answer.timeoutMs, end);
    }
  }

  /** How many of the dispatches are of one step. */
  function SendsOf<V>(ds: seq<WorkflowEngine.Dispatch<V>>, step: int): nat {
    if ds == [] then 0 else (if ds[0].step == step then 1 else 0) + SendsOf(ds[1..], step)
  }

  lemma {:induction false} SendsConcat<V>(xs: seq<WorkflowEngine.Dispatch<V>>, ys: seq<WorkflowEngine.Dispatch<V>>, step: int)
    ensures SendsOf(xs + ys, step) == SendsOf(xs, step) + SendsOf(ys, step)
  {
    if xs == [] {
      assert xs + ys == ys;
    } else {
      assert (xs + ys)[1..] == xs[1..] + ys;
      SendsConcat(xs[1..], ys, step);
    }
  }

  /** Dispatches in strictly increasing step order send each step at most once. */
  lemma {:induction false} OrderedSendsOnce<V>(ds: seq<WorkflowEngine.Dispatch<V>>, step: int)
    requires forall i, j :: 0 <= i < j < |ds| ==> ds[i].step < ds[j].step
    ensures SendsOf(ds, step) <= 1
    ensures (forall i :: 0 <= i < |ds| ==> ds[i].step > step) ==> SendsOf(ds, step) == 0
  {
    if ds != [] {
      assert forall i :: 0 < i < |ds| ==> ds[i] == ds[1..][i - 1] && ds[0].step < ds[i].step;
      OrderedSendsOnce(ds[1..], step);
    }
  }

  lemma AttemptSendsOnce<V>(w: World<V>, deadline: Deadline, r: Request<V>, k: int, now: real, step: int)
    ensures SendsOf(AttemptTrace(w, deadline, r, k, now).dispatches, step) <= 1
  {
    var env := w.attempt(k);
    if r.operation.Workflow? {
      WorkflowEngine.DispatchesInOrder(
        env, WorkflowEngine.GranterFor(env, Some(deadline)), r.operation.steps, 0, r.payload, None, r.timeoutMs, now);
    }
    OrderedSendsOnce(AttemptTrace(w, deadline, r, k, now).dispatches, step);
  }

  /** Each attempt sends a step at most once, so a step is sent at most as often as there are attempts. */
  lemma {:induction false} StepSendsFit<V>(w: World<V>, deadline: Deadline, r: Request<V>, first: int, starts: seq<real>, step: int)
    ensures SendsOf(AllDispatches(w, deadline, r, first, starts), step) <= |starts|
    decreases |starts|
  {
    if starts != [] {
      var ds := AttemptTrace(w, deadline, r, first, starts[0]).dispatches;
      AttemptSendsOnce(w, deadline, r, first, starts[0], step);
      SendsConcat(ds, AllDispatches(w, deadline, r, first + 1, starts[1..]), step);
      StepSendsFit(w, deadline, r, first + 1, starts[1..], step);
    }
  }

  lemma AttemptBounds<V(!new)>(p: TimeoutPolicy, w: World<V>, r: Request<V>, start: real, k: int, now: real)
    requires p.Valid() && p.Advertised(r.timeoutMs) >= 1 && Sound(w)
    ensures var t := AttemptTrace(w, p.DeadlineFor(r.timeoutMs, start), r, k, now);
            && now <= t.end && |t.dispatches| <= StepCount(r)
            && (start <= now ==> WorkflowEngine.DispatchesWithin(p, r.timeoutMs, start, t.dispatches))
  {
    var env, deadline := w.attempt(k), p.DeadlineFor(r.timeoutMs, start);
    assert WorkflowEngine.Sound(env);
    match r.operation
    case Workflow(steps) =>
      var grant := WorkflowEngine.GranterFor(env, Some(deadline));
      StepsTakeTime(env, grant, steps, 0, r.payload, None, r.timeoutMs, now);
      WorkflowEngine.DispatchesInOrder(env, grant, steps, 0, r.payload, None, r.timeoutMs, now);
      if start <= now {
        WorkflowEngine.DeadlineGrantsWithin(p, r.timeoutMs, start, env);
        WorkflowEngine.StepsWithinPacket(p, r.timeoutMs, start, env, grant, steps, 0, r.payload, None, r.timeoutMs, now);
      }
    case Direct(action) => DirectBounds(p, env, r, action, start, now);
  }

  lemma DirectBounds<V(!new)>(p: TimeoutPolicy, env: WorkflowEngine.Environment<V>, r: Request<V>, action: string, start: real, now: real)
    requires p.Valid() && p.Advertised(r.timeoutMs) >= 1 && WorkflowEngine.Sound(env)
    ensures var t := RunDirect(env, p.DeadlineFor(r.timeoutMs, start), r, action, now);
            && now <= t.end && |t.dispatches| <= 1
            && (start <= now ==> WorkflowEngine.DispatchesWithin(p, r.timeoutMs, start, t.dispatches))
  {
    var checkedAt := now + env.checkLag(0);
    if start <= now {
      WorkerTimeoutWithinPacket(p, r.timeoutMs, start, env.nodeTimeoutMs(0), checkedAt, checkedAt + env.readLag(0));
    }
  }

  lemma {:induction false} AllDispatchesFit<V(!new)>(p: TimeoutPolicy, w: World<V>, r: Request<V>, start: real, first: int, starts: seq<real>)
    requires p.Valid() && p.Advertised(r.timeoutMs) >= 1 && Sound(w) && forall i :: 0 <= i < |starts| ==> start <= starts[i]
    ensures var ds := AllDispatches(w, p.DeadlineFor(r.timeoutMs, start), r, first, starts);
            |ds| <= |starts| * StepCount(r) && WorkflowEngine.DispatchesWithin(p, r.timeoutMs, start, ds)
    decreases |starts|
  {
    if starts != [] {
      AttemptBounds(p, w, r, start, first, starts[0]);
      AllDispatchesFit(p, w, r, start, first + 1, starts[1..]);
      assert |starts| * StepCount(r) == (|starts| - 1) * StepCount(r) + StepCount(r);
    }
  }

  /** For every packet, workflow and retry: each step is sent at most once an attempt, and all dispatches are inside the one advertised budget. */
  lemma PacketDrawsOneBudget<V(!new)>(
    p: TimeoutPolicy, template: RetryPolicy.Policy, safeActions: set<string>, w: World<V>, r: Request<V>, start: real)
    requires p.Valid() && p.Advertised(r.timeoutMs) >= 1 && template.Valid() && Sound(w)
    ensures var q, deadline := RetryPolicy.PolicyFor(template, safeActions, r.action, r.idempotencyKey), p.DeadlineFor(r.timeoutMs, start);
            var t := RetryPolicy.RunFrom(q, AsRetried(w, deadline, r), Some(deadline), 1, start);
            var ds := AllDispatches(w, deadline, r, 1, t.starts);
            && 1 <= |t.starts| <= template.maxAttempts && |t.starts| <= RetryPolicy.REPLAY_SAFE_MAX_ATTEMPTS
            && (forall step :: SendsOf(ds, step) <= |t.starts|) && |ds| <= |t.starts| * StepCount(r)
            && (Text.Normalize(r.action) !in safeActions ==> |t.starts| == 1 && |ds| <= StepCount(r))
            && RetryPolicy.Sum(t.delays) < deadline.total
            && WorkflowEngine.DispatchesWithin(p, r.timeoutMs, start, ds)
  {
    var q, deadline := RetryPolicy.PolicyFor(template, safeActions, r.action, r.idempotencyKey), p.DeadlineFor(r.timeoutMs, start);
    RetryPolicy.AttemptBudget(template, safeActions, r.action, r.idempotencyKey);
    GateBudgetBounds(p, r.timeoutMs, p.Advertised(r.timeoutMs));
    var env := AsRetried(w, deadline, r);
    forall k, now ensures env.call(k, now).duration >= 0.0 {
      AttemptBounds(p, w, r, start, k, now);
    }
    assert RetryPolicy.Sound(env);
    RetryPolicy.RetriesFitDeadline(q, env, deadline, 1, start);
    RetryPolicy.RunIsBounded(q, env, deadline);
    var starts := RetryPolicy.RunFrom(q, env, Some(deadline), 1, start).starts;
    AllDispatchesFit(p, w, r, start, 1, starts);
    forall step ensures SendsOf(AllDispatches(w, deadline, r, 1, starts), step) <= |starts| {
      StepSendsFit(w, deadline, r, 1, starts, step);
    }
  }

  /** The packet's outcome is that of its last attempt, each attempt started afresh; all earlier ones ended in a retryable error. */
  lemma PacketAnswersWithLastAttempt<V>(
    p: TimeoutPolicy, template: RetryPolicy.Policy, safeActions: set<string>, w: World<V>, r: Request<V>, start: real)
    requires template.Valid()
    ensures var q, deadline := RetryPolicy.PolicyFor(template, safeActions, r.action, r.idempotencyKey), p.DeadlineFor(r.timeoutMs, start);
            q.Valid()
            && var t := RetryPolicy.RunFrom(q, AsRetried(w, deadline, r), Some(deadline), 1, start);
               && t.starts != []
               && (match AttemptTrace(w, deadline, r, |t.starts|, t.starts[|t.starts| - 1]).result
                   case Success(payload) => t.result == RetryPolicy.Returned(payload)
                   case Failure(error) => t.result == RetryPolicy.Raised(error))
               && forall i :: 0 <= i < |t.starts| - 1 ==> EndsRetryable(w, deadline, r, i + 1, t.starts[i])
  {
    var q, deadline := RetryPolicy.PolicyFor(template, safeActions, r.action, r.idempotencyKey), p.DeadlineFor(r.timeoutMs, start);
    RetryPolicy.AttemptBudget(template, safeActions, r.action, r.idempotencyKey);
    var env := AsRetried(w, deadline, r);
    RetryPolicy.RunReportsLastAttempt(q, env, Some(deadline), 1, start);
    var starts := RetryPolicy.RunFrom(q, env, Some(deadline), 1, start).starts;
    forall i | 0 <= i < |starts| - 1 ensures EndsRetryable(w, deadline, r, i + 1, starts[i]) {
      assert RetryPolicy.RaisedRetryable(env, env.call(1 + i, starts[i]).outcome);
    }
  }

  ghost predicate EndsRetryable<V>(w: World<V>, deadline: Deadline, r: Request<V>, k: int, now: real) {
    var result := AttemptTrace(w, deadline, r, k, now).result;
    result.Failure? && w.retryable(result.error)
  }
}
