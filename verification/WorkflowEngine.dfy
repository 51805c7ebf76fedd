/** Sequential workflows under one deadline: `orchestration/workflow_engine.py`. */
module WorkflowEngine {
  import opened Wrappers
  import opened PacketBudget
  import ConditionEval

  type Payload<V> = map<string, V>

  datatype Merge = Identity | MergeResults | MergePayload

  datatype Step<V> = Step(
    name: string, action: string, timeoutMs: Option<int>, merge: Merge, condition: Option<ConditionEval.Expr<V>>)

  datatype WorkflowError =
    | ConditionFailed(error: ConditionEval.Error)
    | BudgetExhausted
    | WorkerFailed(message: string)

  /** A worker's answer: its payload and the timeout in its header. */
  datatype Answer<V> = Answer(payload: Payload<V>, timeoutMs: Option<int>)

  datatype Sent<V> = Sent(duration: real, result: Result<Answer<V>, string>)

  /** What a run of the loop cannot decide itself; the integer is the position of the step. */
  datatype Environment<!V> = Environment(
    host: ConditionEval.Prims<V>,
    ofPayload: Payload<V> -> V,
    ofString: string -> V,
    noResponse: V,
    asPayload: V -> Option<Payload<V>>,
    nodeTimeoutMs: int -> Millis,                              // cap of the node the step is routed to
    checkLag: int -> real,                                  // clock advance before the expiry check of the dispatch
    readLag: int -> real,                                   // and from there to the reading of the remainder
    send: (int, string, Payload<V>, int) -> Sent<V>)

  ghost predicate Sound<V(!new)>(env: Environment<V>) {
    && (forall k :: env.checkLag(k) >= 0.0 && env.readLag(k) >= 0.0)
    && (forall k, action, payload, ms :: env.send(k, action, payload, ms).duration >= 0.0)
  }

  /** `_merge_payload`: later maps win key by key. */
  function Merged<V>(env: Environment<V>, merge: Merge, current: Payload<V>, response: Payload<V>): Payload<V> {
    match merge
    case Identity => response
    case MergeResults =>
      var data := if "data" in response then env.asPayload(response["data"]) else None;
      if data.Some? then current + data.value else current + response
    case MergePayload => current + response
  }

  /** `_should_execute_step`: the payload so far is both `payload` and `accumulated`. */
  function ShouldExecute<V>(env: Environment<V>, step: Step<V>, payload: Payload<V>, response: Option<Payload<V>>)
    : Result<bool, ConditionEval.Error>
  {
    if step.condition.None? then Success(true) else
      ConditionEval.Evaluate(env.host, step.condition.value, env.ofPayload(payload),
                             if response.Some? then env.ofPayload(response.value) else env.noResponse,
                             env.ofString(step.action), env.ofPayload(payload))
  }

  /** `_step_timeout_ms`: the timeout written into the step packet's header. */
  function StepTimeoutMs(stepTimeoutMs: Option<int>, packetTimeoutMs: Option<int>, deadline: Option<Deadline>, now: real)
    : Result<Option<int>, DeadlineExceeded>
  {
    var declared := if stepTimeoutMs.Some? then stepTimeoutMs else packetTimeoutMs;
    if deadline.None? then Success(declared)
    else if deadline.value.Expired(now) then Failure(DeadlineExceeded)
    else
      var ms := Truncated(deadline.value.Remaining(now) * 1000.0);
      var remainingMs := if ms < 1 then 1 else ms;
      if declared.None? || remainingMs < declared.value then Success(Some(remainingMs)) else Success(declared)
  }

  /** One dispatch: which step, what was sent, when its budget was read and how much it got, and the answer if any. */
  datatype Dispatch<V> = Dispatch(
    step: int, action: string, payload: Payload<V>, headerMs: Option<int>,
    capMs: int, now: real, workerMs: int, answer: Option<Answer<V>>)

  datatype Trace<V> = Trace(result: Result<Payload<V>, WorkflowError>, dispatches: seq<Dispatch<V>>, end: real)

  /** The budget decision for one step: refused at some moment, or the header timeout and the worker's share. */
  datatype Grant = Denied(at: real) | Granted(headerMs: Option<int>, capMs: int, now: real, workerMs: int)

  /** Step, declared timeout, timeout of the current packet, clock. */
  type Granter = (int, Option<int>, Option<int>, real) -> Grant

  function GrantBudget<V>(
    env: Environment<V>, deadline: Option<Deadline>, k: int, stepTimeoutMs: Option<int>, packetTimeoutMs: Option<int>, now: real): Grant
  {
    var header := StepTimeoutMs(stepTimeoutMs, packetTimeoutMs, deadline, now);
    if header.Failure? then Denied(now) else
      var checkedAt := now + env.checkLag(k);
      var readAt := checkedAt + env.readLag(k);
      var budget := WorkerBudgetMs(env.nodeTimeoutMs(k), deadline, checkedAt, readAt);
      if budget.Failure? then Denied(readAt) else Granted(header.value, env.nodeTimeoutMs(k), readAt, budget.value)
  }

  function GranterFor<V>(env: Environment<V>, deadline: Option<Deadline>): Granter {
    (k, stepTimeoutMs, packetTimeoutMs, now) => GrantBudget(env, deadline, k, stepTimeoutMs, packetTimeoutMs, now)
  }

  /** What the loop does with one step. */
  datatype Turn<V> =
    | Skip
    | Abort(error: WorkflowError, sent: seq<Dispatch<V>>, end: real)
    | Go(dispatch: Dispatch<V>, answer: Answer<V>, end: real)

  function TakeStep<V>(
    env: Environment<V>, grant: Granter, step: Step<V>, k: int,
    payload: Payload<V>, response: Option<Payload<V>>, timeoutMs: Option<int>, now: real): Turn<V>
  {
    var run := ShouldExecute(env, step, payload, response);
    if run.Failure? then Abort(ConditionFailed(run.error), [], now)
    else if !run.value then Skip
    else
      match grant(k, step.timeoutMs, timeoutMs, now)
      case Denied(at) => Abort(BudgetExhausted, [], at)
      case Granted(headerMs, capMs, readAt, workerMs) =>
        var sent := env.send(k, step.action, payload, workerMs);
        if sent.result.Failure? then
          Abort(WorkerFailed(sent.result.error),
                [Dispatch(k, step.action, payload, headerMs, capMs, readAt, workerMs, None)], readAt + sent.duration)
        else
          Go(Dispatch(k, step.action, payload, headerMs, capMs, readAt, workerMs, Some(sent.result.value)),
             sent.result.value, readAt + sent.duration)
  }

  function RunSteps<V>(
    env: Environment<V>, grant: Granter, steps: seq<Step<V>>, k: int,
    payload: Payload<V>, response: Option<Payload<V>>, timeoutMs: Option<int>, now: real): Trace<V>
    requires 0 <= k <= |steps|
    decreases |steps| - k
  {
    if k == |steps| then Trace(Success(payload), [], now) else
      match TakeStep(env, grant, steps[k], k, payload, response, timeoutMs, now)
      case Skip => RunSteps(env, grant, steps, k + 1, payload, response, timeoutMs, now)
      case Abort(error, sent, end) => Trace(Failure(error), sent, end)
      case Go(dispatch, answer, end) =>
        var rest := RunSteps(env, grant, steps, k + 1, Merged(env, steps[k].merge, payload, answer.payload),
                             Some(answer.payload), answer.timeoutMs, end);
        rest.(dispatches := [dispatch] + rest.dispatches)
  }

  class WorkflowEngine<!V(==)> {
    const env: Environment<V>
    const definitions: map<string, seq<Step<V>>>

    constructor (env: Environment<V>, definitions: map<string, seq<Step<V>>>)
      ensures this.env == env && this.definitions == definitions
    {
      this.env, this.definitions := env, definitions;
    }

    /** `execute`; `None` is the error for an action without a workflow. */
    method Execute(workflow: string, payload: Payload<V>, timeoutMs: Option<int>, deadline: Option<Deadline>, start: real)
      returns (r: Option<Trace<V>>)
      ensures r == if workflow in definitions then Some(RunSteps(env, GranterFor(env, deadline), definitions[workflow], 0, payload, None, timeoutMs, start))
                   else None
    {
      if workflow !in definitions { return None; }
      var steps, grant := definitions[workflow], GranterFor(env, deadline);
      var currentPayload, latestResponse, currentTimeout, now, dispatches := payload, None, timeoutMs, start, [];
      ghost var whole := RunSteps(env, grant, steps, 0, payload, None, timeoutMs, start);
      ghost var rest := whole;
      for k := 0 to |steps|
        invariant rest == RunSteps(env, grant, steps, k, currentPayload, latestResponse, currentTimeout, now)
        invariant Continues(whole, dispatches, rest)
      {
        var turn := TakeStep(env, grant, steps[k], k, currentPayload, latestResponse, currentTimeout, now);
        rest := RunUnfolds(env, grant, steps, k, currentPayload, latestResponse, currentTimeout, now, turn);
        match turn {
          case Skip =>
          case Abort(error, sent, end) => return Some(Trace(Failure(error), dispatches + sent, end));
          case Go(dispatch, answer, end) =>
            ContinuesFurther(whole, dispatches, dispatch, rest);
            dispatches, now := dispatches + [dispatch], end;
            currentPayload := Merged(env, steps[k].merge, currentPayload, answer.payload);
            latestResponse, currentTimeout := Some(answer.payload), answer.timeoutMs;
        }
      }
      assert dispatches + [] == dispatches;
      return Some(Trace(Success(currentPayload), dispatches, now));
    }
  }

  /** `whole` is what was dispatched so far followed by `rest`. */
  ghost predicate Continues<V>(whole: Trace<V>, dispatches: seq<Dispatch<V>>, rest: Trace<V>) {
    whole == Trace(rest.result, dispatches + rest.dispatches, rest.end)
  }

  lemma ContinuesFurther<V>(whole: Trace<V>, dispatches: seq<Dispatch<V>>, d: Dispatch<V>, further: Trace<V>)
    requires Continues(whole, dispatches, further.(dispatches := [d] + further.dispatches))
    ensures Continues(whole, dispatches + [d], further)
  {
    assert dispatches + ([d] + further.dispatches) == dispatches + [d] + further.dispatches;
  }

  lemma RunUnfolds<V>(
    env: Environment<V>, grant: Granter, steps: seq<Step<V>>, k: int,
    payload: Payload<V>, response: Option<Payload<V>>, timeoutMs: Option<int>, now: real, turn: Turn<V>) returns (rest: Trace<V>)
    requires 0 <= k < |steps| && turn == TakeStep(env, grant, steps[k], k, payload, response, timeoutMs, now)
    ensures var t := RunSteps(env, grant, steps, k, payload, response, timeoutMs, now);
            match turn
            case Skip => t == rest == RunSteps(env, grant, steps, k + 1, payload, response, timeoutMs, now)
            case Abort(error, sent, end) => t == Trace(Failure(error), sent, end)
            case Go(dispatch, answer, end) =>
              && rest == RunSteps(env, grant, steps, k + 1, Merged(env, steps[k].merge, payload, answer.payload),
                                  Some(answer.payload), answer.timeoutMs, end)
              && t == rest.(dispatches := [dispatch] + rest.dispatches)
  {
    match turn
    case Skip => rest := RunSteps(env, grant, steps, k + 1, payload, response, timeoutMs, now);
    case Abort(_, _, _) => rest := RunSteps(env, grant, steps, k, payload, response, timeoutMs, now);
    case Go(_, answer, end) =>
      rest := RunSteps(env, grant, steps, k + 1, Merged(env, steps[k].merge, payload, answer.payload),
                       Some(answer.payload), answer.timeoutMs, end);
  }

  // ---------- the loop is a fold over the steps whose condition held ----------

  /** No clock, deadline or node: each step whose condition holds on the payload so far consumes one answer and merges it. */
  function Fold<V>(
    env: Environment<V>, steps: seq<Step<V>>, k: int, payload: Payload<V>, response: Option<Payload<V>>, answers: seq<Payload<V>>)
    : Option<Payload<V>>
    requires 0 <= k <= |steps|
    decreases |steps| - k
  {
    if k == |steps| then (if answers == [] then Some(payload) else None) else
      var run := ShouldExecute(env, steps[k], payload, response);
      if run.Failure? then None
      else if !run.value then Fold(env, steps, k + 1, payload, response, answers)
      else if answers == [] then None
      else Fold(env, steps, k + 1, Merged(env, steps[k].merge, payload, answers[0]), Some(answers[0]), answers[1..])
  }

  function Answers<V>(ds: seq<Dispatch<V>>): seq<Payload<V>> {
    if ds == [] then [] else (if ds[0].answer.Some? then [ds[0].answer.value.payload] else []) + Answers(ds[1..])
  }

  /** The clock and the deadline can make a workflow fail, but never change what it computes from the answers it got. */
  lemma {:induction false} WorkflowIsFold<V>(
    env: Environment<V>, grant: Granter, steps: seq<Step<V>>, k: int,
    payload: Payload<V>, response: Option<Payload<V>>, timeoutMs: Option<int>, now: real)
    requires 0 <= k <= |steps|
    ensures var t := RunSteps(env, grant, steps, k, payload, response, timeoutMs, now);
            t.result.Success? ==> |Answers(t.dispatches)| == |t.dispatches|
                                  && Fold(env, steps, k, payload, response, Answers(t.dispatches)) == Some(t.result.value)
    decreases |steps| - k
  {
    if k < |steps| {
      match TakeStep(env, grant, steps[k], k, payload, response, timeoutMs, now)
      case Skip => WorkflowIsFold(env, grant, steps, k + 1, payload, response, timeoutMs, now);
      case Abort(_, _, _) =>
      case Go(dispatch, answer, end) =>
        var merged := Merged(env, steps[k].merge, payload, answer.payload);
        WorkflowIsFold(env, grant, steps, k + 1, merged, Some(answer.payload), answer.timeoutMs, end);
        var rest := RunSteps(env, grant, steps, k + 1, merged, Some(answer.payload), answer.timeoutMs, end);
        assert ([dispatch] + rest.dispatches)[1..] == rest.dispatches;
        assert ([answer.payload] + Answers(rest.dispatches))[1..] == Answers(rest.dispatches);
    }
  }

  ghost predicate InOrder<V>(steps: seq<Step<V>>, k: int, ds: seq<Dispatch<V>>) {
    && (forall i :: 0 <= i < |ds| ==> k <= ds[i].step < |steps|)
    && (forall i, j :: 0 <= i < j < |ds| ==> ds[i].step < ds[j].step)
  }

  lemma InOrderCons<V>(steps: seq<Step<V>>, k: int, d: Dispatch<V>, rest: seq<Dispatch<V>>)
    requires 0 <= k < |steps| && d.step == k && InOrder(steps, k + 1, rest)
    ensures InOrder(steps, k, [d] + rest)
  {
    var ds := [d] + rest;
    assert forall i :: 0 < i < |ds| ==> ds[i] == rest[i - 1];
  }

  /** Each step is dispatched at most once and in order. */
  lemma {:induction false} DispatchesInOrder<V>(
    env: Environment<V>, grant: Granter, steps: seq<Step<V>>, k: int,
    payload: Payload<V>, response: Option<Payload<V>>, timeoutMs: Option<int>, now: real)
    requires 0 <= k <= |steps|
    ensures var ds := RunSteps(env, grant, steps, k, payload, response, timeoutMs, now).dispatches;
            InOrder(steps, k, ds) && |ds| <= |steps| - k
    decreases |steps| - k
  {
    if k < |steps| {
      var turn := TakeStep(env, grant, steps[k], k, payload, response, timeoutMs, now);
      var rest := RunUnfolds(env, grant, steps, k, payload, response, timeoutMs, now, turn);
      match turn
      case Skip => DispatchesInOrder(env, grant, steps, k + 1, payload, response, timeoutMs, now);
      case Abort(_, _, _) =>
      case Go(dispatch, answer, end) =>
        var merged := Merged(env, steps[k].merge, payload, answer.payload);
        DispatchesInOrder(env, grant, steps, k + 1, merged, Some(answer.payload), answer.timeoutMs, end);
        InOrderCons(steps, k, dispatch, rest.dispatches);
    }
  }

  /** What each dispatch sends: the request's payload, then the merge of the previous dispatch's payload and answer. */
  ghost predicate PayloadsChain<V>(env: Environment<V>, steps: seq<Step<V>>, payload: Payload<V>, t: Trace<V>) {
    var ds := t.dispatches;
    && (ds != [] ==> ds[0].payload == payload)
    && (forall i :: 0 < i < |ds| ==> MergedInto(env, steps, ds[i - 1], ds[i].payload))
    && (t.result.Success? ==> if ds == [] then t.result.value == payload else MergedInto(env, steps, ds[|ds| - 1], t.result.value))
  }

  predicate MergedInto<V(==)>(env: Environment<V>, steps: seq<Step<V>>, d: Dispatch<V>, payload: Payload<V>) {
    0 <= d.step < |steps| && d.action == steps[d.step].action && d.answer.Some?
    && payload == Merged(env, steps[d.step].merge, d.payload, d.answer.value.payload)
  }

  lemma {:induction false} WorkflowChainsPayloads<V>(
    env: Environment<V>, grant: Granter, steps: seq<Step<V>>, k: int,
    payload: Payload<V>, response: Option<Payload<V>>, timeoutMs: Option<int>, now: real)
    requires 0 <= k <= |steps|
    ensures PayloadsChain(env, steps, payload, RunSteps(env, grant, steps, k, payload, response, timeoutMs, now))
    decreases |steps| - k
  {
    if k < |steps| {
      var turn := TakeStep(env, grant, steps[k], k, payload, response, timeoutMs, now);
      var rest := RunUnfolds(env, grant, steps, k, payload, response, timeoutMs, now, turn);
      match turn
      case Skip => WorkflowChainsPayloads(env, grant, steps, k + 1, payload, response, timeoutMs, now);
      case Abort(_, _, _) =>
      case Go(dispatch, answer, end) =>
        var merged := Merged(env, steps[k].merge, payload, answer.payload);
        WorkflowChainsPayloads(env, grant, steps, k + 1, merged, Some(answer.payload), answer.timeoutMs, end);
        ChainCons(env, steps, dispatch, merged, rest);
    }
  }

  lemma ChainCons<V>(env: Environment<V>, steps: seq<Step<V>>, d: Dispatch<V>, merged: Payload<V>, rest: Trace<V>)
    requires PayloadsChain(env, steps, merged, rest) && MergedInto(env, steps, d, merged)
    ensures PayloadsChain(env, steps, d.payload, rest.(dispatches := [d] + rest.dispatches))
  {
    var ds := [d] + rest.dispatches;
    forall i | 0 < i < |ds| ensures MergedInto(env, steps, ds[i - 1], ds[i].payload) {
      if i > 1 { assert MergedInto(env, steps, rest.dispatches[i - 2], rest.dispatches[i - 1].payload); }
    }
  }

  ghost predicate NoIdentity<V>(steps: seq<Step<V>>, ds: seq<Dispatch<V>>) {
    forall i :: 0 <= i < |ds| && 0 <= ds[i].step < |steps| ==> steps[ds[i].step].merge != Identity
  }

  lemma NoIdentityCons<V>(steps: seq<Step<V>>, d: Dispatch<V>, ds: seq<Dispatch<V>>)
    ensures NoIdentity(steps, [d] + ds) ==> NoIdentity(steps, ds) && (0 <= d.step < |steps| ==> steps[d.step].merge != Identity)
  {
    var all := [d] + ds;
    assert all[0] == d && forall i :: 0 <= i < |ds| ==> ds[i] == all[i + 1];
  }

  /** If no executed step replaces the payload, every key of the request survives to the end. */
  lemma {:induction false} KeysSurvive<V>(
    env: Environment<V>, grant: Granter, steps: seq<Step<V>>, k: int,
    payload: Payload<V>, response: Option<Payload<V>>, timeoutMs: Option<int>, now: real)
    requires 0 <= k <= |steps|
    ensures var t := RunSteps(env, grant, steps, k, payload, response, timeoutMs, now);
            t.result.Success? && NoIdentity(steps, t.dispatches) ==> payload.Keys <= t.result.value.Keys
    decreases |steps| - k
  {
    if k < |steps| {
      match TakeStep(env, grant, steps[k], k, payload, response, timeoutMs, now)
      case Skip => KeysSurvive(env, grant, steps, k + 1, payload, response, timeoutMs, now);
      case Abort(_, _, _) =>
      case Go(dispatch, answer, end) =>
        var merged := Merged(env, steps[k].merge, payload, answer.payload);
        KeysSurvive(env, grant, steps, k + 1, merged, Some(answer.payload), answer.timeoutMs, end);
        NoIdentityCons(steps, dispatch, RunSteps(env, grant, steps, k + 1, merged, Some(answer.payload), answer.timeoutMs, end).dispatches);
    }
  }

  // ---------- the final payload, key by key ----------

  function At<V>(m: Payload<V>, key: string): Option<V> {
    if key in m then Some(m[key]) else None
  }

  /** What a step's answer adds under its strategy: the "data" map of a `merge_results` answer that has one, else the answer. */
  function Contribution<V>(env: Environment<V>, merge: Merge, answer: Payload<V>): Payload<V> {
    if merge == MergeResults && "data" in answer && env.asPayload(answer["data"]).Some? then env.asPayload(answer["data"]).value
    else answer
  }

  /** The dispatch settles the key: its answer has it, or replaces the whole payload. */
  predicate Writes<V>(env: Environment<V>, steps: seq<Step<V>>, d: Dispatch<V>, key: string) {
    0 <= d.step < |steps| && d.answer.Some?
    && (steps[d.step].merge == Identity || key in Contribution(env, steps[d.step].merge, d.answer.value.payload))
  }

  predicate LastWriter<V>(env: Environment<V>, steps: seq<Step<V>>, ds: seq<Dispatch<V>>, key: string, j: nat) {
    j < |ds| && Writes(env, steps, ds[j], key) && forall i :: j < i < |ds| ==> !Writes(env, steps, ds[i], key)
  }

  ghost predicate Unwritten<V>(env: Environment<V>, steps: seq<Step<V>>, ds: seq<Dispatch<V>>, key: string) {
    forall i :: 0 <= i < |ds| ==> !Writes(env, steps, ds[i], key)
  }

  /** The key has the value of the last dispatch that settles it, or the request's when none does. */
  ghost predicate LastWriteWins<V>(env: Environment<V>, steps: seq<Step<V>>, payload: Payload<V>, ds: seq<Dispatch<V>>,
                                   result: Payload<V>, key: string) {
    && (Unwritten(env, steps, ds, key) ==> At(result, key) == At(payload, key))
    && forall j: nat :: LastWriter(env, steps, ds, key, j) ==>
         At(result, key) == At(Contribution(env, steps[ds[j].step].merge, ds[j].answer.value.payload), key)
  }

  lemma MergedAt<V>(env: Environment<V>, merge: Merge, current: Payload<V>, response: Payload<V>, key: string)
    ensures At(Merged(env, merge, current, response), key)
         == if merge == Identity || key in Contribution(env, merge, response) then At(Contribution(env, merge, response), key)
            else At(current, key)
  {
  }

  lemma LastWriteCons<V>(env: Environment<V>, steps: seq<Step<V>>, payload: Payload<V>, d: Dispatch<V>, merged: Payload<V>,
                         rest: seq<Dispatch<V>>, result: Payload<V>, key: string)
    requires LastWriteWins(env, steps, merged, rest, result, key)
    requires At(merged, key) == if Writes(env, steps, d, key) then At(Contribution(env, steps[d.step].merge, d.answer.value.payload), key)
                                else At(payload, key)
    ensures LastWriteWins(env, steps, payload, [d] + rest, result, key)
  {
    var ds := [d] + rest;
    assert ds[0] == d && forall i :: 0 <= i < |rest| ==> ds[i + 1] == rest[i];
    if Unwritten(env, steps, ds, key) {
      forall i | 0 <= i < |rest| ensures !Writes(env, steps, rest[i], key) { assert !Writes(env, steps, ds[i + 1], key); }
    }
    forall j: nat | LastWriter(env, steps, ds, key, j)
      ensures At(result, key) == At(Contribution(env, steps[ds[j].step].merge, ds[j].answer.value.payload), key)
    {
      forall i | j <= i < |rest| ensures !Writes(env, steps, rest[i], key) { assert !Writes(env, steps, ds[i + 1], key); }
      if j > 0 {
        assert LastWriter(env, steps, rest, key, j - 1);
      } else {
        assert Unwritten(env, steps, rest, key);
      }
    }
  }

  /** Over a whole successful run, for every mixture of strategies: each key of the result comes from the last step that settles it. */
  lemma {:induction false} FinalValueByKey<V>(
    env: Environment<V>, grant: Granter, steps: seq<Step<V>>, k: int,
    payload: Payload<V>, response: Option<Payload<V>>, timeoutMs: Option<int>, now: real, key: string)
    requires 0 <= k <= |steps|
    ensures var t := RunSteps(env, grant, steps, k, payload, response, timeoutMs, now);
            t.result.Success? ==> LastWriteWins(env, steps, payload, t.dispatches, t.result.value, key)
    decreases |steps| - k
  {
    if k < |steps| {
      var turn := TakeStep(env, grant, steps[k], k, payload, response, timeoutMs, now);
      var rest := RunUnfolds(env, grant, steps, k, payload, response, timeoutMs, now, turn);
      match turn
      case Skip => FinalValueByKey(env, grant, steps, k + 1, payload, response, timeoutMs, now, key);
      case Abort(_, _, _) =>
      case Go(dispatch, answer, end) =>
        var merged := Merged(env, steps[k].merge, payload, answer.payload);
        FinalValueByKey(env, grant, steps, k + 1, merged, Some(answer.payload), answer.timeoutMs, end, key);
        MergedAt(env, steps[k].merge, payload, answer.payload, key);
        if rest.result.Success? { LastWriteCons(env, steps, payload, dispatch, merged, rest.dispatches, rest.result.value, key); }
    }
  }

  ghost predicate AllMerge<V>(steps: seq<Step<V>>, ds: seq<Dispatch<V>>, merge: Merge) {
    forall i :: 0 <= i < |ds| ==> 0 <= ds[i].step < |steps| && ds[i].answer.Some? && steps[ds[i].step].merge == merge
  }

  /** Dispatch `j` is the last one whose answer has the key. */
  predicate LastAnswerWith<V>(ds: seq<Dispatch<V>>, key: string, j: nat) {
    && j < |ds| && ds[j].answer.Some? && key in ds[j].answer.value.payload
    && forall i :: j < i < |ds| ==> ds[i].answer.None? || key !in ds[i].answer.value.payload
  }

  /** With `merge_payload` throughout, the last answer that has a key gives its value, and the request's value stays when none has it. */
  lemma MergePayloadResult<V>(
    env: Environment<V>, grant: Granter, steps: seq<Step<V>>, payload: Payload<V>, timeoutMs: Option<int>, now: real, key: string)
    requires var t := RunSteps(env, grant, steps, 0, payload, None, timeoutMs, now);
             t.result.Success? && AllMerge(steps, t.dispatches, MergePayload)
    ensures var t := RunSteps(env, grant, steps, 0, payload, None, timeoutMs, now);
            && (forall j: nat :: LastAnswerWith(t.dispatches, key, j) ==>
                  key in t.result.value && t.result.value[key] == t.dispatches[j].answer.value.payload[key])
            && ((forall j: nat :: !LastAnswerWith(t.dispatches, key, j)) ==> At(t.result.value, key) == At(payload, key))
  {
    var t := RunSteps(env, grant, steps, 0, payload, None, timeoutMs, now);
    FinalValueByKey(env, grant, steps, 0, payload, None, timeoutMs, now, key);
    forall j: nat ensures LastAnswerWith(t.dispatches, key, j) <==> LastWriter(env, steps, t.dispatches, key, j) {
      AnswerIsWrite(env, steps, t.dispatches, key, j);
    }
    if forall j: nat :: !LastAnswerWith(t.dispatches, key, j) { SomeLastWriter(env, steps, t.dispatches, key); }
  }

  lemma AnswerIsWrite<V>(env: Environment<V>, steps: seq<Step<V>>, ds: seq<Dispatch<V>>, key: string, j: nat)
    requires AllMerge(steps, ds, MergePayload)
    ensures LastAnswerWith(ds, key, j) <==> LastWriter(env, steps, ds, key, j)
  {
    forall i | 0 <= i < |ds| ensures Writes(env, steps, ds[i], key) <==> key in ds[i].answer.value.payload { }
  }

  lemma {:induction false} SomeLastWriter<V>(env: Environment<V>, steps: seq<Step<V>>, ds: seq<Dispatch<V>>, key: string)
    ensures Unwritten(env, steps, ds, key) || exists j: nat :: LastWriter(env, steps, ds, key, j)
  {
    if ds != [] {
      var k := |ds| - 1;
      SomeLastWriter(env, steps, ds[..k], key);
      if Writes(env, steps, ds[k], key) {
        assert LastWriter(env, steps, ds, key, k);
      } else if j: nat :| LastWriter(env, steps, ds[..k], key, j) {
        assert LastWriter(env, steps, ds, key, j);
      } else {
        forall i | 0 <= i < |ds| ensures !Writes(env, steps, ds[i], key) {
          if i < k { assert ds[..k][i] == ds[i]; }
        }
      }
    }
  }

  /** When the last executed step is `identity`, the result is exactly its answer. */
  lemma IdentityResult<V>(
    env: Environment<V>, grant: Granter, steps: seq<Step<V>>, payload: Payload<V>, timeoutMs: Option<int>, now: real)
    requires var t := RunSteps(env, grant, steps, 0, payload, None, timeoutMs, now);
             && t.result.Success? && t.dispatches != []
             && var last := t.dispatches[|t.dispatches| - 1]; 0 <= last.step < |steps| && steps[last.step].merge == Identity && last.answer.Some?
    ensures var t := RunSteps(env, grant, steps, 0, payload, None, timeoutMs, now);
            t.result.value == t.dispatches[|t.dispatches| - 1].answer.value.payload
  {
    var t := RunSteps(env, grant, steps, 0, payload, None, timeoutMs, now);
    var k := |t.dispatches| - 1;
    var answer := t.dispatches[k].answer.value.payload;
    forall key ensures At(t.result.value, key) == At(answer, key) {
      FinalValueByKey(env, grant, steps, 0, payload, None, timeoutMs, now, key);
      assert LastWriter(env, steps, t.dispatches, key, k);
    }
    SameEverywhere(t.result.value, answer);
  }

  lemma SameEverywhere<V>(m: Payload<V>, n: Payload<V>)
    requires forall key :: At(m, key) == At(n, key)
    ensures m == n
  {
    forall key ensures (key in m <==> key in n) && (key in m ==> m[key] == n[key]) { assert At(m, key) == At(n, key); }
  }

  // ---------- what is sent, when, and why a run stops ----------

  /** Where a run stands between two dispatches. */
  datatype Point<V> = Point(payload: Payload<V>, response: Option<Payload<V>>, timeoutMs: Option<int>, now: real)

  /** The dispatch is the sending of its own step with the budget granted there and then, and holds the worker's own answer. */
  ghost predicate SentFrom<V>(env: Environment<V>, grant: Granter, steps: seq<Step<V>>, at: Point<V>, d: Dispatch<V>) {
    && 0 <= d.step < |steps| && d.action == steps[d.step].action && d.payload == at.payload
    && grant(d.step, steps[d.step].timeoutMs, at.timeoutMs, at.now) == Granted(d.headerMs, d.capMs, d.now, d.workerMs)
    && var sent := env.send(d.step, d.action, d.payload, d.workerMs);
       d.answer == if sent.result.Success? then Some(sent.result.value) else None
  }

  /** After an answer: its payload merged in, its timeout current, its arrival the present. */
  ghost function PointAfter<V>(env: Environment<V>, steps: seq<Step<V>>, at: Point<V>, d: Dispatch<V>): Point<V>
    requires 0 <= d.step < |steps| && d.answer.Some?
  {
    Point(Merged(env, steps[d.step].merge, at.payload, d.answer.value.payload), Some(d.answer.value.payload), d.answer.value.timeoutMs,
          d.now + env.send(d.step, d.action, d.payload, d.workerMs).duration)
  }

  /** All steps from `from` up to `i` are skipped at this point. */
  ghost predicate SkipsTo<V>(env: Environment<V>, steps: seq<Step<V>>, at: Point<V>, from: int, i: int) {
    from <= i <= |steps| && forall j :: 0 <= from <= j < i ==> ShouldExecute(env, steps[j], at.payload, at.response) == Success(false)
  }

  /** Why a run ends in an error at this point: the next step that is not skipped cannot be judged, afforded or answered. */
  ghost predicate StopsFor<V>(env: Environment<V>, grant: Granter, steps: seq<Step<V>>, at: Point<V>, i: int, error: WorkflowError)
  {
    && 0 <= i < |steps|
    && var run := ShouldExecute(env, steps[i], at.payload, at.response);
       match error
       case ConditionFailed(e) => run == Failure(e)
       case BudgetExhausted => run == Success(true) && grant(i, steps[i].timeoutMs, at.timeoutMs, at.now).Denied?
       case WorkerFailed(message) =>
         run == Success(true)
         && match grant(i, steps[i].timeoutMs, at.timeoutMs, at.now)
            case Denied(_) => false
            case Granted(_, _, _, workerMs) => env.send(i, steps[i].action, at.payload, workerMs).result == Failure(message)
  }

  /** A trace that follows the steps from a point: skipped steps, dispatches one after the other, and an end with a reason. */
  ghost predicate Follows<V>(env: Environment<V>, grant: Granter, steps: seq<Step<V>>, from: int, at: Point<V>, t: Trace<V>)
    decreases |t.dispatches|
  {
    if t.dispatches != [] && t.dispatches[0].answer.Some? then
      var d := t.dispatches[0];
      && SentFrom(env, grant, steps, at, d) && SkipsTo(env, steps, at, from, d.step)
      && ShouldExecute(env, steps[d.step], at.payload, at.response) == Success(true)
      && Follows(env, grant, steps, d.step + 1, PointAfter(env, steps, at, d), t.(dispatches := t.dispatches[1..]))
    else if t.result.Success? then
      t.dispatches == [] && t.result.value == at.payload && SkipsTo(env, steps, at, from, |steps|)
    else
      && (exists i :: SkipsTo(env, steps, at, from, i) && StopsFor(env, grant, steps, at, i, t.result.error))
      && (t.result.error.WorkerFailed? <==> t.dispatches != [])
      && |t.dispatches| <= 1 && forall d :: d in t.dispatches ==> SentFrom(env, grant, steps, at, d)
  }

  lemma SkipFollows<V>(env: Environment<V>, grant: Granter, steps: seq<Step<V>>, k: int, at: Point<V>, t: Trace<V>)
    requires 0 <= k < |steps| && ShouldExecute(env, steps[k], at.payload, at.response) == Success(false)
    requires Follows(env, grant, steps, k + 1, at, t)
    ensures Follows(env, grant, steps, k, at, t)
  {
    if t.dispatches != [] && t.dispatches[0].answer.Some? {
      assert SkipsTo(env, steps, at, k, t.dispatches[0].step);
    } else if t.result.Failure? {
      var i :| SkipsTo(env, steps, at, k + 1, i) && StopsFor(env, grant, steps, at, i, t.result.error);
      assert SkipsTo(env, steps, at, k, i);
    }
  }

  lemma AbortFollows<V>(env: Environment<V>, grant: Granter, steps: seq<Step<V>>, k: int, at: Point<V>, turn: Turn<V>)
    requires 0 <= k < |steps| && turn == TakeStep(env, grant, steps[k], k, at.payload, at.response, at.timeoutMs, at.now) && turn.Abort?
    ensures Follows(env, grant, steps, k, at, Trace(Failure(turn.error), turn.sent, turn.end))
  {
    assert SkipsTo(env, steps, at, k, k) && StopsFor(env, grant, steps, at, k, turn.error);
  }

  /** The whole trace of every run, success or error: which steps are skipped, what is sent to which worker when, and why it ends. */
  lemma {:induction false} RunFollowsSteps<V>(
    env: Environment<V>, grant: Granter, steps: seq<Step<V>>, k: int, at: Point<V>)
    requires 0 <= k <= |steps|
    ensures Follows(env, grant, steps, k, at, RunSteps(env, grant, steps, k, at.payload, at.response, at.timeoutMs, at.now))
    decreases |steps| - k
  {
    if k < |steps| {
      var turn := TakeStep(env, grant, steps[k], k, at.payload, at.response, at.timeoutMs, at.now);
      var rest := RunUnfolds(env, grant, steps, k, at.payload, at.response, at.timeoutMs, at.now, turn);
      match turn
      case Skip =>
        RunFollowsSteps(env, grant, steps, k + 1, at);
        SkipFollows(env, grant, steps, k, at, rest);
      case Abort(_, _, _) => AbortFollows(env, grant, steps, k, at, turn);
      case Go(dispatch, answer, end) =>
        var next := PointAfter(env, steps, at, dispatch);
        RunFollowsSteps(env, grant, steps, k + 1, next);
        GoFollows(env, grant, steps, k, at, turn, rest);
    }
  }

  lemma GoFollows<V>(env: Environment<V>, grant: Granter, steps: seq<Step<V>>, k: int, at: Point<V>, turn: Turn<V>, rest: Trace<V>)
    requires 0 <= k < |steps| && turn == TakeStep(env, grant, steps[k], k, at.payload, at.response, at.timeoutMs, at.now) && turn.Go?
    requires Follows(env, grant, steps, k + 1, PointAfter(env, steps, at, turn.dispatch), rest)
    ensures Follows(env, grant, steps, k, at, rest.(dispatches := [turn.dispatch] + rest.dispatches))
  {
    var ds := [turn.dispatch] + rest.dispatches;
    assert ds[0] == turn.dispatch && ds[1..] == rest.dispatches;
    assert rest.(dispatches := ds).(dispatches := ds[1..]) == rest;
    assert SkipsTo(env, steps, at, k, k);
  }

  /** A condition is the truth of its expression with boolean operands, over the payload so far, the last answer and the action. */
  lemma ConditionMeans<V(!new)>(env: Environment<V>, step: Step<V>, payload: Payload<V>, response: Option<Payload<V>>)
    requires ConditionEval.Lawful(env.host)
    requires step.condition.Some? ==> ConditionEval.HasOperands(step.condition.value)
    ensures step.condition.None? ==> ShouldExecute(env, step, payload, response) == Success(true)
    ensures step.condition.Some? ==>
              var x, run := ConditionEval.Coerced(step.condition.value), ShouldExecute(env, step, payload, response);
              var context := map["payload" := env.ofPayload(payload),
                                 "response" := if response.Some? then env.ofPayload(response.value) else env.noResponse,
                                 "action" := env.ofString(step.action), "accumulated" := env.ofPayload(payload)];
              && (run.Success? <==> ConditionEval.Supported(x) && ConditionEval.PyTotal(env.host, x, context))
              && (run.Success? ==> run.value == env.host.truthy(ConditionEval.PyEval(env.host, x, context).value))
  {
    if step.condition.Some? {
      var context := map["payload" := env.ofPayload(payload),
                         "response" := if response.Some? then env.ofPayload(response.value) else env.noResponse,
                         "action" := env.ofString(step.action), "accumulated" := env.ofPayload(payload)];
      ConditionEval.EagerMeansCoerced(env.host, step.condition.value, context);
    }
  }

  /** A header timeout of `n` ms is within what was declared and what remains, one millisecond being always allowed. */
  predicate HeaderFits(stepTimeoutMs: Option<int>, packetTimeoutMs: Option<int>, d: Deadline, now: real, n: int) {
    && (match stepTimeoutMs case Some(ms) => n <= ms case None => packetTimeoutMs.Some? ==> n <= packetTimeoutMs.value)
    && (n <= 1 || now + n as real / 1000.0 <= d.End())
  }

  /** The header timeout is the largest that fits. */
  lemma StepTimeoutIsLargest(stepTimeoutMs: Option<int>, packetTimeoutMs: Option<int>, d: Deadline, now: real, n: int)
    requires d.startedAt <= now
    ensures var r := StepTimeoutMs(stepTimeoutMs, packetTimeoutMs, Some(d), now);
            && (r.Success? <==> now < d.End())
            && (r.Success? ==> r.value.Some? && (n <= r.value.value <==> HeaderFits(stepTimeoutMs, packetTimeoutMs, d, now, n)))
  {
    ExpiresAtEnd(d, now);
    if now < d.End() { TruncationIsLargest(d.Remaining(now) * 1000.0, n); }
  }

  /** Without a deadline a step keeps its declared timeout, or the packet's, and the worker gets the node's whole cap. */
  lemma GrantWithoutDeadline<V>(env: Environment<V>, k: int, stepTimeoutMs: Option<int>, packetTimeoutMs: Option<int>, now: real)
    ensures GranterFor(env, None)(k, stepTimeoutMs, packetTimeoutMs, now)
         == Granted(match stepTimeoutMs case Some(_) => stepTimeoutMs case None => packetTimeoutMs,
                    env.nodeTimeoutMs(k), now + env.checkLag(k) + env.readLag(k), env.nodeTimeoutMs(k))
  {
    NoDeadlineWholeCap(env.nodeTimeoutMs(k), now + env.checkLag(k), now + env.checkLag(k) + env.readLag(k));
  }

  /** Every budget decision under a deadline: the largest timeouts that fit, refused exactly when no millisecond is left for the worker. */
  lemma GrantIsLargest<V(!new)>(
    env: Environment<V>, d: Deadline, k: int, stepTimeoutMs: Option<int>, packetTimeoutMs: Option<int>, now: real, n: int)
    requires Sound(env) && d.startedAt <= now && n >= 1
    ensures match GranterFor(env, Some(d))(k, stepTimeoutMs, packetTimeoutMs, now)
            case Denied(at) => now <= at && d.End() < at + 1.0 / 1000.0
            case Granted(headerMs, capMs, at, workerMs) =>
              && capMs == env.nodeTimeoutMs(k) && at == now + env.checkLag(k) + env.readLag(k)
              && headerMs.Some? && (n <= headerMs.value <==> HeaderFits(stepTimeoutMs, packetTimeoutMs, d, now, n))
              && (n <= workerMs <==> n <= capMs && at + n as real / 1000.0 <= d.End())
  {
    var checkedAt := now + env.checkLag(k);
    var readAt := checkedAt + env.readLag(k);
    StepTimeoutIsLargest(stepTimeoutMs, packetTimeoutMs, d, now, n);
    WorkerBudgetIsLargest(env.nodeTimeoutMs(k), d, checkedAt, readAt, n);
    WorkerBudgetIsLargest(env.nodeTimeoutMs(k), d, checkedAt, readAt, 1);
  }

  // ---------- every step draws on the one packet budget ----------

  /** Every grant of a granter, asked at a time after the packet's start, lies in the packet's window. */
  ghost predicate GrantsWithin(p: TimeoutPolicy, packetTimeoutMs: Option<int>, start: real, grant: Granter) {
    forall k, stepMs, packetMs, now | start <= now :: match grant(k, stepMs, packetMs, now)
      case Denied(at) => now <= at
      case Granted(_, capMs, at, workerMs) => now <= at && WithinPacket(p, packetTimeoutMs, start, capMs, at, workerMs)
  }

  lemma DeadlineGrantsWithin<V(!new)>(p: TimeoutPolicy, packetTimeoutMs: Option<int>, start: real, env: Environment<V>)
    requires p.Valid() && p.Advertised(packetTimeoutMs) >= 1 && Sound(env)
    ensures GrantsWithin(p, packetTimeoutMs, start, GranterFor(env, Some(p.DeadlineFor(packetTimeoutMs, start))))
  {
    var grant := GranterFor(env, Some(p.DeadlineFor(packetTimeoutMs, start)));
    forall k, stepMs, packetMs, now | start <= now
      ensures match grant(k, stepMs, packetMs, now)
              case Denied(at) => now <= at
              case Granted(_, capMs, at, workerMs) => now <= at && WithinPacket(p, packetTimeoutMs, start, capMs, at, workerMs)
    {
      var checkedAt := now + env.checkLag(k);
      WorkerTimeoutWithinPacket(p, packetTimeoutMs, start, env.nodeTimeoutMs(k), checkedAt, checkedAt + env.readLag(k));
    }
  }

  ghost predicate DispatchesWithin<V>(p: TimeoutPolicy, packetTimeoutMs: Option<int>, start: real, ds: seq<Dispatch<V>>) {
    forall i :: 0 <= i < |ds| ==> WithinPacket(p, packetTimeoutMs, start, ds[i].capMs, ds[i].now, ds[i].workerMs)
  }

  /** However many steps a workflow has, each of its worker timeouts ends inside the window of the one packet. */
  lemma {:induction false} StepsWithinPacket<V(!new)>(
    p: TimeoutPolicy, packetTimeoutMs: Option<int>, start: real,
    env: Environment<V>, grant: Granter, steps: seq<Step<V>>, k: int,
    payload: Payload<V>, response: Option<Payload<V>>, timeoutMs: Option<int>, now: real)
    requires Sound(env) && GrantsWithin(p, packetTimeoutMs, start, grant) && 0 <= k <= |steps| && start <= now
    ensures var t := RunSteps(env, grant, steps, k, payload, response, timeoutMs, now);
            now <= t.end && DispatchesWithin(p, packetTimeoutMs, start, t.dispatches)
    decreases |steps| - k
  {
    if k < |steps| {
      match TakeStep(env, grant, steps[k], k, payload, response, timeoutMs, now)
      case Skip => StepsWithinPacket(p, packetTimeoutMs, start, env, grant, steps, k + 1, payload, response, timeoutMs, now);
      case Abort(_, _, _) =>
      case Go(_, answer, end) =>
        StepsWithinPacket(p, packetTimeoutMs, start, env, grant, steps, k + 1, Merged(env, steps[k].merge, payload, answer.payload),
                          Some(answer.payload), answer.timeoutMs, end);
    }
  }

  /** A step's header timeout never outlives what remains, rounded up to one millisecond, nor what was declared. */
  lemma StepTimeoutClamped(stepTimeoutMs: Option<int>, packetTimeoutMs: Option<int>, d: Deadline, now: real)
    ensures var r := StepTimeoutMs(stepTimeoutMs, packetTimeoutMs, Some(d), now);
            var declared := if stepTimeoutMs.Some? then stepTimeoutMs else packetTimeoutMs;
            && (r.Failure? <==> d.Expired(now))
            && (r.Success? ==>
                && r.value.Some?
                && (r.value.value as real <= d.Remaining(now) * 1000.0 || r.value.value <= 1)
                && (declared.Some? ==> r.value.value <= declared.value)
                && (declared.None? || declared.value >= 1 ==> r.value.value >= 1))
  {
    if !d.Expired(now) {
      TruncationIsLargest(d.Remaining(now) * 1000.0, Truncated(d.Remaining(now) * 1000.0));
    }
  }
}
