/** The execution pipeline: `services/execute_service.py`, with every request as two atomic steps around its await. */
module ExecuteService {
  import opened Wrappers
  import opened Packets
  import RateLimiter
  import CircuitBreaker
  import Idempotency
  import ReplayGuard
  import DeadLetterQueue

  // ---------- which answers are cached ----------

  predicate LastResponseOk(hops: seq<Hop>) {
    if hops == [] then true
    else if hops[|hops| - 1].direction == "response" then hops[|hops| - 1].status != "failed"
    else LastResponseOk(hops[..|hops| - 1])
  }

  predicate IsTerminalSuccess(r: Response) {
    r.packetType != "failure" && LastResponseOk(r.hops)
  }

  /** Hop `i` is the latest response hop. */
  predicate LatestResponse(hops: seq<Hop>, i: nat) {
    i < |hops| && hops[i].direction == "response" && forall j :: i < j < |hops| ==> hops[j].direction != "response"
  }

  /** The answer reports a failure: by its packet type, or by the status of its latest response hop. */
  ghost predicate ReportsFailure(r: Response) {
    r.packetType == "failure" || exists i: nat :: LatestResponse(r.hops, i) && r.hops[i].status == "failed"
  }

  lemma {:induction false} LatestResponseHopDecides(hops: seq<Hop>)
    ensures LastResponseOk(hops) <==> forall i: nat :: LatestResponse(hops, i) ==> hops[i].status != "failed"
  {
    if hops != [] {
      var k, before := |hops| - 1, hops[..|hops| - 1];
      LatestResponseHopDecides(before);
      if hops[k].direction == "response" {
        assert LatestResponse(hops, k);
      } else {
        forall i: nat ensures LatestResponse(hops, i) <==> LatestResponse(before, i) { }
      }
    }
  }

  /** Exactly the answers that report no failure count as successes; one without a response hop is among them. */
  lemma TerminalSuccessIff(r: Response)
    ensures IsTerminalSuccess(r) <==> !ReportsFailure(r)
  {
    LatestResponseHopDecides(r.hops);
  }

  // ---------- the pipeline as a state machine ----------

  type TaskId = nat

  datatype Config = Config(
    limiter: RateLimiter.Config,
    breaker: CircuitBreaker.Config,
    ttl: int,
    replayWindow: int,
    maxInFlight: int,
    maxQueueDepth: int,
    maxDeadLetters: nat)
  {
    predicate Valid() {
      limiter.Valid() && breaker.Valid() && ttl > 0 && replayWindow > 0 && maxInFlight >= 1 && maxQueueDepth >= 1
    }
  }

  datatype DeadLetter = DeadLetter(packet: Packet, error: string)

  datatype State = State(
    counters: RateLimiter.Counters,
    breaker: CircuitBreaker.State,
    store: Idempotency.Store<Response>,
    seen: ReplayGuard.Seen,
    inFlight: int,
    dead: seq<DeadLetter>,
    running: map<TaskId, Packet>)

  const INITIAL := State(map[], CircuitBreaker.FRESH, map[], map[], 0, [], map[])

  datatype Verdict =
    | RateLimited | Shed | BadQueueDepth | Backpressure | BreakerOpen
    | Cached(response: Response) | Replayed | Started

  function LookupFor(c: Config, store: Idempotency.Store<Response>, packet: Packet, now: int): Option<Response> {
    var key := Idempotency.NamespaceKey(packet);
    if key.None? then None else Idempotency.Lookup(c.ttl, store, key.value, now)
  }

  function StoreAfterLookup(c: Config, store: Idempotency.Store<Response>, packet: Packet, now: int): Idempotency.Store<Response> {
    var key := Idempotency.NamespaceKey(packet);
    if key.None? then store else Idempotency.AfterLookup(c.ttl, store, key.value, now)
  }

  /** What the guards decide, in the order in which they are asked. */
  function Judge(c: Config, s: State, packet: Packet, depth: int, now: int): Verdict
    requires c.Valid()
  {
    if !RateLimiter.Admits(c.limiter, s.counters, packet.sourceNode, now) then RateLimited
    else if s.inFlight >= c.maxInFlight then Shed
    else if depth < 0 then BadQueueDepth
    else if depth >= c.maxQueueDepth then Backpressure
    else if !CircuitBreaker.Admits(c.breaker, s.breaker, now) then BreakerOpen
    else JudgeAdmitted(c, s, packet, now)
  }

  function JudgeAdmitted(c: Config, s: State, packet: Packet, now: int): Verdict {
    var cached := LookupFor(c, s.store, packet, now);
    if cached.Some? then Cached(cached.value)
    else if !ReplayGuard.Accepts(c.replayWindow, s.seen, packet.id, now) then Replayed
    else Started
  }

  /** What an admitted request does to the store, the replay guard and the requests in flight. */
  function Admitted(c: Config, s: State, task: TaskId, packet: Packet, now: int): State {
    var v := JudgeAdmitted(c, s, packet, now);
    s.(store := StoreAfterLookup(c, s.store, packet, now),
       seen := if v.Cached? then s.seen else ReplayGuard.Checked(c.replayWindow, s.seen, packet.id, now),
       inFlight := if v.Started? then s.inFlight + 1 else s.inFlight,
       running := if v.Started? then s.running[task := packet] else s.running)
  }

  predicate ReachesLookup(v: Verdict) { v.Cached? || v.Replayed? || v.Started? }

  predicate ReachesBreaker(v: Verdict) { v.BreakerOpen? || ReachesLookup(v) }

  predicate ReachesGuard(v: Verdict) { v.Replayed? || v.Started? }

  function Submitted(c: Config, s: State, task: TaskId, packet: Packet, depth: int, now: int): State
    requires c.Valid()
  {
    var v := Judge(c, s, packet, depth, now);
    State(
      RateLimiter.Allowed(c.limiter, s.counters, packet.sourceNode, now),
      if ReachesBreaker(v) then CircuitBreaker.Called(c.breaker, s.breaker, now) else s.breaker,
      if ReachesLookup(v) then StoreAfterLookup(c, s.store, packet, now) else s.store,
      if ReachesGuard(v) then ReplayGuard.Checked(c.replayWindow, s.seen, packet.id, now) else s.seen,
      if v.Started? then s.inFlight + 1 else s.inFlight,
      s.dead,
      if v.Started? then s.running[task := packet] else s.running)
  }

  function Stored(store: Idempotency.Store<Response>, packet: Packet, response: Response, now: int): Idempotency.Store<Response> {
    var key := Idempotency.NamespaceKey(packet);
    if IsTerminalSuccess(response) && key.Some? then store[key.value := Idempotency.Entry(now, response)] else store
  }

  function Answered(s: State, task: TaskId, response: Response, now: int): State
    requires task in s.running
  {
    s.(breaker := CircuitBreaker.FRESH, store := Stored(s.store, s.running[task], response, now),
       inFlight := s.inFlight - 1, running := s.running - {task})
  }

  function Broken(c: Config, s: State, task: TaskId, error: string, now: int): State
    requires task in s.running
  {
    s.(breaker := CircuitBreaker.Failed(c.breaker, s.breaker, now),
       dead := DeadLetterQueue.LastOf(s.dead + [DeadLetter(s.running[task], error)], c.maxDeadLetters),
       inFlight := s.inFlight - 1, running := s.running - {task})
  }

  function Abandoned(s: State, task: TaskId): State {
    s.(inFlight := s.inFlight - 1, running := s.running - {task})
  }

  class ExecuteService {
    const config: Config
    const rateLimiter: RateLimiter.FixedWindowRateLimiter
    const circuitBreaker: CircuitBreaker.CircuitBreaker
    const idempotencyStore: Idempotency.IdempotencyStore<Response>
    const replayGuard: ReplayGuard.ReplayGuard
    const deadLetterQueue: DeadLetterQueue.DeadLetterQueue<DeadLetter>
    var inFlightRequests: int
    var running: map<TaskId, Packet>

    constructor (config: Config)
      requires config.Valid()
      ensures this.config == config && Wired() && View() == INITIAL
      ensures fresh(rateLimiter) && fresh(circuitBreaker) && fresh(idempotencyStore) && fresh(replayGuard) && fresh(deadLetterQueue)
    {
      this.config := config;
      rateLimiter := new RateLimiter.FixedWindowRateLimiter(config.limiter);
      circuitBreaker := new CircuitBreaker.CircuitBreaker(config.breaker);
      idempotencyStore := new Idempotency.IdempotencyStore<Response>(config.ttl);
      replayGuard := new ReplayGuard.ReplayGuard(config.replayWindow);
      deadLetterQueue := new DeadLetterQueue.DeadLetterQueue<DeadLetter>(config.maxDeadLetters);
      inFlightRequests, running := 0, map[];
    }

    /** Every guard carries its part of the configuration. */
    predicate Wired() {
      && config.Valid() && rateLimiter.config == config.limiter && circuitBreaker.config == config.breaker
      && idempotencyStore.ttl == config.ttl && replayGuard.window == config.replayWindow
      && deadLetterQueue.maxEntries == config.maxDeadLetters
    }

    function View(): State
      reads this, rateLimiter, circuitBreaker, idempotencyStore, replayGuard, deadLetterQueue
    {
      State(rateLimiter.counters, circuitBreaker.View(), idempotencyStore.store, replayGuard.seen,
            inFlightRequests, deadLetterQueue.entries, running)
    }

    /** From ingress to the first await: the guards, the cache lookup and the replay check are one atomic step. */
    method Submit(task: TaskId, packet: Packet, queueDepth: int, now: int) returns (verdict: Verdict)
      requires Wired() && (circuitBreaker.mode.Open? ==> circuitBreaker.openedAt.Some?)
      modifies this, rateLimiter, circuitBreaker, idempotencyStore, replayGuard
      ensures verdict == Judge(config, old(View()), packet, queueDepth, now)
      ensures View() == Submitted(config, old(View()), task, packet, queueDepth, now)
    {
      var allowed, _ := rateLimiter.Allow(packet.sourceNode, now);
      if !allowed { return RateLimited; }
      if inFlightRequests >= config.maxInFlight { return Shed; }
      if queueDepth < 0 { return BadQueueDepth; }
      if queueDepth >= config.maxQueueDepth { return Backpressure; }
      var admitted := circuitBreaker.BeforeCall(now);
      if !admitted { return BreakerOpen; }
      verdict := Admit(task, packet, now);
    }

    /** Past the guards: in flight while the cache and the replay guard are asked, and from then on only if it starts. */
    method Admit(task: TaskId, packet: Packet, now: int) returns (verdict: Verdict)
      requires Wired()
      modifies this, idempotencyStore, replayGuard
      ensures verdict == JudgeAdmitted(config, old(View()), packet, now)
      ensures View() == Admitted(config, old(View()), task, packet, now)
    {
      inFlightRequests := inFlightRequests + 1;
      var cached := idempotencyStore.GetForPacket(packet, now);
      if cached.Some? {
        inFlightRequests := inFlightRequests - 1;
        return Cached(cached.value);
      }
      var accepted := replayGuard.CheckAndRecord(packet.id, now);
      if !accepted {
        inFlightRequests := inFlightRequests - 1;
        return Replayed;
      }
      running := running[task := packet];
      return Started;
    }

    /** The execution returned an answer. */
    method Succeed(task: TaskId, response: Response, now: int)
      requires Wired() && task in running
      modifies this, circuitBreaker, idempotencyStore
      ensures View() == Answered(old(View()), task, response, now)
    {
      circuitBreaker.RecordSuccess();
      if IsTerminalSuccess(response) {
        var _ := idempotencyStore.SetForPacket(running[task], response, now);
      }
      inFlightRequests := inFlightRequests - 1;
      running := running - {task};
    }

    /** The execution raised an `Exception`, a timeout of the whole packet included. */
    method Fail(task: TaskId, error: string, now: int)
      requires Wired() && task in running
      modifies this, circuitBreaker, deadLetterQueue
      ensures View() == Broken(config, old(View()), task, error, now)
    {
      circuitBreaker.RecordFailure(now);
      deadLetterQueue.Put(DeadLetter(running[task], error));
      inFlightRequests := inFlightRequests - 1;
      running := running - {task};
    }

    /** The request was cancelled: no `Exception`, so neither breaker nor dead letters hear of it. */
    method Cancel(task: TaskId)
      requires task in running
      modifies this
      ensures View() == Abandoned(old(View()), task)
    {
      inFlightRequests := inFlightRequests - 1;
      running := running - {task};
    }
  }

  // ---------- runs and their logs ----------

  datatype Event =
    | Submit(task: TaskId, packet: Packet, depth: int, now: int)
    | Succeed(task: TaskId, response: Response, now: int)
    | Fail(task: TaskId, error: string, now: int)
    | Cancel(task: TaskId, now: int)

  /** What happened, as an outside observer would note it down. */
  datatype Record =
    | Request(packet: Packet, depth: int, verdict: Verdict, now: int)
    | Completed(packet: Packet, response: Response, now: int)
    | Failed(packet: Packet, error: string, now: int)
    | Cancelled(packet: Packet, now: int)

  datatype World = World(state: State, log: seq<Record>)

  predicate Enabled(s: State, e: Event) {
    if e.Submit? then e.task !in s.running else e.task in s.running
  }

  function Next(c: Config, s: State, e: Event): State
    requires c.Valid() && Enabled(s, e)
  {
    match e
    case Submit(task, packet, depth, now) => Submitted(c, s, task, packet, depth, now)
    case Succeed(task, response, now) => Answered(s, task, response, now)
    case Fail(task, error, now) => Broken(c, s, task, error, now)
    case Cancel(task, _) => Abandoned(s, task)
  }

  function Note(c: Config, s: State, e: Event): Record
    requires c.Valid() && Enabled(s, e)
  {
    match e
    case Submit(_, packet, depth, now) => Request(packet, depth, Judge(c, s, packet, depth, now), now)
    case Succeed(task, response, now) => Completed(s.running[task], response, now)
    case Fail(task, error, now) => Failed(s.running[task], error, now)
    case Cancel(task, now) => Cancelled(s.running[task], now)
  }

  /** The outcome of a sequence of steps, if each is enabled and the clock never goes back. */
  function Run(c: Config, events: seq<Event>): Option<World>
    requires c.Valid()
  {
    if events == [] then Some(World(INITIAL, [])) else
      var before, e := Run(c, events[..|events| - 1]), events[|events| - 1];
      if before.Some? && Enabled(before.value.state, e)
         && (before.value.log != [] ==> before.value.log[|before.value.log| - 1].now <= e.now)
      then Some(World(Next(c, before.value.state, e), before.value.log + [Note(c, before.value.state, e)]))
      else None
  }

  // ---------- the part of the log that each guard sees ----------

  function Collect<T>(log: seq<Record>, f: Record -> Option<T>): seq<T> {
    if log == [] then [] else
      var before, x := Collect(log[..|log| - 1], f), f(log[|log| - 1]);
      if x.Some? then before + [x.value] else before
  }

  lemma CollectSnoc<T>(log: seq<Record>, r: Record, f: Record -> Option<T>)
    ensures Collect(log + [r], f) == if f(r).Some? then Collect(log, f) + [f(r).value] else Collect(log, f)
  {
    assert (log + [r])[..|log|] == log;
  }

  function RateCall(r: Record): Option<RateLimiter.Call> {
    if r.Request? then Some(RateLimiter.Call(r.packet.sourceNode, r.now)) else None
  }

  function BreakerEvent(r: Record): Option<CircuitBreaker.Event> {
    match r
    case Request(_, _, verdict, now) => if ReachesBreaker(verdict) then Some(CircuitBreaker.CallAt(now)) else None
    case Completed(_, _, now) => Some(CircuitBreaker.SuccessAt(now))
    case Failed(_, _, now) => Some(CircuitBreaker.FailureAt(now))
    case Cancelled(_, _) => None
  }

  function StoreOp(r: Record): Option<Idempotency.Op<Response>> {
    if r.Request? && ReachesLookup(r.verdict) && Idempotency.NamespaceKey(r.packet).Some?
    then Some(Idempotency.GetAt(Idempotency.NamespaceKey(r.packet).value, r.now))
    else if r.Completed? && IsTerminalSuccess(r.response) && Idempotency.NamespaceKey(r.packet).Some?
    then Some(Idempotency.SetAt(Idempotency.NamespaceKey(r.packet).value, r.now, r.response))
    else None
  }

  function GuardCall(r: Record): Option<ReplayGuard.Call> {
    if r.Request? && ReachesGuard(r.verdict) then Some(ReplayGuard.Call(r.packet.id, r.now)) else None
  }

  function DeadLetterOf(r: Record): Option<DeadLetter> {
    if r.Failed? then Some(DeadLetter(r.packet, r.error)) else None
  }

  function RateCalls(log: seq<Record>): seq<RateLimiter.Call> { Collect(log, RateCall) }

  function BreakerEvents(log: seq<Record>): seq<CircuitBreaker.Event> { Collect(log, BreakerEvent) }

  function StoreOps(log: seq<Record>): seq<Idempotency.Op<Response>> { Collect(log, StoreOp) }

  function GuardCalls(log: seq<Record>): seq<ReplayGuard.Call> { Collect(log, GuardCall) }

  function DeadLetters(log: seq<Record>): seq<DeadLetter> { Collect(log, DeadLetterOf) }

  function Count(log: seq<Record>, p: Record -> bool): nat {
    if log == [] then 0 else Count(log[..|log| - 1], p) + if p(log[|log| - 1]) then 1 else 0
  }

  predicate IsStarted(r: Record) { r.Request? && r.verdict.Started? }

  predicate IsCached(r: Record) { r.Request? && r.verdict.Cached? }

  predicate IsReplayed(r: Record) { r.Request? && r.verdict.Replayed? }

  predicate IsAdmitted(r: Record) { r.Request? && ReachesLookup(r.verdict) }

  predicate IsCompleted(r: Record) { r.Completed? }

  predicate IsFailed(r: Record) { r.Failed? }

  predicate IsCancelled(r: Record) { r.Cancelled? }

  function InFlight(log: seq<Record>): int {
    Count(log, IsStarted) - Count(log, IsCompleted) - Count(log, IsFailed) - Count(log, IsCancelled)
  }

  lemma CountSnoc(log: seq<Record>, r: Record, p: Record -> bool)
    ensures Count(log + [r], p) == Count(log, p) + if p(r) then 1 else 0
  {
    assert (log + [r])[..|log|] == log;
  }

  // ---------- the state is a function of the log ----------

  predicate Timely(log: seq<Record>) {
    forall i, j :: 0 <= i < j < |log| ==> log[i].now <= log[j].now
  }

  predicate StateFollowsLog(c: Config, w: World)
    requires c.Valid()
  {
    && w.state.counters == RateLimiter.Replay(c.limiter, RateCalls(w.log))
    && w.state.breaker == CircuitBreaker.Replay(c.breaker, BreakerEvents(w.log))
    && w.state.store == Idempotency.Replay(c.ttl, StoreOps(w.log))
    && w.state.seen == ReplayGuard.Replay(c.replayWindow, GuardCalls(w.log))
    && w.state.dead == DeadLetterQueue.LastOf(DeadLetters(w.log), c.maxDeadLetters)
    && w.state.inFlight == |w.state.running| == InFlight(w.log) <= c.maxInFlight
    && Timely(w.log)
  }

  lemma InFlightSnoc(log: seq<Record>, r: Record)
    ensures InFlight(log + [r]) == InFlight(log) + if IsStarted(r) then 1 else if r.Request? then 0 else -1
  {
    CountSnoc(log, r, IsStarted);
    CountSnoc(log, r, IsCompleted);
    CountSnoc(log, r, IsFailed);
    CountSnoc(log, r, IsCancelled);
  }

  lemma TimelySnoc(log: seq<Record>, r: Record)
    requires Timely(log) && (log != [] ==> log[|log| - 1].now <= r.now)
    ensures Timely(log + [r])
  {
  }

  lemma CountersFollow(c: Config, w: World, e: Event)
    requires c.Valid() && Enabled(w.state, e) && StateFollowsLog(c, w)
    ensures Next(c, w.state, e).counters == RateLimiter.Replay(c.limiter, RateCalls(w.log + [Note(c, w.state, e)]))
  {
    var r := Note(c, w.state, e);
    CollectSnoc(w.log, r, RateCall);
    if RateCall(r).Some? { assert (RateCalls(w.log) + [RateCall(r).value])[..|RateCalls(w.log)|] == RateCalls(w.log); }
  }

  lemma BreakerSeesEvent(c: Config, s: State, e: Event)
    requires c.Valid() && Enabled(s, e)
    ensures var x := BreakerEvent(Note(c, s, e));
            Next(c, s, e).breaker == if x.Some? then CircuitBreaker.Step(c.breaker, s.breaker, x.value) else s.breaker
  {
  }

  lemma BreakerFollows(c: Config, w: World, e: Event)
    requires c.Valid() && Enabled(w.state, e) && StateFollowsLog(c, w)
    ensures Next(c, w.state, e).breaker == CircuitBreaker.Replay(c.breaker, BreakerEvents(w.log + [Note(c, w.state, e)]))
  {
    var r := Note(c, w.state, e);
    CollectSnoc(w.log, r, BreakerEvent);
    BreakerSeesEvent(c, w.state, e);
    if BreakerEvent(r).Some? { CircuitBreaker.ReplaySnoc(c.breaker, BreakerEvents(w.log), BreakerEvent(r).value); }
  }

  lemma StoreFollows(c: Config, w: World, e: Event)
    requires c.Valid() && Enabled(w.state, e) && StateFollowsLog(c, w)
    ensures Next(c, w.state, e).store == Idempotency.Replay(c.ttl, StoreOps(w.log + [Note(c, w.state, e)]))
  {
    var r := Note(c, w.state, e);
    CollectSnoc(w.log, r, StoreOp);
    if StoreOp(r).Some? { assert (StoreOps(w.log) + [StoreOp(r).value])[..|StoreOps(w.log)|] == StoreOps(w.log); }
  }

  lemma SeenFollows(c: Config, w: World, e: Event)
    requires c.Valid() && Enabled(w.state, e) && StateFollowsLog(c, w)
    ensures Next(c, w.state, e).seen == ReplayGuard.Replay(c.replayWindow, GuardCalls(w.log + [Note(c, w.state, e)]))
  {
    var r := Note(c, w.state, e);
    CollectSnoc(w.log, r, GuardCall);
    if GuardCall(r).Some? { assert (GuardCalls(w.log) + [GuardCall(r).value])[..|GuardCalls(w.log)|] == GuardCalls(w.log); }
  }

  lemma DeadLettersFollow(c: Config, w: World, e: Event)
    requires c.Valid() && Enabled(w.state, e) && StateFollowsLog(c, w)
    ensures Next(c, w.state, e).dead
         == DeadLetterQueue.LastOf(DeadLetters(w.log + [Note(c, w.state, e)]), c.maxDeadLetters)
  {
    var r := Note(c, w.state, e);
    CollectSnoc(w.log, r, DeadLetterOf);
    if r.Failed? { DeadLetterQueue.PutKeepsLast(DeadLetters(w.log), DeadLetter(r.packet, r.error), c.maxDeadLetters); }
  }

  lemma InFlightFollows(c: Config, w: World, e: Event)
    requires c.Valid() && Enabled(w.state, e) && StateFollowsLog(c, w)
    ensures var s := Next(c, w.state, e);
            s.inFlight == |s.running| == InFlight(w.log + [Note(c, w.state, e)]) <= c.maxInFlight
  {
    InFlightSnoc(w.log, Note(c, w.state, e));
    if !e.Submit? { assert (w.state.running - {e.task}).Keys == w.state.running.Keys - {e.task}; }
  }

  lemma StepFollowsLog(c: Config, w: World, e: Event)
    requires c.Valid() && Enabled(w.state, e) && StateFollowsLog(c, w)
    requires w.log != [] ==> w.log[|w.log| - 1].now <= e.now
    ensures StateFollowsLog(c, World(Next(c, w.state, e), w.log + [Note(c, w.state, e)]))
  {
    CountersFollow(c, w, e);
    BreakerFollows(c, w, e);
    StoreFollows(c, w, e);
    SeenFollows(c, w, e);
    DeadLettersFollow(c, w, e);
    InFlightFollows(c, w, e);
    TimelySnoc(w.log, Note(c, w.state, e));
  }

  /** Every guard's state is a replay of what the log shows it; the in-flight counter is the number of running requests. */
  lemma {:induction false} RunFollowsLog(c: Config, events: seq<Event>)
    requires c.Valid() && Run(c, events).Some?
    ensures StateFollowsLog(c, Run(c, events).value)
  {
    if events != [] {
      RunFollowsLog(c, events[..|events| - 1]);
      StepFollowsLog(c, Run(c, events[..|events| - 1]).value, events[|events| - 1]);
    }
  }

  // ---------- every verdict is a rule about the log ----------

  lemma {:induction false} CollectTimes<T>(log: seq<Record>, f: Record -> Option<T>, time: T -> int)
    requires Timely(log) && forall r :: f(r).Some? ==> time(f(r).value) == r.now
    ensures var s := Collect(log, f);
            && (forall i, j :: 0 <= i < j < |s| ==> time(s[i]) <= time(s[j]))
            && (s != [] ==> log != [] && time(s[|s| - 1]) <= log[|log| - 1].now)
  {
    if log != [] {
      var before := log[..|log| - 1];
      CollectTimes(before, f, time);
      if before != [] { assert before[|before| - 1].now <= log[|log| - 1].now; }
    }
  }

  lemma RateCallsTimely(log: seq<Record>)
    requires Timely(log)
    ensures var s := RateCalls(log); RateLimiter.Nondecreasing(s) && (s != [] ==> log != [] && s[|s| - 1].now <= log[|log| - 1].now)
  {
    var time := (x: RateLimiter.Call) => x.now;
    CollectTimes(log, RateCall, time);
    var s := RateCalls(log);
    assert forall i :: 0 <= i < |s| ==> time(s[i]) == s[i].now;
  }

  lemma BreakerEventsTimely(log: seq<Record>)
    requires Timely(log)
    ensures var s := BreakerEvents(log); CircuitBreaker.Nondecreasing(s) && (s != [] ==> log != [] && s[|s| - 1].now <= log[|log| - 1].now)
  {
    var time := (x: CircuitBreaker.Event) => x.now;
    CollectTimes(log, BreakerEvent, time);
    var s := BreakerEvents(log);
    assert forall i :: 0 <= i < |s| ==> time(s[i]) == s[i].now;
  }

  lemma StoreOpsTimely(log: seq<Record>)
    requires Timely(log)
    ensures var s := StoreOps(log); Idempotency.Nondecreasing(s) && (s != [] ==> log != [] && s[|s| - 1].now <= log[|log| - 1].now)
  {
    var time := (x: Idempotency.Op<Response>) => x.now;
    CollectTimes(log, StoreOp, time);
    var s := StoreOps(log);
    assert forall i :: 0 <= i < |s| ==> time(s[i]) == s[i].now;
  }

  lemma GuardCallsTimely(log: seq<Record>)
    requires Timely(log)
    ensures var s := GuardCalls(log); ReplayGuard.Nondecreasing(s) && (s != [] ==> log != [] && s[|s| - 1].now <= log[|log| - 1].now)
  {
    var time := (x: ReplayGuard.Call) => x.now;
    CollectTimes(log, GuardCall, time);
    var s := GuardCalls(log);
    assert forall i :: 0 <= i < |s| ==> time(s[i]) == s[i].now;
  }

  function RuleCached(c: Config, log: seq<Record>, packet: Packet, now: int): Option<Response> {
    var key := Idempotency.NamespaceKey(packet);
    if key.None? then None else Idempotency.RuleLookup(c.ttl, StoreOps(log), key.value, now)
  }

  predicate RuleFreshId(c: Config, log: seq<Record>, packet: Packet, now: int) {
    var calls := GuardCalls(log);
    ReplayGuard.RuleAccepts(c.replayWindow, calls + [ReplayGuard.Call(packet.id, now)], |calls|)
  }

  /** The verdict on a request, read off the log alone: no counter, mode, cache or seen-set is mentioned. */
  function RuleVerdict(c: Config, log: seq<Record>, packet: Packet, depth: int, now: int): Verdict
    requires c.Valid()
  {
    if RateLimiter.AdmittedInWindow(c.limiter, RateCalls(log), packet.sourceNode, RateLimiter.WindowIndex(c.limiter, now))
       >= c.limiter.maxRequests then RateLimited
    else if InFlight(log) >= c.maxInFlight then Shed
    else if depth < 0 then BadQueueDepth
    else if depth >= c.maxQueueDepth then Backpressure
    else if CircuitBreaker.RuleRejects(c.breaker, BreakerEvents(log), now) then BreakerOpen
    else
      var cached := RuleCached(c, log, packet, now);
      if cached.Some? then Cached(cached.value)
      else if !RuleFreshId(c, log, packet, now) then Replayed
      else Started
  }

  lemma FreshIdIsRule(c: Config, w: World, packet: Packet, now: int)
    requires c.Valid() && StateFollowsLog(c, w) && (w.log != [] ==> w.log[|w.log| - 1].now <= now)
    ensures ReplayGuard.Accepts(c.replayWindow, w.state.seen, packet.id, now) == RuleFreshId(c, w.log, packet, now)
  {
    GuardCallsTimely(w.log);
    var calls := GuardCalls(w.log);
    var all := calls + [ReplayGuard.Call(packet.id, now)];
    assert all[..|calls|] == calls;
    assert ReplayGuard.Nondecreasing(all) by {
      forall i, j | 0 <= i < j < |all| ensures all[i].now <= all[j].now {
        if j == |calls| { assert calls[i].now <= calls[|calls| - 1].now; }
      }
    }
    ReplayGuard.GuardRefinesRule(c.replayWindow, all, |calls|);
  }

  lemma JudgeIsRule(c: Config, w: World, packet: Packet, depth: int, now: int)
    requires c.Valid() && StateFollowsLog(c, w) && (w.log != [] ==> w.log[|w.log| - 1].now <= now)
    ensures Judge(c, w.state, packet, depth, now) == RuleVerdict(c, w.log, packet, depth, now)
  {
    RateCallsTimely(w.log);
    BreakerEventsTimely(w.log);
    StoreOpsTimely(w.log);
    RateLimiter.LimiterRefinesHistory(c.limiter, RateCalls(w.log), packet.sourceNode, now);
    CircuitBreaker.BreakerRefinesRule(c.breaker, BreakerEvents(w.log), now);
    FreshIdIsRule(c, w, packet, now);
    var key := Idempotency.NamespaceKey(packet);
    if key.Some? { Idempotency.StoreRefinesLastSet(c.ttl, StoreOps(w.log), key.value, now); }
  }

  predicate Explained(c: Config, log: seq<Record>, i: nat)
    requires c.Valid() && i < |log|
  {
    log[i].Request? ==> log[i].verdict == RuleVerdict(c, log[..i], log[i].packet, log[i].depth, log[i].now)
  }

  /** In every concurrent run each request's fate is the one the stateless rules give on the log before it. */
  lemma {:induction false} EveryVerdictIsRule(c: Config, events: seq<Event>, i: nat)
    requires c.Valid() && Run(c, events).Some? && i < |Run(c, events).value.log|
    ensures Explained(c, Run(c, events).value.log, i)
  {
    var log, before, e := Run(c, events).value.log, Run(c, events[..|events| - 1]).value, events[|events| - 1];
    assert log == before.log + [Note(c, before.state, e)];
    if i < |before.log| {
      EveryVerdictIsRule(c, events[..|events| - 1], i);
      assert log[..i] == before.log[..i];
    } else {
      assert log[..i] == before.log;
      RunFollowsLog(c, events[..|events| - 1]);
      if e.Submit? { JudgeIsRule(c, before, e.packet, e.depth, e.now); }
    }
  }

  // ---------- where a cached answer comes from ----------

  /** A terminal success of an execution under this cache key. */
  predicate Stores(r: Record, key: string) {
    r.Completed? && IsTerminalSuccess(r.response) && Idempotency.NamespaceKey(r.packet) == Some(key)
  }

  /** `j` is the latest terminal success under the key. */
  predicate LatestStore(log: seq<Record>, key: string, j: nat) {
    j < |log| && Stores(log[j], key) && forall k :: j < k < |log| ==> !Stores(log[k], key)
  }

  /** The entry a lookup may find, in terms of the log. */
  ghost predicate SetBy(log: seq<Record>, key: string, last: Option<Idempotency.Entry<Response>>) {
    if last.None? then forall j :: 0 <= j < |log| ==> !Stores(log[j], key)
    else exists j: nat :: LatestStore(log, key, j) && last.value == Idempotency.Entry(log[j].now, log[j].response)
  }

  lemma SetByNext(before: seq<Record>, r: Record, key: string, last: Option<Idempotency.Entry<Response>>)
    requires SetBy(before, key, last)
    ensures SetBy(before + [r], key, if Stores(r, key) then Some(Idempotency.Entry(r.now, r.response)) else last)
  {
    var log := before + [r];
    if Stores(r, key) {
      assert LatestStore(log, key, |before|);
    } else if last.Some? {
      var j: nat :| LatestStore(before, key, j) && last.value == Idempotency.Entry(before[j].now, before[j].response);
      assert log[j] == before[j] && LatestStore(log, key, j);
    }
  }

  lemma LastSetNext(before: seq<Record>, r: Record, key: string)
    ensures Idempotency.LastSet(StoreOps(before + [r]), key)
         == if Stores(r, key) then Some(Idempotency.Entry(r.now, r.response)) else Idempotency.LastSet(StoreOps(before), key)
  {
    var ops := StoreOps(before);
    CollectSnoc(before, r, StoreOp);
    if StoreOp(r).Some? { assert (ops + [StoreOp(r).value])[..|ops|] == ops; }
  }

  lemma {:induction false} LastSetInLog(log: seq<Record>, key: string)
    ensures SetBy(log, key, Idempotency.LastSet(StoreOps(log), key))
  {
    if log != [] {
      var before, r := log[..|log| - 1], log[|log| - 1];
      LastSetInLog(before, key);
      LastSetNext(before, r, key);
      SetByNext(before, r, key, Idempotency.LastSet(StoreOps(before), key));
      assert before + [r] == log;
    }
  }

  /** Whose answer it is: the requester's own, unless the cache keys of two identities agree. */
  ghost predicate SameIdentity(requester: Packet, stored: Packet) {
    && (Idempotency.PlainNames(requester) && Idempotency.PlainNames(stored)
        ==> Idempotency.IdentityOf(stored) == Idempotency.IdentityOf(requester) != None)
    && (Idempotency.Unambiguous(requester) ==> Idempotency.IdentityOf(stored) == Idempotency.IdentityOf(requester) != None)
    && (Idempotency.Receivable(requester) && Idempotency.Receivable(stored)
        && (Idempotency.IdentityOf(requester).Some? ==> !Idempotency.HidesJoin(Idempotency.IdentityOf(requester).value))
        ==> Idempotency.IdentityOf(stored) == Idempotency.IdentityOf(requester) != None)
  }

  /** The answer that is cached: a terminal success under the key of a request, not overwritten since and still fresh. */
  ghost predicate AnswersFrom(c: Config, log: seq<Record>, j: nat, i: nat) {
    && j < i < |log| && IsCached(log[i]) && log[j].Completed? && IsTerminalSuccess(log[j].response)
    && log[j].response == log[i].verdict.response && log[i].now - log[j].now < c.ttl
    && Idempotency.NamespaceKey(log[j].packet) == Idempotency.NamespaceKey(log[i].packet) != None
    && forall k :: j < k < i ==> !Stores(log[k], Idempotency.NamespaceKey(log[i].packet).value)
  }

  lemma CachedIsLatestStore(c: Config, log: seq<Record>, i: nat) returns (j: nat)
    requires c.Valid() && i < |log| && Explained(c, log, i) && IsCached(log[i])
    ensures AnswersFrom(c, log, j, i)
  {
    var key := Idempotency.NamespaceKey(log[i].packet).value;
    LastSetInLog(log[..i], key);
    j :| LatestStore(log[..i], key, j)
         && Idempotency.LastSet(StoreOps(log[..i]), key).value == Idempotency.Entry(log[j].now, log[j].response);
    assert log[..i][j] == log[j] && forall k :: j < k < i ==> log[..i][k] == log[k];
  }

  /** A cached answer is the latest terminal success under the requester's key, less than the time to live old, and its own. */
  lemma CachedAnswerIsRecentSuccess(c: Config, events: seq<Event>, i: nat) returns (j: nat)
    requires c.Valid() && Run(c, events).Some? && i < |Run(c, events).value.log| && IsCached(Run(c, events).value.log[i])
    ensures AnswersFrom(c, Run(c, events).value.log, j, i)
    ensures SameIdentity(Run(c, events).value.log[i].packet, Run(c, events).value.log[j].packet)
  {
    var log := Run(c, events).value.log;
    EveryVerdictIsRule(c, events, i);
    j := CachedIsLatestStore(c, log, i);
    Idempotency.SameKeySameIdentity(log[i].packet, log[j].packet);
  }

  /** No cached answer reports a failure. */
  lemma CachedAnswerReportsNoFailure(c: Config, events: seq<Event>, i: nat)
    requires c.Valid() && Run(c, events).Some? && i < |Run(c, events).value.log| && IsCached(Run(c, events).value.log[i])
    ensures var answer := Run(c, events).value.log[i].verdict.response;
            answer.packetType != "failure" && forall k: nat :: LatestResponse(answer.hops, k) ==> answer.hops[k].status != "failed"
  {
    var j := CachedAnswerIsRecentSuccess(c, events, i);
    TerminalSuccessIff(Run(c, events).value.log[i].verdict.response);
  }

  /** A failure does not answer its own retry: while all fresh answers under the key report failures, none is served from the cache. */
  lemma FailuresAreNotServed(c: Config, events: seq<Event>, i: nat)
    requires c.Valid() && Run(c, events).Some? && i < |Run(c, events).value.log|
    requires var log := Run(c, events).value.log;
             forall j :: 0 <= j < i && log[j].Completed? && log[i].Request? && log[i].now - log[j].now < c.ttl
                         && Idempotency.NamespaceKey(log[j].packet) == Idempotency.NamespaceKey(log[i].packet)
                         ==> ReportsFailure(log[j].response)
    ensures !IsCached(Run(c, events).value.log[i])
  {
    var log := Run(c, events).value.log;
    if IsCached(log[i]) {
      var j := CachedAnswerIsRecentSuccess(c, events, i);
      TerminalSuccessIff(log[j].response);
    }
  }

  lemma RecentStoreHits(c: Config, log: seq<Record>, j: nat, key: string, now: int)
    requires Timely(log) && j < |log| && Stores(log[j], key) && now - log[j].now < c.ttl
    ensures Idempotency.RuleLookup(c.ttl, StoreOps(log), key, now).Some?
  {
    LastSetInLog(log, key);
    var k: nat :| LatestStore(log, key, k)
                  && Idempotency.LastSet(StoreOps(log), key).value == Idempotency.Entry(log[k].now, log[k].response);
    assert log[j].now <= log[k].now;
  }

  lemma PrefixTimely(log: seq<Record>, i: nat)
    requires Timely(log) && i <= |log|
    ensures Timely(log[..i])
  {
  }

  lemma RuleCachesFresh(c: Config, log: seq<Record>, packet: Packet, depth: int, now: int, j: nat, key: string)
    requires c.Valid() && Timely(log) && j < |log| && Stores(log[j], key) && now - log[j].now < c.ttl
    requires Idempotency.NamespaceKey(packet) == Some(key) && ReachesLookup(RuleVerdict(c, log, packet, depth, now))
    ensures RuleVerdict(c, log, packet, depth, now).Cached?
  {
    RecentStoreHits(c, log, j, key, now);
  }

  /** While a terminal success is younger than the time to live, no request with its key that reaches the lookup executes. */
  lemma FreshSuccessPreventsExecution(c: Config, events: seq<Event>, j: nat, i: nat, key: string)
    requires c.Valid() && Run(c, events).Some? && j < i < |Run(c, events).value.log|
    requires var log := Run(c, events).value.log;
             Stores(log[j], key) && IsAdmitted(log[i]) && Idempotency.NamespaceKey(log[i].packet) == Some(key)
             && log[i].now - log[j].now < c.ttl
    ensures IsCached(Run(c, events).value.log[i])
  {
    var log := Run(c, events).value.log;
    EveryVerdictIsRule(c, events, i);
    RunFollowsLog(c, events);
    PrefixTimely(log, i);
    RuleCachesFresh(c, log[..i], log[i].packet, log[i].depth, log[i].now, j, key);
  }

  /** Every answer that reports no failure serves each later lookup under its key until its time to live is over. */
  lemma SuccessIsServed(c: Config, events: seq<Event>, j: nat, i: nat)
    requires c.Valid() && Run(c, events).Some? && j < i < |Run(c, events).value.log|
    requires var log := Run(c, events).value.log;
             && log[j].Completed? && log[j].response.packetType != "failure"
             && (forall k: nat :: LatestResponse(log[j].response.hops, k) ==> log[j].response.hops[k].status != "failed")
             && IsAdmitted(log[i]) && log[i].now - log[j].now < c.ttl
             && Idempotency.NamespaceKey(log[j].packet) == Idempotency.NamespaceKey(log[i].packet) != None
    ensures IsCached(Run(c, events).value.log[i])
  {
    var log := Run(c, events).value.log;
    TerminalSuccessIff(log[j].response);
    FreshSuccessPreventsExecution(c, events, j, i, Idempotency.NamespaceKey(log[i].packet).value);
  }

  // ---------- no packet executes twice within a window ----------

  lemma {:induction false} CollectPrefix<T>(log: seq<Record>, i: nat, f: Record -> Option<T>)
    requires i <= |log|
    ensures Collect(log[..i], f) <= Collect(log, f)
    decreases |log|
  {
    if i < |log| {
      CollectPrefix(log[..|log| - 1], i, f);
      assert log[..|log| - 1][..i] == log[..i];
    } else {
      assert log[..i] == log;
    }
  }

  lemma StartedIsFreshId(c: Config, log: seq<Record>, packet: Packet, depth: int, now: int)
    requires c.Valid() && RuleVerdict(c, log, packet, depth, now) == Started
    ensures RuleFreshId(c, log, packet, now)
  {
  }

  lemma GuardSeesStart(log: seq<Record>, i: nat)
    requires i < |log| && IsStarted(log[i])
    ensures GuardCalls(log[..i + 1]) == GuardCalls(log[..i]) + [ReplayGuard.Call(log[i].packet.id, log[i].now)]
  {
    assert log[..i + 1] == log[..i] + [log[i]];
    CollectSnoc(log[..i], log[i], GuardCall);
  }

  lemma StartedWasFresh(c: Config, events: seq<Event>, i: nat)
    requires c.Valid() && Run(c, events).Some? && i < |Run(c, events).value.log| && IsStarted(Run(c, events).value.log[i])
    ensures var log := Run(c, events).value.log;
            RuleFreshId(c, log[..i], log[i].packet, log[i].now)
  {
    var log := Run(c, events).value.log;
    EveryVerdictIsRule(c, events, i);
    StartedIsFreshId(c, log[..i], log[i].packet, log[i].depth, log[i].now);
  }

  /** Over every concurrent run: two executions of packets with the same id start more than a replay window apart. */
  lemma ExecutionsFarApart(c: Config, events: seq<Event>, i: nat, k: nat)
    requires c.Valid() && Run(c, events).Some? && i < k < |Run(c, events).value.log|
    requires var log := Run(c, events).value.log; IsStarted(log[i]) && IsStarted(log[k]) && log[i].packet.id == log[k].packet.id
    ensures var log := Run(c, events).value.log; log[k].now - log[i].now > c.replayWindow
  {
    var log := Run(c, events).value.log;
    StartedWasFresh(c, events, i);
    StartedWasFresh(c, events, k);
    FreshIdsFarApart(c, log, i, k);
  }

  lemma FreshIdsFarApart(c: Config, log: seq<Record>, i: nat, k: nat)
    requires i < k < |log| && IsStarted(log[i]) && IsStarted(log[k]) && log[i].packet.id == log[k].packet.id
    requires RuleFreshId(c, log[..i], log[i].packet, log[i].now) && RuleFreshId(c, log[..k], log[k].packet, log[k].now)
    ensures log[k].now - log[i].now > c.replayWindow
  {
    GuardSeesStart(log, i);
    GuardSeesStart(log, k);
    var first, before, all := GuardCalls(log[..i + 1]), GuardCalls(log[..k]), GuardCalls(log[..k + 1]);
    assert log[..k][..i + 1] == log[..i + 1];
    CollectPrefix(log[..k], i + 1, GuardCall);
    var m := |first| - 1;
    assert all[..|first|] == first && all[m] == first[m];
    ReplayGuard.RulePrefix(c.replayWindow, all, |first|, m);
    assert ReplayGuard.RuleAccepts(c.replayWindow, all, |before|) && m < |before|;
  }

  // ---------- conservation ----------

  lemma {:induction false} CountSplits(log: seq<Record>)
    ensures Count(log, IsAdmitted) == Count(log, IsCached) + Count(log, IsReplayed) + Count(log, IsStarted)
  {
    if log != [] { CountSplits(log[..|log| - 1]); }
  }

  lemma {:induction false} FailuresCounted(log: seq<Record>)
    ensures |DeadLetters(log)| == Count(log, IsFailed)
  {
    if log != [] { FailuresCounted(log[..|log| - 1]); }
  }

  function BreakerFailures(events: seq<CircuitBreaker.Event>): nat {
    if events == [] then 0 else
      BreakerFailures(events[..|events| - 1]) + if events[|events| - 1].FailureAt? then 1 else 0
  }

  /** The breaker hears of exactly the failures that are put into the dead-letter queue. */
  lemma {:induction false} BreakerFailuresAreDeadLetters(log: seq<Record>)
    ensures BreakerFailures(BreakerEvents(log)) == |DeadLetters(log)|
  {
    if log != [] {
      var before, r := log[..|log| - 1], log[|log| - 1];
      BreakerFailuresAreDeadLetters(before);
      var events := BreakerEvents(before);
      if BreakerEvent(r).Some? { assert (events + [BreakerEvent(r).value])[..|events|] == events; }
    }
  }

  /** Over every run: each admitted request is in exactly one place, and failures, breaker failures and dead letters agree. */
  lemma AdmittedAreAccountedFor(c: Config, events: seq<Event>)
    requires c.Valid() && Run(c, events).Some?
    ensures var s, log := Run(c, events).value.state, Run(c, events).value.log;
            && Count(log, IsAdmitted) == Count(log, IsCached) + Count(log, IsReplayed) + Count(log, IsCompleted)
                                         + Count(log, IsFailed) + Count(log, IsCancelled) + s.inFlight
            && 0 <= s.inFlight == |s.running| <= c.maxInFlight
            && BreakerFailures(BreakerEvents(log)) == |DeadLetters(log)| == Count(log, IsFailed)
            && s.dead == DeadLetterQueue.LastOf(DeadLetters(log), c.maxDeadLetters)
            && |s.dead| == if Count(log, IsFailed) <= c.maxDeadLetters then Count(log, IsFailed) else c.maxDeadLetters
  {
    RunFollowsLog(c, events);
    var log := Run(c, events).value.log;
    CountSplits(log);
    FailuresCounted(log);
    BreakerFailuresAreDeadLetters(log);
  }

  /** The dead-letter list is the end of the list of all failures: the oldest are dropped first, the order is kept. */
  lemma DeadLettersAreLatestFailures(c: Config, events: seq<Event>)
    requires c.Valid() && Run(c, events).Some?
    ensures var dead, all := Run(c, events).value.state.dead, DeadLetters(Run(c, events).value.log);
            |dead| <= |all| && dead == all[|all| - |dead|..] && (|dead| < |all| ==> |dead| == c.maxDeadLetters)
  {
    RunFollowsLog(c, events);
    DeadLetterQueue.LastOfIsEnd(DeadLetters(Run(c, events).value.log), c.maxDeadLetters);
  }
}
