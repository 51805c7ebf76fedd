/** The dispatch protocol of `routing/dispatch.py`: the limiter and the registry counter under interleaving. */
module Dispatch {
  import opened Wrappers
  import NodeLimits
  import Registry
  import Text
  import opened ActionOwnership

  type TaskId = nat

  /** Where one dispatch call is suspended, or how it ended. */
  datatype Phase =
    | Acquiring(node: string)   // inside `acquire`, at its `sleep(0)`: counted by the limiter, flag not yet set
    | Sending(node: string)     // waiting for the worker: permit held, registry counter incremented
    | Leaked(node: string)      // cancelled at the `sleep(0)`: the `finally` block saw no acquired permit
    | Done

  datatype System = System(limiter: NodeLimits.Limiter, nodes: Registry.Nodes, tasks: map<TaskId, Phase>)

  datatype SendOutcome = Answered | ConnectionError | OtherError | Cancelled

  /** One atomic step between two awaits, of some task or of the environment. */
  datatype Event =
    | Begin(task: TaskId, node: string)
    | Wake(task: TaskId)
    | CancelInAcquire(task: TaskId)
    | Complete(task: TaskId, outcome: SendOutcome)
    | Register(name: string, registration: Registry.Registration, overwrite: bool)
    | SetHealth(node: string, healthy: bool)

  /** A node can be begun when the resolver may return it: both resolution paths return healthy nodes only. */
  predicate Enabled(s: System, e: Event) {
    match e
    case Begin(task, node) => task !in s.tasks && node in s.nodes && s.nodes[node].healthy
    case Wake(task) => task in s.tasks && s.tasks[task].Acquiring?
    case CancelInAcquire(task) => task in s.tasks && s.tasks[task].Acquiring?
    case Complete(task, _) => task in s.tasks && s.tasks[task].Sending?
    case Register(_, registration, _) =>
      Registry.WellFormed(registration) && registration.healthy && registration.activeRequests == 0
    case SetHealth(node, _) => node in s.nodes
  }

  /** From the granted permit to the send, or to the `finally` block when the registry refuses. */
  function Admit(limited: bool, s: System, task: TaskId, node: string): System {
    var inc := Registry.Incremented(s.nodes, node);
    if inc.Success? then s.(nodes := inc.value, tasks := s.tasks[task := Sending(node)])
    else s.(limiter := if limited then NodeLimits.After(s.limiter, s.limiter.Released(node)) else s.limiter,
            tasks := s.tasks[task := Done])
  }

  function Start(limited: bool, s: System, task: TaskId, node: string): System
    requires s.limiter.Valid() && node in s.nodes
  {
    if !limited then Admit(limited, s, task, node) else
      var ensured := NodeLimits.After(s.limiter, s.limiter.Ensured(node, s.nodes[node].maxConcurrent));
      var acquired := ensured.Acquired(node);
      if acquired.Success? then s.(limiter := acquired.value, tasks := s.tasks[task := Acquiring(node)])
      else s.(limiter := ensured, tasks := s.tasks[task := Done])
  }

  function Finish(limited: bool, s: System, task: TaskId, node: string, outcome: SendOutcome): System {
    var marked := if outcome.ConnectionError? then Registry.After(s.nodes, Registry.HealthSet(s.nodes, node, false)) else s.nodes;
    s.(nodes := Registry.After(marked, Registry.Decremented(marked, node)),
       limiter := if limited then NodeLimits.After(s.limiter, s.limiter.Released(node)) else s.limiter,
       tasks := s.tasks[task := Done])
  }

  function Apply(p: Policy, limited: bool, s: System, e: Event): System
    requires s.limiter.Valid() && Enabled(s, e)
  {
    match e
    case Begin(task, node) => Start(limited, s, task, node)
    case Wake(task) => Admit(limited, s, task, s.tasks[task].node)
    case CancelInAcquire(task) => s.(tasks := s.tasks[task := Leaked(s.tasks[task].node)])
    case Complete(task, outcome) => Finish(limited, s, task, s.tasks[task].node, outcome)
    case Register(name, registration, overwrite) =>
      s.(nodes := Registry.After(s.nodes, Registry.Registered(p, s.nodes, name, registration, overwrite)))
    case SetHealth(node, healthy) => s.(nodes := Registry.After(s.nodes, Registry.HealthSet(s.nodes, node, healthy)))
  }

  // ---------- the dispatcher itself ----------

  class Dispatcher {
    const limited: bool
    const limiter: NodeLimits.PerNodeLimiterManager
    const registry: Registry.NodeRegistry
    var tasks: map<TaskId, Phase>

    constructor (limited: bool, limiter: NodeLimits.PerNodeLimiterManager, registry: Registry.NodeRegistry)
      ensures this.limited == limited && this.limiter == limiter && this.registry == registry && tasks == map[]
    {
      this.limited, this.limiter, this.registry, tasks := limited, limiter, registry, map[];
    }

    function View(): System
      reads this, limiter, registry
    {
      System(limiter.View(), registry.nodes, tasks)
    }

    /** The `finally` block: releases only what this call acquired. */
    method Finally(node: string, acquiredLimit: bool, incremented: bool)
      modifies limiter, registry
      ensures registry.nodes == if incremented then Registry.After(old(registry.nodes), Registry.Decremented(old(registry.nodes), node))
                                else old(registry.nodes)
      ensures limiter.View() == if acquiredLimit then NodeLimits.After(old(limiter.View()), old(limiter.View()).Released(node))
                                else old(limiter.View())
    {
      if incremented { var _ := registry.DecrementActive(node); }
      if acquiredLimit { var _ := limiter.Release(node); }
    }

    method IncrementAndSend(task: TaskId, node: string)
      modifies this, limiter, registry
      ensures View() == Admit(limited, old(View()), task, node)
    {
      var acquiredLimit, incremented := limited, false;
      var outcome := registry.IncrementActive(node);
      if outcome.Pass? {
        incremented := true;
        tasks := tasks[task := Sending(node)];
      } else {
        Finally(node, acquiredLimit, incremented);
        tasks := tasks[task := Done];
      }
    }

    method BeginDispatch(task: TaskId, node: string)
      requires View().limiter.Valid() && Enabled(View(), Begin(task, node))
      modifies this, limiter, registry
      ensures View() == Start(limited, old(View()), task, node)
    {
      if limited {
        var _ := limiter.EnsureNodeLimit(node, registry.nodes[node].maxConcurrent);
        var outcome := limiter.Acquire(node);
        if outcome.Fail? {
          Finally(node, false, false);
          tasks := tasks[task := Done];
        } else {
          tasks := tasks[task := Acquiring(node)];
        }
      } else {
        IncrementAndSend(task, node);
      }
    }

    method WakeFromAcquire(task: TaskId)
      requires Enabled(View(), Wake(task))
      modifies this, limiter, registry
      ensures View() == Admit(limited, old(View()), task, old(tasks[task].node))
    {
      IncrementAndSend(task, tasks[task].node);
    }

    method CancelAtSleep(task: TaskId)
      requires Enabled(View(), CancelInAcquire(task))
      modifies this, limiter, registry
      ensures View() == old(View()).(tasks := old(tasks)[task := Leaked(old(tasks[task].node))])
    {
      Finally(tasks[task].node, false, false);
      tasks := tasks[task := Leaked(tasks[task].node)];
    }

    method CompleteSend(task: TaskId, outcome: SendOutcome)
      requires Enabled(View(), Complete(task, outcome))
      modifies this, limiter, registry
      ensures View() == Finish(limited, old(View()), task, old(tasks[task].node), outcome)
    {
      var node := tasks[task].node;
      if outcome.ConnectionError? { var _ := registry.SetHealth(node, false); }
      Finally(node, limited, true);
      tasks := tasks[task := Done];
    }
  }

  // ---------- counting tasks ----------

  function In(tasks: map<TaskId, Phase>, q: Phase): set<TaskId> {
    set t | t in tasks && tasks[t] == q
  }

  function One(b: bool): int { if b then 1 else 0 }

  lemma CountAfterMove(tasks: map<TaskId, Phase>, t: TaskId, to: Phase, q: Phase)
    ensures |In(tasks[t := to], q)| == |In(tasks, q)| + One(to == q) - One(t in tasks && tasks[t] == q)
  {
    var before, after := In(tasks, q), In(tasks[t := to], q);
    if to == q {
      assert after == before + {t};
    } else {
      assert after == before - {t};
    }
  }

  // ---------- the invariant ----------

  /** A system with what its run has done so far: largest limit ensured, and nodes overwritten at least once. */
  datatype History = History(system: System, peak: map<string, int>, reset: set<string>) {
    function PeakOf(n: string): int { if n in peak then peak[n] else 0 }
  }

  function Track(p: Policy, limited: bool, h: History, e: Event): History
    requires h.system.limiter.Valid() && Enabled(h.system, e)
  {
    var s := h.system;
    History(
      Apply(p, limited, s, e),
      if e.Begin? && limited then h.peak[e.node := Larger(h.PeakOf(e.node), s.nodes[e.node].maxConcurrent)] else h.peak,
      if e.Register? && Text.Normalize(e.name) in s.nodes && Registry.Registered(p, s.nodes, e.name, e.registration, e.overwrite).Success?
      then h.reset + {Text.Normalize(e.name)} else h.reset)
  }

  function Larger(a: int, b: int): int { if a < b then b else a }

  function Holders(s: System, n: string): int {
    |In(s.tasks, Acquiring(n))| + |In(s.tasks, Sending(n))|
  }

  function LeakCount(s: System, n: string): int {
    |In(s.tasks, Leaked(n))|
  }

  ghost predicate LimiterInv(limited: bool, h: History) {
    var s := h.system;
    && s.limiter.Valid()
    && (!limited ==> s.limiter == NodeLimits.NO_LIMITS && forall t :: t in s.tasks ==> s.tasks[t].Sending? || s.tasks[t].Done?)
    && (limited ==> forall n :: s.limiter.ActiveOf(n) == Holders(s, n) + LeakCount(s, n))
    && (forall n :: s.limiter.ActiveOf(n) <= h.PeakOf(n))
    && (forall n :: n in s.limiter.limits ==> s.limiter.limits[n] <= h.PeakOf(n))
  }

  predicate NodesInv(h: History) {
    var s := h.system;
    && Registry.NamesAreKeys(s.nodes)
    && (forall n :: n in s.nodes ==> s.nodes[n].maxConcurrent >= 1)
    && (forall t :: t in s.tasks && !s.tasks[t].Done? ==> s.tasks[t].node in s.nodes)
  }

  predicate CounterInv(h: History) {
    var s := h.system;
    forall n :: n in s.nodes ==>
      && 0 <= s.nodes[n].activeRequests <= |In(s.tasks, Sending(n))|
      && (n !in h.reset ==> s.nodes[n].activeRequests == |In(s.tasks, Sending(n))|)
  }

  ghost predicate Inv(limited: bool, h: History) {
    LimiterInv(limited, h) && NodesInv(h) && CounterInv(h)
  }

  predicate OfTask(e: Event) {
    e.Begin? || e.Wake? || e.CancelInAcquire? || e.Complete?
  }

  function NodeOf(h: History, e: Event): string
    requires OfTask(e) && Enabled(h.system, e)
  {
    if e.Begin? then e.node else h.system.tasks[e.task].node
  }

  /** A step of one task touches that task, one node's entry, and nothing a registration sets. */
  predicate OneTaskStep(s: System, s': System, t: TaskId, n: string) {
    && t in s'.tasks && s'.tasks == s.tasks[t := s'.tasks[t]]
    && (!s'.tasks[t].Done? ==> s'.tasks[t].node == n)
    && n in s.nodes && n in s'.nodes && s'.nodes == s.nodes[n := s'.nodes[n]]
    && s'.nodes[n].nodeName == s.nodes[n].nodeName && s'.nodes[n].maxConcurrent == s.nodes[n].maxConcurrent
  }

  lemma AdmitShape(limited: bool, s: System, t: TaskId, n: string)
    requires n in s.nodes && Text.Normalize(n) == n
    ensures OneTaskStep(s, Admit(limited, s, t, n), t, n)
  {
    assert s.nodes == s.nodes[n := s.nodes[n]];
  }

  lemma StartShape(limited: bool, s: System, t: TaskId, n: string)
    requires n in s.nodes && Text.Normalize(n) == n && s.limiter.Valid()
    ensures OneTaskStep(s, Start(limited, s, t, n), t, n)
  {
    if limited {
      assert s.nodes == s.nodes[n := s.nodes[n]];
    } else {
      AdmitShape(limited, s, t, n);
    }
  }

  lemma FinishShape(limited: bool, s: System, t: TaskId, n: string, outcome: SendOutcome)
    requires n in s.nodes && Text.Normalize(n) == n
    ensures OneTaskStep(s, Finish(limited, s, t, n, outcome), t, n)
  {
  }

  lemma TaskStepShape(p: Policy, limited: bool, h: History, e: Event)
    requires Inv(limited, h) && Enabled(h.system, e) && OfTask(e)
    ensures OneTaskStep(h.system, Track(p, limited, h, e).system, e.task, NodeOf(h, e))
    ensures var n := NodeOf(h, e); n in h.system.nodes && Text.Normalize(n) == n && n != ""
  {
    var n := NodeOf(h, e);
    assert n in h.system.nodes;
    match e
    case Begin(task, node) => StartShape(limited, h.system, task, n);
    case Wake(task) => AdmitShape(limited, h.system, task, n);
    case CancelInAcquire(task) => assert h.system.nodes == h.system.nodes[n := h.system.nodes[n]];
    case Complete(task, outcome) => FinishShape(limited, h.system, task, n, outcome);
  }

  lemma NodesInvKept(p: Policy, limited: bool, h: History, e: Event)
    requires Inv(limited, h) && Enabled(h.system, e)
    ensures NodesInv(Track(p, limited, h, e))
  {
    if OfTask(e) {
      TaskStepShape(p, limited, h, e);
      NodesInvAfterChange(h, Track(p, limited, h, e), NodeOf(h, e));
    } else if e.Register? {
      NodesInvAfterRegister(p, limited, h, e);
    } else {
      assert Text.Normalize(e.node) == e.node;
    }
  }

  lemma NodesInvAfterRegister(p: Policy, limited: bool, h: History, e: Event)
    requires Inv(limited, h) && Enabled(h.system, e) && e.Register?
    ensures NodesInv(Track(p, limited, h, e))
  {
    Text.NormalizeIdempotent(e.name);
    Registry.RegisteredChangesOne(p, h.system.nodes, e.name, e.registration, e.overwrite);
    NodesInvAfterChange(h, Track(p, limited, h, e), Text.Normalize(e.name));
  }

  /** Frame: at most the entry of `n` changes, tasks keep their nodes or move to `n`. */
  lemma NodesInvAfterChange(h: History, h': History, n: string)
    requires NodesInv(h)
    requires h'.system.nodes == h.system.nodes
             || (n != "" && Text.Normalize(n) == n && n in h'.system.nodes && h'.system.nodes[n].nodeName == n
                 && h'.system.nodes[n].maxConcurrent >= 1 && h'.system.nodes == h.system.nodes[n := h'.system.nodes[n]])
    requires forall t :: t in h'.system.tasks && !h'.system.tasks[t].Done?
                         ==> h'.system.tasks[t].node in h'.system.nodes
    ensures NodesInv(h')
  {
  }

  /** The permit of a suspended call is counted, so giving it back never hits the floor of zero. */
  lemma ReleaseNeverClips(limited: bool, h: History, t: TaskId)
    requires limited && Inv(limited, h) && t in h.system.tasks
    requires h.system.tasks[t].Acquiring? || h.system.tasks[t].Sending?
    ensures var n := h.system.tasks[t].node;
            var r := h.system.limiter.Released(n);
            r.Success? && r.value == h.system.limiter.(active := h.system.limiter.active[n := h.system.limiter.ActiveOf(n) - 1])
    ensures h.system.limiter.ActiveOf(h.system.tasks[t].node) >= 1
  {
    var n := h.system.tasks[t].node;
    InNonEmpty(h.system.tasks, t);
    assert h.system.tasks[t] == Acquiring(n) || h.system.tasks[t] == Sending(n);
    assert h.system.limiter.ActiveOf(n) == Holders(h.system, n) + LeakCount(h.system, n);
    assert Text.Normalize(n) == n;
  }

  lemma LimiterInvKept(p: Policy, limited: bool, h: History, e: Event)
    requires Inv(limited, h) && Enabled(h.system, e)
    ensures LimiterInv(limited, Track(p, limited, h, e))
  {
    if limited && OfTask(e) {
      match e
      case Begin(task, node) => LimiterInvAfterBegin(p, h, task, node);
      case Wake(task) => LimiterInvAfterWake(p, h, task);
      case CancelInAcquire(task) => LimiterInvAfterMove(h, Track(p, limited, h, e), task);
      case Complete(task, outcome) => LimiterInvAfterComplete(p, h, task, outcome);
    }
  }

  lemma LimiterInvAfterComplete(p: Policy, h: History, t: TaskId, outcome: SendOutcome)
    requires Inv(true, h) && Enabled(h.system, Complete(t, outcome))
    ensures LimiterInv(true, Track(p, true, h, Complete(t, outcome)))
  {
    ReleaseNeverClips(true, h, t);
    LimiterInvAfterMove(h, Track(p, true, h, Complete(t, outcome)), t);
  }

  lemma LimiterInvAfterBegin(p: Policy, h: History, t: TaskId, n: string)
    requires Inv(true, h) && Enabled(h.system, Begin(t, n))
    ensures LimiterInv(true, Track(p, true, h, Begin(t, n)))
  {
    assert Text.Normalize(n) == n;
    LimiterInvAfterMove(h, Track(p, true, h, Begin(t, n)), t);
  }

  lemma LimiterInvAfterWake(p: Policy, h: History, t: TaskId)
    requires Inv(true, h) && Enabled(h.system, Wake(t))
    ensures LimiterInv(true, Track(p, true, h, Wake(t)))
  {
    ReleaseNeverClips(true, h, t);
    LimiterInvAfterMove(h, Track(p, true, h, Wake(t)), t);
  }

  /** What a move of one task has to do to the limiter for the counts to keep agreeing. */
  lemma LimiterInvAfterMove(h: History, h': History, t: TaskId)
    requires LimiterInv(true, h) && t in h'.system.tasks
    requires h'.system.tasks == h.system.tasks[t := h'.system.tasks[t]]
    requires h'.system.limiter.Valid()
    requires forall n :: h'.system.limiter.ActiveOf(n) == h.system.limiter.ActiveOf(n)
                           + One(Counted(h'.system.tasks, t, n)) - One(Counted(h.system.tasks, t, n))
    requires forall n :: h'.system.limiter.ActiveOf(n) <= h'.PeakOf(n)
    requires forall n :: n in h'.system.limiter.limits ==> h'.system.limiter.limits[n] <= h'.PeakOf(n)
    ensures LimiterInv(true, h')
  {
    forall n ensures h'.system.limiter.ActiveOf(n) == Holders(h'.system, n) + LeakCount(h'.system, n) {
      CountAfterMove(h.system.tasks, t, h'.system.tasks[t], Acquiring(n));
      CountAfterMove(h.system.tasks, t, h'.system.tasks[t], Sending(n));
      CountAfterMove(h.system.tasks, t, h'.system.tasks[t], Leaked(n));
    }
  }

  predicate Counted(tasks: map<TaskId, Phase>, t: TaskId, n: string) {
    t in tasks && !tasks[t].Done? && tasks[t].node == n
  }

  lemma InNonEmpty(tasks: map<TaskId, Phase>, t: TaskId)
    requires t in tasks
    ensures |In(tasks, tasks[t])| >= 1
  {
    assert t in In(tasks, tasks[t]);
  }

  lemma CounterInvKept(p: Policy, limited: bool, h: History, e: Event)
    requires Inv(limited, h) && Enabled(h.system, e)
    ensures CounterInv(Track(p, limited, h, e))
  {
    if OfTask(e) {
      CounterInvAfterMove(p, limited, h, e);
    } else if e.Register? {
      Registry.RegisteredChangesOne(p, h.system.nodes, e.name, e.registration, e.overwrite);
      CounterInvAfterRegister(h, Track(p, limited, h, e), Text.Normalize(e.name));
    }
  }

  lemma CounterInvAfterRegister(h: History, h': History, n: string)
    requires NodesInv(h) && CounterInv(h) && h'.system.tasks == h.system.tasks
    requires (h'.system.nodes == h.system.nodes && h'.reset == h.reset)
             || (n in h'.system.nodes && h'.system.nodes[n].activeRequests == 0
                 && h'.system.nodes == h.system.nodes[n := h'.system.nodes[n]]
                 && h'.reset == if n in h.system.nodes then h.reset + {n} else h.reset)
    ensures CounterInv(h')
  {
    if n !in h.system.nodes {
      assert In(h.system.tasks, Sending(n)) == {};
    }
  }

  /** The node's counter follows its senders, but for the floor of zero. */
  predicate CounterStep(s: System, s': System, t: TaskId, n: string) {
    OneTaskStep(s, s', t, n)
    && (t in s.tasks && s.tasks[t].Sending? ==> s.tasks[t].node == n)
    && var moved := s.nodes[n].activeRequests + One(s'.tasks[t] == Sending(n)) - One(t in s.tasks && s.tasks[t] == Sending(n));
       s'.nodes[n].activeRequests == if moved > 0 then moved else 0
  }

  lemma AdmitCounts(limited: bool, s: System, t: TaskId, n: string)
    requires n in s.nodes && Text.Normalize(n) == n && s.nodes[n].activeRequests >= 0 && !(t in s.tasks && s.tasks[t].Sending?)
    ensures CounterStep(s, Admit(limited, s, t, n), t, n)
  {
    AdmitShape(limited, s, t, n);
  }

  lemma FinishCounts(limited: bool, s: System, t: TaskId, n: string, outcome: SendOutcome)
    requires n in s.nodes && Text.Normalize(n) == n && t in s.tasks && s.tasks[t] == Sending(n)
    ensures CounterStep(s, Finish(limited, s, t, n, outcome), t, n)
  {
    FinishShape(limited, s, t, n, outcome);
  }

  lemma TaskStepCounts(p: Policy, limited: bool, h: History, e: Event)
    requires Inv(limited, h) && Enabled(h.system, e) && OfTask(e)
    ensures CounterStep(h.system, Track(p, limited, h, e).system, e.task, NodeOf(h, e))
  {
    TaskStepShape(p, limited, h, e);
    var s, n := h.system, NodeOf(h, e);
    assert s.nodes[n].activeRequests >= 0;
    match e
    case Begin(task, _) => if !limited { AdmitCounts(limited, s, task, n); }
    case Wake(task) => AdmitCounts(limited, s, task, n);
    case CancelInAcquire(_) =>
    case Complete(task, outcome) => FinishCounts(limited, s, task, n, outcome);
  }

  lemma CounterInvAfterStep(h: History, h': History, t: TaskId, n: string)
    requires CounterInv(h) && CounterStep(h.system, h'.system, t, n) && h'.reset == h.reset
    ensures CounterInv(h')
  {
    var s, s' := h.system, h'.system;
    if t in s.tasks { InNonEmpty(s.tasks, t); }
    forall m | m in s'.nodes
      ensures 0 <= s'.nodes[m].activeRequests <= |In(s'.tasks, Sending(m))|
      ensures m !in h'.reset ==> s'.nodes[m].activeRequests == |In(s'.tasks, Sending(m))|
    {
      CountAfterMove(s.tasks, t, s'.tasks[t], Sending(m));
      assert m in s.nodes && (m != n ==> s'.nodes[m] == s.nodes[m]);
    }
  }

  lemma CounterInvAfterMove(p: Policy, limited: bool, h: History, e: Event)
    requires Inv(limited, h) && Enabled(h.system, e) && OfTask(e)
    ensures CounterInv(Track(p, limited, h, e))
  {
    TaskStepCounts(p, limited, h, e);
    CounterInvAfterStep(h, Track(p, limited, h, e), e.task, NodeOf(h, e));
  }

  lemma InvKept(p: Policy, limited: bool, h: History, e: Event)
    requires Inv(limited, h) && Enabled(h.system, e)
    ensures Inv(limited, Track(p, limited, h, e))
  {
    NodesInvKept(p, limited, h, e);
    CounterInvKept(p, limited, h, e);
    LimiterInvKept(p, limited, h, e);
  }

  // ---------- whole runs ----------

  predicate IdleNodes(nodes: Registry.Nodes) {
    Registry.NamesAreKeys(nodes) && forall n :: n in nodes ==> Registry.WellFormed(nodes[n]) && nodes[n].activeRequests == 0
  }

  function Idle(nodes: Registry.Nodes): History {
    History(System(NodeLimits.NO_LIMITS, nodes, map[]), map[], {})
  }

  /** The history after a sequence of steps, if each was enabled when it was taken. */
  function Run(p: Policy, limited: bool, nodes: Registry.Nodes, events: seq<Event>): Option<History> {
    if events == [] then Some(Idle(nodes)) else
      var before := Run(p, limited, nodes, events[..|events| - 1]);
      if before.Some? && before.value.system.limiter.Valid() && Enabled(before.value.system, events[|events| - 1])
      then Some(Track(p, limited, before.value, events[|events| - 1])) else None
  }

  ghost predicate Reachable(p: Policy, limited: bool, nodes: Registry.Nodes, h: History) {
    IdleNodes(nodes) && exists events :: Run(p, limited, nodes, events) == Some(h)
  }

  lemma {:induction false} RunKeepsInv(p: Policy, limited: bool, nodes: Registry.Nodes, events: seq<Event>)
    requires IdleNodes(nodes) && Run(p, limited, nodes, events).Some?
    ensures Inv(limited, Run(p, limited, nodes, events).value)
  {
    if events == [] {
      IdleInv(limited, nodes);
    } else {
      RunKeepsInv(p, limited, nodes, events[..|events| - 1]);
      InvKept(p, limited, Run(p, limited, nodes, events[..|events| - 1]).value, events[|events| - 1]);
    }
  }

  lemma IdleInv(limited: bool, nodes: Registry.Nodes)
    requires IdleNodes(nodes)
    ensures Inv(limited, Idle(nodes))
  {
    forall n ensures Holders(Idle(nodes).system, n) + LeakCount(Idle(nodes).system, n) == 0 {
      assert In(Idle(nodes).system.tasks, Acquiring(n)) == {} && In(Idle(nodes).system.tasks, Sending(n)) == {};
      assert In(Idle(nodes).system.tasks, Leaked(n)) == {};
    }
  }

  /** In every interleaving: holders, limiter count and the largest limit so far; exact but for leaked permits. */
  lemma PermitsNeverExceedLimit(p: Policy, nodes: Registry.Nodes, h: History, n: string)
    requires Reachable(p, true, nodes, h)
    ensures |In(h.system.tasks, Sending(n))| <= Holders(h.system, n) <= h.system.limiter.ActiveOf(n) <= h.PeakOf(n)
    ensures h.system.limiter.ActiveOf(n) == Holders(h.system, n) + LeakCount(h.system, n)
    ensures h.system.limiter.ActiveOf(n) == Holders(h.system, n) <==> forall t :: t in h.system.tasks ==> h.system.tasks[t] != Leaked(n)
  {
    var events :| Run(p, true, nodes, events) == Some(h);
    RunKeepsInv(p, true, nodes, events);
    assert In(h.system.tasks, Leaked(n)) == {} <==> LeakCount(h.system, n) == 0;
    assert forall t :: t in In(h.system.tasks, Leaked(n)) <==> t in h.system.tasks && h.system.tasks[t] == Leaked(n);
  }

  /** In every interleaving, with or without a limiter: the registry never counts more than is being sent. */
  lemma RegistryCountsSends(p: Policy, limited: bool, nodes: Registry.Nodes, h: History, n: string)
    requires Reachable(p, limited, nodes, h) && n in h.system.nodes
    ensures 0 <= h.system.nodes[n].activeRequests <= |In(h.system.tasks, Sending(n))|
    ensures n !in h.reset ==> h.system.nodes[n].activeRequests == |In(h.system.tasks, Sending(n))|
  {
    var events :| Run(p, limited, nodes, events) == Some(h);
    RunKeepsInv(p, limited, nodes, events);
  }

  predicate GuardFires(s: System, t: TaskId)
    requires Enabled(s, Wake(t))
  {
    Registry.Incremented(s.nodes, s.tasks[t].node).Failure?
  }

  /** Behind the limiter the registry's own limit refuses a call only after the node's limit was lowered. */
  lemma GuardFiresOnlyWhenLowered(p: Policy, nodes: Registry.Nodes, h: History, t: TaskId)
    requires Reachable(p, true, nodes, h) && Enabled(h.system, Wake(t)) && GuardFires(h.system, t)
    ensures var n := h.system.tasks[t].node; n in h.system.nodes && h.system.nodes[n].maxConcurrent < h.PeakOf(n)
  {
    var events :| Run(p, true, nodes, events) == Some(h);
    RunKeepsInv(p, true, nodes, events);
    var n := h.system.tasks[t].node;
    assert n in h.system.nodes && Text.Normalize(n) == n;
    InNonEmpty(h.system.tasks, t);
    assert h.system.tasks[t] == Acquiring(n);
    assert h.system.limiter.ActiveOf(n) == Holders(h.system, n) + LeakCount(h.system, n);
  }

  /** Every registration of the node, first and later ones, carries the same limit. */
  predicate ConstantLimit(nodes: Registry.Nodes, events: seq<Event>, n: string, m: int) {
    && (n in nodes ==> nodes[n].maxConcurrent == m)
    && forall i :: 0 <= i < |events| && events[i].Register? && Text.Normalize(events[i].name) == n
                   ==> events[i].registration.maxConcurrent == m
  }

  predicate LimitIs(h: History, n: string, m: int) {
    h.PeakOf(n) <= m && (n in h.system.nodes ==> h.system.nodes[n].maxConcurrent == m)
  }

  lemma LimitIsKept(p: Policy, limited: bool, h: History, e: Event, n: string, m: nat)
    requires Inv(limited, h) && Enabled(h.system, e) && LimitIs(h, n, m)
    requires e.Register? && Text.Normalize(e.name) == n ==> e.registration.maxConcurrent == m
    ensures LimitIs(Track(p, limited, h, e), n, m)
  {
    if OfTask(e) {
      TaskStepShape(p, limited, h, e);
    } else if e.Register? {
      Registry.RegisteredChangesOne(p, h.system.nodes, e.name, e.registration, e.overwrite);
    }
  }

  lemma {:induction false} ConstantLimitKept(p: Policy, limited: bool, nodes: Registry.Nodes, events: seq<Event>, n: string, m: nat)
    requires IdleNodes(nodes) && ConstantLimit(nodes, events, n, m) && Run(p, limited, nodes, events).Some?
    ensures LimitIs(Run(p, limited, nodes, events).value, n, m)
  {
    if events != [] {
      var prefix := events[..|events| - 1];
      ConstantLimitKept(p, limited, nodes, prefix, n, m);
      RunKeepsInv(p, limited, nodes, prefix);
      LimitIsKept(p, limited, Run(p, limited, nodes, prefix).value, events[|events| - 1], n, m);
    }
  }

  /** With an unchanging limit, the limiter count stays within it and the registry's own guard never fires. */
  lemma ConstantLimitNeverRefused(p: Policy, nodes: Registry.Nodes, events: seq<Event>, n: string, m: nat)
    requires IdleNodes(nodes) && ConstantLimit(nodes, events, n, m) && Run(p, true, nodes, events).Some?
    ensures var s := Run(p, true, nodes, events).value.system;
            s.limiter.ActiveOf(n) <= m
            && forall t :: t in s.tasks && s.tasks[t] == Acquiring(n) ==> !GuardFires(s, t)
  {
    RunKeepsInv(p, true, nodes, events);
    ConstantLimitKept(p, true, nodes, events, n, m);
    var h := Run(p, true, nodes, events).value;
    forall t | t in h.system.tasks && h.system.tasks[t] == Acquiring(n) ensures !GuardFires(h.system, t) {
      if GuardFires(h.system, t) { GuardFiresOnlyWhenLowered(p, nodes, h, t); }
    }
  }

  // ---------- the guard does fire once a limit is lowered ----------

  lemma RunSnoc(p: Policy, limited: bool, nodes: Registry.Nodes, events: seq<Event>, e: Event)
    requires Run(p, limited, nodes, events).Some?
    requires var h := Run(p, limited, nodes, events).value; h.system.limiter.Valid() && Enabled(h.system, e)
    ensures Run(p, limited, nodes, events + [e]) == Some(Track(p, limited, Run(p, limited, nodes, events).value, e))
  {
    assert (events + [e])[..|events|] == events;
  }

  /** The first `k` calls to the node are suspended inside `acquire`. */
  ghost predicate Queued(s: System, reg: Registry.Registration, k: nat) {
    && s.nodes == map[reg.nodeName := reg] && s.limiter.Valid() && s.limiter.ActiveOf(reg.nodeName) == k
    && forall i: nat :: (i in s.tasks <==> i < k) && (i < k ==> s.tasks[i] == Acquiring(reg.nodeName))
  }

  lemma QueueOne(p: Policy, h: History, reg: Registry.Registration, k: nat)
    requires Queued(h.system, reg, k) && k < reg.maxConcurrent && reg.healthy
    requires Text.Normalize(reg.nodeName) == reg.nodeName != ""
    ensures Enabled(h.system, Begin(k, reg.nodeName))
    ensures Queued(Track(p, true, h, Begin(k, reg.nodeName)).system, reg, k + 1)
  {
  }

  lemma {:induction false} QueueMany(p: Policy, reg: Registry.Registration, k: nat) returns (events: seq<Event>)
    requires IdleNodes(map[reg.nodeName := reg]) && reg.healthy && k <= reg.maxConcurrent
    ensures Run(p, true, map[reg.nodeName := reg], events).Some?
    ensures Queued(Run(p, true, map[reg.nodeName := reg], events).value.system, reg, k)
  {
    var nodes, n := map[reg.nodeName := reg], reg.nodeName;
    events := [];
    if k > 0 {
      events := QueueMany(p, reg, k - 1);
      assert n in nodes && Text.Normalize(n) == n;
      QueueOne(p, Run(p, true, nodes, events).value, reg, k - 1);
      RunSnoc(p, true, nodes, events, Begin(k - 1, n));
      events := events + [Begin(k - 1, n)];
    }
  }

  /** The first `j` suspended calls have gone on to send; the others have not moved since `start`. */
  ghost predicate Woken(start: System, s: System, n: string, j: nat) {
    && n in start.nodes && Text.Normalize(n) == n && s.limiter == start.limiter && s.limiter.Valid()
    && s.nodes == start.nodes[n := start.nodes[n].(activeRequests := j)]
    && forall i: nat :: j <= i && i in start.tasks ==> i in s.tasks && s.tasks[i] == start.tasks[i]
  }

  lemma WakeOne(p: Policy, start: System, h: History, n: string, j: nat)
    requires Woken(start, h.system, n, j) && j < start.nodes[n].maxConcurrent
    requires j in start.tasks && start.tasks[j] == Acquiring(n)
    ensures Enabled(h.system, Wake(j))
    ensures Woken(start, Track(p, true, h, Wake(j)).system, n, j + 1)
  {
  }

  ghost predicate WokenBy(p: Policy, nodes: Registry.Nodes, events: seq<Event>, start: System, n: string, j: nat) {
    Run(p, true, nodes, events).Some? && Woken(start, Run(p, true, nodes, events).value.system, n, j)
  }

  lemma {:induction false} WakeMany(p: Policy, nodes: Registry.Nodes, first: seq<Event>, start: System, n: string, j: nat)
    returns (events: seq<Event>)
    requires WokenBy(p, nodes, first, start, n, 0) && j <= start.nodes[n].maxConcurrent
    requires forall i: nat :: i < j ==> i in start.tasks && start.tasks[i] == Acquiring(n)
    ensures WokenBy(p, nodes, events, start, n, j)
  {
    events := first;
    if j > 0 {
      events := WakeMany(p, nodes, first, start, n, j - 1);
      WakeOne(p, start, Run(p, true, nodes, events).value, n, j - 1);
      RunSnoc(p, true, nodes, events, Wake(j - 1));
      events := events + [Wake(j - 1)];
    }
  }

  /** Sharpness: for any two limits, lowering the first to the second mid-flight makes the registry refuse a permit holder. */
  lemma LoweredLimitFires(p: Policy, reg: Registry.Registration, lower: int) returns (events: seq<Event>, t: TaskId)
    requires IdleNodes(map[reg.nodeName := reg]) && reg.healthy && 1 <= lower < reg.maxConcurrent
    requires p.CheckActions(reg.supportedActions, p.OwnerForRegistration(reg.nodeName, reg.metadata), map[]).Pass?
    ensures Run(p, true, map[reg.nodeName := reg], events).Some?
    ensures var s := Run(p, true, map[reg.nodeName := reg], events).value.system;
            Enabled(s, Wake(t)) && s.tasks[t] == Acquiring(reg.nodeName) && GuardFires(s, t)
  {
    var nodes, n := map[reg.nodeName := reg], reg.nodeName;
    assert n in nodes && Text.Normalize(n) == n && Registry.WellFormed(nodes[n]);
    events := QueueMany(p, reg, lower + 1);
    var again := reg.(maxConcurrent := lower);
    assert Registry.WellFormed(again);
    Registry.RegisteredChecksOthers(p, nodes, n, again, true);
    assert Registry.Advertisers(p, nodes - {n}) == map[];
    Registry.RegisteredChangesOne(p, nodes, n, again, true);
    RunSnoc(p, true, nodes, events, Register(n, again, true));
    events := events + [Register(n, again, true)];
    var s := Run(p, true, nodes, events).value.system;
    assert s.nodes[n] == again && s.nodes == s.nodes[n := again];
    var last := WakeMany(p, nodes, events, s, n, lower);
    assert lower in s.tasks && s.tasks[lower] == Acquiring(n);
    events, t := last, lower;
  }

  // ---------- leaked permits ----------

  lemma LeaksNeverReturn(p: Policy, limited: bool, h: History, e: Event, n: string)
    requires Inv(limited, h) && Enabled(h.system, e)
    ensures LeakCount(h.system, n) + One(e.CancelInAcquire? && h.system.tasks[e.task].node == n)
         == LeakCount(Track(p, limited, h, e).system, n)
  {
    if OfTask(e) {
      TaskStepShape(p, limited, h, e);
      CountAfterMove(h.system.tasks, e.task, Track(p, limited, h, e).system.tasks[e.task], Leaked(n));
      LeakOnlyByCancel(p, limited, h, e);
    }
  }

  lemma LeakOnlyByCancel(p: Policy, limited: bool, h: History, e: Event)
    requires Inv(limited, h) && Enabled(h.system, e) && OfTask(e)
    ensures e.task in Track(p, limited, h, e).system.tasks
    ensures Track(p, limited, h, e).system.tasks[e.task].Leaked? <==> e.CancelInAcquire?
  {
  }

  /** Cancelled acquires cost permits for good: once they fill the limit, every later dispatch to the node is rejected. */
  lemma LeakedPermitsStarve(p: Policy, nodes: Registry.Nodes, h: History, t: TaskId, n: string)
    requires Reachable(p, true, nodes, h) && Enabled(h.system, Begin(t, n))
    requires LeakCount(h.system, n) >= h.system.nodes[n].maxConcurrent
    ensures h.system.limiter.Valid()
    ensures var s' := Apply(p, true, h.system, Begin(t, n)); s'.tasks[t] == Done && s'.nodes == h.system.nodes
  {
    var events :| Run(p, true, nodes, events) == Some(h);
    RunKeepsInv(p, true, nodes, events);
    assert Text.Normalize(n) == n;
    assert h.system.limiter.ActiveOf(n) == Holders(h.system, n) + LeakCount(h.system, n);
  }

  // ---------- the registry sees dispatch only through its own four updates ----------

  function NodeEvents(limited: bool, s: System, e: Event): seq<Registry.RegistryEvent>
    requires Enabled(s, e)
  {
    match e
    case Begin(_, node) => if limited then [] else [Registry.Increment(node)]
    case Wake(task) => [Registry.Increment(s.tasks[task].node)]
    case CancelInAcquire(_) => []
    case Complete(task, outcome) =>
      (if outcome.ConnectionError? then [Registry.SetHealth(s.tasks[task].node, false)] else [])
      + [Registry.Decrement(s.tasks[task].node)]
    case Register(name, registration, overwrite) => [Registry.Register(name, registration, overwrite)]
    case SetHealth(node, healthy) => [Registry.SetHealth(node, healthy)]
  }

  lemma RunOne(p: Policy, nodes: Registry.Nodes, a: Registry.RegistryEvent)
    ensures Registry.Run(p, nodes, [a]) == Registry.Step(p, nodes, a)
  {
    assert [a][..0] == [];
  }

  lemma RunTwo(p: Policy, nodes: Registry.Nodes, a: Registry.RegistryEvent, b: Registry.RegistryEvent)
    ensures Registry.Run(p, nodes, [a, b]) == Registry.Step(p, Registry.Step(p, nodes, a), b)
  {
    assert [a, b][..1] == [a];
    RunOne(p, nodes, a);
  }

  lemma FinishFollowsRegistry(p: Policy, limited: bool, s: System, t: TaskId, outcome: SendOutcome)
    requires s.limiter.Valid() && Enabled(s, Complete(t, outcome))
    ensures Apply(p, limited, s, Complete(t, outcome)).nodes
         == Registry.Run(p, s.nodes, NodeEvents(limited, s, Complete(t, outcome)))
  {
    var n := s.tasks[t].node;
    if outcome.ConnectionError? {
      RunTwo(p, s.nodes, Registry.SetHealth(n, false), Registry.Decrement(n));
      assert NodeEvents(limited, s, Complete(t, outcome)) == [Registry.SetHealth(n, false), Registry.Decrement(n)];
    } else {
      RunOne(p, s.nodes, Registry.Decrement(n));
      assert NodeEvents(limited, s, Complete(t, outcome)) == [Registry.Decrement(n)];
    }
  }

  lemma NodesFollowRegistry(p: Policy, limited: bool, s: System, e: Event)
    requires s.limiter.Valid() && Enabled(s, e)
    ensures Apply(p, limited, s, e).nodes == Registry.Run(p, s.nodes, NodeEvents(limited, s, e))
  {
    if e.Complete? {
      FinishFollowsRegistry(p, limited, s, e.task, e.outcome);
    } else if NodeEvents(limited, s, e) != [] {
      RunOne(p, s.nodes, NodeEvents(limited, s, e)[0]);
    }
  }

  /** Ownership survives every interleaving of dispatches, registrations and health changes. */
  lemma {:induction false} OwnershipUnderDispatch(p: Policy, limited: bool, nodes: Registry.Nodes, events: seq<Event>)
    requires Run(p, limited, nodes, events).Some? && Registry.RegistryInv(p, nodes)
    ensures Registry.RegistryInv(p, Run(p, limited, nodes, events).value.system.nodes)
  {
    if events != [] {
      var prefix, e := events[..|events| - 1], events[|events| - 1];
      OwnershipUnderDispatch(p, limited, nodes, prefix);
      var s := Run(p, limited, nodes, prefix).value.system;
      NodesFollowRegistry(p, limited, s, e);
      Registry.OwnershipOverRuns(p, s.nodes, NodeEvents(limited, s, e));
    }
  }
}
