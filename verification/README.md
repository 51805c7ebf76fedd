# Constellation Gate: a verified model of its routing core

Constellation Gate is an in-process gateway that routes packets to worker nodes. This project models the small state
machines at its core and proves what they keep when they run interleaved. Code between two awaits is one atomic step.
Time is `int` ticks for the guards and `real` seconds for deadlines, read from a clock that never goes back.

- **Dispatch** (`NodeLimits`, `Registry`, `Dispatch`, `LoadBalance`, `HealthMonitor`, `AdminRegistration`): the permit
  counter of the limiter and the request counter of the registry, both moved by the same calls at different awaits,
  under rejection, failure, cancellation and re-registration.
- **Execution pipeline** (`RateLimiter`, `CircuitBreaker`, `ReplayGuard`, `Idempotency`, `DeadLetterQueue`,
  `ExecuteService`): each guard refines a stateless rule about its history; together, every verdict in every concurrent
  run is a rule about the log, and admitted requests are conserved.
- **One packet budget** (`PacketBudget`, `RetryPolicy`, `WorkflowEngine`, `PacketExecution`): however many steps and
  retries, every worker timeout lies inside the packet's one window.
- **Ownership and readiness** (`ActionOwnership`, `Registry`, `RoutingReadiness`): one semantic owner per action is an
  invariant of every run and turns the readiness report into a plain existential.
- **Language-like pieces** (`ConditionEval`, `StepNames`, `Redact`): the eager condition evaluator against short-circuit
  semantics, synthesized step names, and the longest-first redactor.

Objects that the program updates in place are classes. Their methods are proved against functions on the object's value;
the theorems about runs are about those functions. `Wrappers` and `Text` hold shared result types and string operations.
Tables of constants (owners, aliases, declared replay-safe actions) are parameters of the theorems, and the program's own
tables are shown to meet what is asked of them.

Some promises hold only under a condition, which the lemmas state exactly:

- The limiter count equals the permit holders if and only if no call was cancelled inside `acquire`
  (`Dispatch.PermitsNeverExceedLimit`, `Dispatch.LeakedPermitsStarve`).
- The registry's own limit refuses a permit holder only after a limit was lowered, and for every lowering some run shows
  it (`Dispatch.GuardFiresOnlyWhenLowered`, `Dispatch.LoweredLimitFires`).
- The docstring of the cache key says that the separator cannot appear in tenants and actions. The wire contract keeps it
  out of actions (`contracts/transport-packet.schema.json`, line 56) and out of nothing else, and the code does not check.
  `Idempotency.SeparatorInTenantCollides` gives two receivable packets that share a cache entry,
  `Idempotency.PacketCollidesIff` says which packets have such a partner, and `Idempotency.UnambiguousKeyIdentifies` is a
  check that a sender can make on its own packet.
- Redaction with one secret cleans every body if and only if secret and placeholder do not overlap
  (`Redact.CleansEveryBodyIff`), and for any set and order this is enough (`Redact.RedactionLeavesNoSecret`). A star
  at the end of a secret is such an overlap, one inside need not be (`Redact.EdgeStarLeaks`, `Redact.OutsideEdgesOverlapIff`).
- The eager evaluator agrees with short-circuit evaluation in truth positions whenever it has a value, and it has one if
  and only if every subexpression has (`ConditionEval.EagerSucceedsIff`). Elsewhere it computes the expression with boolean
  operands (`ConditionEval.EagerMeansCoerced`, `ConditionEval.BoolInValuePositionIff`, `ConditionEval.OperandValueLost`).

Check everything with `dafny verify dfyconfig.toml`.

## Model

| member | source | states |
|---|---|---|
| `NodeLimits.PerNodeLimiterManager.EnsureNodeLimit` | constellation-gate/src/constellation_gate/runtime/node_limits.py:30-38 | sets the limit of a node and starts its count at zero only if it has none; blank names and limits below 1 are errors and change nothing |
| `NodeLimits.PerNodeLimiterManager.Acquire` | constellation-gate/src/constellation_gate/runtime/node_limits.py:40-49 | counts one more permit, or refuses with the right error and no change, before the `sleep(0)` |
| `NodeLimits.PerNodeLimiterManager.Release` | constellation-gate/src/constellation_gate/runtime/node_limits.py:51-55 | counts one permit less with a floor of zero; an unknown node is an error |
| `NodeLimits.CountsNotNegative` | constellation-gate/src/constellation_gate/runtime/node_limits.py:30-55 | no operation makes a count negative; a release at zero leaves it at zero |
| `Dispatch.Dispatcher.BeginDispatch` | constellation-gate/src/constellation_gate/routing/dispatch.py:147-160 | first atomic step of a call: limit ensured, permit taken, suspended in `acquire`, or rejected with nothing to give back; without a limiter it goes straight on to the registry |
| `Dispatch.Dispatcher.WakeFromAcquire` | constellation-gate/src/constellation_gate/routing/dispatch.py:152-163 | second step: registry counter incremented and the send begins, or the registry refuses and the permit is given back |
| `Dispatch.Dispatcher.CancelAtSleep` | constellation-gate/src/constellation_gate/runtime/node_limits.py:40-49 | cancellation at the `sleep(0)`: neither counter is touched again, so the permit stays counted |
| `Dispatch.Dispatcher.CompleteSend` | constellation-gate/src/constellation_gate/routing/dispatch.py:158-182 | last step for every send outcome: a connection error marks the node unhealthy, then both counters are given back once |
| `Dispatch.Dispatcher.Finally` | constellation-gate/src/constellation_gate/routing/dispatch.py:178-182 | releases only what the flags say this call holds |
| `Dispatch.InvKept` | constellation-gate/src/constellation_gate/routing/dispatch.py:147-182 | every step of every task and of the environment keeps the three-part invariant: limiter count = holders + leaked permits and at most the largest limit ensured; names and limits of nodes; registry counter at most the number of senders |
| `Dispatch.RunKeepsInv` | constellation-gate/src/constellation_gate/routing/dispatch.py:147-182 | the invariant holds after any interleaving of any number of calls, re-registrations and health changes from an idle start |
| `Dispatch.PermitsNeverExceedLimit` | constellation-gate/src/constellation_gate/runtime/node_limits.py:30-55 | in every reachable state senders <= permit holders <= `_active` <= the largest limit ensured; `_active` equals the holders if and only if no call was cancelled inside `acquire` |
| `Dispatch.ReleaseNeverClips` | constellation-gate/src/constellation_gate/runtime/node_limits.py:51-55 | whenever a holder gives its permit back the count is at least 1, so the floor of zero is never used |
| `Dispatch.RegistryCountsSends` | constellation-gate/src/constellation_gate/routing/node_registry.py:236-257 | in every reachable state, with or without limiter, `active_requests` is between 0 and the number of calls being sent, and equal to it for a node that was never overwritten |
| `Dispatch.GuardFiresOnlyWhenLowered` | constellation-gate/src/constellation_gate/routing/node_registry.py:236-246 | behind the limiter the registry refuses a permit holder only if the node was re-registered with a lower limit |
| `Dispatch.ConstantLimitNeverRefused` | constellation-gate/src/constellation_gate/routing/node_registry.py:236-246 | with one constant limit the limiter count stays within it and the registry never refuses a permit holder |
| `Dispatch.LoweredLimitFires` | constellation-gate/src/constellation_gate/services/admin_registration_service.py:34-48 | sharpness: for any two limits there is a run in which lowering the first to the second mid-flight makes the registry refuse a permit holder |
| `Dispatch.LeaksNeverReturn` | constellation-gate/src/constellation_gate/runtime/node_limits.py:40-49 | each cancellation inside `acquire` adds exactly one leaked permit of that node, no other step adds or removes one |
| `Dispatch.LeakedPermitsStarve` | constellation-gate/src/constellation_gate/runtime/node_limits.py:40-55 | once leaked permits reach the limit every further call to the node is rejected without touching the registry |
| `Dispatch.NodesFollowRegistry` | constellation-gate/src/constellation_gate/routing/dispatch.py:147-182 | each dispatch step changes the registry exactly as a run of its own four updates |
| `Dispatch.OwnershipUnderDispatch` | constellation-gate/src/constellation_gate/routing/node_registry.py:129-163 | one owner per action holds after every interleaving of dispatches, registrations and health changes |
| `ActionOwnership.NormalizeOwnerIdempotent` | constellation-gate/src/constellation_gate/routing/action_ownership.py:70-81 | for any closed alias table, normalizing a normalized owner again changes nothing |
| `ActionOwnership.GateTableClosed` | constellation-gate/src/constellation_gate/routing/action_ownership.py:49-63 | the program's own alias table is closed: every owner it names is an alias of itself |
| `ActionOwnership.RegistrationOwnerMeans` | constellation-gate/src/constellation_gate/routing/action_ownership.py:70-88 | non-blank owner metadata decides alone: first exact alias, else first contained alias, else the name itself; without it the node name decides by the same aliases, else there is no owner |
| `ActionOwnership.DeclaredOwnerWins` | constellation-gate/src/constellation_gate/routing/action_ownership.py:84-88 | a declared table owner is the owner, whatever the node is called |
| `ActionOwnership.CheckActionPermits` | constellation-gate/src/constellation_gate/routing/action_ownership.py:95-147 | one action passes if and only if a canonical action is claimed by its owner and no other advertiser with a known owner differs; the last collision branch is unreachable |
| `ActionOwnership.OwnershipAcceptsIff` | constellation-gate/src/constellation_gate/routing/action_ownership.py:95-147 | a registration passes if and only if each of its actions is permitted; no list of actions reaches the last collision branch |
| `Registry.MakeRegistrationWellFormed` | constellation-gate/src/constellation_gate/routing/node_registry.py:36-71 | validation yields idle, healthy registrations with the given fields, normalized name, and exactly the given actions in normal form |
| `Registry.MakeRegistrationAcceptsIff` | constellation-gate/src/constellation_gate/routing/node_registry.py:36-71 | validation accepts if and only if name and actions are not blank, no action is repeated up to case and space, none is the reserved one, and both limits are positive |
| `Registry.NodeRegistry.RegisterNode` | constellation-gate/src/constellation_gate/routing/node_registry.py:129-163 | the registry changes in the entry of the normalized name only, and only when name, overwrite and ownership checks pass; else it is unchanged and the error is reported |
| `Registry.NodeRegistry.ResolveAction` | constellation-gate/src/constellation_gate/routing/node_registry.py:172-206 | returns a healthy advertising node that is least by (active requests, limit, name); the three errors mean blank action, advertised but no healthy node, not advertised |
| `Registry.NodeRegistry.SetHealth` | constellation-gate/src/constellation_gate/routing/node_registry.py:227-234 | changes the health of a known node and nothing else |
| `Registry.NodeRegistry.IncrementActive` | constellation-gate/src/constellation_gate/routing/node_registry.py:236-246 | adds one active request or refuses at the limit |
| `Registry.NodeRegistry.DecrementActive` | constellation-gate/src/constellation_gate/routing/node_registry.py:248-257 | takes one active request away with a floor of zero |
| `Registry.ChosenUnique` | constellation-gate/src/constellation_gate/routing/node_registry.py:172-206 | the least-loaded node is unique, so the answer does not depend on dictionary order |
| `Registry.ChosenIsLeastLoaded` | constellation-gate/src/constellation_gate/routing/node_registry.py:172-206 | no healthy advertiser is less loaded than the chosen one; among equally loaded ones none has a smaller limit; then the lexicographically first name |
| `Registry.RegisteredIffOwned` | constellation-gate/src/constellation_gate/routing/node_registry.py:129-163 | apart from name errors, a registration succeeds if and only if the registry it would produce has one owner per action |
| `Registry.StepKeepsRegistryInv` | constellation-gate/src/constellation_gate/routing/node_registry.py:129-257 | registration, health and counter steps keep: canonical owners, equal known owners for a shared action, well-formed entries |
| `Registry.OwnershipOverRuns` | constellation-gate/src/constellation_gate/routing/node_registry.py:129-257 | the same over every run from a registry that satisfies it |
| `Registry.DeclaredOwnersShareNothing` | constellation-gate/src/constellation_gate/routing/action_ownership.py:95-147 | in a registry with one owner per action, nodes that declare different owners share no action |
| `Registry.GateOwnersNeverMeet` | constellation-gate/src/constellation_gate/routing/action_ownership.py:13-63 | with the program's own tables, over every run from the empty registry: a node that declares "ceg" and one that declares "eie" never hold one action |
| `Registry.FirstRegistrationIff` | constellation-gate/src/constellation_gate/routing/node_registry.py:129-163 | a first registration that declares its owner is accepted if and only if each canonical action it advertises is that owner's |
| `AdminRegistration.AdminRegistrationService.Register` | constellation-gate/src/constellation_gate/services/admin_registration_service.py:24-67 | a wrong token changes nothing; otherwise entries are registered in order up to the first refused one, and a complete request reports every node as healthy and registered |
| `AdminRegistration.RefusedRequestKeepsPrefix` | constellation-gate/src/constellation_gate/services/admin_registration_service.py:33-57 | a refused request is not rolled back: the result is that of the entries before the refused one, and those after it are not tried |
| `AdminRegistration.RequestKeepsOwnership` | constellation-gate/src/constellation_gate/services/admin_registration_service.py:33-57 | complete or cut short, a request leaves one owner per action |
| `AdminRegistration.AcceptedRequestSettles` | constellation-gate/src/constellation_gate/services/admin_registration_service.py:34-48 | after a complete request each named node is what its last entry says, healthy and with counter zero, and every other node is untouched |
| `RoutingReadiness.ListAdvertisers` | constellation-gate/src/constellation_gate/runtime/routing_readiness.py:31-60 | advertising and healthy nodes are listed sorted and without repetition, with the owner of each |
| `RoutingReadiness.ActionRoutability` | constellation-gate/src/constellation_gate/runtime/routing_readiness.py:31-86 | an action is routable if and only if the node that resolution would choose belongs to the required owner; the report lists exactly the advertisers; a problem is stated if and only if it is not routable |
| `RoutingReadiness.Readiness` | constellation-gate/src/constellation_gate/runtime/routing_readiness.py:89-104 | ready if and only if every required action is routable, one report each in order |
| `RoutingReadiness.DeclaredOwnerRoutableIff` | constellation-gate/src/constellation_gate/runtime/routing_readiness.py:60-86 | in any registry: when the chosen node declares an owner, a canonical action is routable if and only if that is its canonical owner |
| `RoutingReadiness.RoutableIffHealthyAdvertiser` | constellation-gate/src/constellation_gate/runtime/routing_readiness.py:31-86 | in every registry the program can reach, the owner check never decides: routable means some healthy node advertises the action |
| `RoutingReadiness.ReadyIffServed` | constellation-gate/src/constellation_gate/runtime/routing_readiness.py:89-104 | ready if and only if each required action has a healthy advertising node |
| `HealthMonitor.HealthMonitor.ProbeOnce` | constellation-gate/src/constellation_gate/routing/health_monitor.py:65-79 | a round over a snapshot, with other tasks' updates between the probes, leaves the registry in the specified state and counts one round |
| `HealthMonitor.TurnAdoptsProbeIff` | constellation-gate/src/constellation_gate/routing/health_monitor.py:65-79 | right after any turn of a round, whatever other tasks did meanwhile, the node is still registered and shows the probe's answer if and only if the answer differs from the snapshot or the registry already agreed; an unhealthy node that answers is healthy |
| `HealthMonitor.RoundResult` | constellation-gate/src/constellation_gate/routing/health_monitor.py:65-79 | a node nobody else touched shows the answer if it was probed so far, and its snapshot health otherwise |
| `HealthMonitor.UndisturbedRoundAdoptsProbe` | constellation-gate/src/constellation_gate/routing/health_monitor.py:65-79 | after a full round in which nothing else changed a node's health, its health is the probe's answer |
| `LoadBalance.SpreadNeverWidens` | constellation-gate/src/constellation_gate/routing/node_registry.py:172-246 | without limiter, resolving and counting never widen the load spread of a fixed replica set beyond max(initial spread, 1) |
| `LoadBalance.TotalCountsAccepted` | constellation-gate/src/constellation_gate/routing/node_registry.py:236-246 | the total load grows by exactly the number of dispatches that were not refused |
| `LoadBalance.EvenShares` | constellation-gate/src/constellation_gate/routing/node_registry.py:172-206 | with a spread of at most 1 and total k every one of R replicas carries floor(k/R) or ceil(k/R) |
| `LoadBalance.IdleRunIsBalanced` | constellation-gate/src/constellation_gate/routing/node_registry.py:172-246 | from idle, after k accepted dispatches without completion each of R replicas carries floor(k/R) or ceil(k/R) |
| `RateLimiter.FixedWindowRateLimiter.DecisionFor` | constellation-gate/src/constellation_gate/resilience/rate_limiter.py:61-71 | the decision and the wait it reports, with no effect |
| `RateLimiter.FixedWindowRateLimiter.Allow` | constellation-gate/src/constellation_gate/resilience/rate_limiter.py:73-84 | admits and counts, or rejects with the wait and no change |
| `RateLimiter.CountersFollowHistory` | constellation-gate/src/constellation_gate/resilience/rate_limiter.py:48-84 | the one (window, count) pair of a key is the number of admissions in the latest window that admitted it; no window admits more than the maximum |
| `RateLimiter.LimiterRefinesHistory` | constellation-gate/src/constellation_gate/resilience/rate_limiter.py:51-84 | with a nondecreasing clock a call is admitted if and only if the whole history shows fewer than the maximum admissions in its window |
| `RateLimiter.IntervalBound` | constellation-gate/src/constellation_gate/resilience/rate_limiter.py:48-84 | any half-open interval of length L admits at most (ceil(L/W) + 1) * maximum per key |
| `RateLimiter.TwiceTheMaximum` | constellation-gate/src/constellation_gate/resilience/rate_limiter.py:48-84 | any stretch as long as a window admits at most twice the maximum |
| `RateLimiter.WaitingIsEnough` | constellation-gate/src/constellation_gate/resilience/rate_limiter.py:57-71 | a caller that waits exactly the reported time is admitted, whatever calls come in between |
| `CircuitBreaker.CircuitBreaker.BeforeCall` | constellation-gate/src/constellation_gate/resilience/circuit_breaker.py:59-68 | admits or rejects, and moves an open breaker to half-open after its recovery time; its assertion holds |
| `CircuitBreaker.CircuitBreaker.RecordSuccess` | constellation-gate/src/constellation_gate/resilience/circuit_breaker.py:70-73 | back to the initial state |
| `CircuitBreaker.CircuitBreaker.RecordFailure` | constellation-gate/src/constellation_gate/resilience/circuit_breaker.py:75-88 | counts the failure and opens at the threshold, or at once from half-open |
| `CircuitBreaker.StateFollowsHistory` | constellation-gate/src/constellation_gate/resilience/circuit_breaker.py:59-88 | mode, failure count and opening time in terms of failures since the last success and the latest failure |
| `CircuitBreaker.ClosedIffBelowThreshold` | constellation-gate/src/constellation_gate/resilience/circuit_breaker.py:59-88 | closed if and only if there is no opening time if and only if the failure count is below the threshold |
| `CircuitBreaker.BreakerRefinesRule` | constellation-gate/src/constellation_gate/resilience/circuit_breaker.py:59-88 | with a nondecreasing clock, rejects if and only if at least threshold failures since the last success and the latest less than the recovery time ago |
| `CircuitBreaker.BackwardClockBreaksRule` | constellation-gate/src/constellation_gate/resilience/circuit_breaker.py:59-68 | the clock hypothesis is needed: for every configuration a call dated back is admitted although the rule rejects it |
| `ReplayGuard.ReplayGuard.CheckAndRecord` | constellation-gate/src/constellation_gate/resilience/replay_guard.py:38-50 | prunes, then rejects an id that is still held or records it |
| `ReplayGuard.ReplayGuard.Expire` | constellation-gate/src/constellation_gate/resilience/replay_guard.py:56-60 | removes exactly the entries older than the window |
| `ReplayGuard.SeenIsLastWindow` | constellation-gate/src/constellation_gate/resilience/replay_guard.py:38-60 | the map holds exactly the acceptances of the last window |
| `ReplayGuard.GuardRefinesRule` | constellation-gate/src/constellation_gate/resilience/replay_guard.py:38-60 | a call is rejected if and only if the same id was accepted at most a window ago, over the whole history |
| `ReplayGuard.AcceptancesFarApart` | constellation-gate/src/constellation_gate/resilience/replay_guard.py:38-60 | two acceptances of one id are more than a window apart over the whole run |
| `ReplayGuard.SeenIsBounded` | constellation-gate/src/constellation_gate/resilience/replay_guard.py:56-63 | the map is as large as the number of acceptances in the last window |
| `DeadLetterQueue.DeadLetterQueue.Put` | constellation-gate/src/constellation_gate/resilience/dead_letter_queue.py:40-56 | the queue holds the last `max_entries` of what it held and the new entry, in order |
| `DeadLetterQueue.PutKeepsLast` | constellation-gate/src/constellation_gate/resilience/dead_letter_queue.py:40-56 | cutting after every put keeps the last entries of the whole history |
| `Idempotency.CacheKeyIdentifies` | constellation-gate/src/constellation_gate/resilience/idempotency.py:34-47 | two packets whose tenants and actions are free of the separator, as the docstring says they are, share a cache key if and only if normalized tenant, action and stripped key agree |
| `Idempotency.UnambiguousKeyIdentifies` | constellation-gate/src/constellation_gate/resilience/idempotency.py:34-47 | a packet with no mark inside its own parts shares its cache key with no packet of another identity, whatever that packet looks like |
| `Idempotency.PacketCollidesIff` | constellation-gate/src/constellation_gate/resilience/idempotency.py:34-47 | for receivable packets, another identity has the same cache key if and only if the packet's own tenant or key splits at the two marks into parts in normal form |
| `Idempotency.SeparatorInTenantCollides` | constellation-gate/src/constellation_gate/resilience/idempotency.py:34-47 | two receivable packets with different tenants, actions and keys and one cache key: the separator is in a tenant |
| `Idempotency.SameKeySameIdentity` | constellation-gate/src/constellation_gate/resilience/idempotency.py:34-47 | when a shared cache key means one identity: both packets separator-free, or the first without marks, or both receivable and the first without a hidden join |
| `Idempotency.IdempotencyStore.Live` | constellation-gate/src/constellation_gate/resilience/idempotency.py:72-80 | returns a value younger than the time to live and deletes an older one |
| `Idempotency.IdempotencyStore.GetForPacket` | constellation-gate/src/constellation_gate/resilience/idempotency.py:91-95 | lookup under the namespaced key; nothing happens without a key |
| `Idempotency.IdempotencyStore.SetForPacket` | constellation-gate/src/constellation_gate/resilience/idempotency.py:97-106 | stores under the namespaced key; says whether it did |
| `Idempotency.ReadDropsStale` | constellation-gate/src/constellation_gate/resilience/idempotency.py:72-80 | after a lookup the entry is there if and only if it answered; other entries are untouched |
| `Idempotency.StoreRefinesLastSet` | constellation-gate/src/constellation_gate/resilience/idempotency.py:50-106 | with a nondecreasing clock the delete-on-read store answers "last set wins until its time to live" |
| `ExecuteService.TerminalSuccessIff` | constellation-gate/src/constellation_gate/services/execute_service.py:48-60 | an answer counts as a success if and only if it is not a failure packet and its latest response hop, if any, did not fail |
| `ExecuteService.ExecuteService.Submit` | constellation-gate/src/constellation_gate/services/execute_service.py:121-172 | from ingress to the first await: guards in order, cache lookup, replay check, with the state each of them leaves behind |
| `ExecuteService.ExecuteService.Succeed` | constellation-gate/src/constellation_gate/services/execute_service.py:200-210 | breaker reset, terminal successes cached, request no longer in flight |
| `ExecuteService.ExecuteService.Fail` | constellation-gate/src/constellation_gate/services/execute_service.py:195-198 | breaker failure recorded, dead letter put, request no longer in flight |
| `ExecuteService.ExecuteService.Cancel` | constellation-gate/src/constellation_gate/services/execute_service.py:247-250 | only the in-flight count changes |
| `ExecuteService.RunFollowsLog` | constellation-gate/src/constellation_gate/services/execute_service.py:121-250 | after every concurrent run each guard is a replay of its part of the log, and `_in_flight_requests` is the number of running requests, at most `max_in_flight` |
| `ExecuteService.JudgeIsRule` | constellation-gate/src/constellation_gate/services/execute_service.py:138-172 | the decision of the five guards together equals a rule that reads the log only |
| `ExecuteService.EveryVerdictIsRule` | constellation-gate/src/constellation_gate/services/execute_service.py:138-172 | in every concurrent run every request's fate is what that rule says about the log before it |
| `ExecuteService.CachedAnswerIsRecentSuccess` | constellation-gate/src/constellation_gate/services/execute_service.py:147-210 | a cached answer is the latest terminal success under the same key, stored less than the time to live ago; it is of the requester's own identity when the requester's own packet hides no mark, or when both packets are separator-free |
| `ExecuteService.CachedAnswerReportsNoFailure` | constellation-gate/src/constellation_gate/services/execute_service.py:202-210 | in every run: no cached answer is a failure packet or has a failed latest response hop |
| `ExecuteService.FailuresAreNotServed` | constellation-gate/src/constellation_gate/services/execute_service.py:202-210 | while all fresh answers under a key report failures, a request with that key is not answered from the cache |
| `ExecuteService.SuccessIsServed` | constellation-gate/src/constellation_gate/services/execute_service.py:147-210 | an answer that is no failure packet and has no failed latest response hop serves every later lookup under its key inside the time to live |
| `ExecuteService.FreshSuccessPreventsExecution` | constellation-gate/src/constellation_gate/services/execute_service.py:147-210 | while a terminal success is younger than the time to live, no request with its key that reaches the lookup executes: it gets a cached answer |
| `ExecuteService.ExecutionsFarApart` | constellation-gate/src/constellation_gate/services/execute_service.py:158-164 | two executions of packets with one id start more than a replay window apart, in every concurrent run |
| `ExecuteService.BreakerFailuresAreDeadLetters` | constellation-gate/src/constellation_gate/services/execute_service.py:195-198 | breaker failures and dead-letter puts are equal in number over every log |
| `ExecuteService.AdmittedAreAccountedFor` | constellation-gate/src/constellation_gate/services/execute_service.py:138-250 | conservation: admitted = cached + replay-rejected + succeeded + failed + cancelled + in flight; the dead-letter list is the last min(failed, max_entries) failures in order |
| `ExecuteService.DeadLettersAreLatestFailures` | constellation-gate/src/constellation_gate/resilience/dead_letter_queue.py:40-56 | the dead-letter list is the end of the list of all failures, and shorter only when full |
| `PacketBudget.WorkerBudgetIsLargest` | constellation-gate/src/constellation_gate/routing/dispatch.py:219-249 | the worker gets the most whole milliseconds that fit both the node cap and the deadline; an error if and only if not even one fits |
| `PacketBudget.GateBudgetBounds` | constellation-gate/src/constellation_gate/resilience/timeout_policy.py:24-32 | on the packet's own fields: the margin is kept in full if and only if what was asked is more than twice the margin, else not at all; Gate keeps more than half and at least 1 ms |
| `PacketBudget.ExpiresAtEnd` | constellation-gate/src/constellation_gate/resilience/deadline.py:49-57 | a deadline expires exactly at start plus total, and until then what remains is the time to there |
| `PacketBudget.WorkerGetsWhatFits` | constellation-gate/src/constellation_gate/routing/dispatch.py:219-249 | for every packet and clock reading: a worker timeout is granted if and only if it fits the node cap and ends early enough to leave the margin, written out on plain fields |
| `PacketBudget.NoDeadlineWholeCap` | constellation-gate/src/constellation_gate/routing/dispatch.py:219-249 | without a deadline the worker gets the node's whole cap |
| `PacketBudget.WorkerTimeoutWithinPacket` | constellation-gate/src/constellation_gate/routing/dispatch.py:219-249 | reading plus worker timeout stays within start plus Gate budget, and within the advertised budget less the margin whenever the margin applies |
| `RetryPolicy.AttemptBudget` | constellation-gate/src/constellation_gate/services/execute_service.py:252-275 | exactly min(3, ceiling) attempts for a declared action with a key and exactly one for any other, delays as configured; one with the program's own set of declared actions |
| `RetryPolicy.TryOnce` | constellation-gate/src/constellation_gate/resilience/retry_policy.py:76-94 | one pass of the loop: return, re-raise, or sleep and go on |
| `RetryPolicy.Run` | constellation-gate/src/constellation_gate/resilience/retry_policy.py:67-96 | the loop computes the specified run; the raise after it is dead code |
| `RetryPolicy.RunOnSchedule` | constellation-gate/src/constellation_gate/resilience/retry_policy.py:67-96 | every attempt but the last is retried and the last is not: a retry happens if and only if the error is retryable, an attempt is left and the deadline is later than the planned and the actual wake-up; it starts exactly after call and sleep |
| `RetryPolicy.DelaysGrow` | constellation-gate/src/constellation_gate/resilience/retry_policy.py:56-65 | the first delay is the configured one and each further one the multiplier times the one before |
| `RetryPolicy.RetriesFitDeadline` | constellation-gate/src/constellation_gate/resilience/retry_policy.py:67-96 | under a deadline: at most the permitted attempts, none after the first starts once it expired, sleeps sum to less than what remained |
| `RetryPolicy.RunIsBounded` | constellation-gate/src/constellation_gate/resilience/retry_policy.py:67-96 | from the start of the deadline: at most `max_attempts` calls and less than the whole deadline asleep |
| `RetryPolicy.RunReportsLastAttempt` | constellation-gate/src/constellation_gate/resilience/retry_policy.py:56-96 | the outcome is the last attempt's own, all earlier ones raised retryable errors, and without a deadline a retryable error is reported only after the last permitted attempt |
| `WorkflowEngine.WorkflowEngine.Execute` | constellation-gate/src/constellation_gate/orchestration/workflow_engine.py:73-147 | the loop, with its early exits, computes the recursive specification: result, dispatches in order, end time |
| `WorkflowEngine.WorkflowIsFold` | constellation-gate/src/constellation_gate/orchestration/workflow_engine.py:92-147 | a successful result is the fold of the merge strategies over exactly the steps whose condition held on the payload so far, independent of clock, nodes and deadline |
| `WorkflowEngine.FinalValueByKey` | constellation-gate/src/constellation_gate/orchestration/workflow_engine.py:188-209 | over a whole successful run with any mixture of strategies, each key has the value of the last dispatch that settles it, or the request's when none does |
| `WorkflowEngine.MergePayloadResult` | constellation-gate/src/constellation_gate/orchestration/workflow_engine.py:188-209 | with `merge_payload` throughout, the last answer that has a key gives its value, and the request's stays when none has it |
| `WorkflowEngine.IdentityResult` | constellation-gate/src/constellation_gate/orchestration/workflow_engine.py:188-209 | when the last executed step is `identity` the result is exactly its answer |
| `WorkflowEngine.RunFollowsSteps` | constellation-gate/src/constellation_gate/orchestration/workflow_engine.py:92-147 | the whole trace of every run, success or error: which steps are skipped, what is sent with which payload, header and budget and when, that answers are the worker's own, and why the run ends |
| `WorkflowEngine.ConditionMeans` | constellation-gate/src/constellation_gate/orchestration/workflow_engine.py:170-186 | a step without a condition runs; a condition is the truth of its expression, with boolean operands, over payload, last answer, action and accumulated payload |
| `WorkflowEngine.DispatchesInOrder` | constellation-gate/src/constellation_gate/orchestration/workflow_engine.py:92-147 | steps are dispatched in order, each at most once, at most as many as there are steps |
| `WorkflowEngine.WorkflowChainsPayloads` | constellation-gate/src/constellation_gate/orchestration/workflow_engine.py:92-147 | the first dispatch sends the request payload, each later one the merge of the previous payload and answer, and so is the final result |
| `WorkflowEngine.KeysSurvive` | constellation-gate/src/constellation_gate/orchestration/workflow_engine.py:188-209 | if no executed step is `identity` every key of the request payload survives |
| `WorkflowEngine.StepsWithinPacket` | constellation-gate/src/constellation_gate/orchestration/workflow_engine.py:92-147 | every worker timeout of a workflow of any length lies inside the window of the one packet |
| `WorkflowEngine.DeadlineGrantsWithin` | constellation-gate/src/constellation_gate/routing/dispatch.py:219-249 | every budget decision under the packet's deadline lies inside its window |
| `WorkflowEngine.StepTimeoutClamped` | constellation-gate/src/constellation_gate/orchestration/workflow_engine.py:149-168 | the header timeout is at most what was declared and what remains (rounded up to 1 ms); an error if and only if the deadline expired |
| `WorkflowEngine.StepTimeoutIsLargest` | constellation-gate/src/constellation_gate/orchestration/workflow_engine.py:149-168 | the header timeout is the largest within what was declared and what remains, one millisecond being always allowed |
| `WorkflowEngine.GrantIsLargest` | constellation-gate/src/constellation_gate/routing/dispatch.py:219-249 | header and worker timeout of a step are the largest that fit, and a step is refused only when no millisecond is left |
| `WorkflowEngine.GrantWithoutDeadline` | constellation-gate/src/constellation_gate/orchestration/workflow_engine.py:149-168 | without a deadline: the declared timeout, or the packet's, and the node's whole cap |
| `PacketExecution.PacketDrawsOneBudget` | constellation-gate/src/constellation_gate/services/execute_service.py:173-194 | retries around workflow steps: every step is sent at most once per attempt, so at most min(3, ceiling) times, and once for undeclared actions; every worker timeout of every attempt lies within the one packet budget |
| `PacketExecution.PacketAnswersWithLastAttempt` | constellation-gate/src/constellation_gate/services/execute_service.py:173-194 | the outcome of a packet is that of its last attempt, and all earlier attempts ended in a retryable error |
| `PacketExecution.WorkflowAttemptFollows` | constellation-gate/src/constellation_gate/services/execute_service.py:176-182 | each attempt at a workflow starts at the first step with the request's payload and timeout |
| `PacketExecution.DirectAttemptMeans` | constellation-gate/src/constellation_gate/services/execute_service.py:176-182 | each attempt at a direct dispatch sends the request's payload with the largest timeout that fits and returns the worker's own answer |
| `ConditionEval.SafeConditionEvaluator.EvalCompare` | constellation-gate/src/constellation_gate/orchestration/condition_eval.py:79-88 | the comparison loop, which keeps evaluating comparators after a false link, computes the recursive specification |
| `ConditionEval.SafeConditionEvaluator.EvalDict` | constellation-gate/src/constellation_gate/orchestration/condition_eval.py:108-114 | the dictionary loop computes the recursive specification, value before key |
| `ConditionEval.SafeConditionEvaluator.EvalNode` | constellation-gate/src/constellation_gate/orchestration/condition_eval.py:54-116 | the evaluator that walks every kind of node and evaluates each child through itself computes the recursive specification |
| `ConditionEval.SafeConditionEvaluator.EvalOperands` | constellation-gate/src/constellation_gate/orchestration/condition_eval.py:69-72 | operands and elements are evaluated in order up to the first one that raises |
| `ConditionEval.ValueAgrees` | constellation-gate/src/constellation_gate/orchestration/condition_eval.py:54-116 | where `and`/`or` stand on boolean-valued operands, success of the eager evaluator means the short-circuit value |
| `ConditionEval.TruthAgrees` | constellation-gate/src/constellation_gate/orchestration/condition_eval.py:54-116 | where `and`/`or` stand in truth positions only, success of the eager evaluator means short-circuit evaluation succeeds with the same truth |
| `ConditionEval.EagerSucceedsIff` | constellation-gate/src/constellation_gate/orchestration/condition_eval.py:54-116 | in truth positions the evaluator returns a value if and only if every construct is supported and short-circuit evaluation succeeds on every subexpression; the truth is then the same |
| `ConditionEval.EagerMeansCoerced` | constellation-gate/src/constellation_gate/orchestration/condition_eval.py:54-116 | for every expression, wherever `and` and `or` stand: the evaluator computes the short-circuit value of the expression whose operands are turned into booleans, and has a value if and only if every part of that expression has one |
| `ConditionEval.SomeOperandDecides` | constellation-gate/src/constellation_gate/orchestration/condition_eval.py:66-73 | whenever the eager evaluator returns a value, some operand decides the short-circuit result |
| `ConditionEval.BoolInValuePositionIff` | constellation-gate/src/constellation_gate/orchestration/condition_eval.py:66-73 | where a value is used the two agree if and only if the value of the operand that decides is a boolean |
| `ConditionEval.OperandValueLost` | constellation-gate/src/constellation_gate/orchestration/condition_eval.py:66-73 | a concrete expression with the opposite answer outside truth positions |
| `ConditionEval.GuardIdiomRaises` | constellation-gate/src/constellation_gate/orchestration/condition_eval.py:66-73 | the converse fails: `x and x[k]` answers under short-circuit evaluation and raises here |
| `ConditionEval.EvalDependsOnNames` | constellation-gate/src/constellation_gate/orchestration/condition_eval.py:54-116 | the outcome, errors included, depends only on the names that occur in the expression |
| `ConditionEval.SuccessKnowsAllNames` | constellation-gate/src/constellation_gate/orchestration/condition_eval.py:58-61 | success means every name of the expression is in the context, even in branches that decide nothing |
| `StepNames.NormalizeWorkflowSteps` | constellation-gate/src/constellation_gate/api/dependencies.py:246-269 | each raw step, dictionary or not, becomes its normalized form at the same position |
| `StepNames.NormalizationIdempotent` | constellation-gate/src/constellation_gate/api/dependencies.py:246-269 | normalizing twice is normalizing once |
| `StepNames.FieldsAfter` | constellation-gate/src/constellation_gate/api/dependencies.py:258-268 | `payload_transform` moves to `merge_strategy` unless that is given, names that are there stay, and all other keys are kept |
| `StepNames.DecimalReadsBack` | constellation-gate/src/constellation_gate/api/dependencies.py:266-267 | the index is written as a numeral that reads back as the number and has no leading zero |
| `StepNames.LastDashSplits` | constellation-gate/src/constellation_gate/api/dependencies.py:266-267 | a synthesized name determines action and index, whatever dashes and digits the action has |
| `StepNames.SynthesizedNamesDiffer` | constellation-gate/src/constellation_gate/api/dependencies.py:266-267 | synthesized names of different positions differ |
| `StepNames.NameAfter` | constellation-gate/src/constellation_gate/api/dependencies.py:266-267 | normalization names exactly the dictionaries without a name and with a string action, and leaves every name that is there |
| `StepNames.UniqueIffExplicitNamesAre` | constellation-gate/src/constellation_gate/orchestration/workflow_models.py:70-78 | on the normalized list the uniqueness check fails if and only if a name somebody wrote equals another name of that list |
| `StepNames.UnnamedStepsAccepted` | constellation-gate/src/constellation_gate/orchestration/workflow_models.py:70-78 | the normalized list of unnamed steps with string actions has a name everywhere and passes the uniqueness check |
| `Redact.SecretsFrom` | constellation-gate/tests/e2e/docker/scripts/redact.py:42-58 | exactly the secrets of the lines, never an empty one |
| `Redact.SecretsOfLine` | constellation-gate/tests/e2e/docker/scripts/redact.py:44-57 | the secret of a line `key=value` is the value without surrounding space, then single, then double quotes; for the key map its non-empty string values, or the whole value when it cannot be read; nothing for other keys |
| `Redact.RedactText` | constellation-gate/tests/e2e/docker/scripts/redact.py:61-65 | replaces every secret, longest first; for secrets that do not overlap the placeholder the result holds none; a clean body is unchanged |
| `Redact.ReplaceAt` | constellation-gate/tests/e2e/docker/scripts/redact.py:64 | one replacement keeps the text before the first occurrence and goes on behind it |
| `Redact.RedactionLeavesNoSecret` | constellation-gate/tests/e2e/docker/scripts/redact.py:61-65 | for every body, every set of secrets that do not overlap the placeholder and every order, no secret occurs anywhere in the result |
| `Redact.CleanBodyUnchanged` | constellation-gate/tests/e2e/docker/scripts/redact.py:61-65 | a body without secrets comes back unchanged |
| `Redact.RedactionIdempotent` | constellation-gate/tests/e2e/docker/scripts/redact.py:61-65 | redacting the result again, in any order, changes nothing |
| `Redact.CleansEveryBodyIff` | constellation-gate/tests/e2e/docker/scripts/redact.py:61-65 | for any nonempty secret every body is cleaned if and only if secret and placeholder do not overlap: neither holds the other and neither ends with a beginning of the other |
| `Redact.StarFreeSetCleansIff` | constellation-gate/tests/e2e/docker/scripts/redact.py:61-65 | for sets of star-free secrets every body is cleaned if and only if none of them occurs in the placeholder |
| `Redact.EdgeStarLeaks` | constellation-gate/tests/e2e/docker/scripts/redact.py:61-65 | every secret with a star at either end survives in some body |
| `Redact.OutsideEdgesOverlapIff` | constellation-gate/tests/e2e/docker/scripts/redact.py:61-65 | a secret whose two end characters are not in the placeholder overlaps it only by holding it, so a star inside does no harm |
| `Redact.SecretReplacedWhole` | constellation-gate/tests/e2e/docker/scripts/redact.py:61-65 | longest first: a secret that contains others is replaced whole, nothing of it stays beside the placeholder |
| `Redact.ShortestFirstLeavesFragment` | constellation-gate/tests/e2e/docker/scripts/redact.py:61-65 | the other order leaves a fragment of the longer secret |
| `Redact.ModeScan` | constellation-gate/tests/e2e/docker/scripts/redact.py:80-98 | lists every leaking file once and in order; status 1 if and only if there is one |
| `Redact.LeakNamesMeans` | constellation-gate/tests/e2e/docker/scripts/redact.py:83-93 | a path is listed if and only if a readable file there, other than the scan's own report, holds a secret |
| `Redact.RedactedBundlePasses` | constellation-gate/tests/e2e/docker/scripts/redact.py:61-98 | a bundle whose readable files all went through redaction passes the scan |
| `Text.StripMeans` | constellation-gate/src/constellation_gate/routing/node_registry.py:36-42 | stripping removes white space at both ends, all of it and nothing else |
| `Text.SameNormalIff` | constellation-gate/src/constellation_gate/routing/node_registry.py:36-42 | two names have one normal form if and only if their stripped texts differ in the case of ASCII letters only |
| `Text.LeqStrIff` | constellation-gate/src/constellation_gate/routing/node_registry.py:172-206 | the name order is lexicographic by code point |

## Left out

- Unicode: `Text.Lower` maps ASCII letters only; the white space that `strip` removes is complete.
- Floating-point rounding and clocks that go back: time is exact. The several clock readings inside one atomic step of
  `ExecuteService` are one reading, and the replay guard's wall clock is that same clock.
- `NodeRegistry.load_from_yaml`: it replaces all nodes without ownership checks; in the model nodes never vanish.
- `asyncio.wait_for` around the whole execution: its timeout appears as a failure, not as a cut in the middle of a workflow.
- Dispatch to an explicit destination: the dispatch machine lets a call begin on any healthy node, which covers both
  ways of resolution.
- Registration fields that no decision reads: url, priority class and health endpoint, with their validators.
- Request schema: it validates most fields of all entries before `register` runs, so most `Invalid` errors of the model's
  registration loop cannot occur there after a prefix was registered.
- Packets: derivation, hops, signing and hashing are absent, and dumping and validating a cached answer is the identity.
- Which of several colliding nodes an ownership error names, and the texts of all error messages.
- JSON parsing, the host's operators on values and the workers' answers: parameters of the model.
- `FixedWindowRateLimiter.clear`, `CircuitBreaker.run`, `DeadLetterQueue.latest`, `PriorityPacketQueue`: easy or unused.
- Two concurrent requests with one key may both execute: the program has no such check and the model allows it.
- A step's declared timeout reaches only the header of the step packet; the worker budget does not read it, nor does the model.
- HTTP routes, clients, settings, logging, metrics, tracing and deployment scripts other than the redactor: I/O.
