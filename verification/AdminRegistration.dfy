/** Administrative registration of several nodes at once: `services/admin_registration_service.py`. */
module AdminRegistration {
  import opened Wrappers
  import opened Registry
  import opened ActionOwnership
  import Text

  /** One entry of the request; its name is the key under which it appears there. */
  datatype Entry = Entry(name: string, actions: seq<string>, maxConcurrent: int, timeoutMs: int, metadata: map<string, string>)

  datatype Status = Status(nodeName: string, healthy: bool, registered: bool)

  datatype AdminError = Unauthorized | Invalid(invalid: ValidationError) | Refused(refused: RegistryError)

  predicate Authorized(adminToken: Option<string>, presented: Option<string>) {
    adminToken.Some? ==> presented.Some? && Text.Strip(presented.value) == Text.Strip(adminToken.value)
  }

  function Validated(e: Entry): Result<Registration, ValidationError> {
    MakeRegistration(e.name, e.actions, e.maxConcurrent, e.timeoutMs, e.metadata)
  }

  /** What an entry does to the registry on its own. */
  function RegisterEntry(p: Policy, nodes: Nodes, e: Entry, overwrite: bool): Result<Nodes, AdminError> {
    var registration := Validated(e);
    if registration.Failure? then Failure(Invalid(registration.error)) else
      var r := Registered(p, nodes, e.name, registration.value, overwrite);
      if r.Failure? then Failure(Refused(r.error)) else Success(r.value)
  }

  /** How far a request got: the registry, the number of entries registered, and what stopped it. */
  datatype Progress = Progress(nodes: Nodes, done: nat, error: Option<AdminError>)

  type EntryStep = (Nodes, Entry) -> Result<Nodes, AdminError>

  function StepFor(p: Policy, overwrite: bool): EntryStep {
    (nodes, e) => RegisterEntry(p, nodes, e, overwrite)
  }

  /** The entries in order, up to the first one that is refused. */
  function RegisterAll(step: EntryStep, nodes: Nodes, entries: seq<Entry>): Progress {
    if entries == [] then Progress(nodes, 0, None) else
      var before := RegisterAll(step, nodes, entries[..|entries| - 1]);
      if before.error.Some? then before else
        var r := step(before.nodes, entries[|entries| - 1]);
        if r.Success? then Progress(r.value, before.done + 1, None) else before.(error := Some(r.error))
  }

  class AdminRegistrationService {
    const registry: NodeRegistry
    const adminToken: Option<string>

    constructor (registry: NodeRegistry, adminToken: Option<string>)
      ensures this.registry == registry && this.adminToken == adminToken
    {
      this.registry, this.adminToken := registry, adminToken;
    }

    /** One turn of the loop. */
    method RegisterOne(e: Entry, overwrite: bool) returns (outcome: Outcome<AdminError>)
      modifies registry
      ensures var r := StepFor(registry.policy, overwrite)(old(registry.nodes), e);
              match r
              case Success(nodes) => outcome == Pass && registry.nodes == nodes
              case Failure(error) => outcome == Fail(error) && registry.nodes == old(registry.nodes)
    {
      var registration := Validated(e);
      if registration.Failure? { return Fail(Invalid(registration.error)); }
      var refused := registry.RegisterNode(e.name, registration.value, overwrite);
      return if refused.Fail? then Fail(Refused(refused.error)) else Pass;
    }

    method RegisterEntries(entries: seq<Entry>, overwrite: bool) returns (r: Result<seq<Status>, AdminError>)
      modifies registry
      ensures var t := RegisterAll(StepFor(registry.policy, overwrite), old(registry.nodes), entries);
              registry.nodes == t.nodes && match r
                                           case Failure(error) => t.error == Some(error)
                                           case Success(statuses) => t.error == None && AllRegistered(statuses, entries)
    {
      ghost var was, step := registry.nodes, StepFor(registry.policy, overwrite);
      var statuses: seq<Status> := [];
      for k := 0 to |entries|
        invariant Reached(step, was, entries, k, registry.nodes)
        invariant AllRegistered(statuses, entries[..k])
      {
        ReachedNext(step, was, entries, k, registry.nodes);
        var outcome := RegisterOne(entries[k], overwrite);
        if outcome.Fail? { return Failure(outcome.error); }
        AllRegisteredNext(statuses, entries, k);
        statuses := statuses + [StatusOf(entries[k])];
      }
      assert entries[..|entries|] == entries;
      return Success(statuses);
    }

    method Register(entries: seq<Entry>, overwrite: bool, presented: Option<string>) returns (r: Result<seq<Status>, AdminError>)
      modifies registry
      ensures !Authorized(adminToken, presented) ==> r == Failure(Unauthorized) && registry.nodes == old(registry.nodes)
      ensures Authorized(adminToken, presented) ==>
                var t := RegisterAll(StepFor(registry.policy, overwrite), old(registry.nodes), entries);
                registry.nodes == t.nodes && match r
                                             case Failure(error) => t.error == Some(error)
                                             case Success(statuses) => t.error == None && AllRegistered(statuses, entries)
    {
      if adminToken.Some? && (presented.None? || Text.Strip(presented.value) != Text.Strip(adminToken.value)) {
        return Failure(Unauthorized);
      }
      r := RegisterEntries(entries, overwrite);
    }
  }

  function StatusOf(e: Entry): Status {
    Status(Text.Normalize(e.name), true, true)
  }

  lemma AllRegisteredNext(statuses: seq<Status>, entries: seq<Entry>, k: nat)
    requires k < |entries| && AllRegistered(statuses, entries[..k])
    ensures AllRegistered(statuses + [StatusOf(entries[k])], entries[..k + 1])
  {
  }

  predicate AllRegistered(statuses: seq<Status>, entries: seq<Entry>) {
    |statuses| == |entries| && forall i :: 0 <= i < |entries| ==> statuses[i] == StatusOf(entries[i])
  }

  ghost predicate Reached(step: EntryStep, was: Nodes, entries: seq<Entry>, k: nat, nodes: Nodes) {
    k <= |entries| && RegisterAll(step, was, entries[..k]) == Progress(nodes, k, None)
  }

  lemma ReachedNext(step: EntryStep, was: Nodes, entries: seq<Entry>, k: nat, nodes: Nodes)
    requires Reached(step, was, entries, k, nodes) && k < |entries|
    ensures match step(nodes, entries[k])
            case Success(next) => Reached(step, was, entries, k + 1, next)
            case Failure(error) => RegisterAll(step, was, entries) == Progress(nodes, k, Some(error))
  {
    assert entries[..k + 1][..k] == entries[..k];
    if step(nodes, entries[k]).Failure? { StopsAtFirstError(step, was, entries, k + 1); }
  }

  lemma {:induction false} StopsAtFirstError(step: EntryStep, nodes: Nodes, entries: seq<Entry>, k: nat)
    requires k <= |entries| && RegisterAll(step, nodes, entries[..k]).error.Some?
    ensures RegisterAll(step, nodes, entries) == RegisterAll(step, nodes, entries[..k])
    decreases |entries|
  {
    if k < |entries| {
      assert entries[..|entries| - 1][..k] == entries[..k];
      StopsAtFirstError(step, nodes, entries[..|entries| - 1], k);
    } else {
      assert entries[..k] == entries;
    }
  }

  /** A refused request is not rolled back: the entries before the refused one stay registered, those after it are not tried. */
  lemma {:induction false} RefusedRequestKeepsPrefix(step: EntryStep, nodes: Nodes, entries: seq<Entry>)
    ensures var t := RegisterAll(step, nodes, entries);
            && t.done <= |entries| && (t.error.None? <==> t.done == |entries|)
            && RegisterAll(step, nodes, entries[..t.done]) == t.(error := None)
            && (t.error.Some? ==> step(t.nodes, entries[t.done]) == Failure(t.error.value))
    decreases |entries|
  {
    if entries != [] {
      var k, t := |entries| - 1, RegisterAll(step, nodes, entries);
      RefusedRequestKeepsPrefix(step, nodes, entries[..k]);
      if t.error.None? {
        assert entries[..t.done] == entries;
      } else {
        assert entries[..k][..t.done] == entries[..t.done];
      }
    }
  }

  ghost predicate StepKeepsOwnership(p: Policy, step: EntryStep) {
    forall nodes, e :: RegistryInv(p, nodes) ==> var r := step(nodes, e); r.Success? ==> RegistryInv(p, r.value)
  }

  lemma EntryKeepsOwnership(p: Policy, overwrite: bool)
    ensures StepKeepsOwnership(p, StepFor(p, overwrite))
  {
    forall nodes, e | RegistryInv(p, nodes)
      ensures var r := StepFor(p, overwrite)(nodes, e); r.Success? ==> RegistryInv(p, r.value)
    {
      if Validated(e).Success? {
        MakeRegistrationWellFormed(e.name, e.actions, e.maxConcurrent, e.timeoutMs, e.metadata);
        RegisterKeepsRegistryInv(p, nodes, e.name, Validated(e).value, overwrite);
      }
    }
  }

  lemma {:induction false} RequestKeepsOwnershipFrom(p: Policy, step: EntryStep, nodes: Nodes, entries: seq<Entry>)
    requires StepKeepsOwnership(p, step) && RegistryInv(p, nodes)
    ensures RegistryInv(p, RegisterAll(step, nodes, entries).nodes)
  {
    if entries != [] { RequestKeepsOwnershipFrom(p, step, nodes, entries[..|entries| - 1]); }
  }

  /** Accepted or refused half-way, a request leaves one owner per action. */
  lemma RequestKeepsOwnership(p: Policy, nodes: Nodes, entries: seq<Entry>, overwrite: bool)
    requires RegistryInv(p, nodes)
    ensures RegistryInv(p, RegisterAll(StepFor(p, overwrite), nodes, entries).nodes)
  {
    EntryKeepsOwnership(p, overwrite);
    RequestKeepsOwnershipFrom(p, StepFor(p, overwrite), nodes, entries);
  }

  predicate Names(entries: seq<Entry>, n: string, i: nat) {
    i < |entries| && Text.Normalize(entries[i].name) == n
  }

  ghost predicate Unnamed(entries: seq<Entry>, n: string) {
    forall i: nat :: !Names(entries, n, i)
  }

  /** `i` is the last entry that names the node. */
  ghost predicate LastNaming(entries: seq<Entry>, n: string, i: nat) {
    Names(entries, n, i) && forall j: nat :: i < j ==> !Names(entries, n, j)
  }

  /** Turns a request entry into the registration it asks for. */
  type Maker = Entry -> Result<Registration, ValidationError>

  /** What became of one node: the registration of the last entry that names it, or no change. */
  ghost predicate Settled(make: Maker, nodes: Nodes, after: Nodes, entries: seq<Entry>, n: string) {
    && (Unnamed(entries, n) ==> (n in after <==> n in nodes) && (n in nodes ==> after[n] == nodes[n]))
    && forall i: nat :: LastNaming(entries, n, i) ==>
         make(entries[i]).Success? && n in after && after[n] == make(entries[i]).value
  }

  ghost predicate StepSettles(make: Maker, step: EntryStep) {
    forall nodes, e :: var r := step(nodes, e);
      r.Success? ==> make(e).Success? && r.value == nodes[Text.Normalize(e.name) := make(e).value]
  }

  lemma EntrySettles(p: Policy, overwrite: bool)
    ensures StepSettles(Validated, StepFor(p, overwrite))
  {
    forall nodes, e | StepFor(p, overwrite)(nodes, e).Success?
      ensures Validated(e).Success?
              && StepFor(p, overwrite)(nodes, e).value == nodes[Text.Normalize(e.name) := Validated(e).value]
    {
      RegisteredChangesOne(p, nodes, e.name, Validated(e).value, overwrite);
    }
  }

  lemma {:induction false} SettlesFrom(make: Maker, step: EntryStep, nodes: Nodes, entries: seq<Entry>, n: string)
    requires StepSettles(make, step) && RegisterAll(step, nodes, entries).error.None?
    ensures Settled(make, nodes, RegisterAll(step, nodes, entries).nodes, entries, n)
    decreases |entries|
  {
    if entries != [] {
      var k := |entries| - 1;
      var before := RegisterAll(step, nodes, entries[..k]);
      SettlesFrom(make, step, nodes, entries[..k], n);
      assert step(before.nodes, entries[k]).Success?;
      SettledNext(make, nodes, before.nodes, entries, n);
    }
  }

  lemma SettledNext(make: Maker, nodes: Nodes, before: Nodes, entries: seq<Entry>, n: string)
    requires entries != [] && Settled(make, nodes, before, entries[..|entries| - 1], n) && make(entries[|entries| - 1]).Success?
    ensures var e := entries[|entries| - 1];
            Settled(make, nodes, before[Text.Normalize(e.name) := make(e).value], entries, n)
  {
    var k, e := |entries| - 1, entries[|entries| - 1];
    if Text.Normalize(e.name) == n {
      assert Names(entries, n, k);
      forall i: nat | LastNaming(entries, n, i) ensures i == k { }
    } else {
      assert !Names(entries, n, k);
      NamingBefore(entries, n);
    }
  }

  lemma NamingBefore(entries: seq<Entry>, n: string)
    requires entries != [] && !Names(entries, n, |entries| - 1)
    ensures Unnamed(entries, n) ==> Unnamed(entries[..|entries| - 1], n)
    ensures forall i: nat :: LastNaming(entries, n, i) ==> LastNaming(entries[..|entries| - 1], n, i)
  {
    var before := entries[..|entries| - 1];
    forall i: nat ensures Names(before, n, i) <==> Names(entries, n, i) { }
    forall i: nat | LastNaming(entries, n, i) ensures LastNaming(before, n, i) {
      forall j: nat | i < j ensures !Names(before, n, j) { assert !Names(entries, n, j); }
    }
    if Unnamed(entries, n) {
      forall i: nat ensures !Names(before, n, i) { assert !Names(entries, n, i); }
    }
  }

  /** A fully accepted request decides every node it names and touches no other: counters of overwritten nodes restart at zero. */
  lemma AcceptedRequestSettles(p: Policy, nodes: Nodes, entries: seq<Entry>, overwrite: bool, n: string)
    ensures var t := RegisterAll(StepFor(p, overwrite), nodes, entries);
            t.error.None? ==>
              && Settled(Validated, nodes, t.nodes, entries, n)
              && ((exists i: nat :: LastNaming(entries, n, i)) ==> n in t.nodes && t.nodes[n].healthy && t.nodes[n].activeRequests == 0)
  {
    EntrySettles(p, overwrite);
    if RegisterAll(StepFor(p, overwrite), nodes, entries).error.None? {
      SettlesFrom(Validated, StepFor(p, overwrite), nodes, entries, n);
      if i: nat :| LastNaming(entries, n, i) { ValidatedIsIdle(entries[i]); }
    }
  }

  lemma ValidatedIsIdle(e: Entry)
    ensures Validated(e).Success? ==> Validated(e).value.healthy && Validated(e).value.activeRequests == 0
  {
  }
}
