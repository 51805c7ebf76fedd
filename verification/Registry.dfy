/** The node registry: `routing/node_registry.py`. */
module Registry {
  import opened Wrappers
  import opened ActionOwnership
  import Text

  const ADMISSION_ACTION := "gate.admission"

  datatype Registration = Registration(
    nodeName: string,
    supportedActions: seq<string>,
    maxConcurrent: int,
    timeoutMs: int,
    metadata: map<string, string>,
    healthy: bool,
    activeRequests: int)

  type Nodes = map<string, Registration>

  datatype RegistryError =
    | EmptyName
    | AlreadyRegistered(node: string)
    | Ownership(error: OwnershipError)
    | UnknownNode(node: string)
    | LimitReached(node: string)

  datatype ResolveError = EmptyAction | NoHealthyNode(action: string) | NoRoute(action: string)

  // ---------- validation of one registration ----------

  datatype ValidationError = BlankNodeName | NoActions | DuplicateActions | ReservedAction | BadLimit | BadTimeout

  function NormalActions(raw: seq<string>): seq<string> {
    if raw == [] then []
    else (if Text.Strip(raw[0]) == "" then [] else [Text.Normalize(raw[0])]) + NormalActions(raw[1..])
  }

  predicate NoDuplicates(s: seq<string>) {
    forall i, j :: 0 <= i < j < |s| ==> s[i] != s[j]
  }

  /** The field validators of `NodeRegistration` for a freshly registered node. */
  function MakeRegistration(name: string, actions: seq<string>, maxConcurrent: int, timeoutMs: int, metadata: map<string, string>)
    : Result<Registration, ValidationError>
  {
    var normal := NormalActions(actions);
    if Text.Normalize(name) == "" then Failure(BlankNodeName)
    else if normal == [] then Failure(NoActions)
    else if !NoDuplicates(normal) then Failure(DuplicateActions)
    else if ADMISSION_ACTION in normal then Failure(ReservedAction)
    else if maxConcurrent < 1 then Failure(BadLimit)
    else if timeoutMs < 1 then Failure(BadTimeout)
    else Success(Registration(Text.Normalize(name), normal, maxConcurrent, timeoutMs, metadata, true, 0))
  }

  predicate NormalAction(a: string) {
    a != "" && Text.Normalize(a) == a
  }

  predicate WellFormed(reg: Registration) {
    && reg.supportedActions != []
    && (forall a :: a in reg.supportedActions ==> NormalAction(a) && a != ADMISSION_ACTION)
    && NoDuplicates(reg.supportedActions)
    && reg.maxConcurrent >= 1 && reg.timeoutMs >= 1 && reg.activeRequests >= 0
  }

  /** The action was given, in any case and with any surrounding space, and is not blank. */
  predicate Given(raw: seq<string>, a: string) {
    exists i :: 0 <= i < |raw| && Text.Strip(raw[i]) != "" && Text.Normalize(raw[i]) == a
  }

  lemma {:induction false} NormalActionsNormal(raw: seq<string>)
    ensures forall a :: a in NormalActions(raw) ==> NormalAction(a)
  {
    if raw != [] {
      NormalActionsNormal(raw[1..]);
      Text.NormalizeIdempotent(raw[0]);
    }
  }

  lemma {:induction false} NormalActionsAreGiven(raw: seq<string>, a: string)
    ensures a in NormalActions(raw) <==> Given(raw, a)
  {
    if raw != [] {
      NormalActionsAreGiven(raw[1..], a);
      assert Given(raw[1..], a) ==> Given(raw, a) by {
        if i :| 0 <= i < |raw| - 1 && Text.Strip(raw[1..][i]) != "" && Text.Normalize(raw[1..][i]) == a {
          assert raw[1..][i] == raw[i + 1];
        }
      }
      if i :| 0 < i < |raw| && Text.Strip(raw[i]) != "" && Text.Normalize(raw[i]) == a {
        assert raw[1..][i - 1] == raw[i];
      }
    }
  }

  /** Validation yields only well-formed, idle, healthy registrations, with the fields and exactly the actions that were given. */
  lemma MakeRegistrationWellFormed(name: string, actions: seq<string>, maxConcurrent: int, timeoutMs: int, metadata: map<string, string>)
    ensures var r := MakeRegistration(name, actions, maxConcurrent, timeoutMs, metadata);
            r.Success? ==> WellFormed(r.value) && r.value.healthy && r.value.activeRequests == 0
                           && r.value.nodeName == Text.Normalize(name) && r.value.metadata == metadata
                           && r.value.maxConcurrent == maxConcurrent && r.value.timeoutMs == timeoutMs
                           && forall a :: a in r.value.supportedActions <==> Given(actions, a)
  {
    NormalActionsNormal(actions);
    forall a ensures a in NormalActions(actions) <==> Given(actions, a) { NormalActionsAreGiven(actions, a); }
  }

  /** Two of the given actions that are not blank are the same action. */
  predicate Repeats(actions: seq<string>, i: int, j: int) {
    0 <= i < j < |actions| && Text.Strip(actions[i]) != "" && Text.Normalize(actions[i]) == Text.Normalize(actions[j])
  }

  lemma NormalizeBlankIff(s: string)
    ensures Text.Strip(s) == "" <==> Text.Normalize(s) == ""
  {
  }

  ghost predicate HasRepeat(actions: seq<string>) {
    exists i, j :: Repeats(actions, i, j)
  }

  lemma RepeatsFurtherOn(actions: seq<string>)
    requires actions != []
    ensures HasRepeat(actions) <==> HasRepeat(actions[1..]) || exists j :: Repeats(actions, 0, j)
  {
    if i, j :| Repeats(actions[1..], i, j) { assert Repeats(actions, i + 1, j + 1); }
    if i, j :| Repeats(actions, i, j) {
      if i > 0 { assert Repeats(actions[1..], i - 1, j - 1); }
    }
  }

  lemma RepeatsFirst(actions: seq<string>)
    requires actions != []
    ensures (exists j :: Repeats(actions, 0, j)) <==> Text.Strip(actions[0]) != "" && Given(actions[1..], Text.Normalize(actions[0]))
  {
    var rest := actions[1..];
    NormalizeBlankIff(actions[0]);
    if j :| Repeats(actions, 0, j) {
      NormalizeBlankIff(actions[j]);
      assert rest[j - 1] == actions[j];
    }
    if Text.Strip(actions[0]) != "" && Given(rest, Text.Normalize(actions[0])) {
      var j :| 0 <= j < |rest| && Text.Strip(rest[j]) != "" && Text.Normalize(rest[j]) == Text.Normalize(actions[0]);
      assert actions[j + 1] == rest[j] && Repeats(actions, 0, j + 1);
    }
  }

  lemma {:induction false} NoDuplicatesIff(actions: seq<string>)
    ensures NoDuplicates(NormalActions(actions)) <==> !HasRepeat(actions)
  {
    if actions != [] {
      NoDuplicatesIff(actions[1..]);
      RepeatsFurtherOn(actions);
      RepeatsFirst(actions);
      if Text.Strip(actions[0]) != "" {
        ConsDistinct(Text.Normalize(actions[0]), NormalActions(actions[1..]));
        NormalActionsAreGiven(actions[1..], Text.Normalize(actions[0]));
      } else {
        assert NormalActions(actions) == NormalActions(actions[1..]);
      }
    }
  }

  lemma ConsDistinct(a: string, rest: seq<string>)
    ensures NoDuplicates([a] + rest) <==> a !in rest && NoDuplicates(rest)
  {
    var all := [a] + rest;
    assert forall i :: 0 <= i < |rest| ==> all[i + 1] == rest[i];
    if NoDuplicates(all) {
      forall i, j | 0 <= i < j < |rest| ensures rest[i] != rest[j] { assert all[i + 1] != all[j + 1]; }
      forall i | 0 <= i < |rest| ensures rest[i] != a { assert all[0] != all[i + 1]; }
    }
  }

  /** Validation accepts exactly a name and some actions, none repeated and none reserved, with positive limits. */
  lemma MakeRegistrationAcceptsIff(name: string, actions: seq<string>, maxConcurrent: int, timeoutMs: int, metadata: map<string, string>)
    ensures MakeRegistration(name, actions, maxConcurrent, timeoutMs, metadata).Success?
            <==> && Text.Strip(name) != "" && (exists a :: Given(actions, a)) && !HasRepeat(actions)
                 && !Given(actions, ADMISSION_ACTION) && maxConcurrent >= 1 && timeoutMs >= 1
  {
    NormalizeBlankIff(name);
    NoDuplicatesIff(actions);
    forall a ensures a in NormalActions(actions) <==> Given(actions, a) { NormalActionsAreGiven(actions, a); }
    if NormalActions(actions) != [] { assert Given(actions, NormalActions(actions)[0]); }
  }

  // ---------- the updates of the registry, as functions of its contents ----------

  function OwnerOf(p: Policy, node: string, reg: Registration): Option<string> {
    p.OwnerForRegistration(node, reg.metadata)
  }

  function Advertisers(p: Policy, nodes: Nodes): map<string, Advertiser> {
    map n | n in nodes :: Advertiser(nodes[n].supportedActions, OwnerOf(p, n, nodes[n]))
  }

  function Registered(p: Policy, nodes: Nodes, name: string, reg: Registration, overwrite: bool): Result<Nodes, RegistryError> {
    var n := Text.Normalize(name);
    if n == "" then Failure(EmptyName)
    else if n in nodes && !overwrite then Failure(AlreadyRegistered(n))
    else
      var existing := Advertisers(p, if overwrite then nodes - {n} else nodes);
      var check := p.AssertRegistrationOwnership(n, reg.supportedActions, reg.metadata, existing);
      if check.Fail? then Failure(Ownership(check.error))
      else Success(nodes[n := reg.(nodeName := n)])
  }

  /** A registration changes at most the entry under its own normal name. */
  lemma RegisteredChangesOne(p: Policy, nodes: Nodes, name: string, reg: Registration, overwrite: bool)
    ensures var n := Text.Normalize(name);
            var r := Registered(p, nodes, name, reg, overwrite);
            r.Success? ==> n != "" && (n in nodes ==> overwrite) && r.value == nodes[n := reg.(nodeName := n)]
  {
  }

  function HealthSet(nodes: Nodes, name: string, healthy: bool): Result<Nodes, RegistryError> {
    var n := Text.Normalize(name);
    if n !in nodes then Failure(UnknownNode(n)) else Success(nodes[n := nodes[n].(healthy := healthy)])
  }

  function Incremented(nodes: Nodes, name: string): Result<Nodes, RegistryError> {
    var n := Text.Normalize(name);
    if n !in nodes then Failure(UnknownNode(n))
    else if nodes[n].activeRequests >= nodes[n].maxConcurrent then Failure(LimitReached(n))
    else Success(nodes[n := nodes[n].(activeRequests := nodes[n].activeRequests + 1)])
  }

  function Decremented(nodes: Nodes, name: string): Result<Nodes, RegistryError> {
    var n := Text.Normalize(name);
    if n !in nodes then Failure(UnknownNode(n))
    else
      var fewer := nodes[n].activeRequests - 1;
      Success(nodes[n := nodes[n].(activeRequests := if fewer > 0 then fewer else 0)])
  }

  function After(before: Nodes, r: Result<Nodes, RegistryError>): Nodes {
    if r.Success? then r.value else before
  }

  predicate Agrees(outcome: Outcome<RegistryError>, r: Result<Nodes, RegistryError>) {
    outcome == if r.Success? then Pass else Fail(r.error)
  }

  // ---------- resolution ----------

  predicate Known(nodes: Nodes, action: string, n: string) {
    n in nodes && action in nodes[n].supportedActions
  }

  predicate Candidate(nodes: Nodes, action: string, n: string) {
    Known(nodes, action, n) && nodes[n].healthy
  }

  /** The sort key: active requests, then the limit, then the name. */
  predicate KeyLeq(x: Registration, y: Registration) {
    || x.activeRequests < y.activeRequests
    || (x.activeRequests == y.activeRequests
        && (x.maxConcurrent < y.maxConcurrent
            || (x.maxConcurrent == y.maxConcurrent && Text.LeqStr(x.nodeName, y.nodeName))))
  }

  ghost predicate Chosen(nodes: Nodes, action: string, n: string) {
    Candidate(nodes, action, n) && forall m :: Candidate(nodes, action, m) ==> KeyLeq(nodes[n], nodes[m])
  }

  /** What the choice means: no candidate is less loaded; among equally loaded ones none has a smaller limit; then the first by name. */
  lemma ChosenIsLeastLoaded(nodes: Nodes, action: string, n: string, m: string)
    requires NamesAreKeys(nodes) && Chosen(nodes, action, n)
    requires m in nodes && action in nodes[m].supportedActions && nodes[m].healthy
    ensures n in nodes && action in nodes[n].supportedActions && nodes[n].healthy
    ensures nodes[n].activeRequests <= nodes[m].activeRequests
    ensures nodes[n].activeRequests == nodes[m].activeRequests ==> nodes[n].maxConcurrent <= nodes[m].maxConcurrent
    ensures nodes[n].activeRequests == nodes[m].activeRequests && nodes[n].maxConcurrent == nodes[m].maxConcurrent
            ==> Text.Precedes(n, m) || n == m
  {
    assert Candidate(nodes, action, m) && KeyLeq(nodes[n], nodes[m]);
    Text.LeqStrIff(n, m);
  }

  predicate NamesAreKeys(nodes: Nodes) {
    forall n :: n in nodes ==> nodes[n].nodeName == n && Text.Normalize(n) == n && n != ""
  }

  lemma KeyLeqOrder(x: Registration, y: Registration, z: Registration)
    ensures KeyLeq(x, y) || KeyLeq(y, x)
    ensures KeyLeq(x, y) && KeyLeq(y, z) ==> KeyLeq(x, z)
    ensures KeyLeq(x, y) && KeyLeq(y, x) ==> x.nodeName == y.nodeName
  {
    Text.LeqStrTotal(x.nodeName, y.nodeName);
    if Text.LeqStr(x.nodeName, y.nodeName) && Text.LeqStr(y.nodeName, z.nodeName) {
      Text.LeqStrTransitive(x.nodeName, y.nodeName, z.nodeName);
    }
  }

  /** The least-loaded choice is unique, so resolution does not depend on dictionary order. */
  lemma ChosenUnique(nodes: Nodes, action: string, n: string, m: string)
    requires NamesAreKeys(nodes) && Chosen(nodes, action, n) && Chosen(nodes, action, m)
    ensures n == m
  {
    KeyLeqOrder(nodes[n], nodes[m], nodes[n]);
  }

  class NodeRegistry {
    const policy: Policy
    var nodes: Nodes

    constructor (policy: Policy)
      ensures nodes == map[] && this.policy == policy
    {
      this.policy := policy;
      nodes := map[];
    }

    method RegisterNode(name: string, registration: Registration, overwrite: bool) returns (outcome: Outcome<RegistryError>)
      modifies this
      ensures nodes == After(old(nodes), Registered(policy, old(nodes), name, registration, overwrite))
      ensures Agrees(outcome, Registered(policy, old(nodes), name, registration, overwrite))
    {
      var normalizedName := Text.Normalize(name);
      if normalizedName == "" { return Fail(EmptyName); }
      if normalizedName in nodes && !overwrite { return Fail(AlreadyRegistered(normalizedName)); }
      var existing := Advertisers(policy, if overwrite then nodes - {normalizedName} else nodes);
      var check := policy.AssertRegistrationOwnership(normalizedName, registration.supportedActions, registration.metadata, existing);
      if check.Fail? { return Fail(Ownership(check.error)); }
      nodes := nodes[normalizedName := registration.(nodeName := normalizedName)];
      return Pass;
    }

    /** `resolve_action`: an unknown action and an action without a healthy node are different errors. */
    method ResolveAction(action: string) returns (r: Result<Registration, ResolveError>)
      ensures var a := Text.Normalize(action);
              match r
              case Success(reg) => a != "" && exists n :: Chosen(nodes, a, n) && nodes[n] == reg
              case Failure(EmptyAction) => a == ""
              case Failure(NoHealthyNode(b)) =>
                a != "" && a == b && (exists n :: Known(nodes, a, n)) && forall n :: !Candidate(nodes, a, n)
              case Failure(NoRoute(b)) => a != "" && a == b && forall n :: !Known(nodes, a, n)
    {
      var a := Text.Normalize(action);
      if a == "" { return Failure(EmptyAction); }
      var known := set n | n in nodes && a in nodes[n].supportedActions;
      var candidates := set n | n in known && nodes[n].healthy;
      if candidates == {} {
        if known != {} {
          var n :| n in known;
          assert Known(nodes, a, n);
          assert forall m :: Candidate(nodes, a, m) ==> m in candidates;
          return Failure(NoHealthyNode(a));
        }
        assert forall m :: Known(nodes, a, m) ==> m in known;
        return Failure(NoRoute(a));
      }
      var best :| best in candidates;
      var rest := candidates - {best};
      KeyLeqOrder(nodes[best], nodes[best], nodes[best]);
      while rest != {}
        invariant best in candidates && rest <= candidates
        invariant forall m :: m in candidates - rest ==> KeyLeq(nodes[best], nodes[m])
        decreases |rest|
      {
        var m :| m in rest;
        ghost var before := best;
        KeyLeqOrder(nodes[best], nodes[m], nodes[m]);
        if !KeyLeq(nodes[best], nodes[m]) { best := m; }
        forall k | k in candidates - (rest - {m}) ensures KeyLeq(nodes[best], nodes[k]) {
          KeyLeqOrder(nodes[best], nodes[before], nodes[k]);
          KeyLeqOrder(nodes[m], nodes[m], nodes[m]);
        }
        rest := rest - {m};
      }
      assert forall m :: Candidate(nodes, a, m) ==> m in candidates;
      assert Chosen(nodes, a, best);
      return Success(nodes[best]);
    }

    method SetHealth(nodeName: string, healthy: bool) returns (outcome: Outcome<RegistryError>)
      modifies this
      ensures nodes == After(old(nodes), HealthSet(old(nodes), nodeName, healthy))
      ensures Agrees(outcome, HealthSet(old(nodes), nodeName, healthy))
    {
      var n := Text.Normalize(nodeName);
      if n !in nodes { return Fail(UnknownNode(n)); }
      nodes := nodes[n := nodes[n].(healthy := healthy)];
      return Pass;
    }

    method IncrementActive(nodeName: string) returns (outcome: Outcome<RegistryError>)
      modifies this
      ensures nodes == After(old(nodes), Incremented(old(nodes), nodeName))
      ensures Agrees(outcome, Incremented(old(nodes), nodeName))
    {
      var n := Text.Normalize(nodeName);
      if n !in nodes { return Fail(UnknownNode(n)); }
      if nodes[n].activeRequests >= nodes[n].maxConcurrent { return Fail(LimitReached(n)); }
      nodes := nodes[n := nodes[n].(activeRequests := nodes[n].activeRequests + 1)];
      return Pass;
    }

    method DecrementActive(nodeName: string) returns (outcome: Outcome<RegistryError>)
      modifies this
      ensures nodes == After(old(nodes), Decremented(old(nodes), nodeName))
      ensures Agrees(outcome, Decremented(old(nodes), nodeName))
    {
      var n := Text.Normalize(nodeName);
      if n !in nodes { return Fail(UnknownNode(n)); }
      var fewer := nodes[n].activeRequests - 1;
      nodes := nodes[n := nodes[n].(activeRequests := if fewer > 0 then fewer else 0)];
      return Pass;
    }
  }

  // ---------- what every reachable registry satisfies ----------

  predicate HoldsCanonicalOwner(p: Policy, n: string, reg: Registration) {
    forall a :: a in reg.supportedActions && a in p.owners ==> OwnerOf(p, n, reg) == Some(p.owners[a])
  }

  ghost predicate SameOwner(p: Policy, n: string, x: Registration, m: string, y: Registration) {
    (exists a :: a in x.supportedActions && a in y.supportedActions)
    ==> OwnerOf(p, n, x).None? || OwnerOf(p, m, y).None? || OwnerOf(p, n, x) == OwnerOf(p, m, y)
  }

  /** One semantic owner per action: the property the ownership lock exists for. */
  ghost predicate Owned(p: Policy, nodes: Nodes) {
    && (forall n :: n in nodes ==> HoldsCanonicalOwner(p, n, nodes[n]))
    && (forall n, m :: n in nodes && m in nodes ==> SameOwner(p, n, nodes[n], m, nodes[m]))
  }

  ghost predicate RegistryInv(p: Policy, nodes: Nodes) {
    NamesAreKeys(nodes) && (forall n :: n in nodes ==> WellFormed(nodes[n])) && Owned(p, nodes)
  }

  lemma OwnedAfterInsert(p: Policy, nodes: Nodes, n: string, reg: Registration)
    requires Owned(p, nodes)
    ensures Owned(p, nodes[n := reg])
            <==> HoldsCanonicalOwner(p, n, reg) && forall m :: m in nodes && m != n ==> SameOwner(p, n, reg, m, nodes[m])
  {
    var after := nodes[n := reg];
    assert after[n] == reg;
    if Owned(p, after) {
      forall m | m in nodes && m != n ensures SameOwner(p, n, reg, m, nodes[m]) {
        assert m in after && SameOwner(p, n, after[n], m, after[m]);
      }
    }
    if forall m :: m in nodes && m != n ==> SameOwner(p, n, reg, m, nodes[m]) {
      forall x, y | x in after && y in after ensures SameOwner(p, x, after[x], y, after[y]) {
        SameOwnerSymmetric(p, x, after[x], y, after[y]);
        if x != n && y != n {
          assert SameOwner(p, x, nodes[x], y, nodes[y]);
        }
      }
    }
  }

  lemma SameOwnerSymmetric(p: Policy, x: string, rx: Registration, y: string, ry: Registration)
    ensures SameOwner(p, x, rx, y, ry) <==> SameOwner(p, y, ry, x, rx)
    ensures x == y && rx == ry ==> SameOwner(p, x, rx, y, ry)
  {
  }

  lemma PermittedIffOwner(p: Policy, nodes: Nodes, others: map<string, Advertiser>, n: string, reg: Registration)
    requires others == Advertisers(p, nodes - {n}) && WellFormed(reg)
    ensures (forall a :: a in reg.supportedActions ==> Permitted(p, a, OwnerOf(p, n, reg), others))
            <==> HoldsCanonicalOwner(p, n, reg) && forall m :: m in nodes && m != n ==> SameOwner(p, n, reg, m, nodes[m])
  {
    var claimant := OwnerOf(p, n, reg);
    assert forall m :: m in others <==> m in nodes && m != n;
    assert forall a :: a in reg.supportedActions ==> Text.Normalize(a) == a by {
      assert forall a :: a in reg.supportedActions ==> NormalAction(a);
    }
    if forall a :: a in reg.supportedActions ==> Permitted(p, a, claimant, others) {
      forall m | m in nodes && m != n ensures SameOwner(p, n, reg, m, nodes[m]) {
        assert m in others;
      }
    }
    if forall m :: m in nodes && m != n ==> SameOwner(p, n, reg, m, nodes[m]) {
      forall a, m | a in reg.supportedActions && m in others && a in others[m].actions && others[m].owner.Some? && claimant.Some?
        ensures others[m].owner == claimant
      {
        assert SameOwner(p, n, reg, m, nodes[m]);
      }
    }
  }

  lemma RegisteredChecksOthers(p: Policy, nodes: Nodes, name: string, reg: Registration, overwrite: bool)
    requires var n := Text.Normalize(name); n != "" && (n in nodes ==> overwrite)
    ensures var n := Text.Normalize(name);
            Registered(p, nodes, name, reg, overwrite).Success?
            <==> p.CheckActions(reg.supportedActions, OwnerOf(p, n, reg), Advertisers(p, nodes - {n})).Pass?
  {
    var n := Text.Normalize(name);
    Text.NormalizeIdempotent(name);
    assert Advertisers(p, if overwrite then nodes - {n} else nodes) - {n} == Advertisers(p, nodes - {n});
  }

  /** Apart from the name errors, a registration succeeds exactly when the registry it produces has one owner per action. */
  lemma RegisteredIffOwned(p: Policy, nodes: Nodes, name: string, reg: Registration, overwrite: bool)
    requires RegistryInv(p, nodes) && WellFormed(reg)
    requires var n := Text.Normalize(name); n != "" && (n in nodes ==> overwrite)
    ensures Registered(p, nodes, name, reg, overwrite).Success?
            <==> Owned(p, nodes[Text.Normalize(name) := reg.(nodeName := Text.Normalize(name))])
  {
    var n := Text.Normalize(name);
    var named := reg.(nodeName := n);
    var others := Advertisers(p, nodes - {n});
    RegisteredChecksOthers(p, nodes, name, reg, overwrite);
    OwnershipAcceptsIff(p, named.supportedActions, OwnerOf(p, n, named), others);
    PermittedIffOwner(p, nodes, others, n, named);
    OwnedAfterInsert(p, nodes, n, named);
  }

  datatype RegistryEvent =
    | Register(name: string, registration: Registration, overwrite: bool)
    | SetHealth(node: string, healthy: bool)
    | Increment(node: string)
    | Decrement(node: string)

  function Effect(p: Policy, nodes: Nodes, e: RegistryEvent): Result<Nodes, RegistryError> {
    match e
    case Register(name, registration, overwrite) => Registered(p, nodes, name, registration, overwrite)
    case SetHealth(node, healthy) => HealthSet(nodes, node, healthy)
    case Increment(node) => Incremented(nodes, node)
    case Decrement(node) => Decremented(nodes, node)
  }

  function Step(p: Policy, nodes: Nodes, e: RegistryEvent): Nodes {
    After(nodes, Effect(p, nodes, e))
  }

  predicate Admissible(e: RegistryEvent) {
    e.Register? ==> WellFormed(e.registration)
  }

  lemma InsertKeepsRegistryInv(p: Policy, nodes: Nodes, n: string, reg: Registration, after: Nodes)
    requires RegistryInv(p, nodes) && WellFormed(reg) && reg.nodeName == n == Text.Normalize(n) != ""
    requires after == nodes[n := reg] && Owned(p, after)
    ensures RegistryInv(p, after)
  {
  }

  lemma RegisterKeepsRegistryInv(p: Policy, nodes: Nodes, name: string, reg: Registration, overwrite: bool)
    requires RegistryInv(p, nodes) && WellFormed(reg)
    ensures RegistryInv(p, After(nodes, Registered(p, nodes, name, reg, overwrite)))
  {
    var r, n := Registered(p, nodes, name, reg, overwrite), Text.Normalize(name);
    Text.NormalizeIdempotent(name);
    RegisteredChangesOne(p, nodes, name, reg, overwrite);
    if r.Success? {
      RegisteredIffOwned(p, nodes, name, reg, overwrite);
      InsertKeepsRegistryInv(p, nodes, n, reg.(nodeName := n), r.value);
    }
  }

  /** Health and counter updates keep names, actions and owners. */
  lemma UpdateKeepsRegistryInv(p: Policy, nodes: Nodes, n: string, reg: Registration, after: Nodes)
    requires RegistryInv(p, nodes) && n in nodes && after == nodes[n := reg] && reg.activeRequests >= 0
    requires reg == nodes[n].(healthy := reg.healthy, activeRequests := reg.activeRequests)
    ensures RegistryInv(p, after)
  {
    OwnedAfterInsert(p, nodes, n, reg);
    assert OwnerOf(p, n, reg) == OwnerOf(p, n, nodes[n]);
    forall m | m in nodes && m != n ensures SameOwner(p, n, reg, m, nodes[m]) {
      assert SameOwner(p, n, nodes[n], m, nodes[m]);
    }
    assert HoldsCanonicalOwner(p, n, nodes[n]);
    InsertKeepsRegistryInv(p, nodes, n, reg, after);
  }

  lemma ActiveNotNegative(p: Policy, nodes: Nodes, n: string)
    requires RegistryInv(p, nodes) && n in nodes
    ensures nodes[n].activeRequests >= 0
  {
  }

  lemma HealthKeepsRegistryInv(p: Policy, nodes: Nodes, node: string, healthy: bool)
    requires RegistryInv(p, nodes)
    ensures RegistryInv(p, After(nodes, HealthSet(nodes, node, healthy)))
  {
    var r, n := HealthSet(nodes, node, healthy), Text.Normalize(node);
    if r.Success? {
      ActiveNotNegative(p, nodes, n);
      UpdateKeepsRegistryInv(p, nodes, n, r.value[n], r.value);
    }
  }

  lemma IncrementKeepsRegistryInv(p: Policy, nodes: Nodes, node: string)
    requires RegistryInv(p, nodes)
    ensures RegistryInv(p, After(nodes, Incremented(nodes, node)))
  {
    var r, n := Incremented(nodes, node), Text.Normalize(node);
    if r.Success? {
      ActiveNotNegative(p, nodes, n);
      UpdateKeepsRegistryInv(p, nodes, n, r.value[n], r.value);
    }
  }

  lemma DecrementKeepsRegistryInv(p: Policy, nodes: Nodes, node: string)
    requires RegistryInv(p, nodes)
    ensures RegistryInv(p, After(nodes, Decremented(nodes, node)))
  {
    var r, n := Decremented(nodes, node), Text.Normalize(node);
    if r.Success? { UpdateKeepsRegistryInv(p, nodes, n, r.value[n], r.value); }
  }

  /** Every registration, accepted or refused, and every health and counter update keeps one owner per action. */
  lemma StepKeepsRegistryInv(p: Policy, nodes: Nodes, e: RegistryEvent)
    requires RegistryInv(p, nodes) && Admissible(e)
    ensures RegistryInv(p, Step(p, nodes, e))
  {
    match e
    case Register(name, registration, overwrite) => RegisterKeepsRegistryInv(p, nodes, name, registration, overwrite);
    case SetHealth(node, healthy) => HealthKeepsRegistryInv(p, nodes, node, healthy);
    case Increment(node) => IncrementKeepsRegistryInv(p, nodes, node);
    case Decrement(node) => DecrementKeepsRegistryInv(p, nodes, node);
  }

  function Run(p: Policy, nodes: Nodes, events: seq<RegistryEvent>): Nodes {
    if events == [] then nodes else Step(p, Run(p, nodes, events[..|events| - 1]), events[|events| - 1])
  }

  /** Over every run from a registry that satisfies it, such as the empty one. */
  lemma {:induction false} OwnershipOverRuns(p: Policy, nodes: Nodes, events: seq<RegistryEvent>)
    requires RegistryInv(p, nodes) && forall i :: 0 <= i < |events| ==> Admissible(events[i])
    ensures RegistryInv(p, Run(p, nodes, events))
  {
    if events != [] {
      OwnershipOverRuns(p, nodes, events[..|events| - 1]);
      StepKeepsRegistryInv(p, Run(p, nodes, events[..|events| - 1]), events[|events| - 1]);
    }
  }

  // ---------- what the ownership lock means for declared owners ----------

  /** In a registry with one owner per action, nodes that declare different owners share no action. */
  lemma DeclaredOwnersShareNothing(p: Policy, nodes: Nodes, n: string, x: string, m: string, y: string)
    requires RegistryInv(p, nodes) && n in nodes && m in nodes && x != y
    requires Declares(p, nodes[n].metadata, x) && Declares(p, nodes[m].metadata, y)
    ensures forall a :: !(a in nodes[n].supportedActions && a in nodes[m].supportedActions)
  {
    DeclaredOwnerWins(p, n, nodes[n].metadata, x);
    DeclaredOwnerWins(p, m, nodes[m].metadata, y);
    assert SameOwner(p, n, nodes[n], m, nodes[m]);
  }

  lemma EmptyRegistryInv(p: Policy)
    ensures RegistryInv(p, map[])
  {
  }

  /** With the program's own tables, from the empty registry on: a node that declares "ceg" and one that declares "eie" never meet. */
  lemma GateOwnersNeverMeet(events: seq<RegistryEvent>, n: string, m: string, a: string)
    requires forall i :: 0 <= i < |events| ==> Admissible(events[i])
    requires var nodes := Run(GATE_POLICY, map[], events);
             && n in nodes && "owner" in nodes[n].metadata && LookupKey(nodes[n].metadata["owner"]) == "ceg"
             && m in nodes && "owner" in nodes[m].metadata && LookupKey(nodes[m].metadata["owner"]) == "eie"
    ensures var nodes := Run(GATE_POLICY, map[], events);
            !(a in nodes[n].supportedActions && a in nodes[m].supportedActions)
  {
    var nodes := Run(GATE_POLICY, map[], events);
    EmptyRegistryInv(GATE_POLICY);
    OwnershipOverRuns(GATE_POLICY, map[], events);
    GateOwnersAreAliases();
    DeclaredOwnersShareNothing(GATE_POLICY, nodes, n, "ceg", m, "eie");
  }

  /** A first registration that declares its owner is accepted if and only if every canonical action it advertises is that owner's. */
  lemma FirstRegistrationIff(p: Policy, name: string, reg: Registration, overwrite: bool, owner: string)
    requires WellFormed(reg) && Text.Normalize(name) != "" && Declares(p, reg.metadata, owner)
    ensures Registered(p, map[], name, reg, overwrite).Success?
            <==> forall a :: a in reg.supportedActions && a in p.owners ==> p.owners[a] == owner
  {
    var n := Text.Normalize(name);
    var named := reg.(nodeName := n);
    EmptyRegistryInv(p);
    RegisteredIffOwned(p, map[], name, reg, overwrite);
    OwnedAfterInsert(p, map[], n, named);
    DeclaredOwnerWins(p, n, reg.metadata, owner);
  }
}
