/** Routing readiness: `runtime/routing_readiness.py`. */
module RoutingReadiness {
  import opened Wrappers
  import Registry
  import Text
  import opened ActionOwnership

  datatype Problem =
    | Unresolved(error: Registry.ResolveError)
    | NoHealthyOwner(action: string)
    | WrongOwner(action: string, node: string)

  datatype Report = Report(
    action: string,
    routable: bool,
    requiredOwner: Option<string>,
    resolvedNode: Option<string>,
    advertising: seq<string>,
    healthyAdvertising: seq<string>,
    owners: map<string, Option<string>>,
    problem: Option<Problem>)

  predicate Ascending(s: seq<string>) {
    forall i, j :: 0 <= i < j < |s| ==> Text.LeqStr(s[i], s[j]) && s[i] != s[j]
  }

  lemma {:induction false} LeastName(names: set<string>) returns (n: string)
    requires names != {}
    ensures n in names && forall m :: m in names ==> Text.LeqStr(n, m)
    decreases |names|
  {
    n :| n in names;
    Text.LeqStrTotal(n, n);
    if names != {n} {
      var k := LeastName(names - {n});
      Text.LeqStrTotal(n, k);
      if Text.LeqStr(n, k) {
        forall m | m in names - {n} ensures Text.LeqStr(n, m) { Text.LeqStrTransitive(n, k, m); }
      } else {
        n := k;
      }
    }
  }

  /** `sorted` on the keys of the snapshot. */
  method SortedNames(nodes: Registry.Nodes) returns (names: seq<string>)
    ensures Ascending(names) && forall n :: n in names <==> n in nodes
  {
    names := [];
    var rest := nodes.Keys;
    while rest != {}
      invariant rest <= nodes.Keys && forall n :: n in names <==> n in nodes.Keys - rest
      invariant Ascending(names) && forall i, m :: 0 <= i < |names| && m in rest ==> Text.LeqStr(names[i], m)
      decreases |rest|
    {
      ghost var least := LeastName(rest);
      var n :| n in rest && forall m :: m in rest ==> Text.LeqStr(n, m);
      assert n !in names;
      names := names + [n];
      rest := rest - {n};
    }
  }

  /** A correctly owned node is what resolution would return for the action. */
  ghost predicate ResolvesToOwner(p: Policy, nodes: Registry.Nodes, action: string) {
    exists n :: Registry.Chosen(nodes, action, n)
             && OwnedBy(p, p.RequiredOwnerForAction(action), Registry.OwnerOf(p, n, nodes[n]))
  }

  method ListAdvertisers(p: Policy, nodes: Registry.Nodes, a: string)
    returns (advertising: seq<string>, healthyAdvertising: seq<string>, owners: map<string, Option<string>>)
    ensures Ascending(advertising) && Ascending(healthyAdvertising)
    ensures forall n :: n in advertising <==> Registry.Known(nodes, a, n)
    ensures forall n :: n in healthyAdvertising <==> Registry.Candidate(nodes, a, n)
    ensures forall n :: n in owners <==> Registry.Known(nodes, a, n)
    ensures forall n :: n in owners ==> n in nodes && owners[n] == Registry.OwnerOf(p, n, nodes[n])
  {
    var names := SortedNames(nodes);
    advertising, healthyAdvertising, owners := [], [], map[];
    for i := 0 to |names|
      invariant Ascending(advertising) && Ascending(healthyAdvertising)
      invariant forall n :: n in advertising <==> n in names[..i] && Registry.Known(nodes, a, n)
      invariant forall n :: n in healthyAdvertising <==> n in names[..i] && Registry.Candidate(nodes, a, n)
      invariant forall n :: n in owners <==> n in advertising
      invariant forall n :: n in owners ==> n in nodes && owners[n] == Registry.OwnerOf(p, n, nodes[n])
    {
      var n := names[i];
      assert names[..i + 1] == names[..i] + [n];
      PrefixBefore(names, i);
      if a in nodes[n].supportedActions {
        AscendingSnoc(advertising, n);
        advertising := advertising + [n];
        owners := owners[n := Registry.OwnerOf(p, n, nodes[n])];
        if nodes[n].healthy {
          AscendingSnoc(healthyAdvertising, n);
          healthyAdvertising := healthyAdvertising + [n];
        }
      }
    }
    assert names[..|names|] == names;
  }

  lemma PrefixBefore(names: seq<string>, i: nat)
    requires Ascending(names) && i < |names|
    ensures forall m :: m in names[..i] ==> Text.LeqStr(m, names[i]) && m != names[i]
  {
  }

  lemma AscendingSnoc(names: seq<string>, n: string)
    requires Ascending(names) && forall m :: m in names ==> Text.LeqStr(m, n) && m != n
    ensures Ascending(names + [n])
  {
  }

  predicate OwnedBy(p: Policy, required: Option<string>, owner: Option<string>) {
    required.Some? ==> p.NormalizeOwner(owner, true) == required
  }

  ghost predicate Routable(p: Policy, nodes: Registry.Nodes, action: string) {
    var a := Text.Normalize(action); a != "" && ResolvesToOwner(p, nodes, a)
  }

  /** The verdict of a report is right, and it names a problem exactly when the action is not routable. */
  ghost predicate Reports(p: Policy, nodes: Registry.Nodes, action: string, r: Report) {
    r.action == Text.Normalize(action) && (r.routable <==> Routable(p, nodes, action)) && (r.routable <==> r.problem.None?)
  }

  method ActionRoutability(registry: Registry.NodeRegistry, action: string) returns (r: Report)
    requires Registry.NamesAreKeys(registry.nodes)
    ensures var a, nodes, p := Text.Normalize(action), registry.nodes, registry.policy;
            && Reports(p, nodes, action, r) && r.requiredOwner == p.RequiredOwnerForAction(a)
            && (forall n :: n in r.advertising <==> Registry.Known(nodes, a, n))
            && (forall n :: n in r.healthyAdvertising <==> Registry.Candidate(nodes, a, n))
            && (forall n :: n in r.owners <==> Registry.Known(nodes, a, n))
            && (forall n :: n in r.owners ==> n in nodes && r.owners[n] == Registry.OwnerOf(p, n, nodes[n]))
            && (r.resolvedNode.Some? ==> Registry.Chosen(nodes, a, r.resolvedNode.value))
    ensures Ascending(r.advertising) && Ascending(r.healthyAdvertising)
    ensures r.resolvedNode.None? ==>
              match r.problem
              case Some(NoHealthyOwner(b)) => b == r.action && r.requiredOwner.Some?
              case Some(Unresolved(_)) => r.requiredOwner.None?
              case _ => false
    ensures r.resolvedNode.Some? && !r.routable ==> r.problem == Some(WrongOwner(r.action, r.resolvedNode.value))
  {
    var a, nodes, p := Text.Normalize(action), registry.nodes, registry.policy;
    Text.NormalizeIdempotent(action);
    var requiredOwner := p.RequiredOwnerForAction(a);
    var advertising, healthyAdvertising, owners := ListAdvertisers(p, nodes, a);
    var resolved := registry.ResolveAction(a);
    if resolved.Failure? {
      assert a != "" ==> forall n :: !Registry.Candidate(nodes, a, n);
      var problem := if requiredOwner.Some? then NoHealthyOwner(a) else Unresolved(resolved.error);
      return Report(a, false, requiredOwner, None, advertising, healthyAdvertising, owners, Some(problem));
    }
    var node := resolved.value.nodeName;
    assert Registry.Chosen(nodes, a, node);
    forall n | Registry.Chosen(nodes, a, n) ensures n == node {
      Registry.ChosenUnique(nodes, a, n, node);
    }
    var ownerOk := OwnedBy(p, requiredOwner, owners[node]);
    r := Report(a, ownerOk, requiredOwner, Some(node), advertising, healthyAdvertising, owners,
                if ownerOk then None else Some(WrongOwner(a, node)));
  }

  /**
   * In any registry, invariant or not: when the node that resolution chooses declares an owner, a canonical action is
   * routable exactly when that owner is the canonical one.
   */
  lemma DeclaredOwnerRoutableIff(p: Policy, nodes: Registry.Nodes, action: string, n: string, owner: string)
    requires Registry.NamesAreKeys(nodes) && Registry.Chosen(nodes, action, n) && Declares(p, nodes[n].metadata, owner)
    requires Text.Normalize(action) == action && action in p.owners
    ensures ResolvesToOwner(p, nodes, action) <==> p.owners[action] == owner
  {
    DeclaredOwnerWins(p, n, nodes[n].metadata, owner);
    KeyIsNormal(nodes[n].metadata["owner"]);
    assert p.NormalizeOwner(Some(owner), true) == Some(owner);
    forall m | Registry.Chosen(nodes, action, m) ensures m == n { Registry.ChosenUnique(nodes, action, n, m); }
  }

  ghost predicate Served(nodes: Registry.Nodes, action: string) {
    exists n :: Registry.Candidate(nodes, action, n)
  }

  /** In every registry the gate can reach, readiness of an action is just "some healthy node advertises it". */
  lemma RoutableIffHealthyAdvertiser(p: Policy, nodes: Registry.Nodes, action: string)
    requires Registry.RegistryInv(p, nodes) && Closed(p.aliases) && Text.Normalize(action) == action
    ensures ResolvesToOwner(p, nodes, action) <==> Served(nodes, action)
  {
    if Served(nodes, action) {
      var candidates := set n | n in nodes && Registry.Candidate(nodes, action, n);
      var some :| Registry.Candidate(nodes, action, some);
      assert some in candidates;
      var n := ChosenAmong(nodes, candidates);
      assert Registry.Chosen(nodes, action, n);
      OwnerOfAdvertiser(p, nodes, action, n);
    }
  }

  lemma OwnerOfAdvertiser(p: Policy, nodes: Registry.Nodes, action: string, n: string)
    requires Registry.RegistryInv(p, nodes) && Closed(p.aliases) && Registry.Known(nodes, action, n)
    ensures action in p.owners ==> p.NormalizeOwner(Registry.OwnerOf(p, n, nodes[n]), true) == Some(p.owners[action])
  {
    assert Registry.HoldsCanonicalOwner(p, n, nodes[n]);
    var metadata := nodes[n].metadata;
    if "owner" in metadata && Text.Strip(metadata["owner"]) != "" {
      NormalizeOwnerIdempotent(p, Some(metadata["owner"]), true);
    } else {
      NormalizeOwnerIdempotent(p, Some(n), false);
    }
  }

  lemma {:induction false} ChosenAmong(nodes: Registry.Nodes, candidates: set<string>) returns (n: string)
    requires candidates <= nodes.Keys && candidates != {}
    ensures n in candidates && forall m :: m in candidates ==> Registry.KeyLeq(nodes[n], nodes[m])
    decreases |candidates|
  {
    n :| n in candidates;
    Registry.KeyLeqOrder(nodes[n], nodes[n], nodes[n]);
    if candidates != {n} {
      var k := ChosenAmong(nodes, candidates - {n});
      Registry.KeyLeqOrder(nodes[n], nodes[k], nodes[k]);
      if Registry.KeyLeq(nodes[n], nodes[k]) {
        forall m | m in candidates ensures Registry.KeyLeq(nodes[n], nodes[m]) {
          Registry.KeyLeqOrder(nodes[n], nodes[k], nodes[m]);
        }
      } else {
        n := k;
      }
    }
  }

  lemma BlankNeverServed(p: Policy, nodes: Registry.Nodes)
    requires Registry.RegistryInv(p, nodes)
    ensures !Served(nodes, "")
  {
    forall n | n in nodes ensures !Registry.Candidate(nodes, "", n) {
      assert Registry.WellFormed(nodes[n]);
    }
  }

  lemma ReportMeaning(p: Policy, nodes: Registry.Nodes, action: string)
    requires Registry.RegistryInv(p, nodes) && Closed(p.aliases)
    ensures Routable(p, nodes, action) <==> Served(nodes, Text.Normalize(action))
  {
    Text.NormalizeIdempotent(action);
    RoutableIffHealthyAdvertiser(p, nodes, Text.Normalize(action));
    BlankNeverServed(p, nodes);
  }

  /** `routing_readiness` on any registry: ready when no report blocks. */
  method Readiness(registry: Registry.NodeRegistry, requiredActions: seq<string>) returns (ready: bool, reports: seq<Report>)
    requires Registry.NamesAreKeys(registry.nodes)
    ensures |reports| == |requiredActions|
    ensures forall i :: 0 <= i < |reports| ==> Reports(registry.policy, registry.nodes, requiredActions[i], reports[i])
    ensures ready <==> forall i :: 0 <= i < |requiredActions| ==> Routable(registry.policy, registry.nodes, requiredActions[i])
    ensures ready <==> forall i :: 0 <= i < |reports| ==> reports[i].problem.None?
  {
    ready, reports := true, [];
    for i := 0 to |requiredActions|
      invariant |reports| == i && ReportedSoFar(registry.policy, registry.nodes, requiredActions, reports, ready)
    {
      var report := ActionRoutability(registry, requiredActions[i]);
      ReportedNext(registry.policy, registry.nodes, requiredActions, reports, ready, report);
      reports, ready := reports + [report], ready && report.routable;
    }
    AllRoutable(registry.policy, registry.nodes, requiredActions, reports, ready);
  }

  /** The reports so far are right, and `ready` says whether they are all positive. */
  ghost predicate ReportedSoFar(p: Policy, nodes: Registry.Nodes, actions: seq<string>, reports: seq<Report>, ready: bool) {
    && |reports| <= |actions| && (ready <==> forall i :: 0 <= i < |reports| ==> reports[i].routable)
    && forall i :: 0 <= i < |reports| ==> Reports(p, nodes, actions[i], reports[i])
  }

  lemma ReportedNext(p: Policy, nodes: Registry.Nodes, actions: seq<string>, reports: seq<Report>, ready: bool, report: Report)
    requires ReportedSoFar(p, nodes, actions, reports, ready) && |reports| < |actions|
    requires Reports(p, nodes, actions[|reports|], report)
    ensures ReportedSoFar(p, nodes, actions, reports + [report], ready && report.routable)
  {
    var all := reports + [report];
    assert all[|reports|] == report && forall i :: 0 <= i < |reports| ==> all[i] == reports[i];
  }

  lemma AllRoutable(p: Policy, nodes: Registry.Nodes, actions: seq<string>, reports: seq<Report>, ready: bool)
    requires ReportedSoFar(p, nodes, actions, reports, ready) && |reports| == |actions|
    ensures forall i :: 0 <= i < |reports| ==> Reports(p, nodes, actions[i], reports[i])
    ensures ready <==> forall i :: 0 <= i < |actions| ==> Routable(p, nodes, actions[i])
    ensures ready <==> forall i :: 0 <= i < |reports| ==> reports[i].problem.None?
  {
    forall i | 0 <= i < |reports|
      ensures (reports[i].routable <==> Routable(p, nodes, actions[i])) && (reports[i].routable <==> reports[i].problem.None?)
    {
      assert Reports(p, nodes, actions[i], reports[i]);
    }
  }

  /** In a registry with one owner per action, ready means that every required action has a healthy advertising node. */
  lemma ReadyIffServed(p: Policy, nodes: Registry.Nodes, requiredActions: seq<string>)
    requires Registry.RegistryInv(p, nodes) && Closed(p.aliases)
    ensures (forall i :: 0 <= i < |requiredActions| ==> Routable(p, nodes, requiredActions[i]))
            <==> forall i :: 0 <= i < |requiredActions| ==> Served(nodes, Text.Normalize(requiredActions[i]))
  {
    forall i | 0 <= i < |requiredActions|
      ensures Routable(p, nodes, requiredActions[i]) <==> Served(nodes, Text.Normalize(requiredActions[i]))
    {
      ReportMeaning(p, nodes, requiredActions[i]);
    }
  }
}
