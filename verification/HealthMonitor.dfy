/** Health probing over a stale snapshot: `routing/health_monitor.py`. */
module HealthMonitor {
  import Registry
  import Text
  import opened ActionOwnership

  /** One node of the round: what other tasks did while its probe was awaited, and the probe's answer. */
  datatype Probe = Probe(node: string, healthy: bool, meanwhile: seq<Registry.RegistryEvent>)

  /** The code after one probe: it compares with the snapshot, not with the registry. */
  function AfterProbe(nodes: Registry.Nodes, snapshot: Registry.Nodes, n: string, healthy: bool): Registry.Nodes
    requires n in snapshot
  {
    if healthy == snapshot[n].healthy then nodes else Registry.After(nodes, Registry.HealthSet(nodes, n, healthy))
  }

  predicate CoversSnapshot(snapshot: Registry.Nodes, probes: seq<Probe>) {
    && (forall i :: 0 <= i < |probes| ==> probes[i].node in snapshot)
    && (forall i, j :: 0 <= i < j < |probes| ==> probes[i].node != probes[j].node)
    && (forall n :: n in snapshot ==> exists i :: 0 <= i < |probes| && probes[i].node == n)
  }

  function Round(p: Policy, snapshot: Registry.Nodes, probes: seq<Probe>): Registry.Nodes
    requires forall i :: 0 <= i < |probes| ==> probes[i].node in snapshot
  {
    if probes == [] then snapshot else
      var last := probes[|probes| - 1];
      AfterProbe(Registry.Run(p, Round(p, snapshot, probes[..|probes| - 1]), last.meanwhile), snapshot, last.node, last.healthy)
  }

  class HealthMonitor {
    const registry: Registry.NodeRegistry
    var probeRounds: nat

    constructor (registry: Registry.NodeRegistry)
      ensures this.registry == registry && probeRounds == 0
    {
      this.registry, probeRounds := registry, 0;
    }

    /** What other tasks do to the registry while this one is suspended. */
    method Interfere(events: seq<Registry.RegistryEvent>)
      modifies registry
      ensures registry.nodes == Registry.Run(registry.policy, old(registry.nodes), events)
    {
      var i := 0;
      while i < |events|
        invariant 0 <= i <= |events|
        invariant registry.nodes == Registry.Run(registry.policy, old(registry.nodes), events[..i])
      {
        assert events[..i + 1][..i] == events[..i];
        match events[i] {
          case Register(name, registration, overwrite) =>
            var _ := registry.RegisterNode(name, registration, overwrite);
          case SetHealth(node, healthy) => var _ := registry.SetHealth(node, healthy);
          case Increment(node) => var _ := registry.IncrementActive(node);
          case Decrement(node) => var _ := registry.DecrementActive(node);
        }
        i := i + 1;
      }
      assert events[..i] == events;
    }

    method ProbeOnce(probes: seq<Probe>)
      requires CoversSnapshot(registry.nodes, probes)
      modifies this`probeRounds, registry
      ensures registry.nodes == Round(registry.policy, old(registry.nodes), probes)
      ensures probeRounds == old(probeRounds) + 1
    {
      var snapshot := registry.nodes;
      var i := 0;
      while i < |probes|
        invariant 0 <= i <= |probes| && probeRounds == old(probeRounds)
        invariant registry.nodes == Round(registry.policy, snapshot, probes[..i])
      {
        assert probes[..i + 1][..i] == probes[..i];
        Interfere(probes[i].meanwhile);
        var node, healthy := probes[i].node, probes[i].healthy;
        if healthy != snapshot[node].healthy {
          var _ := registry.SetHealth(node, healthy);
        }
        i := i + 1;
      }
      assert probes[..i] == probes;
      probeRounds := probeRounds + 1;
    }
  }

  // ---------- what a turn and a round achieve ----------

  /** The registry when a probe's answer arrives. */
  function AtAnswer(p: Policy, snapshot: Registry.Nodes, probes: seq<Probe>, i: nat): Registry.Nodes
    requires i < |probes| && forall j :: 0 <= j < |probes| ==> probes[j].node in snapshot
  {
    Registry.Run(p, Round(p, snapshot, probes[..i]), probes[i].meanwhile)
  }

  lemma {:induction false} RoundKeepsNodes(p: Policy, snapshot: Registry.Nodes, probes: seq<Probe>, n: string)
    requires Registry.NamesAreKeys(snapshot) && n in snapshot && forall i :: 0 <= i < |probes| ==> probes[i].node in snapshot
    ensures n in Round(p, snapshot, probes)
  {
    if probes != [] {
      var k := |probes| - 1;
      RoundKeepsNodes(p, snapshot, probes[..k], n);
      RunFrame(p, Round(p, snapshot, probes[..k]), probes[k].meanwhile, n);
      TurnFrame(Registry.Run(p, Round(p, snapshot, probes[..k]), probes[k].meanwhile), snapshot, probes[k].node, probes[k].healthy, n);
    }
  }

  /**
   * Right after any node's turn in a round, whatever other tasks did meanwhile, the registry shows the probe's answer
   * unless the snapshot already agreed with it and the registry did not.
   */
  lemma TurnAdoptsProbeIff(p: Policy, snapshot: Registry.Nodes, probes: seq<Probe>, i: nat)
    requires Registry.NamesAreKeys(snapshot) && i < |probes| && forall j :: 0 <= j < |probes| ==> probes[j].node in snapshot
    ensures var n, after, before := probes[i].node, Round(p, snapshot, probes[..i + 1]), AtAnswer(p, snapshot, probes, i);
            && n in before && n in after
            && (after[n].healthy == probes[i].healthy
                <==> probes[i].healthy != snapshot[n].healthy || before[n].healthy == probes[i].healthy)
            && (!snapshot[n].healthy && probes[i].healthy ==> after[n].healthy)
  {
    var n := probes[i].node;
    assert probes[..i + 1][..i] == probes[..i];
    RoundKeepsNodes(p, snapshot, probes[..i], n);
    RunFrame(p, Round(p, snapshot, probes[..i]), probes[i].meanwhile, n);
    assert Text.Normalize(n) == n;
  }

  predicate Touches(e: Registry.RegistryEvent, n: string) {
    (e.Register? && Text.Normalize(e.name) == n) || (e.SetHealth? && Text.Normalize(e.node) == n)
  }

  lemma StepFrame(p: Policy, nodes: Registry.Nodes, e: Registry.RegistryEvent, n: string)
    requires n in nodes
    ensures n in Registry.Step(p, nodes, e)
    ensures !Touches(e, n) ==> Registry.Step(p, nodes, e)[n].healthy == nodes[n].healthy
  {
    if e.Register? { Registry.RegisteredChangesOne(p, nodes, e.name, e.registration, e.overwrite); }
  }

  lemma {:induction false} RunFrame(p: Policy, nodes: Registry.Nodes, events: seq<Registry.RegistryEvent>, n: string)
    requires n in nodes
    ensures n in Registry.Run(p, nodes, events)
    ensures (forall i :: 0 <= i < |events| ==> !Touches(events[i], n))
            ==> Registry.Run(p, nodes, events)[n].healthy == nodes[n].healthy
  {
    if events != [] {
      var k := |events| - 1;
      RunFrame(p, nodes, events[..k], n);
      StepFrame(p, Registry.Run(p, nodes, events[..k]), events[k], n);
    }
  }

  predicate Undisturbed(probes: seq<Probe>, n: string) {
    forall i, j :: 0 <= i < |probes| && 0 <= j < |probes[i].meanwhile| ==> !Touches(probes[i].meanwhile[j], n)
  }

  predicate Visited(probes: seq<Probe>, n: string) {
    probes != [] && (probes[|probes| - 1].node == n || Visited(probes[..|probes| - 1], n))
  }

  lemma {:induction false} VisitedAt(probes: seq<Probe>, i: nat)
    requires i < |probes|
    ensures Visited(probes, probes[i].node)
  {
    if i < |probes| - 1 { VisitedAt(probes[..|probes| - 1], i); }
  }

  lemma {:induction false} RoundResult(p: Policy, snapshot: Registry.Nodes, probes: seq<Probe>, n: string, answer: bool)
    requires Registry.NamesAreKeys(snapshot) && n in snapshot && Undisturbed(probes, n)
    requires forall i :: 0 <= i < |probes| ==> probes[i].node in snapshot
    requires forall i :: 0 <= i < |probes| && probes[i].node == n ==> probes[i].healthy == answer
    ensures n in Round(p, snapshot, probes)
    ensures Round(p, snapshot, probes)[n].healthy == if Visited(probes, n) then answer else snapshot[n].healthy
  {
    if probes != [] {
      var k := |probes| - 1;
      RoundResult(p, snapshot, probes[..k], n, answer);
      var before := Round(p, snapshot, probes[..k]);
      RunFrame(p, before, probes[k].meanwhile, n);
      TurnFrame(Registry.Run(p, before, probes[k].meanwhile), snapshot, probes[k].node, probes[k].healthy, n);
    }
  }

  lemma TurnFrame(nodes: Registry.Nodes, snapshot: Registry.Nodes, m: string, healthy: bool, n: string)
    requires Registry.NamesAreKeys(snapshot) && m in snapshot && n in nodes
    ensures n in AfterProbe(nodes, snapshot, m, healthy)
    ensures m != n ==> AfterProbe(nodes, snapshot, m, healthy)[n].healthy == nodes[n].healthy
    ensures m == n && nodes[n].healthy in {healthy, snapshot[n].healthy}
            ==> AfterProbe(nodes, snapshot, m, healthy)[n].healthy == healthy
  {
  }

  /** After a round in which nothing else changed a node's health, the registry shows the probe's answer. */
  lemma UndisturbedRoundAdoptsProbe(p: Policy, snapshot: Registry.Nodes, probes: seq<Probe>, i: nat)
    requires Registry.NamesAreKeys(snapshot) && CoversSnapshot(snapshot, probes) && i < |probes|
    requires Undisturbed(probes, probes[i].node)
    ensures var n, after := probes[i].node, Round(p, snapshot, probes);
            n in after && after[n].healthy == probes[i].healthy
  {
    VisitedAt(probes, i);
    RoundResult(p, snapshot, probes, probes[i].node, probes[i].healthy);
  }
}
