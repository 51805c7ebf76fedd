/** Least-loaded resolution without a limiter, where resolving and counting are one atomic step. */
module LoadBalance {
  import Registry

  /** One unlimited dispatch: the chosen replica is counted, or refused at its own limit. */
  ghost predicate Dispatched(nodes: Registry.Nodes, action: string, n: string, nodes': Registry.Nodes) {
    Registry.Chosen(nodes, action, n) && nodes' == Registry.After(nodes, Registry.Incremented(nodes, n))
  }

  /** `picks[i]` is the replica resolved at step `i`; no call completes and no registration changes. */
  ghost predicate IsRun(action: string, states: seq<Registry.Nodes>, picks: seq<string>) {
    |states| == |picks| + 1 && forall i :: 0 <= i < |picks| ==> Dispatched(states[i], action, picks[i], states[i + 1])
  }

  ghost predicate Replicas(nodes: Registry.Nodes, action: string, replicas: set<string>) {
    Registry.NamesAreKeys(nodes) && forall n :: n in replicas <==> Registry.Candidate(nodes, action, n)
  }

  ghost predicate SpreadAtMost(nodes: Registry.Nodes, replicas: set<string>, d: int)
    requires replicas <= nodes.Keys
  {
    forall x, y :: x in replicas && y in replicas ==> nodes[x].activeRequests - nodes[y].activeRequests <= d
  }

  lemma StepKeepsReplicas(nodes: Registry.Nodes, action: string, replicas: set<string>, n: string, nodes': Registry.Nodes)
    requires Replicas(nodes, action, replicas) && Dispatched(nodes, action, n, nodes')
    ensures Replicas(nodes', action, replicas) && n in replicas && replicas <= nodes.Keys && replicas <= nodes'.Keys
    ensures nodes' == nodes || nodes' == nodes[n := nodes[n].(activeRequests := nodes[n].activeRequests + 1)]
  {
    assert Registry.Candidate(nodes, action, n);
    forall m ensures m in replicas <==> Registry.Candidate(nodes', action, m) {
      assert m in replicas <==> Registry.Candidate(nodes, action, m);
    }
    forall m | m in replicas ensures m in nodes && m in nodes' {
      assert Registry.Candidate(nodes, action, m);
    }
  }

  lemma SpreadKept(nodes: Registry.Nodes, action: string, replicas: set<string>, n: string, nodes': Registry.Nodes, d: int)
    requires Replicas(nodes, action, replicas) && Dispatched(nodes, action, n, nodes') && d >= 1
    requires replicas <= nodes.Keys && replicas <= nodes'.Keys && SpreadAtMost(nodes, replicas, d)
    ensures SpreadAtMost(nodes', replicas, d)
  {
    StepKeepsReplicas(nodes, action, replicas, n, nodes');
    forall y | y in replicas ensures nodes[n].activeRequests <= nodes[y].activeRequests {
      assert Registry.Candidate(nodes, action, y);
    }
  }

  /** Over a whole run, the load spread never exceeds the larger of 1 and what it was at the start. */
  lemma {:induction false} SpreadNeverWidens(action: string, states: seq<Registry.Nodes>, picks: seq<string>, replicas: set<string>, d: int)
    requires IsRun(action, states, picks) && Replicas(states[0], action, replicas) && d >= 1
    requires replicas <= states[0].Keys && SpreadAtMost(states[0], replicas, d)
    ensures Replicas(states[|picks|], action, replicas) && replicas <= states[|picks|].Keys
    ensures SpreadAtMost(states[|picks|], replicas, d)
    decreases |picks|
  {
    if picks != [] {
      var k := |picks| - 1;
      SpreadNeverWidens(action, states[..k + 1], picks[..k], replicas, d);
      StepKeepsReplicas(states[k], action, replicas, picks[k], states[k + 1]);
      SpreadKept(states[k], action, replicas, picks[k], states[k + 1], d);
    }
  }

  // ---------- exact shares from idle ----------

  ghost function Total(nodes: Registry.Nodes, replicas: set<string>): int
    requires replicas <= nodes.Keys
    decreases |replicas|
  {
    if replicas == {} then 0 else
      var n :| n in replicas;
      nodes[n].activeRequests + Total(nodes, replicas - {n})
  }

  lemma {:induction false} TotalWithout(nodes: Registry.Nodes, replicas: set<string>, n: string)
    requires replicas <= nodes.Keys && n in replicas
    ensures Total(nodes, replicas) == nodes[n].activeRequests + Total(nodes, replicas - {n})
    decreases |replicas|
  {
    var m :| m in replicas && Total(nodes, replicas) == nodes[m].activeRequests + Total(nodes, replicas - {m});
    if m != n {
      TotalWithout(nodes, replicas - {m}, n);
      TotalWithout(nodes, replicas - {n}, m);
      assert replicas - {m} - {n} == replicas - {n} - {m};
    }
  }

  lemma {:induction false} TotalSame(nodes: Registry.Nodes, nodes': Registry.Nodes, replicas: set<string>)
    requires replicas <= nodes.Keys && replicas <= nodes'.Keys
    requires forall n :: n in replicas ==> nodes[n].activeRequests == nodes'[n].activeRequests
    ensures Total(nodes, replicas) == Total(nodes', replicas)
    decreases |replicas|
  {
    if replicas != {} {
      var n :| n in replicas;
      TotalWithout(nodes, replicas, n);
      TotalWithout(nodes', replicas, n);
      TotalSame(nodes, nodes', replicas - {n});
    }
  }

  lemma MulSucc(a: int, r: int)
    ensures a * (r + 1) == a * r + a
    ensures (a + 1) * r == a * r + r
  {
  }

  lemma MulLeq(r: int, a: int, b: int)
    requires r >= 0 && a <= b
    ensures r * a <= r * b
  {
  }

  lemma {:induction false} TotalBetween(nodes: Registry.Nodes, replicas: set<string>, r: nat, lo: int, hi: int)
    requires replicas <= nodes.Keys && r == |replicas|
    requires forall n :: n in replicas ==> lo <= nodes[n].activeRequests <= hi
    ensures lo * r <= Total(nodes, replicas) <= hi * r
    decreases r
  {
    if r > 0 {
      var n :| n in replicas;
      TotalWithout(nodes, replicas, n);
      TotalBetween(nodes, replicas - {n}, r - 1, lo, hi);
      MulSucc(lo, r - 1);
      MulSucc(hi, r - 1);
    }
  }

  lemma SmallMultiple(r: int, d: int)
    requires r > 0 && -r < r * d < r
    ensures d == 0
  {
    if d >= 1 { MulLeq(r, 1, d); }
    if d <= -1 { MulLeq(r, d, -1); }
  }

  lemma DivUnique(k: int, r: int, q: int, rest: int)
    requires r > 0 && k == q * r + rest && 0 <= rest < r
    ensures k / r == q && k % r == rest
  {
    var d := k / r - q;
    assert r * d == rest - k % r;
    SmallMultiple(r, d);
  }

  lemma EvenArithmetic(k: int, r: int, q: int, rest: int)
    requires r > 0 && k == q + rest && q * (r - 1) <= rest <= (q + 1) * (r - 1)
    ensures k / r == q && k % r == rest - q * (r - 1)
  {
    MulSucc(q, r - 1);
    DivUnique(k, r, q, rest - q * (r - 1));
  }

  /** With a spread of at most 1, every replica carries the floor or the ceiling of the average. */
  lemma EvenShares(nodes: Registry.Nodes, replicas: set<string>, r: int, x: string)
    requires replicas <= nodes.Keys && x in replicas && SpreadAtMost(nodes, replicas, 1) && r == |replicas|
    ensures var k := Total(nodes, replicas);
            r > 0 && (nodes[x].activeRequests == k / r || (k % r != 0 && nodes[x].activeRequests == k / r + 1))
  {
    var lo := LeastLoaded(nodes, replicas);
    var q, others := nodes[lo].activeRequests, replicas - {lo};
    TotalWithout(nodes, replicas, lo);
    TotalBetween(nodes, others, r - 1, q, q + 1);
    EvenArithmetic(Total(nodes, replicas), r, q, Total(nodes, others));
    if nodes[x].activeRequests != q {
      TotalWithout(nodes, others, x);
      TotalBetween(nodes, others - {x}, r - 2, q, q + 1);
      MulSucc(q, r - 2);
    }
  }

  lemma {:induction false} LeastLoaded(nodes: Registry.Nodes, replicas: set<string>) returns (lo: string)
    requires replicas <= nodes.Keys && replicas != {}
    ensures lo in replicas && forall n :: n in replicas ==> nodes[lo].activeRequests <= nodes[n].activeRequests
    decreases |replicas|
  {
    lo :| lo in replicas;
    if replicas != {lo} {
      var other := LeastLoaded(nodes, replicas - {lo});
      if nodes[other].activeRequests < nodes[lo].activeRequests { lo := other; }
    }
  }

  /** The number of dispatches of a run that were counted rather than refused. */
  ghost function Accepted(states: seq<Registry.Nodes>): nat {
    if |states| < 2 then 0
    else Accepted(states[..|states| - 1]) + if states[|states| - 1] != states[|states| - 2] then 1 else 0
  }

  lemma {:induction false} TotalCountsAccepted(action: string, states: seq<Registry.Nodes>, picks: seq<string>, replicas: set<string>)
    requires IsRun(action, states, picks) && Replicas(states[0], action, replicas) && replicas <= states[0].Keys
    ensures Replicas(states[|picks|], action, replicas) && replicas <= states[|picks|].Keys
    ensures Total(states[|picks|], replicas) == Total(states[0], replicas) + Accepted(states)
    decreases |picks|
  {
    if picks != [] {
      var k, n := |picks| - 1, picks[|picks| - 1];
      var before, after := states[k], states[k + 1];
      TotalCountsAccepted(action, states[..k + 1], picks[..k], replicas);
      StepKeepsReplicas(before, action, replicas, n, after);
      TotalWithout(before, replicas, n);
      TotalWithout(after, replicas, n);
      TotalSame(before, after, replicas - {n});
    } else {
      assert Accepted(states) == 0;
    }
  }

  /** From idle, after k accepted dispatches each of R replicas carries floor(k/R) or ceil(k/R). */
  lemma IdleRunIsBalanced(action: string, states: seq<Registry.Nodes>, picks: seq<string>, replicas: set<string>, x: string)
    requires IsRun(action, states, picks) && Replicas(states[0], action, replicas) && replicas <= states[0].Keys
    requires x in replicas && forall n :: n in replicas ==> states[0][n].activeRequests == 0
    ensures x in states[|picks|]
    ensures var k, r, load := Accepted(states), |replicas|, states[|picks|][x].activeRequests;
            r > 0 && (load == k / r || (k % r != 0 && load == k / r + 1))
  {
    SpreadNeverWidens(action, states, picks, replicas, 1);
    TotalCountsAccepted(action, states, picks, replicas);
    TotalBetween(states[0], replicas, |replicas|, 0, 0);
    assert Total(states[0], replicas) == 0;
    EvenShares(states[|picks|], replicas, |replicas|, x);
  }
}
