/** Packet replay guard: `resilience/replay_guard.py`. */
module ReplayGuard {

  type Seen = map<string, int>

  function Expired(window: int, seen: Seen, now: int): Seen {
    map id | id in seen && now - seen[id] <= window :: seen[id]
  }

  predicate Accepts(window: int, seen: Seen, id: string, now: int) {
    id !in Expired(window, seen, now)
  }

  function Checked(window: int, seen: Seen, id: string, now: int): Seen {
    if Accepts(window, seen, id, now) then Expired(window, seen, now)[id := now] else Expired(window, seen, now)
  }

  class ReplayGuard {
    const window: int
    var seen: Seen

    constructor (window: int)
      requires window > 0
      ensures this.window == window && seen == map[]
    {
      this.window, seen := window, map[];
    }

    method Expire(now: int)
      modifies this
      ensures seen == Expired(window, old(seen), now)
    {
      var expired := set id | id in seen && now - seen[id] > window;
      var rest := expired;
      while rest != {}
        invariant rest <= expired && seen == old(seen) - (expired - rest)
        decreases |rest|
      {
        var id :| id in rest;
        seen := seen - {id};
        rest := rest - {id};
      }
      assert seen == Expired(window, old(seen), now);
    }

    /** Returns whether the packet is accepted; `false` is the "replay detected" error. */
    method CheckAndRecord(id: string, now: int) returns (accepted: bool)
      modifies this
      ensures accepted == Accepts(window, old(seen), id, now)
      ensures seen == Checked(window, old(seen), id, now)
    {
      Expire(now);
      if id in seen && now - seen[id] <= window { return false; }
      seen := seen[id := now];
      return true;
    }
  }

  // ---------- the accepted history ----------

  datatype Call = Call(id: string, now: int)

  function Replay(window: int, calls: seq<Call>): Seen {
    if calls == [] then map[] else
      var last := calls[|calls| - 1];
      Checked(window, Replay(window, calls[..|calls| - 1]), last.id, last.now)
  }

  predicate Nondecreasing(calls: seq<Call>) {
    forall i, j :: 0 <= i < j < |calls| ==> calls[i].now <= calls[j].now
  }

  /** The rule without any state: accepted unless the same id was accepted at most a window ago. */
  predicate RuleAccepts(window: int, calls: seq<Call>, i: nat)
    requires i < |calls|
    decreases i
  {
    forall j: nat | j < i && calls[j].id == calls[i].id && calls[i].now - calls[j].now <= window
      :: !RuleAccepts(window, calls, j)
  }

  lemma {:induction false} RulePrefix(window: int, calls: seq<Call>, k: nat, i: nat)
    requires i < k <= |calls|
    ensures RuleAccepts(window, calls[..k], i) == RuleAccepts(window, calls, i)
    decreases i
  {
    forall j: nat | j < i ensures RuleAccepts(window, calls[..k], j) == RuleAccepts(window, calls, j) {
      RulePrefix(window, calls, k, j);
    }
  }

  /** `i` is an accepted call, still inside the window at the given time. */
  predicate Recent(window: int, calls: seq<Call>, now: int, i: nat) {
    i < |calls| && RuleAccepts(window, calls, i) && now - calls[i].now <= window
  }

  ghost predicate HoldsRecent(window: int, calls: seq<Call>, now: int, seen: Seen) {
    && (forall i: nat :: Recent(window, calls, now, i) ==> calls[i].id in seen && seen[calls[i].id] == calls[i].now)
    && (forall id :: id in seen ==> exists i: nat :: Recent(window, calls, now, i) && calls[i] == Call(id, seen[id]))
  }

  lemma ExpireKeepsRecent(window: int, calls: seq<Call>, seen: Seen, earlier: int, now: int)
    requires HoldsRecent(window, calls, earlier, seen) && earlier <= now
    ensures HoldsRecent(window, calls, now, Expired(window, seen, now))
  {
    forall i: nat | Recent(window, calls, now, i)
      ensures calls[i].id in Expired(window, seen, now) && Expired(window, seen, now)[calls[i].id] == calls[i].now
    {
      assert Recent(window, calls, earlier, i);
    }
    forall id | id in Expired(window, seen, now)
      ensures exists i: nat :: Recent(window, calls, now, i) && calls[i] == Call(id, seen[id])
    {
      var i: nat :| Recent(window, calls, earlier, i) && calls[i] == Call(id, seen[id]);
      assert Recent(window, calls, now, i);
    }
  }

  /** A lookup in the pruned map answers the stateless rule for the next call. */
  lemma LookupIsRule(window: int, before: seq<Call>, last: Call, kept: Seen)
    requires window > 0 && HoldsRecent(window, before, last.now, kept)
    ensures var calls := before + [last]; last.id !in kept <==> RuleAccepts(window, calls, |before|)
    ensures forall i: nat :: i < |before| ==> RuleAccepts(window, before + [last], i) == RuleAccepts(window, before, i)
  {
    var calls := before + [last];
    assert calls[..|before|] == before;
    forall i: nat | i < |before| ensures RuleAccepts(window, calls, i) == RuleAccepts(window, before, i) {
      RulePrefix(window, calls, |before|, i);
    }
    if last.id in kept {
      var i: nat :| Recent(window, before, last.now, i) && before[i] == Call(last.id, kept[last.id]);
      assert RuleAccepts(window, calls, i);
    }
    if !RuleAccepts(window, calls, |before|) {
      var j: nat :| j < |before| && calls[j].id == last.id && last.now - calls[j].now <= window && RuleAccepts(window, calls, j);
      assert Recent(window, before, last.now, j);
    }
  }

  lemma RecordKeepsRecent(window: int, before: seq<Call>, last: Call, kept: Seen)
    requires window > 0 && HoldsRecent(window, before, last.now, kept)
    ensures HoldsRecent(window, before + [last], last.now, if last.id in kept then kept else kept[last.id := last.now])
  {
    var calls, seen := before + [last], if last.id in kept then kept else kept[last.id := last.now];
    LookupIsRule(window, before, last, kept);
    forall i: nat | Recent(window, calls, last.now, i) ensures calls[i].id in seen && seen[calls[i].id] == calls[i].now {
      if i < |before| { assert Recent(window, before, last.now, i); }
    }
    forall id | id in seen ensures exists i: nat :: Recent(window, calls, last.now, i) && calls[i] == Call(id, seen[id]) {
      if id in kept {
        var i: nat :| Recent(window, before, last.now, i) && before[i] == Call(id, kept[id]);
        assert Recent(window, calls, last.now, i) && calls[i] == Call(id, seen[id]);
      } else {
        assert Recent(window, calls, last.now, |before|) && calls[|before|] == Call(id, seen[id]);
      }
    }
  }

  /** The pruned map holds exactly the accepted calls of the last window, each id once. */
  lemma {:induction false} SeenIsLastWindow(window: int, calls: seq<Call>, now: int)
    requires window > 0 && Nondecreasing(calls) && (calls != [] ==> calls[|calls| - 1].now <= now)
    ensures HoldsRecent(window, calls, now, Expired(window, Replay(window, calls), now))
    ensures calls != [] ==> HoldsRecent(window, calls, calls[|calls| - 1].now, Replay(window, calls))
  {
    if calls != [] {
      var before, last := calls[..|calls| - 1], calls[|calls| - 1];
      SeenIsLastWindow(window, before, last.now);
      RecordKeepsRecent(window, before, last, Expired(window, Replay(window, before), last.now));
      assert before + [last] == calls;
      ExpireKeepsRecent(window, calls, Replay(window, calls), last.now, now);
    }
  }

  lemma LastIsRule(window: int, calls: seq<Call>)
    requires window > 0 && Nondecreasing(calls) && calls != []
    ensures var k := |calls| - 1;
            Accepts(window, Replay(window, calls[..k]), calls[k].id, calls[k].now) == RuleAccepts(window, calls, k)
  {
    var before, last := calls[..|calls| - 1], calls[|calls| - 1];
    SeenIsLastWindow(window, before, last.now);
    assert before + [last] == calls;
    LookupIsRule(window, before, last, Expired(window, Replay(window, before), last.now));
  }

  /** Over any run with a nondecreasing clock: rejected exactly when the same id was accepted at most a window ago. */
  lemma GuardRefinesRule(window: int, calls: seq<Call>, k: nat)
    requires window > 0 && Nondecreasing(calls) && k < |calls|
    ensures Accepts(window, Replay(window, calls[..k]), calls[k].id, calls[k].now) == RuleAccepts(window, calls, k)
  {
    assert calls[..k + 1][..k] == calls[..k];
    LastIsRule(window, calls[..k + 1]);
    RulePrefix(window, calls, k + 1, k);
  }

  /** Two acceptances of one id are more than a window apart, however far apart the calls are in the run. */
  lemma AcceptancesFarApart(window: int, calls: seq<Call>, i: nat, j: nat)
    requires window > 0 && Nondecreasing(calls) && i < j < |calls| && calls[i].id == calls[j].id
    requires Accepts(window, Replay(window, calls[..i]), calls[i].id, calls[i].now)
    requires Accepts(window, Replay(window, calls[..j]), calls[j].id, calls[j].now)
    ensures calls[j].now - calls[i].now > window
  {
    GuardRefinesRule(window, calls, i);
    GuardRefinesRule(window, calls, j);
  }

  function RecentCalls(window: int, calls: seq<Call>, now: int): set<nat> {
    set i: nat | i < |calls| && Recent(window, calls, now, i)
  }

  lemma RecentDistinct(window: int, calls: seq<Call>, now: int, i: nat, j: nat)
    requires Nondecreasing(calls) && i < j < |calls| && calls[|calls| - 1].now <= now
    requires Recent(window, calls, now, i) && Recent(window, calls, now, j)
    ensures calls[i].id != calls[j].id
  {
    assert calls[j].now <= calls[|calls| - 1].now;
  }

  lemma RecentIds(window: int, calls: seq<Call>, now: int, seen: Seen)
    requires HoldsRecent(window, calls, now, seen)
    ensures seen.Keys == set i | i in RecentCalls(window, calls, now) :: calls[i].id
  {
    forall id | id in seen ensures exists i :: i in RecentCalls(window, calls, now) && calls[i].id == id {
      var i: nat :| Recent(window, calls, now, i) && calls[i] == Call(id, seen[id]);
      assert i in RecentCalls(window, calls, now);
    }
  }

  /** The state is as large as the number of acceptances in the last window, and no larger. */
  lemma SeenIsBounded(window: int, calls: seq<Call>)
    requires window > 0 && Nondecreasing(calls) && calls != []
    ensures |Replay(window, calls)| == |RecentCalls(window, calls, calls[|calls| - 1].now)|
  {
    var now := calls[|calls| - 1].now;
    SeenIsLastWindow(window, calls, now);
    RecentIds(window, calls, now, Replay(window, calls));
    forall i, j | i in RecentCalls(window, calls, now) && j in RecentCalls(window, calls, now) && i < j
      ensures calls[i].id != calls[j].id
    {
      RecentDistinct(window, calls, now, i, j);
    }
    SameSize(calls, RecentCalls(window, calls, now), Replay(window, calls).Keys);
    assert |Replay(window, calls)| == |Replay(window, calls).Keys|;
  }

  lemma {:induction false} SameSize(calls: seq<Call>, indices: set<nat>, ids: set<string>)
    requires forall i :: i in indices ==> i < |calls|
    requires forall i, j :: i in indices && j in indices && i < j ==> calls[i].id != calls[j].id
    requires ids == set i | i in indices :: calls[i].id
    ensures |ids| == |indices|
    decreases |indices|
  {
    if indices != {} {
      var k :| k in indices;
      assert ids - {calls[k].id} == set i | i in indices - {k} :: calls[i].id;
      SameSize(calls, indices - {k}, ids - {calls[k].id});
    }
  }
}
