/** Per-node concurrency limiter: `runtime/node_limits.py`. */
module NodeLimits {
  import opened Wrappers
  import Text

  datatype LimitError = EmptyName | BadLimit | NotConfigured(node: string) | LimitReached(node: string)

  /** The value of a limiter: the two dictionaries of the manager. */
  datatype Limiter = Limiter(limits: map<string, int>, active: map<string, int>) {
    predicate Valid() {
      limits.Keys <= active.Keys
    }

    function ActiveOf(node: string): int {
      if node in active then active[node] else 0
    }

    function Ensured(node: string, maxConcurrent: int): Result<Limiter, LimitError> {
      var n := Text.Normalize(node);
      if n == "" then Failure(EmptyName)
      else if maxConcurrent < 1 then Failure(BadLimit)
      else Success(Limiter(limits[n := maxConcurrent], active[n := ActiveOf(n)]))
    }

    function Acquired(node: string): Result<Limiter, LimitError>
      requires Valid()
    {
      var n := Text.Normalize(node);
      if n !in limits then Failure(NotConfigured(n))
      else if active[n] >= limits[n] then Failure(LimitReached(n))
      else Success(this.(active := active[n := active[n] + 1]))
    }

    function Released(node: string): Result<Limiter, LimitError> {
      var n := Text.Normalize(node);
      if n !in active then Failure(NotConfigured(n))
      else Success(this.(active := active[n := if active[n] - 1 > 0 then active[n] - 1 else 0]))
    }
  }

  const NO_LIMITS := Limiter(map[], map[])

  function After(before: Limiter, r: Result<Limiter, LimitError>): Limiter {
    if r.Success? then r.value else before
  }

  predicate Agrees(outcome: Outcome<LimitError>, r: Result<Limiter, LimitError>) {
    outcome == if r.Success? then Pass else Fail(r.error)
  }

  ghost predicate NotNegative(l: Limiter) {
    forall n :: n in l.active ==> l.active[n] >= 0
  }

  /** No operation makes a count negative, not even a release that nothing was acquired for; then the count stays at zero. */
  lemma CountsNotNegative(l: Limiter, node: string, maxConcurrent: int)
    requires NotNegative(l) && l.Valid()
    ensures NotNegative(After(l, l.Ensured(node, maxConcurrent))) && NotNegative(After(l, l.Acquired(node)))
    ensures NotNegative(After(l, l.Released(node)))
    ensures l.Released(node).Success? && l.ActiveOf(Text.Normalize(node)) == 0 ==> l.Released(node).value.active == l.active
  {
  }

  class PerNodeLimiterManager {
    var limits: map<string, int>
    var active: map<string, int>

    constructor ()
      ensures View() == NO_LIMITS
    {
      limits, active := map[], map[];
    }

    function View(): Limiter
      reads this
    {
      Limiter(limits, active)
    }

    method EnsureNodeLimit(nodeName: string, maxConcurrent: int) returns (outcome: Outcome<LimitError>)
      modifies this
      ensures View() == After(old(View()), old(View()).Ensured(nodeName, maxConcurrent))
      ensures Agrees(outcome, old(View()).Ensured(nodeName, maxConcurrent))
    {
      var normalized := Text.Normalize(nodeName);
      if normalized == "" { return Fail(EmptyName); }
      if maxConcurrent < 1 { return Fail(BadLimit); }
      limits := limits[normalized := maxConcurrent];
      if normalized !in active { active := active[normalized := 0]; }
      assert active == old(active)[normalized := old(View()).ActiveOf(normalized)];
      return Pass;
    }

    /** The part of `acquire` before its `sleep(0)`: on success the caller is then suspended. */
    method Acquire(nodeName: string) returns (outcome: Outcome<LimitError>)
      requires View().Valid()
      modifies this
      ensures View() == After(old(View()), old(View()).Acquired(nodeName))
      ensures Agrees(outcome, old(View()).Acquired(nodeName))
    {
      var normalized := Text.Normalize(nodeName);
      if normalized !in limits { return Fail(NotConfigured(normalized)); }
      if active[normalized] >= limits[normalized] { return Fail(LimitReached(normalized)); }
      active := active[normalized := active[normalized] + 1];
      return Pass;
    }

    method Release(nodeName: string) returns (outcome: Outcome<LimitError>)
      modifies this
      ensures View() == After(old(View()), old(View()).Released(nodeName))
      ensures Agrees(outcome, old(View()).Released(nodeName))
    {
      var normalized := Text.Normalize(nodeName);
      if normalized !in active { return Fail(NotConfigured(normalized)); }
      active := active[normalized := if active[normalized] - 1 > 0 then active[normalized] - 1 else 0];
      return Pass;
    }
  }
}
