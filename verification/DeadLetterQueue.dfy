/** Bounded record of failed packets: `resilience/dead_letter_queue.py`. */
module DeadLetterQueue {

  /** The last `n` elements, or all of them. */
  function LastOf<T>(s: seq<T>, n: nat): seq<T> {
    if |s| <= n then s else s[|s| - n..]
  }

  class DeadLetterQueue<T> {
    const maxEntries: nat
    var entries: seq<T>

    constructor (maxEntries: nat)
      ensures this.maxEntries == maxEntries && entries == []
    {
      this.maxEntries, entries := maxEntries, [];
    }

    method Put(entry: T)
      modifies this
      ensures entries == LastOf(old(entries) + [entry], maxEntries)
    {
      entries := entries + [entry];
      ghost var all := entries;
      while |entries| > maxEntries
        invariant |entries| <= |all| && entries == all[|all| - |entries|..]
        invariant |entries| >= maxEntries || entries == all
        decreases |entries|
      {
        entries := entries[1..];
      }
    }
  }

  /** Dropping from a queue that was already cut to size loses nothing but the oldest entries. */
  lemma PutKeepsLast<T>(all: seq<T>, entry: T, n: nat)
    ensures LastOf(LastOf(all, n) + [entry], n) == LastOf(all + [entry], n)
  {
  }

  lemma LastOfIsEnd<T>(s: seq<T>, n: nat)
    ensures var last := LastOf(s, n);
            |last| <= |s| && last == s[|s| - |last|..] && |last| <= n && (|last| < |s| ==> |last| == n)
  {
  }
}
