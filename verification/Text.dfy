/** The string operations the program relies on: `strip`, `lower`, substring search and ordering. */
module Text {

  /** The code points that a bare `str.strip()` removes; note that 0x1c to 0x1f are among them. */
  predicate IsSpace(c: char) {
    var n := c as int;
    9 <= n <= 13 || 28 <= n <= 32 || n == 0x85 || n == 0xa0 || n == 0x1680 || 0x2000 <= n <= 0x200a
    || n == 0x2028 || n == 0x2029 || n == 0x202f || n == 0x205f || n == 0x3000
  }

  function TrimLeft(s: string): string {
    if s != "" && IsSpace(s[0]) then TrimLeft(s[1..]) else s
  }

  function TrimRight(s: string): string {
    if s != "" && IsSpace(s[|s| - 1]) then TrimRight(s[..|s| - 1]) else s
  }

  function Strip(s: string): string {
    TrimRight(TrimLeft(s))
  }

  predicate Stripped(s: string) {
    s == "" || (!IsSpace(s[0]) && !IsSpace(s[|s| - 1]))
  }

  function LowerChar(c: char): char {
    if 'A' <= c <= 'Z' then (c as int + 32) as char else c
  }

  function Lower(s: string): (r: string)
    ensures |r| == |s|
    ensures forall i :: 0 <= i < |s| ==> r[i] == LowerChar(s[i])
  {
    seq(|s|, i requires 0 <= i < |s| => LowerChar(s[i]))
  }

  /** `s.strip().lower()`, the normal form of node names, actions and tenants. */
  function Normalize(s: string): string {
    Lower(Strip(s))
  }

  lemma {:induction false} TrimLeftStarts(s: string)
    ensures TrimLeft(s) == "" || !IsSpace(TrimLeft(s)[0])
  {
    if s != "" && IsSpace(s[0]) { TrimLeftStarts(s[1..]); }
  }

  lemma {:induction false} TrimRightEnds(s: string)
    ensures TrimRight(s) == "" || !IsSpace(TrimRight(s)[|TrimRight(s)| - 1])
    ensures TrimRight(s) <= s
  {
    if s != "" && IsSpace(s[|s| - 1]) { TrimRightEnds(s[..|s| - 1]); }
  }

  lemma StripStrips(s: string)
    ensures Stripped(Strip(s))
    ensures Stripped(s) ==> Strip(s) == s
  {
    TrimLeftStarts(s);
    TrimRightEnds(TrimLeft(s));
  }

  lemma LowerKeepsStripped(s: string)
    ensures Stripped(s) ==> Stripped(Lower(s))
    ensures Lower(Lower(s)) == Lower(s)
  {
  }

  /** Normalizing twice is the same as normalizing once. */
  lemma NormalizeIdempotent(s: string)
    ensures Stripped(Normalize(s))
    ensures Normalize(Normalize(s)) == Normalize(s)
  {
    StripStrips(s);
    LowerKeepsStripped(Strip(s));
    StripStrips(Normalize(s));
  }

  predicate OccursAt(s: string, sub: string, i: int) {
    0 <= i && i + |sub| <= |s| && s[i..i + |sub|] == sub
  }

  lemma OccursChar(s: string, sub: string, i: int, d: int)
    requires OccursAt(s, sub, i) && 0 <= d < |sub|
    ensures s[i + d] == sub[d]
  {
    assert s[i..i + |sub|][d] == s[i + d];
  }

  /** `sub in s`. */
  predicate Contains(s: string, sub: string) {
    exists i :: 0 <= i <= |s| && OccursAt(s, sub, i)
  }

  /** Python's `<=` on strings: lexicographic by code point. */
  predicate LeqStr(a: string, b: string) {
    a == "" || (b != "" && (a[0] < b[0] || (a[0] == b[0] && LeqStr(a[1..], b[1..]))))
  }

  lemma {:induction false} LeqStrTotal(a: string, b: string)
    ensures LeqStr(a, b) || LeqStr(b, a)
    ensures LeqStr(a, b) && LeqStr(b, a) ==> a == b
  {
    if a != "" && b != "" && a[0] == b[0] {
      LeqStrTotal(a[1..], b[1..]);
      assert a == [a[0]] + a[1..] && b == [b[0]] + b[1..];
    }
  }

  lemma {:induction false} LeqStrTransitive(a: string, b: string, c: string)
    requires LeqStr(a, b) && LeqStr(b, c)
    ensures LeqStr(a, c)
  {
    if a != "" && a[0] == b[0] && b[0] == c[0] {
      LeqStrTransitive(a[1..], b[1..], c[1..]);
    }
  }

  /** The strings agree up to `k`, where the first ends or has the smaller character. */
  predicate PrecedesAt(a: string, b: string, k: nat) {
    k <= |a| && k < |b| && a[..k] == b[..k] && (k == |a| || a[k] < b[k])
  }

  ghost predicate Precedes(a: string, b: string) {
    exists k: nat :: PrecedesAt(a, b, k)
  }

  lemma PrecedesAtTail(a: string, b: string, k: nat)
    requires a != "" && b != "" && a[0] == b[0]
    ensures PrecedesAt(a[1..], b[1..], k) <==> PrecedesAt(a, b, k + 1)
  {
    if k < |a| && k < |b| { assert a[..k + 1] == [a[0]] + a[1..][..k] && b[..k + 1] == [b[0]] + b[1..][..k]; }
  }

  lemma PrecedesTail(a: string, b: string)
    requires a != "" && b != "" && a[0] == b[0]
    ensures Precedes(a, b) <==> Precedes(a[1..], b[1..])
  {
    if k: nat :| PrecedesAt(a, b, k) { PrecedesAtTail(a, b, k - 1); }
    if k: nat :| PrecedesAt(a[1..], b[1..], k) { PrecedesAtTail(a, b, k); }
  }

  lemma PrecedesHead(a: string, b: string)
    requires b != "" && (a == "" || a[0] != b[0])
    ensures Precedes(a, b) <==> a == "" || a[0] < b[0]
  {
    if a == "" || a[0] < b[0] { assert a[..0] == b[..0] && PrecedesAt(a, b, 0); }
    if k: nat :| PrecedesAt(a, b, k) {
      if k > 0 { PrefixHead(a, b, k); }
    }
  }

  lemma PrefixHead(a: string, b: string, k: nat)
    requires 0 < k <= |a| && k <= |b| && a[..k] == b[..k]
    ensures a[0] == b[0]
  {
    assert a[..k][0] == b[..k][0];
  }

  /** The comparison is the lexicographic one: equal, or smaller at the first position where the two differ. */
  lemma {:induction false} LeqStrIff(a: string, b: string)
    ensures LeqStr(a, b) <==> Precedes(a, b) || a == b
  {
    if b != "" && a != "" && a[0] == b[0] {
      LeqStrIff(a[1..], b[1..]);
      PrecedesTail(a, b);
      assert a == [a[0]] + a[1..] && b == [b[0]] + b[1..];
    } else if b != "" {
      PrecedesHead(a, b);
    }
  }

  // ---------- what stripping and lower-casing mean ----------

  predicate Blank(s: string) {
    forall i :: 0 <= i < |s| ==> IsSpace(s[i])
  }

  lemma {:induction false} TrimLeftDropsBlank(s: string)
    ensures |TrimLeft(s)| <= |s| && TrimLeft(s) == s[|s| - |TrimLeft(s)|..] && Blank(s[..|s| - |TrimLeft(s)|])
  {
    if s != "" && IsSpace(s[0]) {
      TrimLeftDropsBlank(s[1..]);
      var k := |s| - |TrimLeft(s)|;
      assert s[..k] == [s[0]] + s[1..][..k - 1];
    }
  }

  lemma {:induction false} TrimRightDropsBlank(s: string)
    ensures |TrimRight(s)| <= |s| && TrimRight(s) == s[..|TrimRight(s)|] && Blank(s[|TrimRight(s)|..])
  {
    if s != "" && IsSpace(s[|s| - 1]) {
      TrimRightDropsBlank(s[..|s| - 1]);
      var k := |TrimRight(s)|;
      assert s[k..] == s[..|s| - 1][k..] + [s[|s| - 1]];
    }
  }

  /** Stripping removes white space at the two ends, all of it, and nothing else. */
  lemma StripMeans(s: string) returns (before: string, after: string)
    ensures s == before + Strip(s) + after && Blank(before) && Blank(after) && Stripped(Strip(s))
  {
    StripStrips(s);
    TrimLeftDropsBlank(s);
    TrimRightDropsBlank(TrimLeft(s));
    before, after := s[..|s| - |TrimLeft(s)|], TrimLeft(s)[|Strip(s)|..];
  }

  lemma {:induction false} TrimLeftSkips(before: string, s: string)
    requires Blank(before) && (s == "" || !IsSpace(s[0]))
    ensures TrimLeft(before + s) == s
  {
    if before == "" {
      assert before + s == s;
    } else {
      assert (before + s)[1..] == before[1..] + s;
      TrimLeftSkips(before[1..], s);
    }
  }

  lemma {:induction false} TrimRightSkips(s: string, after: string)
    requires Blank(after) && (s == "" || !IsSpace(s[|s| - 1]))
    ensures TrimRight(s + after) == s
  {
    if after == "" {
      assert s + after == s;
    } else {
      assert (s + after)[..|s + after| - 1] == s + after[..|after| - 1];
      TrimRightSkips(s, after[..|after| - 1]);
    }
  }

  /** A stripped text is what remains of it with any white space around it. */
  lemma StripUnwraps(before: string, s: string, after: string)
    requires Blank(before) && Blank(after) && Stripped(s)
    ensures Strip(before + s + after) == s
  {
    if s == "" {
      assert before + s + after == before + after;
      AllBlank(before + after);
    } else {
      assert before + s + after == before + (s + after) && (s + after)[0] == s[0];
      TrimLeftSkips(before, s + after);
      TrimRightSkips(s, after);
    }
  }

  lemma {:induction false} AllBlank(s: string)
    requires Blank(s)
    ensures Strip(s) == ""
  {
    TrimLeftSkips(s, "");
    assert s + "" == s;
  }

  predicate Capital(c: char) { 'A' <= c <= 'Z' }

  /** The two characters are the same letter in either case, or the same character. */
  predicate SameLetter(c: char, d: char) {
    c == d || (Capital(c) && d as int - 'a' as int == c as int - 'A' as int) || (Capital(d) && c as int - 'a' as int == d as int - 'A' as int)
  }

  /** A lower-cased text has no capital, and every character is the same letter as before. */
  lemma LowerMeans(s: string)
    ensures forall i :: 0 <= i < |s| ==> !Capital(Lower(s)[i]) && SameLetter(s[i], Lower(s)[i])
    ensures |Lower(s)| == |s|
  {
  }

  /** Two texts have one normal form exactly when their stripped forms differ in case only. */
  lemma SameNormalIff(s: string, t: string)
    ensures Normalize(s) == Normalize(t)
            <==> |Strip(s)| == |Strip(t)| && forall i :: 0 <= i < |Strip(s)| ==> SameLetter(Strip(s)[i], Strip(t)[i])
  {
    var x, y := Strip(s), Strip(t);
    if Lower(x) == Lower(y) {
      forall i | 0 <= i < |x| ensures SameLetter(x[i], y[i]) { assert Lower(x)[i] == Lower(y)[i]; }
    }
    if |x| == |y| && forall i :: 0 <= i < |x| ==> SameLetter(x[i], y[i]) {
      forall i | 0 <= i < |x| ensures Lower(x)[i] == Lower(y)[i] { assert SameLetter(x[i], y[i]); }
    }
  }
}
