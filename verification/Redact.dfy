/** Secret redaction of the evidence bundle: `tests/e2e/docker/scripts/redact.py`. */
module Redact {
  import opened Wrappers
  import Text

  const PLACEHOLDER := "***REDACTED-BY-L9-E2E***"

  const SECRET_VARS: set<string> := {
    "L9E2E_GATE_KEY", "L9E2E_EIE_KEY", "L9E2E_CEG_KEY", "L9E2E_ADMIN_TOKEN", "L9E2E_NEO4J_PASSWORD", "L9E2E_PG_PASSWORD"}
  const JSON_MAP_VARS: set<string> := {"L9E2E_VERIFYING_KEYS_JSON"}

  // ---------- which strings are secret ----------

  function StripLeft(s: string, c: char): string {
    if s != "" && s[0] == c then StripLeft(s[1..], c) else s
  }

  function StripRight(s: string, c: char): string {
    if s != "" && s[|s| - 1] == c then StripRight(s[..|s| - 1], c) else s
  }

  function KeyPart(line: string): string {
    if line == "" || line[0] == '=' then "" else [line[0]] + KeyPart(line[1..])
  }

  /** The two ends of `partition("=")`: everything before the first sign, everything after it. */
  function ValuePart(line: string): string {
    if line == "" then "" else if line[0] == '=' then line[1..] else ValuePart(line[1..])
  }

  function Unquoted(raw: string): string {
    var s := Text.Strip(raw);
    var single := StripRight(StripLeft(s, '\''), '\'');
    StripRight(StripLeft(single, '"'), '"')
  }

  /** The secrets of one line; `jsonStrings` gives the string values of a JSON object, or nothing when reading it fails. */
  function SecretsOf(line: string, jsonStrings: string -> Option<seq<string>>): set<string> {
    var stripped := Text.Strip(line);
    var key, val := KeyPart(stripped), Unquoted(ValuePart(stripped));
    if val == "" then {}
    else if key in SECRET_VARS then {val}
    else if key in JSON_MAP_VARS then
      match jsonStrings(val)
      case None => {val}
      case Some(values) => set v | v in values && v != ""
    else {}
  }

  method SecretsFrom(lines: seq<string>, jsonStrings: string -> Option<seq<string>>) returns (found: set<string>)
    ensures forall s :: s in found <==> exists i :: 0 <= i < |lines| && s in SecretsOf(lines[i], jsonStrings)
    ensures "" !in found
  {
    found := {};
    for i := 0 to |lines|
      invariant forall s :: s in found <==> exists j :: 0 <= j < i && s in SecretsOf(lines[j], jsonStrings)
      invariant "" !in found
    {
      found := found + SecretsOf(lines[i], jsonStrings);
    }
  }

  // ---------- which text of a line is the secret ----------

  predicate AllOf(s: string, c: char) {
    forall i :: 0 <= i < |s| ==> s[i] == c
  }

  lemma {:induction false} StripLeftSkips(quotes: string, s: string, c: char)
    requires AllOf(quotes, c) && (s == "" || s[0] != c)
    ensures StripLeft(quotes + s, c) == s
  {
    if quotes == "" {
      assert quotes + s == s;
    } else {
      assert (quotes + s)[1..] == quotes[1..] + s;
      StripLeftSkips(quotes[1..], s, c);
    }
  }

  lemma {:induction false} StripRightSkips(s: string, quotes: string, c: char)
    requires AllOf(quotes, c) && (s == "" || s[|s| - 1] != c)
    ensures StripRight(s + quotes, c) == s
  {
    if quotes == "" {
      assert s + quotes == s;
    } else {
      assert (s + quotes)[..|s + quotes| - 1] == s + quotes[..|quotes| - 1];
      StripRightSkips(s, quotes[..|quotes| - 1], c);
    }
  }

  lemma StripBoth(before: string, s: string, after: string, c: char)
    requires AllOf(before, c) && AllOf(after, c) && s != "" && s[0] != c && s[|s| - 1] != c
    ensures StripRight(StripLeft(before + s + after, c), c) == s
  {
    assert before + s + after == before + (s + after) && (s + after)[0] == s[0];
    StripLeftSkips(before, s + after, c);
    StripRightSkips(s, after, c);
  }

  /** A value that neither begins nor ends with white space or a quotation mark. */
  predicate Bare(v: string) {
    v != "" && Text.Stripped(v) && v[0] !in {'\'', '"'} && v[|v| - 1] !in {'\'', '"'}
  }

  lemma Ends(before: string, s: string, after: string)
    requires s != ""
    ensures var t := before + s + after;
            t != "" && t[0] == (if before == "" then s[0] else before[0])
            && t[|t| - 1] == if after == "" then s[|s| - 1] else after[|after| - 1]
  {
  }

  /** The value of a line: white space around it, then single quotes, then double quotes inside those, are dropped. */
  lemma UnquotedMeans(space: string, s1: string, d1: string, v: string, d2: string, s2: string, space': string)
    requires Bare(v) && Text.Blank(space) && Text.Blank(space')
    requires AllOf(s1, '\'') && AllOf(s2, '\'') && AllOf(d1, '"') && AllOf(d2, '"')
    ensures Unquoted(space + (s1 + (d1 + v + d2) + s2) + space') == v
  {
    var inner := d1 + v + d2;
    var quoted := s1 + inner + s2;
    Ends(d1, v, d2);
    Ends(s1, inner, s2);
    Text.StripUnwraps(space, quoted, space');
    StripBoth(s1, inner, s2, '\'');
    StripBoth(d1, v, d2, '"');
  }

  lemma {:induction false} PartsAt(key: string, rest: string)
    requires '=' !in key
    ensures KeyPart(key + "=" + rest) == key && ValuePart(key + "=" + rest) == rest
  {
    var line := key + "=" + rest;
    if key == "" {
      assert line == "=" + rest && line[1..] == rest;
    } else {
      assert key[0] in key && line[1..] == key[1..] + "=" + rest;
      PartsAt(key[1..], rest);
    }
  }

  /** What a line `key=value` contributes, for any quoting of the value and any white space around line and value. */
  lemma SecretsOfLine(before: string, key: string, space: string, s1: string, d1: string, v: string, d2: string, s2: string, after: string,
                      jsonStrings: string -> Option<seq<string>>)
    requires Text.Blank(before) && Text.Blank(after) && Text.Blank(space) && Bare(v)
    requires key != "" && '=' !in key && !Text.IsSpace(key[0])
    requires AllOf(s1, '\'') && AllOf(s2, '\'') && AllOf(d1, '"') && AllOf(d2, '"')
    ensures var found := SecretsOf(before + (key + "=" + (space + (s1 + (d1 + v + d2) + s2))) + after, jsonStrings);
            if key in SECRET_VARS then found == {v}
            else if key in JSON_MAP_VARS then
              match jsonStrings(v)
              case None => found == {v}
              case Some(values) => forall s :: s in found <==> s in values && s != ""
            else found == {}
  {
    var quoted := s1 + (d1 + v + d2) + s2;
    var line := key + "=" + (space + quoted);
    Ends(d1, v, d2);
    Ends(s1, d1 + v + d2, s2);
    assert line[0] == key[0] && line[|line| - 1] == quoted[|quoted| - 1];
    Text.StripUnwraps(before, line, after);
    PartsAt(key, space + quoted);
    UnquotedMeans(space, s1, d1, v, d2, s2, "");
    assert space + quoted + "" == space + quoted;
  }

  // ---------- replacing ----------

  /** `body.replace(s, mark)`: leftmost occurrences first, never overlapping. */
  function Replace(body: string, s: string, mark: string): string
    requires s != ""
  {
    if |body| < |s| then body
    else if s <= body then mark + Replace(body[|s|..], s, mark)
    else [body[0]] + Replace(body[1..], s, mark)
  }

  function ReplaceAll(body: string, order: seq<string>): string
    requires "" !in order
    decreases |order|
  {
    if order == [] then body else ReplaceAll(Replace(body, order[0], PLACEHOLDER), order[1..])
  }

  predicate LongestFirst(order: seq<string>) {
    forall i, j :: 0 <= i < j < |order| ==> |order[i]| >= |order[j]| && order[i] != order[j]
  }

  /** `redact_text`: ties in length may come in any order. */
  method RedactText(body: string, secrets: set<string>) returns (redacted: string, ghost order: seq<string>)
    requires "" !in secrets
    ensures LongestFirst(order) && (forall s :: s in order <==> s in secrets) && redacted == ReplaceAll(body, order)
    ensures Redactable(secrets) ==> Clean(redacted, secrets)
    ensures Clean(body, secrets) ==> redacted == body
  {
    redacted, order := body, [];
    var rest := secrets;
    while rest != {}
      invariant rest <= secrets && Done(order, secrets, rest) && redacted == ReplaceAll(body, order)
      decreases |rest|
    {
      ghost var longest := Longest(rest);
      var s :| s in rest && forall t :: t in rest ==> |t| <= |s|;
      DoneNext(order, secrets, rest, s);
      ReplaceAllSnoc(body, order, s);
      redacted, order, rest := Replace(redacted, s, PLACEHOLDER), order + [s], rest - {s};
    }
    RedactionMeetsItsPurpose(body, order, secrets);
  }

  /** `order` lists exactly the secrets outside `rest`, longest first, none shorter than one that is left. */
  ghost predicate Done(order: seq<string>, secrets: set<string>, rest: set<string>) {
    && "" !in order && LongestFirst(order) && (forall s :: s in order <==> s in secrets - rest)
    && forall i, s :: 0 <= i < |order| && s in rest ==> |order[i]| >= |s|
  }

  lemma DoneNext(order: seq<string>, secrets: set<string>, rest: set<string>, s: string)
    requires Done(order, secrets, rest) && s in rest && rest <= secrets && "" !in secrets && forall t :: t in rest ==> |t| <= |s|
    ensures Done(order + [s], secrets, rest - {s})
  {
    assert s !in order;
  }

  lemma {:induction false} Longest(ss: set<string>) returns (s: string)
    requires ss != {}
    ensures s in ss && forall t :: t in ss ==> |t| <= |s|
    decreases |ss|
  {
    s :| s in ss;
    if ss != {s} {
      var t := Longest(ss - {s});
      if |t| > |s| { s := t; }
    }
  }

  lemma {:induction false} ReplaceAllSnoc(body: string, order: seq<string>, s: string)
    requires "" !in order && s != ""
    ensures "" !in order + [s] && ReplaceAll(body, order + [s]) == Replace(ReplaceAll(body, order), s, PLACEHOLDER)
    decreases |order|
  {
    if order == [] {
      assert [s][1..] == [];
    } else {
      ReplaceAllSnoc(Replace(body, order[0], PLACEHOLDER), order[1..], s);
      assert (order + [s])[1..] == order[1..] + [s];
    }
  }

  // ---------- where an occurrence can lie ----------

  lemma OccursInPart(pre: string, mid: string, post: string, t: string, i: int)
    requires 0 <= i && i + |t| <= |mid|
    ensures Text.OccursAt(mid, t, i) <==> Text.OccursAt(pre + mid + post, t, |pre| + i)
  {
    assert (pre + mid + post)[|pre| + i..|pre| + i + |t|] == mid[i..i + |t|];
  }

  lemma OccursHere(pre: string, mid: string, post: string)
    ensures Text.OccursAt(pre + mid + post, mid, |pre|)
  {
  }

  lemma OccursInside(s: string, t: string, u: string, i: int, j: int)
    requires Text.OccursAt(s, t, i) && Text.OccursAt(t, u, j)
    ensures Text.OccursAt(s, u, i + j)
  {
    assert s[..i] + t + s[i + |t|..] == s;
    OccursInPart(s[..i], t, s[i + |t|..], u, j);
  }

  lemma ContainsAt(s: string, sub: string, i: int)
    requires Text.OccursAt(s, sub, i)
    ensures Text.Contains(s, sub)
  {
  }

  lemma TailOccurrence(s: string, t: string, k: nat, i: int)
    requires k <= |s| && Text.OccursAt(s[k..], t, i)
    ensures Text.OccursAt(s, t, i + k)
  {
    OccursInPart(s[..k], s[k..], [], t, i);
    assert s[..k] + s[k..] + [] == s;
  }

  lemma TailContains(s: string, t: string, k: nat)
    requires k <= |s| && Text.Contains(s[k..], t)
    ensures Text.Contains(s, t)
  {
    var i :| 0 <= i <= |s[k..]| && Text.OccursAt(s[k..], t, i);
    TailOccurrence(s, t, k, i);
  }

  /** A nonempty suffix of one string, of length `k`, is a prefix of the other. */
  predicate LinksBy(s: string, t: string, k: int) {
    1 <= k <= |s| && k <= |t| && s[|s| - k..] == t[..k]
  }

  lemma LinkEnds(s: string, t: string, k: int)
    requires LinksBy(s, t, k)
    ensures s[|s| - k] == t[0] && s[|s| - 1] == t[k - 1]
  {
    assert s[|s| - k..][0] == t[..k][0] && s[|s| - k..][k - 1] == t[..k][k - 1];
  }

  predicate Links(s: string, t: string) {
    exists k :: 1 <= k <= |s| && LinksBy(s, t, k)
  }

  /** The two strings can share characters in a text: one holds the other, or the end of one begins the other. */
  predicate Overlaps(s: string, t: string) {
    Text.Contains(s, t) || Text.Contains(t, s) || Links(s, t) || Links(t, s)
  }

  lemma LinkedInText(s: string, t: string, i: int, u: string, j: int)
    requires Text.OccursAt(s, t, i) && Text.OccursAt(s, u, j) && i <= j < i + |t| <= j + |u|
    ensures Links(t, u)
  {
    var k := i + |t| - j;
    assert t[|t| - k..] == s[j..i + |t|] && u[..k] == s[j..i + |t|];
    assert LinksBy(t, u, k);
  }

  lemma HeldInText(s: string, t: string, i: int, u: string, j: int)
    requires Text.OccursAt(s, t, i) && Text.OccursAt(s, u, j) && i <= j && j + |u| <= i + |t|
    ensures Text.Contains(t, u)
  {
    assert s[..i] + t + s[i + |t|..] == s;
    OccursInPart(s[..i], t, s[i + |t|..], u, j - i);
    ContainsAt(t, u, j - i);
  }

  lemma OverlapInText(s: string, t: string, i: int, u: string, j: int)
    requires Text.OccursAt(s, t, i) && Text.OccursAt(s, u, j) && i < j + |u| && j < i + |t|
    ensures Overlaps(t, u)
  {
    if i <= j {
      if j + |u| <= i + |t| { HeldInText(s, t, i, u, j); } else { LinkedInText(s, t, i, u, j); }
    } else {
      if i + |t| <= j + |u| { HeldInText(s, u, j, t, i); } else { LinkedInText(s, u, j, t, i); }
    }
  }

  /** A string that does not overlap `mid` occurs on one side of it only. */
  lemma OccursBeside(pre: string, mid: string, post: string, t: string, i: int)
    requires !Overlaps(mid, t) && Text.OccursAt(pre + mid + post, t, i)
    ensures i + |t| <= |pre| || |pre| + |mid| <= i
  {
    OccursHere(pre, mid, post);
    if i < |pre| + |mid| && |pre| < i + |t| { OverlapInText(pre + mid + post, mid, |pre|, t, i); }
  }

  // ---------- what one replacement does ----------

  lemma {:induction false} FirstOccurrence(body: string, s: string) returns (m: nat)
    requires Text.Contains(body, s)
    ensures FirstAt(body, s, m)
    decreases |body|
  {
    if Text.OccursAt(body, s, 0) { return 0; }
    var at :| 0 <= at <= |body| && Text.OccursAt(body, s, at);
    SkipOne(body, s, at);
    ContainsAt(body[1..], s, at - 1);
    m := FirstOccurrence(body[1..], s);
    TailOccurrence(body, s, 1, m);
    m := m + 1;
    forall i | 0 <= i < m ensures !Text.OccursAt(body, s, i) {
      if 0 < i && Text.OccursAt(body, s, i) { SkipOne(body, s, i); }
    }
  }

  lemma SkipOne(body: string, s: string, i: int)
    requires Text.OccursAt(body, s, i) && i >= 1
    ensures Text.OccursAt(body[1..], s, i - 1)
  {
    assert body[1..][i - 1..i - 1 + |s|] == body[i..i + |s|];
  }

  ghost predicate FirstAt(body: string, s: string, m: nat) {
    Text.OccursAt(body, s, m) && forall i :: 0 <= i < m ==> !Text.OccursAt(body, s, i)
  }

  lemma FirstAtTail(body: string, s: string, m: nat)
    requires FirstAt(body, s, m) && m > 0
    ensures FirstAt(body[1..], s, m - 1) && !Text.OccursAt(body, s, 0)
  {
    SkipOne(body, s, m);
    forall i | 0 <= i < m - 1 ensures !Text.OccursAt(body[1..], s, i) {
      if Text.OccursAt(body[1..], s, i) { TailOccurrence(body, s, 1, i); }
    }
  }

  lemma ReplaceHead(body: string, s: string, mark: string)
    requires s != "" && Text.OccursAt(body, s, 0)
    ensures Replace(body, s, mark) == mark + Replace(body[|s|..], s, mark)
  {
    assert s <= body;
  }

  lemma ReplaceStep(body: string, s: string, mark: string)
    requires s != "" && body != "" && !Text.OccursAt(body, s, 0)
    ensures Replace(body, s, mark) == [body[0]] + Replace(body[1..], s, mark)
  {
  }

  lemma Prepended(body: string, m: nat, rest: string, result: string, shorter: string)
    requires 1 <= m <= |body| && result == [body[0]] + shorter && shorter == body[1..][..m - 1] + rest
    ensures result == body[..m] + rest
  {
  }

  lemma DropTwice(body: string, k: nat)
    requires 1 <= k <= |body|
    ensures body[1..][k - 1..] == body[k..]
  {
  }

  lemma {:induction false} ReplaceFrom(body: string, s: string, mark: string, m: nat, behind: string)
    requires s != "" && FirstAt(body, s, m) && behind == body[m + |s|..]
    ensures Replace(body, s, mark) == body[..m] + (mark + Replace(behind, s, mark))
    decreases m
  {
    if m == 0 {
      ReplaceHead(body, s, mark);
      Prefixed(body, mark + Replace(behind, s, mark));
    } else {
      FirstAtTail(body, s, m);
      DropTwice(body, m + |s|);
      ReplaceFrom(body[1..], s, mark, m - 1, behind);
      ReplaceStep(body, s, mark);
      Prepended(body, m, mark + Replace(behind, s, mark), Replace(body, s, mark), Replace(body[1..], s, mark));
    }
  }

  lemma Prefixed(body: string, rest: string)
    ensures body[..0] + rest == rest
  {
  }

  lemma Regrouped(x: string, y: string, z: string)
    ensures x + y + z == x + (y + z)
  {
  }

  /** The first occurrence is replaced, the text before it is kept, and the search goes on behind it. */
  lemma ReplaceAt(body: string, s: string, mark: string, m: nat)
    requires s != "" && FirstAt(body, s, m)
    ensures Replace(body, s, mark) == body[..m] + mark + Replace(body[m + |s|..], s, mark)
  {
    ReplaceFrom(body, s, mark, m, body[m + |s|..]);
    Regrouped(body[..m], mark, Replace(body[m + |s|..], s, mark));
  }

  lemma {:induction false} ReplaceWithoutOccurrence(body: string, s: string, mark: string)
    requires s != "" && !Text.Contains(body, s)
    ensures Replace(body, s, mark) == body
    decreases |body|
  {
    if |body| >= |s| {
      if s <= body { ContainsAt(body, s, 0); }
      if Text.Contains(body[1..], s) { TailContains(body, s, 1); }
      ReplaceWithoutOccurrence(body[1..], s, mark);
    }
  }

  /** Replacing one secret removes it and brings back none that the body did not have. */
  lemma {:induction false} ReplaceLeavesNone(body: string, s: string, mark: string, t: string, i: int)
    requires s != "" && !Overlaps(mark, t) && (t == s || !Text.Contains(body, t))
    ensures !Text.OccursAt(Replace(body, s, mark), t, i)
    decreases |body|
  {
    if !Text.Contains(body, s) {
      ReplaceWithoutOccurrence(body, s, mark);
      if Text.OccursAt(body, t, i) { ContainsAt(body, t, i); }
    } else {
      var m := FirstOccurrence(body, s);
      var tail := Replace(body[m + |s|..], s, mark);
      ReplaceAt(body, s, mark, m);
      if Text.OccursAt(body[..m] + mark + tail, t, i) {
        OccursBeside(body[..m], mark, tail, t, i);
        if i + |t| <= m {
          BeforeFirst(body, mark + tail, m, t, i);
        } else {
          Behind(body[..m], mark, tail, t, i);
          if t != s && Text.Contains(body[m + |s|..], t) { TailContains(body, t, m + |s|); }
          ReplaceLeavesNone(body[m + |s|..], s, mark, t, i - m - |mark|);
        }
      }
    }
  }

  lemma EmptyOverlaps()
    ensures Overlaps(PLACEHOLDER, "")
  {
    ContainsAt(PLACEHOLDER, "", 0);
  }

  lemma BeforeFirst(body: string, other: string, m: nat, t: string, i: int)
    requires m <= |body| && i + |t| <= m && Text.OccursAt(body[..m] + other, t, i)
    ensures Text.OccursAt(body, t, i) && Text.Contains(body, t)
  {
    assert (body[..m] + other)[i..i + |t|] == body[i..i + |t|];
    ContainsAt(body, t, i);
  }

  lemma Behind(pre: string, mark: string, tail: string, t: string, i: int)
    requires Text.OccursAt(pre + mark + tail, t, i) && |pre| + |mark| <= i
    ensures Text.OccursAt(tail, t, i - |pre| - |mark|)
  {
    assert pre + mark + tail + [] == pre + mark + tail;
    OccursInPart(pre + mark, tail, [], t, i - |pre| - |mark|);
  }

  // ---------- no secret survives ----------

  predicate Clean(body: string, secrets: set<string>) {
    forall s :: s in secrets ==> !Text.Contains(body, s)
  }

  /** Secrets for which the claim is made: none shares characters with the placeholder. */
  predicate Redactable(secrets: set<string>) {
    forall s :: s in secrets ==> !Overlaps(PLACEHOLDER, s)
  }

  lemma {:induction false} NoneComesBack(body: string, order: seq<string>, t: string)
    requires "" !in order && !Overlaps(PLACEHOLDER, t) && (t in order || !Text.Contains(body, t))
    ensures !Text.Contains(ReplaceAll(body, order), t)
    decreases |order|
  {
    if order != [] {
      var next := Replace(body, order[0], PLACEHOLDER);
      if t == order[0] || !Text.Contains(body, t) {
        forall i ensures !Text.OccursAt(next, t, i) { ReplaceLeavesNone(body, order[0], PLACEHOLDER, t, i); }
      }
      NoneComesBack(next, order[1..], t);
    }
  }

  /** For any body: after redaction no secret occurs anywhere in it. */
  lemma RedactionLeavesNoSecret(body: string, order: seq<string>, secrets: set<string>)
    requires Redactable(secrets) && forall s :: s in order <==> s in secrets
    ensures "" !in order && Clean(ReplaceAll(body, order), secrets)
  {
    EmptyOverlaps();
    forall s | s in secrets ensures !Text.Contains(ReplaceAll(body, order), s) {
      NoneComesBack(body, order, s);
    }
  }

  /** A body without secrets is unchanged; hence redacting twice is the same as redacting once. */
  lemma {:induction false} CleanBodyUnchanged(body: string, order: seq<string>)
    requires "" !in order && forall s :: s in order ==> !Text.Contains(body, s)
    ensures ReplaceAll(body, order) == body
    decreases |order|
  {
    if order != [] {
      assert order[0] in order;
      ReplaceWithoutOccurrence(body, order[0], PLACEHOLDER);
      CleanBodyUnchanged(body, order[1..]);
    }
  }

  lemma RedactionMeetsItsPurpose(body: string, order: seq<string>, secrets: set<string>)
    requires "" !in order && forall s :: s in order <==> s in secrets
    ensures Redactable(secrets) ==> Clean(ReplaceAll(body, order), secrets)
    ensures Clean(body, secrets) ==> ReplaceAll(body, order) == body
  {
    if Redactable(secrets) { RedactionLeavesNoSecret(body, order, secrets); }
    if Clean(body, secrets) { CleanBodyUnchanged(body, order); }
  }

  lemma RedactionIdempotent(body: string, order: seq<string>, again: seq<string>, secrets: set<string>)
    requires Redactable(secrets) && (forall s :: s in order <==> s in secrets) && forall s :: s in again <==> s in secrets
    ensures "" !in order && "" !in again && ReplaceAll(ReplaceAll(body, order), again) == ReplaceAll(body, order)
  {
    RedactionLeavesNoSecret(body, order, secrets);
    CleanBodyUnchanged(ReplaceAll(body, order), again);
  }

  // ---------- the condition is needed ----------

  lemma ChangedContainsPlaceholder(body: string, s: string)
    requires s != ""
    ensures Replace(body, s, PLACEHOLDER) == body || Text.Contains(Replace(body, s, PLACEHOLDER), PLACEHOLDER)
  {
    if Text.Contains(body, s) {
      var m := FirstOccurrence(body, s);
      ReplaceAt(body, s, PLACEHOLDER, m);
      OccursHere(body[..m], PLACEHOLDER, Replace(body[m + |s|..], s, PLACEHOLDER));
      ContainsAt(Replace(body, s, PLACEHOLDER), PLACEHOLDER, m);
    } else {
      ReplaceWithoutOccurrence(body, s, PLACEHOLDER);
    }
  }

  lemma {:induction false} ResultHoldsPlaceholder(body: string, order: seq<string>)
    requires "" !in order
    ensures ReplaceAll(body, order) == body || Text.Contains(ReplaceAll(body, order), PLACEHOLDER)
    decreases |order|
  {
    if order != [] {
      var k := |order| - 1;
      assert order == order[..k] + [order[k]];
      ReplaceAllSnoc(body, order[..k], order[k]);
      ResultHoldsPlaceholder(body, order[..k]);
      ChangedContainsPlaceholder(ReplaceAll(body, order[..k]), order[k]);
    }
  }

  lemma ContainsTransitive(a: string, b: string, c: string)
    requires Text.Contains(a, b) && Text.Contains(b, c)
    ensures Text.Contains(a, c)
  {
    var i :| 0 <= i <= |a| && Text.OccursAt(a, b, i);
    var j :| 0 <= j <= |b| && Text.OccursAt(b, c, j);
    OccursInPart(a[..i], b, a[i + |b|..], c, j);
    assert a[..i] + b + a[i + |b|..] == a;
    ContainsAt(a, c, i + j);
  }

  /** For one secret the condition is exact: every body is cleaned if and only if secret and placeholder do not overlap. */
  lemma CleansEveryBodyIff(s: string)
    requires s != ""
    ensures (forall body :: Clean(ReplaceAll(body, [s]), {s})) <==> !Overlaps(PLACEHOLDER, s)
  {
    if Overlaps(PLACEHOLDER, s) {
      var body := LeakingBody(s);
      ReplaceOnly(body, s);
      assert !Clean(ReplaceAll(body, [s]), {s});
    } else {
      forall body ensures Clean(ReplaceAll(body, [s]), {s}) { RedactionLeavesNoSecret(body, [s], {s}); }
    }
  }

  lemma ReplaceOnly(body: string, s: string)
    requires s != ""
    ensures ReplaceAll(body, [s]) == Replace(body, s, PLACEHOLDER)
  {
    assert [s][1..] == [] && [s][0] == s;
  }

  /** A body in which an overlapping secret survives its own replacement. */
  lemma LeakingBody(s: string) returns (body: string)
    requires s != "" && Overlaps(PLACEHOLDER, s)
    ensures Text.Contains(Replace(body, s, PLACEHOLDER), s)
  {
    StarsAtBothEnds();
    if Text.Contains(PLACEHOLDER, s) {
      body := LeakInside(s, PLACEHOLDER);
    } else if Text.Contains(s, PLACEHOLDER) {
      body := LeakAround(s, PLACEHOLDER);
    } else if k :| 1 <= k <= |PLACEHOLDER| && LinksBy(PLACEHOLDER, s, k) {
      body := LeakBehind(s, PLACEHOLDER, k);
    } else {
      var k :| 1 <= k <= |s| && LinksBy(s, PLACEHOLDER, k);
      if s[0] == '*' { assert LinksBy(PLACEHOLDER, s, 1); }
      body := LeakBefore(s, PLACEHOLDER, k);
    }
  }

  lemma StarsAtBothEnds()
    ensures |PLACEHOLDER| == 24 && PLACEHOLDER[0] == '*' && PLACEHOLDER[23] == '*'
  {
  }

  /** The placeholder holds the secret. */
  lemma LeakInside(s: string, mark: string) returns (body: string)
    requires s != "" && Text.Contains(mark, s)
    ensures Text.Contains(Replace(body, s, mark), s)
  {
    body := s;
    OccursHere([], s, []);
    ReplaceAt(s, s, mark, 0);
    assert Replace(s, s, mark) == mark;
  }

  /** The secret holds the placeholder: wrapped once more, its own middle is put back. */
  lemma LeakAround(s: string, mark: string) returns (body: string)
    requires mark != "" && Text.Contains(s, mark)
    ensures s != "" && Text.Contains(Replace(body, s, mark), s)
  {
    var m := FirstOccurrence(s, mark);
    var x, y := s[..m], s[m + |mark|..];
    body := x + s + y;
    WrappedFirstAt(s, mark, m, x, y);
    ReplaceAt(body, s, mark, m);
    assert body[..m] == x && body[m + |s|..] == y && Replace(y, s, mark) == y;
    assert x + mark + y == s;
    ContainsAt(s, s, 0);
  }

  lemma WrappedFirstAt(s: string, mark: string, m: nat, x: string, y: string)
    requires FirstAt(s, mark, m) && x == s[..m]
    ensures FirstAt(x + s + y, s, m)
  {
    OccursHere(x, s, y);
    forall j | 0 <= j < m ensures !Text.OccursAt(x + s + y, s, j) {
      if Text.OccursAt(x + s + y, s, j) {
        OccursInside(x + s + y, s, mark, j, m);
        OccursInPart(x, s, y, mark, j);
      }
    }
  }

  /** The end of the placeholder completes a secret whose beginning it is. */
  lemma LeakBehind(s: string, mark: string, k: int) returns (body: string)
    requires s != "" && LinksBy(mark, s, k)
    ensures Text.Contains(Replace(body, s, mark), s)
  {
    var tail, lead := s[k..], mark[..|mark| - k];
    body := s + tail;
    assert Text.OccursAt(body, s, 0);
    ReplaceAt(body, s, mark, 0);
    assert body[|s|..] == tail && Replace(tail, s, mark) == tail;
    assert mark + tail == lead + s by { assert lead + s[..k] == mark && s[..k] + tail == s; }
    assert Replace(body, s, mark) == lead + s + [];
    OccursHere(lead, s, []);
    ContainsAt(Replace(body, s, mark), s, |lead|);
  }

  /** The beginning of the placeholder completes a secret whose end it is. */
  lemma LeakBefore(s: string, mark: string, k: int) returns (body: string)
    requires s != "" && LinksBy(s, mark, k) && s[0] != mark[0]
    ensures Text.Contains(Replace(body, s, mark), s)
  {
    var lead := s[..|s| - k];
    body := lead + s;
    assert lead + s + [] == body;
    OccursHere(lead, s, []);
    forall j | 0 <= j < |lead| ensures !Text.OccursAt(body, s, j) {
      if Text.OccursAt(body, s, j) { NoEarlierCopy(s, mark, lead, k, j); }
    }
    ReplaceAt(body, s, mark, |lead|);
    assert body[..|lead|] == lead && body[|lead| + |s|..] == "" && Replace("", s, mark) == "";
    assert mark == mark[..k] + mark[k..] && s == lead + mark[..k];
    assert Replace(body, s, mark) == [] + s + mark[k..];
    OccursHere([], s, mark[k..]);
    ContainsAt(Replace(body, s, mark), s, 0);
  }

  /** A copy of the secret that starts earlier would carry the placeholder's first star to the secret's first character. */
  lemma NoEarlierCopy(s: string, mark: string, lead: string, k: int, j: int)
    requires LinksBy(s, mark, k) && lead == s[..|s| - k] && 0 <= j < |lead| && Text.OccursAt(lead + s, s, j)
    ensures s[0] == mark[0]
  {
    var body := lead + s;
    Text.OccursChar(body, s, j, 0);
    Text.OccursChar(body, s, j, |lead|);
    LinkEnds(s, mark, k);
    assert body[j + |lead|] == s[j] && body[j] == lead[j] == s[j];
  }

  /** A star at either end of a secret is an overlap: such a secret survives in some body. */
  lemma EdgeStarLeaks(s: string) returns (body: string)
    requires s != "" && (s[0] == '*' || s[|s| - 1] == '*')
    ensures !Clean(ReplaceAll(body, [s]), {s})
  {
    StarsAtBothEnds();
    if s[0] == '*' {
      assert LinksBy(PLACEHOLDER, s, 1);
    } else {
      assert LinksBy(s, PLACEHOLDER, 1);
    }
    body := LeakingBody(s);
    ReplaceOnly(body, s);
  }

  /** A star further inside is harmless: without a character of the placeholder at its ends a secret overlaps only by holding it. */
  lemma OutsideEdgesOverlapIff(s: string)
    requires s != "" && s[0] !in PLACEHOLDER && s[|s| - 1] !in PLACEHOLDER
    ensures Overlaps(PLACEHOLDER, s) <==> Text.Contains(s, PLACEHOLDER)
  {
    if i :| 0 <= i <= |PLACEHOLDER| && Text.OccursAt(PLACEHOLDER, s, i) {
      Text.OccursChar(PLACEHOLDER, s, i, 0);
    }
    if k :| 1 <= k <= |PLACEHOLDER| && LinksBy(PLACEHOLDER, s, k) {
      LinkEnds(PLACEHOLDER, s, k);
    }
    if k :| 1 <= k <= |s| && LinksBy(s, PLACEHOLDER, k) {
      LinkEnds(s, PLACEHOLDER, k);
    }
  }

  /** Without a star, a secret overlaps the placeholder only by occurring in it. */
  lemma StarFreeOverlapIff(s: string)
    requires '*' !in s
    ensures Overlaps(PLACEHOLDER, s) <==> Text.Contains(PLACEHOLDER, s)
  {
    StarsAtBothEnds();
    if i :| 0 <= i <= |s| && Text.OccursAt(s, PLACEHOLDER, i) {
      Text.OccursChar(s, PLACEHOLDER, i, 0);
    }
    if k :| 1 <= k <= |PLACEHOLDER| && LinksBy(PLACEHOLDER, s, k) {
      LinkEnds(PLACEHOLDER, s, k);
    }
    if k :| 1 <= k <= |s| && LinksBy(s, PLACEHOLDER, k) {
      LinkEnds(s, PLACEHOLDER, k);
    }
  }

  /** For sets of star-free secrets: every body is cleaned if and only if none of them occurs in the placeholder. */
  lemma StarFreeSetCleansIff(order: seq<string>, secrets: set<string>)
    requires (forall s :: s in order <==> s in secrets) && forall s :: s in secrets ==> s != "" && '*' !in s
    ensures "" !in order
    ensures (forall body :: Clean(ReplaceAll(body, order), secrets)) <==> forall s :: s in secrets ==> !Text.Contains(PLACEHOLDER, s)
  {
    if forall s :: s in secrets ==> !Text.Contains(PLACEHOLDER, s) {
      forall s | s in secrets ensures !Overlaps(PLACEHOLDER, s) { StarFreeOverlapIff(s); }
      forall body ensures Clean(ReplaceAll(body, order), secrets) { RedactionLeavesNoSecret(body, order, secrets); }
    } else {
      var s :| s in secrets && Text.Contains(PLACEHOLDER, s);
      ResultHoldsPlaceholder(s, order);
      if ReplaceAll(s, order) == s {
        ContainsAt(s, s, 0);
      } else {
        ContainsTransitive(ReplaceAll(s, order), PLACEHOLDER, s);
      }
      assert !Clean(ReplaceAll(s, order), secrets);
    }
  }

  // ---------- what longest-first is for ----------

  /** The secrets of the body all lie inside one stretch. */
  ghost predicate OnlyInside(body: string, order: seq<string>, lo: int, hi: int) {
    forall t, i :: t in order && Text.OccursAt(body, t, i) ==> lo <= i && i + |t| <= hi
  }

  lemma ReplaceOnlyOccurrence(body: string, x: string, s: string, y: string, mark: string)
    requires s != "" && body == x + s + y && forall i :: Text.OccursAt(body, s, i) ==> i == |x|
    ensures Replace(body, s, mark) == x + mark + y
  {
    OccursHere(x, s, y);
    ReplaceAt(body, s, mark, |x|);
    assert body[..|x|] == x && body[|x| + |s|..] == y;
    forall i ensures !Text.OccursAt(y, s, i) {
      if Text.OccursAt(y, s, i) { TailOccurrence(body, s, |x| + |s|, i); }
    }
    ReplaceWithoutOccurrence(y, s, mark);
  }

  /** A string that the two sides do not hold is not held with the placeholder between them. */
  lemma AroundMark(x: string, mark: string, y: string, t: string, i: int)
    requires !Overlaps(mark, t) && !Text.Contains(x, t) && !Text.Contains(y, t)
    ensures !Text.OccursAt(x + mark + y, t, i)
  {
    if Text.OccursAt(x + mark + y, t, i) {
      OccursBeside(x, mark, y, t, i);
      if i + |t| <= |x| {
        assert x + (mark + y) == x + mark + y && x[..|x|] == x;
        BeforeFirst(x, mark + y, |x|, t, i);
      } else {
        Behind(x, mark, y, t, i);
        ContainsAt(y, t, i - |x| - |mark|);
      }
    }
  }

  /** A secret whose only secrets are inside it is replaced whole: no fragment of it stays beside the placeholder. */
  lemma {:induction false} SecretReplacedWhole(x: string, s: string, y: string, order: seq<string>)
    requires LongestFirst(order) && s in order && OnlyInside(x + s + y, order, |x|, |x| + |s|)
    requires "" !in order && forall t :: t in order ==> !Overlaps(PLACEHOLDER, t)
    ensures ReplaceAll(x + s + y, order) == x + PLACEHOLDER + y
    decreases |order|
  {
    var body, t := x + s + y, order[0];
    if t == s {
      ReplaceOnlyOccurrence(body, x, s, y, PLACEHOLDER);
      forall u | u in order[1..] ensures !Text.Contains(x + PLACEHOLDER + y, u) {
        SidesHoldNoSecret(x, s, y, order, u);
        forall i ensures !Text.OccursAt(x + PLACEHOLDER + y, u, i) { AroundMark(x, PLACEHOLDER, y, u, i); }
      }
      CleanBodyUnchanged(x + PLACEHOLDER + y, order[1..]);
    } else {
      if |t| == |s| {
        OccursInPart(x, s, y, t, 0);
        assert s[0..|t|] == s;
      }
      ReplaceWithoutOccurrence(body, t, PLACEHOLDER);
      SecretReplacedWhole(x, s, y, order[1..]);
    }
  }

  lemma SidesHoldNoSecret(x: string, s: string, y: string, order: seq<string>, u: string)
    requires OnlyInside(x + s + y, order, |x|, |x| + |s|) && u in order && u != ""
    ensures !Text.Contains(x, u) && !Text.Contains(y, u)
  {
    var body := x + s + y;
    forall i ensures !Text.OccursAt(x, u, i) {
      if Text.OccursAt(x, u, i) {
        assert [] + x + (s + y) == body;
        OccursInPart([], x, s + y, u, i);
      }
    }
    forall i ensures !Text.OccursAt(y, u, i) {
      if Text.OccursAt(y, u, i) {
        assert x + s + y + [] == body;
        OccursInPart(x + s, y, [], u, i);
      }
    }
  }

  /** The other order leaves a fragment of the longer secret in the clear. */
  lemma ShortestFirstLeavesFragment(t: string, u: string)
    requires t != "" && u != "" && !Text.Contains(u, t) && !Text.Contains(PLACEHOLDER + u, t + u)
    ensures ReplaceAll(t + u, [t, t + u]) == PLACEHOLDER + u
  {
    var body, order := t + u, [t, t + u];
    assert t <= body && body[|t|..] == u;
    ReplaceWithoutOccurrence(u, t, PLACEHOLDER);
    assert Replace(body, t, PLACEHOLDER) == PLACEHOLDER + u;
    ReplaceWithoutOccurrence(PLACEHOLDER + u, body, PLACEHOLDER);
    assert order[1..] == [body] && [body][1..] == [];
    assert ReplaceAll(PLACEHOLDER + u, [body]) == PLACEHOLDER + u;
  }

  // ---------- the scan ----------

  /** A file of the bundle: its path, the last component of that path, and its text when it can be read. */
  datatype File = File(path: string, name: string, body: Option<string>)

  predicate Leaks(f: File, secrets: set<string>) {
    f.name != "secret_scan.txt" && f.body.Some? && exists s :: s in secrets && Text.Contains(f.body.value, s)
  }

  function LeakNames(files: seq<File>, secrets: set<string>): seq<string> {
    if files == [] then [] else
      LeakNames(files[..|files| - 1], secrets)
      + if Leaks(files[|files| - 1], secrets) then [files[|files| - 1].path] else []
  }

  /** `mode_scan`: every leaking file once, in order, and exit status 1 exactly when there is one. */
  method ModeScan(files: seq<File>, secrets: set<string>) returns (leaks: seq<string>, status: int)
    ensures leaks == LeakNames(files, secrets) && status == (if leaks == [] then 0 else 1)
  {
    leaks := [];
    for k := 0 to |files|
      invariant leaks == LeakNames(files[..k], secrets)
    {
      assert files[..k + 1][..k] == files[..k];
      var f := files[k];
      if f.name != "secret_scan.txt" && f.body.Some? {
        var rest, leaking := secrets, false;
        while rest != {} && !leaking
          invariant rest <= secrets && (leaking ==> Leaks(f, secrets))
          invariant !leaking ==> forall s :: s in secrets - rest ==> !Text.Contains(f.body.value, s)
          decreases |rest|, !leaking
        {
          var s :| s in rest;
          if Text.Contains(f.body.value, s) {
            leaking := true;
          } else {
            rest := rest - {s};
          }
        }
        if leaking { leaks := leaks + [f.path]; }
      }
    }
    assert files[..|files|] == files;
    status := if leaks == [] then 0 else 1;
  }

  /** The scan names exactly the readable files, other than its own report, that hold a secret. */
  lemma {:induction false} LeakNamesMeans(files: seq<File>, secrets: set<string>, path: string)
    ensures path in LeakNames(files, secrets)
            <==> exists i :: 0 <= i < |files| && files[i].path == path && files[i].name != "secret_scan.txt" && files[i].body.Some?
                             && exists s :: s in secrets && Text.Contains(files[i].body.value, s)
  {
    if files != [] {
      var k := |files| - 1;
      LeakNamesMeans(files[..k], secrets, path);
      assert forall i :: 0 <= i < k ==> files[..k][i] == files[i];
    }
  }

  /** A bundle whose files all went through redaction passes the scan. */
  lemma {:induction false} RedactedBundlePasses(files: seq<File>, bodies: seq<string>, orders: seq<seq<string>>, secrets: set<string>)
    requires Redactable(secrets) && |bodies| == |orders| == |files|
    requires forall i :: 0 <= i < |files| ==> forall s :: s in orders[i] <==> s in secrets
    requires forall i :: 0 <= i < |files| ==> "" !in orders[i] && files[i].body == Some(ReplaceAll(bodies[i], orders[i]))
    ensures LeakNames(files, secrets) == []
    decreases |files|
  {
    if files != [] {
      var k := |files| - 1;
      RedactedBundlePasses(files[..k], bodies[..k], orders[..k], secrets);
      RedactionLeavesNoSecret(bodies[k], orders[k], secrets);
    }
  }
}
