/** Canonical action ownership: `routing/action_ownership.py`. */
module ActionOwnership {
  import opened Wrappers
  import Text

  const CANONICAL_ACTION_OWNERS: map<string, string> := map[
    "match" := "ceg", "sync" := "ceg", "outcomes" := "ceg", "resolve" := "ceg",
    "converge" := "eie", "graph-inference-result" := "eie", "enrich" := "eie", "enrich-and-sync" := "eie"]

  const SEAM_ACTIONS: seq<string> := [
    "converge", "enrich", "enrich-and-sync", "graph-inference-result", "match", "sync", "outcomes"]

  datatype Alias = Alias(name: string, owner: string)

  const CEG_NAMES: seq<string> := [
    "ceg", "cognitive", "cognitive_engine_graphs", "cognitive-engine-graphs", "graph", "graph-engine"]

  const EIE_NAMES: seq<string> := [
    "eie", "enrich", "enrichment", "enrichment_inference_engine", "enrichment-inference-engine"]

  function AliasesFor(names: seq<string>, owner: string): seq<Alias> {
    seq(|names|, i requires 0 <= i < |names| => Alias(names[i], owner))
  }

  /** In the order in which the substring search visits them. */
  const OWNER_ALIASES: seq<Alias> := AliasesFor(CEG_NAMES, "ceg") + AliasesFor(EIE_NAMES, "eie")

  function Underscored(s: string): (r: string)
    ensures |r| == |s|
    ensures forall i :: 0 <= i < |s| ==> r[i] == if s[i] == ' ' then '_' else s[i]
  {
    seq(|s|, i requires 0 <= i < |s| => if s[i] == ' ' then '_' else s[i])
  }

  function ExactAlias(key: string, aliases: seq<Alias>): Option<string> {
    if aliases == [] then None
    else if aliases[0].name == key then Some(aliases[0].owner)
    else ExactAlias(key, aliases[1..])
  }

  function ContainedAlias(key: string, aliases: seq<Alias>): Option<string> {
    if aliases == [] then None
    else if Text.Contains(key, aliases[0].name) then Some(aliases[0].owner)
    else ContainedAlias(key, aliases[1..])
  }

  /** The two constant tables of the program; everything below holds for any such tables. */
  datatype Policy = Policy(owners: map<string, string>, aliases: seq<Alias>) {

    function NormalizeOwner(value: Option<string>, allowUnknown: bool): Option<string> {
      if value.None? then None else
        var key := Underscored(Text.Normalize(value.value));
        if key == "" then None else
          var exact := ExactAlias(key, aliases);
          if exact.Some? then exact else
            var contained := ContainedAlias(key, aliases);
            if contained.Some? then contained
            else if allowUnknown then Some(key) else None
    }

    /** Explicit, non-blank `owner` metadata first, then the node name. */
    function OwnerForRegistration(nodeName: string, metadata: map<string, string>): Option<string> {
      if "owner" in metadata && Text.Strip(metadata["owner"]) != "" then NormalizeOwner(Some(metadata["owner"]), true)
      else NormalizeOwner(Some(nodeName), false)
    }

    function RequiredOwnerForAction(action: string): Option<string> {
      var a := Text.Normalize(action);
      if a in owners then Some(owners[a]) else None
    }

    function CheckAction(action: string, claimant: Option<string>, existing: map<string, Advertiser>): Outcome<OwnershipError> {
      var a := Text.Normalize(action);
      var required := RequiredOwnerForAction(a);
      if required.Some? && claimant.None? then Fail(OwnerRequired(a, required.value))
      else if required.Some? && claimant != required then Fail(NotOwner(a, required.value, claimant.value))
      else if exists n :: n in existing && a in existing[n].actions && Judge(required, claimant, existing[n].owner) == OwnersDiffer
      then Fail(Collision(a))
      else if exists n :: n in existing && a in existing[n].actions && Judge(required, claimant, existing[n].owner) == OtherNotCanonical
      then Fail(CanonicalCollision(a))
      else Pass
    }

    function CheckActions(actions: seq<string>, claimant: Option<string>, existing: map<string, Advertiser>): Outcome<OwnershipError> {
      if actions == [] then Pass else
        var first := CheckAction(actions[0], claimant, existing);
        if first.Fail? then first else CheckActions(actions[1..], claimant, existing)
    }

    /** `assert_registration_ownership`: the node's own entry is never compared with itself. */
    function AssertRegistrationOwnership(
      nodeName: string, actions: seq<string>, metadata: map<string, string>, existing: map<string, Advertiser>)
      : Outcome<OwnershipError>
    {
      CheckActions(actions, OwnerForRegistration(nodeName, metadata), existing - {Text.Normalize(nodeName)})
    }
  }

  const GATE_POLICY := Policy(CANONICAL_ACTION_OWNERS, OWNER_ALIASES)

  datatype OwnershipError =
    | OwnerRequired(action: string, expected: string)
    | NotOwner(action: string, required: string, claimant: string)
    | Collision(action: string)
    | CanonicalCollision(action: string)

  /** What the loop body decides about one other node that advertises the same action. */
  datatype Verdict = Compatible | OwnersDiffer | OtherNotCanonical

  function Judge(required: Option<string>, claimant: Option<string>, other: Option<string>): Verdict {
    if required.None? && (claimant.None? || other.None?) then Compatible
    else if claimant.Some? && other.Some? && claimant != other then OwnersDiffer
    else if required.Some? && other.Some? && other != required then OtherNotCanonical
    else Compatible
  }

  datatype Advertiser = Advertiser(actions: seq<string>, owner: Option<string>)

  /** A table is closed when each owner it names is itself an alias of that owner. */
  predicate Closed(aliases: seq<Alias>) {
    forall i :: 0 <= i < |aliases| ==> Plain(aliases[i].owner) && ExactAlias(aliases[i].owner, aliases) == Some(aliases[i].owner)
  }

  predicate Plain(s: string) {
    s != "" && forall i :: 0 <= i < |s| ==> 'a' <= s[i] <= 'z'
  }

  lemma {:induction false} AliasesNameOwners(key: string, aliases: seq<Alias>)
    ensures var o := ExactAlias(key, aliases); o.None? || exists i :: 0 <= i < |aliases| && aliases[i].owner == o.value
    ensures var o := ContainedAlias(key, aliases); o.None? || exists i :: 0 <= i < |aliases| && aliases[i].owner == o.value
  {
    if aliases != [] {
      AliasesNameOwners(key, aliases[1..]);
      assert forall i :: 0 <= i < |aliases| - 1 ==> aliases[1..][i] == aliases[i + 1];
    }
  }

  lemma PlainIsNormal(s: string)
    requires Plain(s)
    ensures Underscored(Text.Normalize(s)) == s
  {
    Text.StripStrips(s);
    assert Text.Lower(s) == s;
  }

  lemma KeyIsNormal(value: string)
    ensures var key := Underscored(Text.Normalize(value)); Underscored(Text.Normalize(key)) == key
  {
    var key := Underscored(Text.Normalize(value));
    Text.NormalizeIdempotent(value);
    Text.StripStrips(key);
    assert Text.Lower(key) == key;
    assert Underscored(key) == key;
  }

  lemma TableOwnerIsFixed(p: Policy, i: nat)
    requires Closed(p.aliases) && i < |p.aliases|
    ensures p.NormalizeOwner(Some(p.aliases[i].owner), true) == Some(p.aliases[i].owner)
  {
    PlainIsNormal(p.aliases[i].owner);
  }

  /** Owner names are fixed points, so readiness may normalize an owner a second time. */
  lemma NormalizeOwnerIdempotent(p: Policy, value: Option<string>, allowUnknown: bool)
    requires Closed(p.aliases)
    ensures p.NormalizeOwner(p.NormalizeOwner(value, allowUnknown), true) == p.NormalizeOwner(value, allowUnknown)
  {
    var owner := p.NormalizeOwner(value, allowUnknown);
    if owner.Some? {
      var key := Underscored(Text.Normalize(value.value));
      AliasesNameOwners(key, p.aliases);
      if i: nat :| i < |p.aliases| && p.aliases[i].owner == owner.value {
        TableOwnerIsFixed(p, i);
      } else {
        KeyIsNormal(value.value);
      }
    }
  }

  lemma {:induction false} ListedIsAlias(names: seq<string>, owner: string, key: string)
    ensures ExactAlias(key, AliasesFor(names, owner)) == if key in names then Some(owner) else None
  {
    if names != [] {
      assert AliasesFor(names, owner)[1..] == AliasesFor(names[1..], owner);
      ListedIsAlias(names[1..], owner, key);
    }
  }

  lemma {:induction false} ExactInConcat(key: string, xs: seq<Alias>, ys: seq<Alias>)
    ensures var first := ExactAlias(key, xs); ExactAlias(key, xs + ys) == if first.Some? then first else ExactAlias(key, ys)
  {
    if xs == [] {
      assert xs + ys == ys;
    } else {
      assert (xs + ys)[1..] == xs[1..] + ys;
      ExactInConcat(key, xs[1..], ys);
    }
  }

  lemma TwoOwnersAreAliases(xs: seq<string>, a: string, ys: seq<string>, b: string)
    requires a in xs && b !in xs && b in ys
    ensures ExactAlias(a, AliasesFor(xs, a) + AliasesFor(ys, b)) == Some(a)
    ensures ExactAlias(b, AliasesFor(xs, a) + AliasesFor(ys, b)) == Some(b)
  {
    ExactInConcat(a, AliasesFor(xs, a), AliasesFor(ys, b));
    ExactInConcat(b, AliasesFor(xs, a), AliasesFor(ys, b));
    ListedIsAlias(xs, a, a);
    ListedIsAlias(xs, a, b);
    ListedIsAlias(ys, b, b);
  }

  lemma TwoOwnersClosed(xs: seq<string>, a: string, ys: seq<string>, b: string)
    requires Plain(a) && Plain(b) && a in xs && b !in xs && b in ys
    ensures Closed(AliasesFor(xs, a) + AliasesFor(ys, b))
  {
    TwoOwnersAreAliases(xs, a, ys, b);
  }

  lemma GateOwnersAreAliases()
    ensures ExactAlias("ceg", GATE_POLICY.aliases) == Some("ceg") && ExactAlias("eie", GATE_POLICY.aliases) == Some("eie")
  {
    assert CEG_NAMES[0] == "ceg" && EIE_NAMES[0] == "eie";
    EieNotListedFirst();
    TwoOwnersAreAliases(CEG_NAMES, "ceg", EIE_NAMES, "eie");
  }

  lemma GateTableClosed()
    ensures Closed(GATE_POLICY.aliases)
  {
    assert CEG_NAMES[0] == "ceg" && EIE_NAMES[0] == "eie";
    EieNotListedFirst();
    TwoOwnersClosed(CEG_NAMES, "ceg", EIE_NAMES, "eie");
  }

  lemma EieNotListedFirst()
    ensures "eie" !in CEG_NAMES
  {
    forall i | 0 <= i < |CEG_NAMES| ensures CEG_NAMES[i][0] != "eie"[0] { }
  }

  // ---------- who owns a registration ----------

  /** The form in which owner names are looked up: stripped, lower-case, blanks inside as underscores. */
  function LookupKey(name: string): string {
    Underscored(Text.Normalize(name))
  }

  /** The first alias that is the key itself. */
  predicate FirstExact(aliases: seq<Alias>, key: string, i: nat) {
    i < |aliases| && aliases[i].name == key && forall j :: 0 <= j < i ==> aliases[j].name != key
  }

  /** The first alias that occurs inside the key. */
  predicate FirstContained(aliases: seq<Alias>, key: string, i: nat) {
    i < |aliases| && Text.Contains(key, aliases[i].name) && forall j :: 0 <= j < i ==> !Text.Contains(key, aliases[j].name)
  }

  /** The owner that a name stands for: exact alias before contained alias, `otherwise` when there is neither. */
  ghost predicate StandsFor(aliases: seq<Alias>, key: string, owner: Option<string>, otherwise: Option<string>) {
    if i: nat :| FirstExact(aliases, key, i) then owner == Some(aliases[i].owner)
    else if i: nat :| FirstContained(aliases, key, i) then owner == Some(aliases[i].owner)
    else owner == otherwise
  }

  lemma {:induction false} FindsFirstExact(key: string, aliases: seq<Alias>)
    ensures forall i: nat :: FirstExact(aliases, key, i) ==> ExactAlias(key, aliases) == Some(aliases[i].owner)
    ensures (forall i: nat :: !FirstExact(aliases, key, i)) ==> ExactAlias(key, aliases) == None
  {
    if aliases != [] {
      var rest := aliases[1..];
      FindsFirstExact(key, rest);
      if aliases[0].name == key {
        assert FirstExact(aliases, key, 0);
      } else {
        forall i: nat ensures FirstExact(rest, key, i) <==> FirstExact(aliases, key, i + 1) { ShiftExact(aliases, key, i); }
        forall i: nat | FirstExact(aliases, key, i) ensures i > 0 && FirstExact(rest, key, i - 1) { ShiftExact(aliases, key, i - 1); }
      }
    }
  }

  lemma ShiftExact(aliases: seq<Alias>, key: string, i: nat)
    requires aliases != [] && aliases[0].name != key
    ensures FirstExact(aliases[1..], key, i) <==> FirstExact(aliases, key, i + 1)
  {
    assert forall j :: 0 <= j < |aliases| - 1 ==> aliases[1..][j] == aliases[j + 1];
    assert FirstExact(aliases[1..], key, i) ==> forall j :: 0 < j < i + 1 ==> aliases[j] == aliases[1..][j - 1];
  }

  lemma {:induction false} FindsFirstContained(key: string, aliases: seq<Alias>)
    ensures forall i: nat :: FirstContained(aliases, key, i) ==> ContainedAlias(key, aliases) == Some(aliases[i].owner)
    ensures (forall i: nat :: !FirstContained(aliases, key, i)) ==> ContainedAlias(key, aliases) == None
  {
    if aliases != [] {
      var rest := aliases[1..];
      FindsFirstContained(key, rest);
      if Text.Contains(key, aliases[0].name) {
        assert FirstContained(aliases, key, 0);
      } else {
        forall i: nat ensures FirstContained(rest, key, i) <==> FirstContained(aliases, key, i + 1) { ShiftContained(aliases, key, i); }
        forall i: nat | FirstContained(aliases, key, i) ensures i > 0 && FirstContained(rest, key, i - 1) {
          ShiftContained(aliases, key, i - 1);
        }
      }
    }
  }

  lemma ShiftContained(aliases: seq<Alias>, key: string, i: nat)
    requires aliases != [] && !Text.Contains(key, aliases[0].name)
    ensures FirstContained(aliases[1..], key, i) <==> FirstContained(aliases, key, i + 1)
  {
    assert forall j :: 0 <= j < |aliases| - 1 ==> aliases[1..][j] == aliases[j + 1];
    assert FirstContained(aliases[1..], key, i) ==> forall j :: 0 < j < i + 1 ==> aliases[j] == aliases[1..][j - 1];
  }

  lemma NormalizeOwnerMeans(p: Policy, name: string, allowUnknown: bool)
    requires LookupKey(name) != ""
    ensures StandsFor(p.aliases, LookupKey(name), p.NormalizeOwner(Some(name), allowUnknown),
                      if allowUnknown then Some(LookupKey(name)) else None)
  {
    FindsFirstExact(LookupKey(name), p.aliases);
    FindsFirstContained(LookupKey(name), p.aliases);
  }

  /** Explicit owner metadata decides alone, and an unknown owner is an owner too; otherwise a known node name decides. */
  lemma RegistrationOwnerMeans(p: Policy, nodeName: string, metadata: map<string, string>)
    ensures var owner := p.OwnerForRegistration(nodeName, metadata);
            if "owner" in metadata && Text.Strip(metadata["owner"]) != "" then
              StandsFor(p.aliases, LookupKey(metadata["owner"]), owner, Some(LookupKey(metadata["owner"])))
            else if Text.Strip(nodeName) != "" then StandsFor(p.aliases, LookupKey(nodeName), owner, None)
            else owner == None
  {
    if "owner" in metadata && Text.Strip(metadata["owner"]) != "" {
      NormalizeOwnerMeans(p, metadata["owner"], true);
    } else if Text.Strip(nodeName) != "" {
      NormalizeOwnerMeans(p, nodeName, false);
    }
  }

  /** The metadata names one of the table's owners, in any case and with any surrounding space. */
  predicate Declares(p: Policy, metadata: map<string, string>, owner: string) {
    && "owner" in metadata && LookupKey(metadata["owner"]) == owner != ""
    && ExactAlias(owner, p.aliases) == Some(owner)
  }

  lemma DeclaredOwnerWins(p: Policy, nodeName: string, metadata: map<string, string>, owner: string)
    requires Declares(p, metadata, owner)
    ensures p.OwnerForRegistration(nodeName, metadata) == Some(owner)
  {
  }

  /** What a claim must satisfy for one action: no mention of error branches or their order. */
  predicate Permitted(p: Policy, action: string, claimant: Option<string>, existing: map<string, Advertiser>) {
    var a := Text.Normalize(action);
    && (a in p.owners ==> claimant == Some(p.owners[a]))
    && forall n :: n in existing && a in existing[n].actions && existing[n].owner.Some? && claimant.Some?
                   ==> existing[n].owner == claimant
  }

  /** The branch that blames an existing node for not being the canonical owner can never be reached. */
  lemma CheckActionPermits(p: Policy, action: string, claimant: Option<string>, existing: map<string, Advertiser>)
    ensures p.CheckAction(action, claimant, existing).Pass? <==> Permitted(p, action, claimant, existing)
    ensures var r := p.CheckAction(action, claimant, existing); !(r.Fail? && r.error.CanonicalCollision?)
  {
    var a := Text.Normalize(action);
    Text.NormalizeIdempotent(action);
    var required := p.RequiredOwnerForAction(a);
    assert required == if a in p.owners then Some(p.owners[a]) else None;
    forall n | n in existing && a in existing[n].actions && (required.Some? ==> claimant == required)
      ensures Judge(required, claimant, existing[n].owner) != OtherNotCanonical
      ensures Judge(required, claimant, existing[n].owner) == OwnersDiffer
              <==> existing[n].owner.Some? && claimant.Some? && existing[n].owner != claimant
    {
    }
  }

  /** Registration is accepted exactly when every advertised action is permitted. */
  lemma {:induction false} OwnershipAcceptsIff(p: Policy, actions: seq<string>, claimant: Option<string>, existing: map<string, Advertiser>)
    ensures p.CheckActions(actions, claimant, existing).Pass?
            <==> forall i :: 0 <= i < |actions| ==> Permitted(p, actions[i], claimant, existing)
    ensures var r := p.CheckActions(actions, claimant, existing); !(r.Fail? && r.error.CanonicalCollision?)
  {
    if actions != [] {
      CheckActionPermits(p, actions[0], claimant, existing);
      OwnershipAcceptsIff(p, actions[1..], claimant, existing);
      assert forall i :: 0 < i < |actions| ==> actions[i] == actions[1..][i - 1];
    }
  }
}
