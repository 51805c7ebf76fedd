/** The routing-level response cache: `resilience/idempotency.py`. */
module Idempotency {
  import opened Wrappers
  import opened Packets
  import Text

  // ---------- the namespaced cache key ----------

  const SEPARATOR: char := '\U{1F}'
  const ACTION_MARK: string := [SEPARATOR] + "action:"
  const KEY_MARK: string := [SEPARATOR] + "key:"

  function Join(tenant: string, action: string, key: string): string {
    "tenant:" + tenant + ACTION_MARK + action + KEY_MARK + key
  }

  datatype Identity = Identity(tenant: string, action: string, key: string)

  /** Normalized tenant and action, stripped key; no identity without a non-blank key. */
  function IdentityOf(packet: Packet): Option<Identity> {
    if packet.idempotencyKey.None? || Text.Strip(packet.idempotencyKey.value) == "" then None
    else Some(Identity(Text.Normalize(packet.tenant), Text.Normalize(packet.action), Text.Strip(packet.idempotencyKey.value)))
  }

  function NamespaceKey(packet: Packet): Option<string> {
    var i := IdentityOf(packet);
    if i.None? then None else Some(Join(i.value.tenant, i.value.action, i.value.key))
  }

  predicate SeparatorFree(s: string) {
    SEPARATOR !in s
  }

  predicate PlainNames(packet: Packet) {
    SeparatorFree(packet.tenant) && SeparatorFree(packet.action)
  }

  lemma MarkUnique(mark: string, x: string, rest: string, x': string, rest': string)
    requires mark != "" && mark[0] == SEPARATOR && SeparatorFree(x) && SeparatorFree(x')
    requires x + mark + rest == x' + mark + rest'
    ensures x == x' && rest == rest'
  {
    var s := x + mark + rest;
    assert s[|x|] == SEPARATOR && s[|x'|] == SEPARATOR;
    assert forall i :: 0 <= i < |x| ==> s[i] == x[i] && x[i] in x;
    assert forall i :: 0 <= i < |x'| ==> s[i] == x'[i] && x'[i] in x';
    assert |x| == |x'|;
    assert x == s[..|x|] && x' == s[..|x'|];
    assert rest == s[|x| + |mark|..] && rest' == s[|x'| + |mark|..];
  }

  lemma JoinInjective(t: string, a: string, k: string, t': string, a': string, k': string)
    requires SeparatorFree(t) && SeparatorFree(a) && SeparatorFree(t') && SeparatorFree(a')
    requires Join(t, a, k) == Join(t', a', k')
    ensures t == t' && a == a' && k == k'
  {
    assert Join(t, a, k) == ("tenant:" + t) + ACTION_MARK + (a + KEY_MARK + k);
    assert Join(t', a', k') == ("tenant:" + t') + ACTION_MARK + (a' + KEY_MARK + k');
    MarkUnique(ACTION_MARK, "tenant:" + t, a + KEY_MARK + k, "tenant:" + t', a' + KEY_MARK + k');
    MarkUnique(KEY_MARK, a, k, a', k');
    assert t == ("tenant:" + t)[7..] && t' == ("tenant:" + t')[7..];
  }

  lemma {:induction false} TrimKeepsSeparatorFree(s: string)
    requires SeparatorFree(s)
    ensures SeparatorFree(Text.TrimLeft(s)) && SeparatorFree(Text.TrimRight(s))
  {
    if s != "" {
      TrimKeepsSeparatorFree(s[1..]);
      TrimKeepsSeparatorFree(s[..|s| - 1]);
    }
  }

  lemma NormalizeKeepsSeparatorFree(s: string)
    requires SeparatorFree(s)
    ensures SeparatorFree(Text.Normalize(s))
  {
    TrimKeepsSeparatorFree(s);
    TrimKeepsSeparatorFree(Text.TrimLeft(s));
    var stripped := Text.Strip(s);
    forall i | 0 <= i < |stripped| ensures Text.Lower(stripped)[i] != SEPARATOR {
      assert stripped[i] != SEPARATOR;
    }
  }

  /** One cache entry serves one identity: keys are equal exactly when tenant, action and key are. */
  lemma CacheKeyIdentifies(p: Packet, q: Packet)
    requires PlainNames(p) && PlainNames(q)
    ensures NamespaceKey(p) == NamespaceKey(q) <==> IdentityOf(p) == IdentityOf(q)
  {
    NormalizeKeepsSeparatorFree(p.tenant);
    NormalizeKeepsSeparatorFree(p.action);
    NormalizeKeepsSeparatorFree(q.tenant);
    NormalizeKeepsSeparatorFree(q.action);
    if IdentityOf(p).Some? && IdentityOf(q).Some? && NamespaceKey(p) == NamespaceKey(q) {
      var i, j := IdentityOf(p).value, IdentityOf(q).value;
      JoinInjective(i.tenant, i.action, i.key, j.tenant, j.action, j.key);
    }
  }

  /** Exactly when a joined key can be read back in a second way. */
  predicate Ambiguous(t: string, a: string, k: string) {
    Text.Contains(t, ACTION_MARK) || Text.Contains(a, ACTION_MARK) || Text.Contains(a, KEY_MARK) || Text.Contains(k, KEY_MARK)
  }

  /** Two occurrences of marks never overlap: a mark has the separator at its head only. */
  lemma MarksApart(s: string, m: string, i: int, n: string, j: int)
    requires m in {ACTION_MARK, KEY_MARK} && n in {ACTION_MARK, KEY_MARK}
    requires Text.OccursAt(s, m, i) && Text.OccursAt(s, n, j) && i < j
    ensures i + |m| <= j
  {
    if j < i + |m| {
      Text.OccursChar(s, m, i, j - i);
      Text.OccursChar(s, n, j, 0);
    }
  }

  /** The marks stand where a reading of the key puts them, and the parts are the text between them. */
  predicate ReadAs(s: string, t: string, a: string, k: string) {
    && Text.OccursAt(s, ACTION_MARK, 7 + |t|) && Text.OccursAt(s, KEY_MARK, 15 + |t| + |a|)
    && t == s[7..7 + |t|] && a == s[15 + |t|..15 + |t| + |a|] && k == s[20 + |t| + |a|..]
  }

  lemma JoinMarks(t: string, a: string, k: string)
    ensures ReadAs(Join(t, a, k), t, a, k)
  {
  }

  lemma SliceContains(s: string, lo: int, hi: int, mark: string, i: int)
    requires 0 <= lo <= i && i + |mark| <= hi <= |s| && Text.OccursAt(s, mark, i)
    ensures Text.Contains(s[lo..hi], mark)
  {
    forall d | 0 <= d < |mark| ensures s[lo..hi][i - lo + d] == mark[d] { Text.OccursChar(s, mark, i, d); }
    assert Text.OccursAt(s[lo..hi], mark, i - lo);
  }

  lemma SecondReadingIsAmbiguous(t: string, a: string, k: string, t': string, a': string, k': string)
    requires Join(t, a, k) == Join(t', a', k') && (t != t' || a != a' || k != k')
    ensures Ambiguous(t, a, k)
  {
    var s := Join(t, a, k);
    JoinMarks(t, a, k);
    JoinMarks(t', a', k');
    var i, j, i', j' := 7 + |t|, 15 + |t| + |a|, 7 + |t'|, 15 + |t'| + |a'|;
    if i' < i {
      MarksApart(s, ACTION_MARK, i', ACTION_MARK, i);
      SliceContains(s, 7, i, ACTION_MARK, i');
    } else if i < i' < j {
      MarksApart(s, ACTION_MARK, i, ACTION_MARK, i');
      MarksApart(s, ACTION_MARK, i', KEY_MARK, j);
      SliceContains(s, i + 8, j, ACTION_MARK, i');
    } else if i' == j {
      Text.OccursChar(s, ACTION_MARK, i', 1);
      Text.OccursChar(s, KEY_MARK, j, 1);
    } else {
      SecondKeyMarkIsAmbiguous(s, i, j, j');
    }
  }

  lemma SecondKeyMarkIsAmbiguous(s: string, i: int, j: int, j': int)
    requires 7 <= i && i + 8 <= j && Text.OccursAt(s, ACTION_MARK, i) && Text.OccursAt(s, KEY_MARK, j) && Text.OccursAt(s, KEY_MARK, j')
    ensures i < j' < j ==> Text.Contains(s[i + 8..j], KEY_MARK)
    ensures j < j' ==> Text.Contains(s[j + 5..], KEY_MARK)
  {
    if i < j' < j {
      MarksApart(s, ACTION_MARK, i, KEY_MARK, j');
      MarksApart(s, KEY_MARK, j', KEY_MARK, j);
      SliceContains(s, i + 8, j, KEY_MARK, j');
    } else if j < j' {
      MarksApart(s, KEY_MARK, j, KEY_MARK, j');
      SliceContains(s, j + 5, |s|, KEY_MARK, j');
      assert s[j + 5..|s|] == s[j + 5..];
    }
  }

  /** The packet's own cache key can be read in one way only. */
  predicate Unambiguous(packet: Packet) {
    var i := IdentityOf(packet);
    i.Some? ==> !Ambiguous(i.value.tenant, i.value.action, i.value.key)
  }

  /** One packet without a mark in its parts shares its cache key with packets of the same identity only, whatever those look like. */
  lemma UnambiguousKeyIdentifies(p: Packet, q: Packet)
    requires Unambiguous(p)
    ensures NamespaceKey(p) == NamespaceKey(q) <==> IdentityOf(p) == IdentityOf(q)
  {
    var i, j := IdentityOf(p), IdentityOf(q);
    if i.Some? && j.Some? && i != j && NamespaceKey(p) == NamespaceKey(q) {
      SecondReadingIsAmbiguous(i.value.tenant, i.value.action, i.value.key, j.value.tenant, j.value.action, j.value.key);
    }
  }

  // ---------- which packets share a key ----------

  predicate ActionChar(c: char) {
    'a' <= c <= 'z' || '0' <= c <= '9' || c == '-'
  }

  /** The action pattern of the wire contract. */
  predicate ActionForm(action: string) {
    1 <= |action| <= 64 && action[0] != '-' && forall i :: 0 <= i < |action| ==> ActionChar(action[i])
  }

  /** What the packet model asks of the fields that the cache key reads: an action of that form, and a tenant that is not blank. */
  predicate Receivable(packet: Packet) {
    Text.Strip(packet.tenant) != "" && ActionForm(Text.Normalize(packet.action))
  }

  predicate IsNormal(s: string) {
    s != "" && Text.Stripped(s) && Text.Lower(s) == s
  }

  /** The identities of receivable packets. */
  predicate IsIdentity(i: Identity) {
    IsNormal(i.tenant) && ActionForm(i.action) && i.key != "" && Text.Stripped(i.key)
  }

  function PacketFor(i: Identity): Packet {
    Packet("1", "n", i.tenant, i.action, Some(i.key), None)
  }

  lemma IdentityIsIdentity(packet: Packet)
    requires Receivable(packet) && IdentityOf(packet).Some?
    ensures IsIdentity(IdentityOf(packet).value)
  {
    Text.NormalizeIdempotent(packet.tenant);
    Text.StripStrips(packet.tenant);
    Text.LowerKeepsStripped(Text.Strip(packet.tenant));
    Text.StripStrips(packet.idempotencyKey.value);
  }

  lemma NormalIsKept(s: string)
    requires Text.Stripped(s) && Text.Lower(s) == s
    ensures Text.Normalize(s) == s
  {
    Text.StripStrips(s);
  }

  lemma ActionIsNormal(action: string)
    requires ActionForm(action)
    ensures IsNormal(action) && Text.Normalize(action) == action && SeparatorFree(action)
  {
    assert forall i :: 0 <= i < |action| ==> ActionChar(action[i]);
    assert Text.Lower(action) == action;
    NormalIsKept(action);
  }

  lemma PacketForIdentity(i: Identity)
    requires IsIdentity(i)
    ensures Receivable(PacketFor(i)) && IdentityOf(PacketFor(i)) == Some(i)
  {
    NormalIsKept(i.tenant);
    ActionIsNormal(i.action);
    Text.StripStrips(i.tenant);
    Text.StripStrips(i.key);
  }

  /** The tenant splits into a tenant, an action and the beginning of a key, all in normal form. */
  predicate TenantSplit(t: string, x: string, b: string, y: string) {
    && t == x + ACTION_MARK + b + KEY_MARK + y && ActionForm(b)
    && x != "" && !Text.IsSpace(x[|x| - 1]) && y != "" && !Text.IsSpace(y[0])
  }

  /** The key splits into the end of a tenant, an action and a key, all in normal form. */
  predicate KeySplit(k: string, y: string, b: string, z: string) {
    && k == y + ACTION_MARK + b + KEY_MARK + z && ActionForm(b)
    && y != "" && !Text.IsSpace(y[|y| - 1]) && Text.Lower(y) == y && z != "" && !Text.IsSpace(z[0])
  }

  /** What a sender can check on its own packet. */
  ghost predicate HidesJoin(i: Identity) {
    (exists x, b, y :: TenantSplit(i.tenant, x, b, y)) || exists y, b, z :: KeySplit(i.key, y, b, z)
  }

  lemma CutAtMarks(s: string, a: int, m: string, i: int, n: string, j: int, e: int)
    requires Text.OccursAt(s, m, i) && Text.OccursAt(s, n, j) && 0 <= a <= i && i + |m| <= j && j + |n| <= e <= |s|
    ensures s[a..e] == s[a..i] + m + s[i + |m|..j] + n + s[j + |n|..e]
  {
    assert s[a..e] == s[a..i] + s[i..i + |m|] + s[i + |m|..j] + s[j..j + |n|] + s[j + |n|..e];
  }

  lemma SliceChar(s: string, lo: int, hi: int, i: int)
    requires 0 <= lo <= i < hi <= |s|
    ensures s[lo..hi][i - lo] == s[i] && s[i] in s[lo..hi]
  {
    assert s[lo..hi][i - lo] == s[i];
  }

  /** The marks of the second reading lie inside the longer tenant. */
  lemma MarksInTenant(s: string, i: int, i': int, j': int, a': string)
    requires 7 <= i' < i && Text.OccursAt(s, ACTION_MARK, i) && Text.OccursAt(s, ACTION_MARK, i')
    requires j' == i' + 8 + |a'| && Text.OccursAt(s, KEY_MARK, j') && s[i' + 8..j'] == a' && SeparatorFree(a')
    ensures j' + 5 <= i
  {
    MarksApart(s, ACTION_MARK, i', ACTION_MARK, i);
    Text.OccursChar(s, ACTION_MARK, i, 0);
    Text.OccursChar(s, ACTION_MARK, i, 1);
    Text.OccursChar(s, KEY_MARK, j', 1);
    if i < j' {
      SliceChar(s, i' + 8, j', i);
    } else if j' < i {
      MarksApart(s, KEY_MARK, j', ACTION_MARK, i);
    }
  }

  /** Two readings with tenants of different length: the longer tenant hides the other reading's marks, its key continues them. */
  lemma MovedBoundary(s: string, t: string, a: string, k: string, t': string, a': string, k': string) returns (y: string)
    requires ReadAs(s, t, a, k) && ReadAs(s, t', a', k') && |t'| < |t| && SeparatorFree(a')
    ensures t == t' + ACTION_MARK + a' + KEY_MARK + y
    ensures k' == y + ACTION_MARK + a + KEY_MARK + k
  {
    var i, j, i', j' := 7 + |t|, 15 + |t| + |a|, 7 + |t'|, 15 + |t'| + |a'|;
    MarkLengths();
    MarksInTenant(s, i, i', j', a');
    y := s[j' + 5..i];
    CutAtMarks(s, 7, ACTION_MARK, i', KEY_MARK, j', i);
    CutAtMarks(s, j' + 5, ACTION_MARK, i, KEY_MARK, j, |s|);
    assert s[j' + 5..] == s[j' + 5..|s|] && s[j + 5..] == s[j + 5..|s|];
  }

  lemma MarkLengths()
    ensures |ACTION_MARK| == 8 && |KEY_MARK| == 5
  {
  }

  /** Two readings with tenants of one length are the same reading. */
  lemma SameTenantSameIdentity(s: string, t: string, a: string, k: string, t': string, a': string, k': string)
    requires ReadAs(s, t, a, k) && ReadAs(s, t', a', k') && |t| == |t'| && SeparatorFree(a) && SeparatorFree(a')
    ensures t == t' && a == a' && k == k'
  {
    var lo, j, j' := 15 + |t|, 15 + |t| + |a|, 15 + |t| + |a'|;
    Text.OccursChar(s, KEY_MARK, j, 0);
    Text.OccursChar(s, KEY_MARK, j', 0);
    if j < j' { SliceChar(s, lo, j', j); }
    if j' < j { SliceChar(s, lo, j, j'); }
  }

  lemma LowerParts(x: string, y: string)
    ensures Text.Lower(x + y) == Text.Lower(x) + Text.Lower(y)
  {
  }

  lemma LowerSplits(x: string, y: string)
    ensures Text.Lower(x + y) == x + y <==> Text.Lower(x) == x && Text.Lower(y) == y
  {
    LowerParts(x, y);
    assert (x + y)[..|x|] == x && (x + y)[|x|..] == y;
    assert (Text.Lower(x) + Text.Lower(y))[..|x|] == Text.Lower(x) && (Text.Lower(x) + Text.Lower(y))[|x|..] == Text.Lower(y);
  }

  lemma FirstChar(x: string, y: string)
    requires y != ""
    ensures (x + y)[0] == if x == "" then y[0] else x[0]
  {
  }

  /** A stripped text cannot start with a mark, for the separator counts as white space. */
  lemma HeadNotSpace(y: string, rest: string)
    requires Text.Stripped(y + rest) && rest != "" && rest[0] == SEPARATOR
    ensures y != "" && !Text.IsSpace(y[0])
  {
    FirstChar(y, rest);
  }

  lemma SplitsTenant(t: string, x: string, b: string, y: string, a: string, k: string)
    requires IsNormal(x) && ActionForm(b) && t == x + ACTION_MARK + b + KEY_MARK + y
    requires Text.Stripped(y + ACTION_MARK + a + KEY_MARK + k)
    ensures TenantSplit(t, x, b, y)
  {
    var rest := ACTION_MARK + a + KEY_MARK + k;
    assert y + ACTION_MARK + a + KEY_MARK + k == y + rest;
    HeadNotSpace(y, rest);
  }

  lemma SplitsKey(k: string, y: string, b: string, z: string, t: string, a: string)
    requires z != "" && Text.Stripped(z) && ActionForm(b) && k == y + ACTION_MARK + b + KEY_MARK + z && Text.Stripped(k)
    requires IsNormal(t + ACTION_MARK + a + KEY_MARK + y)
    ensures KeySplit(k, y, b, z)
  {
    var rest := ACTION_MARK + b + KEY_MARK + z;
    assert k == y + rest;
    HeadNotSpace(y, rest);
    TailOfNormal(t + ACTION_MARK + a + KEY_MARK, y);
  }

  /** Any other reading by a packet shows in the packet's own tenant or key. */
  lemma CollisionIsHidden(i: Identity, o: Identity)
    requires IsIdentity(i) && IsIdentity(o) && i != o
    requires Join(i.tenant, i.action, i.key) == Join(o.tenant, o.action, o.key)
    ensures HidesJoin(i)
  {
    var s := Join(i.tenant, i.action, i.key);
    ActionIsNormal(i.action);
    ActionIsNormal(o.action);
    JoinMarks(i.tenant, i.action, i.key);
    JoinMarks(o.tenant, o.action, o.key);
    if |i.tenant| == |o.tenant| {
      SameTenantSameIdentity(s, i.tenant, i.action, i.key, o.tenant, o.action, o.key);
    } else if |o.tenant| < |i.tenant| {
      var y := MovedBoundary(s, i.tenant, i.action, i.key, o.tenant, o.action, o.key);
      SplitsTenant(i.tenant, o.tenant, o.action, y, i.action, i.key);
    } else {
      var y := MovedBoundary(s, o.tenant, o.action, o.key, i.tenant, i.action, i.key);
      SplitsKey(i.key, y, o.action, o.key, i.tenant, i.action);
    }
  }

  lemma TailOfNormal(x: string, y: string)
    requires IsNormal(x + y) && y != ""
    ensures !Text.IsSpace(y[|y| - 1]) && Text.Lower(y) == y
  {
    LowerSplits(x, y);
    assert (x + y)[|x + y| - 1] == y[|y| - 1];
  }

  lemma MarksAreLower()
    ensures Text.Lower(ACTION_MARK) == ACTION_MARK && Text.Lower(KEY_MARK) == KEY_MARK
  {
  }

  /** A split tenant: the first part is a tenant by itself, and the rest moves into the key. */
  lemma TenantSplitCollides(i: Identity, x: string, b: string, y: string) returns (o: Identity)
    requires IsIdentity(i) && TenantSplit(i.tenant, x, b, y)
    ensures IsIdentity(o) && o != i && Join(o.tenant, o.action, o.key) == Join(i.tenant, i.action, i.key)
  {
    var rest := ACTION_MARK + b + KEY_MARK + y;
    o := Identity(x, b, y + ACTION_MARK + i.action + KEY_MARK + i.key);
    assert i.tenant == x + rest;
    LowerSplits(x, rest);
    assert i.tenant[0] == x[0] && |x| < |i.tenant|;
    assert o.key[0] == y[0] && o.key[|o.key| - 1] == i.key[|i.key| - 1];
    JoinMoves(x, b, y, i.action, i.key);
  }

  /** A split key: its beginning moves into the tenant. */
  lemma KeySplitCollides(i: Identity, y: string, b: string, z: string) returns (o: Identity)
    requires IsIdentity(i) && KeySplit(i.key, y, b, z)
    ensures IsIdentity(o) && o != i && Join(o.tenant, o.action, o.key) == Join(i.tenant, i.action, i.key)
  {
    var rest := ACTION_MARK + i.action + KEY_MARK + y;
    o := Identity(i.tenant + ACTION_MARK + i.action + KEY_MARK + y, b, z);
    assert o.tenant == i.tenant + rest;
    MarksAreLower();
    ActionIsNormal(i.action);
    LowerSplits(ACTION_MARK, i.action);
    LowerSplits(ACTION_MARK + i.action, KEY_MARK);
    LowerSplits(ACTION_MARK + i.action + KEY_MARK, y);
    LowerSplits(i.tenant, rest);
    assert o.tenant[0] == i.tenant[0] && o.tenant[|o.tenant| - 1] == y[|y| - 1];
    assert z[|z| - 1] == i.key[|i.key| - 1];
    JoinMoves(i.tenant, i.action, y, b, z);
  }

  lemma JoinMoves(t: string, a: string, y: string, b: string, z: string)
    ensures Join(t + ACTION_MARK + a + KEY_MARK + y, b, z) == Join(t, a, y + ACTION_MARK + b + KEY_MARK + z)
  {
  }

  predicate Collides(p: Packet, q: Packet) {
    Receivable(q) && NamespaceKey(q) == NamespaceKey(p) && IdentityOf(q) != IdentityOf(p)
  }

  /** Exactly when some other identity's packet shares the cache key: the packet's own tenant or key hides a joined key. */
  lemma PacketCollidesIff(p: Packet)
    requires Receivable(p) && IdentityOf(p).Some?
    ensures (exists q :: Collides(p, q)) <==> HidesJoin(IdentityOf(p).value)
  {
    var i := IdentityOf(p).value;
    IdentityIsIdentity(p);
    if q :| Collides(p, q) {
      IdentityIsIdentity(q);
      CollisionIsHidden(i, IdentityOf(q).value);
    }
    if HidesJoin(i) {
      var o := HiddenCollides(i);
      PacketForIdentity(o);
      assert Collides(p, PacketFor(o));
    }
  }

  /** When one shared cache key means one identity: a condition on both packets, or one that the first can check alone. */
  lemma SameKeySameIdentity(p: Packet, q: Packet)
    requires NamespaceKey(p) == NamespaceKey(q) && IdentityOf(p).Some?
    ensures PlainNames(p) && PlainNames(q) ==> IdentityOf(p) == IdentityOf(q)
    ensures Unambiguous(p) ==> IdentityOf(p) == IdentityOf(q)
    ensures Receivable(p) && Receivable(q) && !HidesJoin(IdentityOf(p).value) ==> IdentityOf(p) == IdentityOf(q)
  {
    if PlainNames(p) && PlainNames(q) { CacheKeyIdentifies(p, q); }
    if Unambiguous(p) { UnambiguousKeyIdentifies(p, q); }
    if Receivable(p) && Receivable(q) && IdentityOf(p) != IdentityOf(q) {
      PacketCollidesIff(p);
      assert Collides(p, q);
    }
  }

  lemma HiddenCollides(i: Identity) returns (o: Identity)
    requires IsIdentity(i) && HidesJoin(i)
    ensures IsIdentity(o) && o != i && Join(o.tenant, o.action, o.key) == Join(i.tenant, i.action, i.key)
  {
    if x, b, y :| TenantSplit(i.tenant, x, b, y) {
      o := TenantSplitCollides(i, x, b, y);
    } else {
      var y, b, z :| KeySplit(i.key, y, b, z);
      o := KeySplitCollides(i, y, b, z);
    }
  }

  /** Two receivable packets with different identities and one cache key: nothing keeps the separator out of the tenant. */
  lemma SeparatorInTenantCollides()
    ensures var p := Packet("1", "n", "t" + ACTION_MARK + "a" + KEY_MARK + "x", "b", Some("k"), None);
            var q := Packet("2", "n", "t", "a", Some("x" + ACTION_MARK + "b" + KEY_MARK + "k"), None);
            Receivable(p) && IdentityOf(p).Some? && Collides(p, q)
  {
    var i := Identity("t" + ACTION_MARK + "a" + KEY_MARK + "x", "b", "k");
    var o := Identity("t", "a", "x" + ACTION_MARK + "b" + KEY_MARK + "k");
    assert Text.Lower("t") == "t" && Text.Lower(i.tenant) == i.tenant;
    PacketForIdentity(i);
    PacketForIdentity(o);
    JoinMoves("t", "a", "x", "b", "k");
  }

  // ---------- the store ----------

  datatype Entry<V> = Entry(storedAt: int, value: V)

  type Store<V> = map<string, Entry<V>>

  predicate Fresh<V>(ttl: int, store: Store<V>, key: string, now: int) {
    key in store && now - store[key].storedAt < ttl
  }

  function Lookup<V>(ttl: int, store: Store<V>, key: string, now: int): Option<V> {
    if Fresh(ttl, store, key, now) then Some(store[key].value) else None
  }

  /** Reading deletes an entry that has aged out. */
  function AfterLookup<V>(ttl: int, store: Store<V>, key: string, now: int): Store<V> {
    if key in store && !Fresh(ttl, store, key, now) then store - {key} else store
  }

  class IdempotencyStore<V(==)> {
    const ttl: int
    var store: Store<V>

    constructor (ttl: int)
      requires ttl > 0
      ensures this.ttl == ttl && store == map[]
    {
      this.ttl, store := ttl, map[];
    }

    method Live(key: string, now: int) returns (r: Option<V>)
      modifies this
      ensures r == Lookup(ttl, old(store), key, now)
      ensures store == AfterLookup(ttl, old(store), key, now)
    {
      if key !in store { return None; }
      var entry := store[key];
      if now - entry.storedAt >= ttl {
        store := store - {key};
        return None;
      }
      return Some(entry.value);
    }

    method Set(key: string, value: V, now: int)
      modifies this
      ensures store == old(store)[key := Entry(now, value)]
    {
      store := store[key := Entry(now, value)];
    }

    method GetForPacket(packet: Packet, now: int) returns (r: Option<V>)
      modifies this
      ensures var key := NamespaceKey(packet);
              if key.None? then r == None && store == old(store)
              else r == Lookup(ttl, old(store), key.value, now) && store == AfterLookup(ttl, old(store), key.value, now)
    {
      var key := NamespaceKey(packet);
      if key.None? { return None; }
      r := Live(key.value, now);
    }

    method SetForPacket(packet: Packet, value: V, now: int) returns (cached: bool)
      modifies this
      ensures var key := NamespaceKey(packet);
              if key.None? then !cached && store == old(store)
              else cached && store == old(store)[key.value := Entry(now, value)]
    {
      var key := NamespaceKey(packet);
      if key.None? { return false; }
      Set(key.value, value, now);
      return true;
    }
  }

  // ---------- the delete-on-read store refines "last set wins until its time to live" ----------

  /** A lookup leaves nothing stale under its key: the entry is there afterwards exactly when it answers, and others are untouched. */
  lemma ReadDropsStale<V>(ttl: int, store: Store<V>, key: string, now: int, other: string)
    ensures var after := AfterLookup(ttl, store, key, now);
            && (key in after <==> Lookup(ttl, store, key, now).Some?)
            && (key in after ==> now - after[key].storedAt < ttl && Lookup(ttl, store, key, now) == Some(after[key].value))
            && (other != key ==> (other in after <==> other in store) && (other in after ==> after[other] == store[other]))
  {
  }

  datatype Op<V> = GetAt(key: string, now: int) | SetAt(key: string, now: int, value: V)

  function Apply<V>(ttl: int, store: Store<V>, op: Op<V>): Store<V> {
    match op
    case GetAt(key, now) => AfterLookup(ttl, store, key, now)
    case SetAt(key, now, value) => store[key := Entry(now, value)]
  }

  function Replay<V>(ttl: int, ops: seq<Op<V>>): Store<V> {
    if ops == [] then map[] else Apply(ttl, Replay(ttl, ops[..|ops| - 1]), ops[|ops| - 1])
  }

  predicate Nondecreasing<V>(ops: seq<Op<V>>) {
    forall i, j :: 0 <= i < j < |ops| ==> ops[i].now <= ops[j].now
  }

  function LastSet<V>(ops: seq<Op<V>>, key: string): Option<Entry<V>> {
    if ops == [] then None else
      var last := ops[|ops| - 1];
      if last.SetAt? && last.key == key then Some(Entry(last.now, last.value)) else LastSet(ops[..|ops| - 1], key)
  }

  function RuleLookup<V>(ttl: int, ops: seq<Op<V>>, key: string, now: int): Option<V> {
    var last := LastSet(ops, key);
    if last.Some? && now - last.value.storedAt < ttl then Some(last.value.value) else None
  }

  lemma {:induction false} StoreKeepsLastSet<V>(ttl: int, ops: seq<Op<V>>, key: string)
    requires Nondecreasing(ops)
    ensures var store, last := Replay(ttl, ops), LastSet(ops, key);
            if key in store then last == Some(store[key])
            else last.Some? ==> ops[|ops| - 1].now - last.value.storedAt >= ttl
    ensures LastSet(ops, key).Some? ==> ops != []
  {
    if ops != [] { StoreKeepsLastSet(ttl, ops[..|ops| - 1], key); }
  }

  /** Over every run with a nondecreasing clock a lookup returns the last value set, until its time to live is over. */
  lemma StoreRefinesLastSet<V>(ttl: int, ops: seq<Op<V>>, key: string, now: int)
    requires Nondecreasing(ops) && (ops != [] ==> ops[|ops| - 1].now <= now)
    ensures Lookup(ttl, Replay(ttl, ops), key, now) == RuleLookup(ttl, ops, key, now)
  {
    StoreKeepsLastSet(ttl, ops, key);
  }
}
