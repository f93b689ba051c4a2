/** The policy configuration: its entities, what `Config::validate` accepts, and the list of DNS
    upstreams in use. Socket-address parsing is a parameter. */
module Config {
  import opened Text
  import opened Domain

  type u16 = x: int | 0 <= x < 0x1_0000
  type u32 = x: int | 0 <= x < 0x1_0000_0000
  type u64 = x: int | 0 <= x < 0x1_0000_0000_0000_0000

  datatype SockAddr = SockAddr(host: string, port: u16)

  datatype EgressKind = Direct | Wireguard | Tunnel

  datatype Egress = Egress(
    enabled: bool,
    name: string,
    kind: EgressKind,
    gateway: Option<string>,
    sourceIp: Option<string>,
    table: u32,
    fwmark: u32,
    priority: u32)

  datatype MatchSpec = MatchSpec(
    destIp: Option<string>,
    destCidr: Option<string>,
    uid: Option<u32>,
    domain: Option<string>)

  datatype Policy = Policy(id: string, enabled: bool, spec: MatchSpec, egress: string)

  datatype CacheConfig = CacheConfig(
    enabled: bool,
    path: string,
    ttl: u64,
    grace: u64,
    failClosedUnresolved: bool,
    unresolvedMode: string,
    interceptionEnabled: bool)

  datatype InterceptConfig = InterceptConfig(
    enabled: bool,
    listenAddr: string,
    upstreamAddr: string,
    upstreams: seq<string>,
    timeoutMs: u64,
    cacheAnswers: bool,
    denyUnresolved: bool,
    denyAaaa: bool)

  datatype Config = Config(
    version: u32,
    intervalSec: u64,
    failClosed: bool,
    autoRefresh: bool,
    cache: CacheConfig,
    intercept: InterceptConfig,
    wifiInterface: string,
    egresses: seq<Egress>,
    policies: seq<Policy>)

  function OrEmpty(o: Option<string>): string {
    if o.Some? then o.value else []
  }

  predicate Blank(s: string) { Trim(s) == [] }

  // ---------------------------------------------------------------- validation

  const ALLOW_STALE := "allow_stale"
  const SOFT_MODE := "soft_fail_closed_l3"
  const HARD_MODE := "hard_fail_closed_dns_required"

  /** The scalar settings validation demands. */
  predicate SettingsOk(c: Config, parse: string -> Option<SockAddr>) {
    var mode := Trim(c.cache.unresolvedMode);
    && c.version != 0 && c.intervalSec != 0 && c.cache.ttl != 0 && !Blank(c.cache.path)
    && c.intercept.timeoutMs != 0 && parse(c.intercept.listenAddr).Some?
    && (mode == SOFT_MODE || mode == ALLOW_STALE || mode == HARD_MODE)
    && (mode == HARD_MODE ==> c.cache.interceptionEnabled && c.intercept.enabled)
    && !Blank(c.wifiInterface) && c.egresses != []
  }

  predicate EgressOk(e: Egress) {
    && !Blank(e.name) && e.table != 0 && e.fwmark != 0
    && (e.kind == Direct ==> !Blank(OrEmpty(e.gateway)))
  }

  /** Names, route tables and marks are pairwise distinct. */
  ghost predicate EgressesDistinct(es: seq<Egress>) {
    forall i, j :: 0 <= i < j < |es| ==>
      es[i].name != es[j].name && es[i].table != es[j].table && es[i].fwmark != es[j].fwmark
  }

  predicate HasMatch(m: MatchSpec) {
    m.destIp.Some? || m.destCidr.Some? || m.uid.Some? || m.domain.Some?
  }

  function Names(es: seq<Egress>): set<string> { set e <- es :: e.name }

  function EnabledNames(es: seq<Egress>): set<string> { set e <- es | e.enabled :: e.name }

  predicate PolicyOk(p: Policy, names: set<string>, enabledNames: set<string>) {
    && !Blank(p.id) && HasMatch(p.spec)
    && (p.spec.domain.Some? ==> KeyOf(p) != [])
    && p.egress in names && (p.enabled ==> p.egress in enabledNames)
  }

  predicate EnabledDomain(p: Policy) { p.enabled && p.spec.domain.Some? }

  /** The key of the duplicate check, empty for a policy without a domain. */
  function KeyOf(p: Policy): string {
    if p.spec.domain.Some? then ValidateKey(p.spec.domain.value) else []
  }

  /** Ids are distinct, and so are the duplicate-check keys of the enabled domain policies. */
  ghost predicate PoliciesDistinct(ps: seq<Policy>) {
    && (forall i, j :: 0 <= i < j < |ps| ==> ps[i].id != ps[j].id)
    && (forall i, j :: 0 <= i < j < |ps| && EnabledDomain(ps[i]) && EnabledDomain(ps[j]) ==>
      KeyOf(ps[i]) != KeyOf(ps[j]))
  }

  ghost predicate Valid(c: Config, parse: string -> Option<SockAddr>) {
    && SettingsOk(c, parse)
    && (forall e :: e in c.egresses ==> EgressOk(e)) && EgressesDistinct(c.egresses)
    && (forall p :: p in c.policies ==> PolicyOk(p, Names(c.egresses), EnabledNames(c.egresses)))
      && PoliciesDistinct(c.policies)
  }

  /** `Config::validate`: one pass over the egresses and one over the policies, with hash sets
      of what was seen. It accepts exactly the `Valid` configurations. */
  method Validate(c: Config, parse: string -> Option<SockAddr>) returns (ok: bool)
    ensures ok <==> Valid(c, parse)
  {
    if !SettingsOk(c, parse) { return false; }
    ok := ValidateEgresses(c.egresses);
    EgressLoopExact(c.egresses);
    if !ok { return; }
    ok := ValidatePolicies(c.policies, Names(c.egresses), EnabledNames(c.egresses));
    AllUnseenIsDistinct(c.policies);
    AllOkIsForall(c.policies, Names(c.egresses), EnabledNames(c.egresses));
  }

  /** The three hash sets after n egresses. */
  datatype Seen = Seen(names: set<string>, tables: set<u32>, marks: set<u32>) {
    predicate Has(e: Egress) { e.name in names || e.table in tables || e.fwmark in marks }

    function With(e: Egress): Seen { Seen(names + {e.name}, tables + {e.table}, marks + {e.fwmark}) }
  }

  function SeenBy(es: seq<Egress>, n: nat): Seen
    requires n <= |es|
  {
    if n == 0 then Seen({}, {}, {}) else SeenBy(es, n - 1).With(es[n - 1])
  }

  /** No insertion among the first n egresses found its value in a set. */
  predicate NoneSeen(es: seq<Egress>, n: nat)
    requires n <= |es|
  {
    n == 0 || (NoneSeen(es, n - 1) && !SeenBy(es, n - 1).Has(es[n - 1]))
  }

  predicate EgressesOk(es: seq<Egress>, n: nat)
    requires n <= |es|
  {
    n == 0 || (EgressesOk(es, n - 1) && EgressOk(es[n - 1]))
  }

  lemma {:induction false} SeenExact(es: seq<Egress>, n: nat, e: Egress)
    requires n <= |es|
    ensures SeenBy(es, n).Has(e) <==>
      exists k :: 0 <= k < n && (es[k].name == e.name || es[k].table == e.table || es[k].fwmark == e.fwmark)
  {
    if n > 0 { SeenExact(es, n - 1, e); }
  }

  lemma DistinctEgressStep(es: seq<Egress>, n: nat)
    requires 0 < n <= |es|
    ensures EgressesDistinct(es[..n]) <==> EgressesDistinct(es[..n - 1]) && !SeenBy(es, n - 1).Has(es[n - 1])
  {
    SeenExact(es, n - 1, es[n - 1]);
    assert es[..n] == es[..n - 1] + [es[n - 1]];
    assert forall k :: 0 <= k < n - 1 ==> es[..n - 1][k] == es[k] == es[..n][k];
  }

  lemma {:induction false} NoneSeenExact(es: seq<Egress>, n: nat)
    requires n <= |es|
    ensures NoneSeen(es, n) <==> EgressesDistinct(es[..n])
  {
    if n > 0 {
      NoneSeenExact(es, n - 1);
      DistinctEgressStep(es, n);
    }
  }

  lemma {:induction false} EgressesOkExact(es: seq<Egress>, n: nat)
    requires n <= |es|
    ensures EgressesOk(es, n) <==> forall k :: 0 <= k < n ==> EgressOk(es[k])
  {
    if n > 0 { EgressesOkExact(es, n - 1); }
  }

  lemma EgressLoopExact(es: seq<Egress>)
    ensures EgressesOk(es, |es|) <==> forall e :: e in es ==> EgressOk(e)
    ensures NoneSeen(es, |es|) <==> EgressesDistinct(es)
    ensures forall n :: 0 <= n <= |es| && !EgressesOk(es, n) ==> !EgressesOk(es, |es|)
    ensures forall n :: 0 <= n <= |es| && !NoneSeen(es, n) ==> !NoneSeen(es, |es|)
  {
    EgressesOkExact(es, |es|);
    NoneSeenExact(es, |es|);
    assert es[..|es|] == es;
    forall n | 0 <= n <= |es| && !EgressesOk(es, n) ensures !EgressesOk(es, |es|) { EgressesOkExact(es, n); }
    forall n | 0 <= n <= |es| && !NoneSeen(es, n) ensures !NoneSeen(es, |es|) { NoneSeenExact(es, n); }
  }

  method ValidateEgresses(es: seq<Egress>) returns (ok: bool)
    ensures ok == (EgressesOk(es, |es|) && NoneSeen(es, |es|))
  {
    EgressLoopExact(es);
    var names: set<string>, tables: set<u32>, marks: set<u32> := {}, {}, {};
    for i := 0 to |es|
      invariant Seen(names, tables, marks) == SeenBy(es, i) && EgressesOk(es, i) && NoneSeen(es, i)
    {
      var e := es[i];
      if e.name in names || e.table in tables || e.fwmark in marks { assert !NoneSeen(es, i + 1); return false; }
      if !EgressOk(e) { assert !EgressesOk(es, i + 1); return false; }
      names, tables, marks := names + {e.name}, tables + {e.table}, marks + {e.fwmark};
    }
    return true;
  }

  /** The two hash sets after n policies, and whether no insertion so far found its value there. */
  function Ids(ps: seq<Policy>, n: nat): set<string>
    requires n <= |ps|
  {
    if n == 0 then {} else Ids(ps, n - 1) + {ps[n - 1].id}
  }

  function EnabledKeys(ps: seq<Policy>, n: nat): set<string>
    requires n <= |ps|
  {
    if n == 0 then {} else EnabledKeys(ps, n - 1) + if EnabledDomain(ps[n - 1]) then {KeyOf(ps[n - 1])} else {}
  }

  predicate Unseen(ps: seq<Policy>, n: nat)
    requires n < |ps|
  {
    ps[n].id !in Ids(ps, n) && (EnabledDomain(ps[n]) ==> KeyOf(ps[n]) !in EnabledKeys(ps, n))
  }

  lemma {:induction false} SetsExact(ps: seq<Policy>, n: nat)
    requires n <= |ps|
    ensures forall x :: x in Ids(ps, n) <==> exists k :: 0 <= k < n && ps[k].id == x
    ensures forall x :: x in EnabledKeys(ps, n) <==> exists k :: 0 <= k < n && EnabledDomain(ps[k]) && KeyOf(ps[k]) == x
  {
    if n > 0 { SetsExact(ps, n - 1); }
  }

  lemma DistinctIffUnseen(ps: seq<Policy>)
    ensures PoliciesDistinct(ps) <==> forall n {:trigger Unseen(ps, n)} :: 0 <= n < |ps| ==> Unseen(ps, n)
  {
    forall n | 0 <= n < |ps|
      ensures Unseen(ps, n) <==> forall k :: 0 <= k < n ==>
        ps[k].id != ps[n].id && (EnabledDomain(ps[k]) && EnabledDomain(ps[n]) ==> KeyOf(ps[k]) != KeyOf(ps[n]))
    {
      SetsExact(ps, n);
    }
  }

  /** No insertion among the first n policies found its value in a set. */
  predicate AllUnseen(ps: seq<Policy>, n: nat)
    requires n <= |ps|
  {
    n == 0 || (AllUnseen(ps, n - 1) && Unseen(ps, n - 1))
  }

  lemma {:induction false} AllUnseenExact(ps: seq<Policy>, n: nat)
    requires n <= |ps|
    ensures AllUnseen(ps, n) <==> forall k {:trigger Unseen(ps, k)} :: 0 <= k < n ==> Unseen(ps, k)
  {
    if n > 0 { AllUnseenExact(ps, n - 1); }
  }

  lemma AllUnseenIsDistinct(ps: seq<Policy>)
    ensures AllUnseen(ps, |ps|) <==> PoliciesDistinct(ps)
  {
    AllUnseenExact(ps, |ps|);
    DistinctIffUnseen(ps);
  }

  predicate AllOk(ps: seq<Policy>, n: nat, names: set<string>, enabledNames: set<string>)
    requires n <= |ps|
  {
    n == 0 || (AllOk(ps, n - 1, names, enabledNames) && PolicyOk(ps[n - 1], names, enabledNames))
  }

  lemma {:induction false} AllOkAt(ps: seq<Policy>, n: nat, i: nat, names: set<string>, enabledNames: set<string>)
    requires i < n <= |ps| && AllOk(ps, n, names, enabledNames)
    ensures PolicyOk(ps[i], names, enabledNames)
  {
    if i < n - 1 { AllOkAt(ps, n - 1, i, names, enabledNames); }
  }

  lemma {:induction false} AllOkFrom(ps: seq<Policy>, n: nat, names: set<string>, enabledNames: set<string>)
    requires n <= |ps| && forall p :: p in ps ==> PolicyOk(p, names, enabledNames)
    ensures AllOk(ps, n, names, enabledNames)
  {
    if n > 0 {
      AllOkFrom(ps, n - 1, names, enabledNames);
      assert ps[n - 1] in ps;
    }
  }

  lemma AllOkIsForall(ps: seq<Policy>, names: set<string>, enabledNames: set<string>)
    ensures AllOk(ps, |ps|, names, enabledNames) <==> forall p :: p in ps ==> PolicyOk(p, names, enabledNames)
  {
    if AllOk(ps, |ps|, names, enabledNames) {
      forall p | p in ps ensures PolicyOk(p, names, enabledNames) {
        var i :| 0 <= i < |ps| && ps[i] == p;
        AllOkAt(ps, |ps|, i, names, enabledNames);
      }
    } else if forall p :: p in ps ==> PolicyOk(p, names, enabledNames) {
      AllOkFrom(ps, |ps|, names, enabledNames);
    }
  }

  lemma NotAllOk(ps: seq<Policy>, i: nat, names: set<string>, enabledNames: set<string>)
    requires i < |ps| && !PolicyOk(ps[i], names, enabledNames)
    ensures !AllOk(ps, |ps|, names, enabledNames)
  {
    if AllOk(ps, |ps|, names, enabledNames) { AllOkAt(ps, |ps|, i, names, enabledNames); }
  }

  lemma NotAllUnseen(ps: seq<Policy>, i: nat)
    requires i < |ps| && !Unseen(ps, i)
    ensures !AllUnseen(ps, |ps|)
  {
    AllUnseenExact(ps, |ps|);
  }

  /** The policy passes: its fields are in order and neither set has its value. */
  predicate Passes(p: Policy, ids: set<string>, keys: set<string>, names: set<string>, enabledNames: set<string>) {
    PolicyOk(p, names, enabledNames) && p.id !in ids && (EnabledDomain(p) ==> KeyOf(p) !in keys)
  }

  lemma PassNext(ps: seq<Policy>, i: nat, names: set<string>, enabledNames: set<string>)
    requires i < |ps| && AllUnseen(ps, i) && AllOk(ps, i, names, enabledNames)
    ensures if Passes(ps[i], Ids(ps, i), EnabledKeys(ps, i), names, enabledNames)
      then AllUnseen(ps, i + 1) && AllOk(ps, i + 1, names, enabledNames)
      else !(AllOk(ps, |ps|, names, enabledNames) && AllUnseen(ps, |ps|))
  {
    if !PolicyOk(ps[i], names, enabledNames) { NotAllOk(ps, i, names, enabledNames); }
    if !Unseen(ps, i) { NotAllUnseen(ps, i); }
  }

  method ValidatePolicies(ps: seq<Policy>, names: set<string>, enabledNames: set<string>) returns (ok: bool)
    ensures ok == (AllOk(ps, |ps|, names, enabledNames) && AllUnseen(ps, |ps|))
  {
    var ids: set<string>, keys: set<string> := {}, {};
    for i := 0 to |ps|
      invariant ids == Ids(ps, i) && keys == EnabledKeys(ps, i)
      invariant AllUnseen(ps, i) && AllOk(ps, i, names, enabledNames)
    {
      var p := ps[i];
      PassNext(ps, i, names, enabledNames);
      if !PolicyOk(p, names, enabledNames) || p.id in ids { return false; }
      ids := ids + {p.id};
      if EnabledDomain(p) {
        if KeyOf(p) in keys { return false; }
        keys := keys + {KeyOf(p)};
      }
    }
    return true;
  }

  /** No two enabled policies resolve the same name. */
  ghost predicate DomainsDistinct(ps: seq<Policy>) {
    forall i, j ::
      0 <= i < j < |ps| && EnabledDomain(ps[i]) && EnabledDomain(ps[j]) && Normalize(ps[i].spec.domain.value).Some? ==>
      Normalize(ps[i].spec.domain.value) != Normalize(ps[j].spec.domain.value)
  }

  /** Validation guarantees it for names that are free of KELVIN SIGN. */
  lemma ValidDomainsDistinct(c: Config, parse: string -> Option<SockAddr>)
    requires Valid(c, parse)
    requires forall p :: p in c.policies && EnabledDomain(p) ==> KELVIN !in Bare(p.spec.domain.value)
    ensures DomainsDistinct(c.policies)
  {
    var ps := c.policies;
    forall i, j | 0 <= i < j < |ps| && EnabledDomain(ps[i]) && EnabledDomain(ps[j])
      && Normalize(ps[i].spec.domain.value).Some?
      ensures Normalize(ps[i].spec.domain.value) != Normalize(ps[j].spec.domain.value)
    {
      assert ps[i] in ps && ps[j] in ps && KeyOf(ps[i]) != KeyOf(ps[j]);
      NormalizersAgree(ps[i].spec.domain.value);
      if Normalize(ps[j].spec.domain.value).Some? { NormalizersAgree(ps[j].spec.domain.value); }
    }
  }

  // ---------------------------------------------------------------- upstreams

  /** `configured_upstream_entries`. */
  function ConfiguredEntries(c: InterceptConfig): seq<string> {
    if c.upstreams != [] then c.upstreams
    else if !Blank(c.upstreamAddr) then [c.upstreamAddr]
    else []
  }

  /** The addresses of the entries that parse, in order and with duplicates. */
  function Parsed(entries: seq<string>, parse: string -> Option<SockAddr>): seq<SockAddr> {
    if entries == [] then []
    else
      var init, last := Parsed(entries[..|entries| - 1], parse), Trim(entries[|entries| - 1]);
      if last != [] && parse(last).Some? then init + [parse(last).value] else init
  }

  /** `malformed_upstream_entries`. */
  function MalformedEntries(entries: seq<string>, parse: string -> Option<SockAddr>): seq<string> {
    if entries == [] then []
    else
      var init, last := MalformedEntries(entries[..|entries| - 1], parse), entries[|entries| - 1];
      if !Blank(last) && parse(Trim(last)).None? then init + [last] else init
  }

  /** The first occurrences, in order. */
  function Dedup<T(==)>(xs: seq<T>): seq<T> {
    if xs == [] then []
    else
      var init, last := Dedup(xs[..|xs| - 1]), xs[|xs| - 1];
      if last in init then init else init + [last]
  }

  /** `effective_upstreams`. */
  method EffectiveUpstreams(c: InterceptConfig, parse: string -> Option<SockAddr>) returns (upstreams: seq<SockAddr>)
    ensures upstreams == Dedup(Parsed(ConfiguredEntries(c), parse))
  {
    var entries := ConfiguredEntries(c);
    var seen: set<SockAddr> := {};
    upstreams := [];
    for i := 0 to |entries|
      invariant upstreams == Dedup(Parsed(entries[..i], parse))
      invariant forall a :: a in seen <==> a in upstreams
    {
      assert entries[..i + 1][..i] == entries[..i];
      var trimmed := Trim(entries[i]);
      if trimmed == [] { continue; }
      match parse(trimmed)
      case Some(addr) =>
        ghost var grown := Parsed(entries[..i], parse) + [addr];
        assert grown[..|grown| - 1] == Parsed(entries[..i], parse);
        if addr !in seen {
          seen := seen + {addr};
          upstreams := upstreams + [addr];
        }
      case None =>
    }
    assert entries[..|entries|] == entries;
  }

  function FirstIndex<T(==)>(xs: seq<T>, x: T): (i: nat)
    requires x in xs
    ensures i < |xs| && xs[i] == x && x !in xs[..i]
  {
    if xs[0] == x then 0
    else
      assert xs == [xs[0]] + xs[1..];
      var i := FirstIndex(xs[1..], x);
      assert xs[..i + 1] == [xs[0]] + xs[1..][..i];
      i + 1
  }

  lemma FirstIndexUnique<T>(xs: seq<T>, x: T, i: nat)
    requires i < |xs| && xs[i] == x && x !in xs[..i]
    ensures x in xs && FirstIndex(xs, x) == i
  {
    var j := FirstIndex(xs, x);
    assert forall k :: 0 <= k < i ==> xs[..i][k] == xs[k];
    assert forall k :: 0 <= k < j ==> xs[..j][k] == xs[k];
  }

  /** `Dedup` keeps exactly the elements, each once, ordered by first occurrence. */
  lemma {:induction false} DedupExact<T>(xs: seq<T>)
    ensures forall x :: x in Dedup(xs) <==> x in xs
    ensures OrderedByFirst(Dedup(xs), xs)
  {
    if xs != [] {
      var init, last := xs[..|xs| - 1], xs[|xs| - 1];
      DedupExact(init);
      assert xs == init + [last];
      forall x | x in init ensures FirstIndex(xs, x) == FirstIndex(init, x) {
        var i := FirstIndex(init, x);
        assert xs[..i] == init[..i];
        FirstIndexUnique(xs, x, i);
      }
      if last !in Dedup(init) {
        FirstIndexUnique(xs, last, |init|);
      }
    }
  }

  ghost predicate OrderedByFirst<T>(r: seq<T>, xs: seq<T>) {
    && (forall i :: 0 <= i < |r| ==> r[i] in xs)
    && (forall i, j :: 0 <= i < j < |r| ==> FirstIndex(xs, r[i]) < FirstIndex(xs, r[j]))
  }

  /** Every configured entry is used, reported as malformed, or blank. */
  lemma {:induction false} EntriesAccounted(entries: seq<string>, parse: string -> Option<SockAddr>)
    ensures |Parsed(entries, parse)| + |MalformedEntries(entries, parse)| + |Blanks(entries)| == |entries|
    ensures forall m :: m in MalformedEntries(entries, parse) <==> m in entries && !Blank(m) && parse(Trim(m)).None?
  {
    if entries != [] {
      EntriesAccounted(entries[..|entries| - 1], parse);
      assert entries == entries[..|entries| - 1] + [entries[|entries| - 1]];
    }
  }

  ghost function Blanks(entries: seq<string>): seq<string> {
    if entries == [] then []
    else Blanks(entries[..|entries| - 1]) + if Blank(entries[|entries| - 1]) then [entries[|entries| - 1]] else []
  }
}
