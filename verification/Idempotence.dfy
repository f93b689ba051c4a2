/** Exactly which configurations reconcile idempotently for all inputs at one time: those without a
    cache or without two enabled policies for one name. With two, the first policy can find in the cache,
    the second time, what only the second policy's lookup found the first time. */
module Idempotence {
  import opened Text
  import opened Domain
  import opened Config
  import opened Kernel
  import opened Reconcile
  import opened Safety
  import opened Compile
  import opened Progress
  import opened Dangling
  import opened Repeat
  import opened CacheSystem
  import Cache

  /** All policies are resolved at one reading of the clock. */
  ghost predicate OneClock(inp: Inputs) { forall k :: inp.dns(k).now == inp.dns(0).now }

  /** Doing it again at the same time never changes the kernel. */
  ghost predicate Idempotent(c: Config) {
    forall w, inp, order, fails {:trigger BackToBack(w, c, inp, order, fails)} ::
      BackToBack(w, c, inp, order, fails) && OneClock(inp) ==>
      ReconcileOnce(ReconcileOnce(w, c, inp), c, Anew(inp, order, fails)).k == ReconcileOnce(w, c, inp).k
  }

  lemma {:induction false} IdempotentIffRepeatable(c: Config, parse: string -> Option<SockAddr>)
    requires Valid(c, parse)
    ensures Idempotent(c) <==> Repeatable(c)
  {
    if Repeatable(c) {
      forall w, inp, order, fails | BackToBack(w, c, inp, order, fails) && OneClock(inp)
        ensures ReconcileOnce(ReconcileOnce(w, c, inp), c, Anew(inp, order, fails)).k == ReconcileOnce(w, c, inp).k
      {
        ReconcileIsIdempotent(w, c, parse, inp, order, fails);
      }
    } else {
      var ps := c.policies;
      var i, j :| 0 <= i < j < |ps| && EnabledDomain(ps[i]) && EnabledDomain(ps[j])
        && Normalize(ps[i].spec.domain.value).Some?
        && Normalize(ps[i].spec.domain.value) == Normalize(ps[j].spec.domain.value);
      TwoForOneName(c, parse, i, j);
    }
  }

  // ---------------------------------------------------------------- a run that is not idempotent

  const FOUND := "192.0.2.1"

  const NOT_FOUND: Cache.CallEnv := Cache.CallEnv(0, Cache.Failed("lookup failed"), false, false)

  const ONE_FOUND: Cache.CallEnv := Cache.CallEnv(0, Cache.Found([FOUND]), false, false)

  function Named(es: seq<Egress>, name: string): Egress
    requires es != []
  {
    if es[0].name == name || |es| == 1 then es[0] else Named(es[1..], name)
  }

  lemma {:induction false} NamedIs(es: seq<Egress>, e: Egress)
    requires EgressesDistinct(es) && e in es
    ensures Named(es, e.name) == e
  {
    if es[0].name == e.name {
      NameIdentifies(es, es[0], e);
    } else {
      assert es == [es[0]] + es[1..];
      NamedIs(es[1..], e);
    }
  }

  /** Everything is up and as configured and no command fails; only the lookup for the policy at j finds
      an address, all at one time. */
  function OnlyFoundAt(c: Config, order: seq<string>, j: nat): Inputs
    requires c.egresses != []
  {
    Inputs(
      true,
      _ => true,
      n => Some(AsConfigured(Named(c.egresses, n))),
      order,
      k => if k == j then ONE_FOUND else NOT_FOUND,
      _ => false)
  }

  lemma {:induction false} OrderOf(m: map<string, Egress>, keys: set<string>) returns (order: seq<string>)
    requires keys <= m.Keys
    ensures (forall n :: n in order <==> n in keys) && forall i, j :: 0 <= i < j < |order| ==> order[i] != order[j]
    decreases |keys|
  {
    order := [];
    if keys != {} {
      var n :| n in keys;
      var rest := OrderOf(m, keys - {n});
      order := [n] + rest;
      assert forall x :: x in order <==> x == n || x in rest;
    }
  }

  lemma AllUsable(c: Config, inp: Inputs, j: nat)
    requires EgressesDistinct(c.egresses) && c.egresses != [] && inp == OnlyFoundAt(c, inp.order, j)
    ensures HealthyMap(c.egresses, c.autoRefresh, inp).Ok?
    ensures forall e :: e in c.egresses && e.enabled ==> e.name in HealthyMap(c.egresses, c.autoRefresh, inp).value
  {
    forall e | e in c.egresses && Healthy(e, inp) ensures Prepared(e, c.autoRefresh, inp) == Ok(e) {
      NamedIs(c.egresses, e);
      AsConfiguredIsInSync(e);
    }
    UsableMap(c.egresses, c.autoRefresh, inp);
    HealthyMapExact(c.egresses, c.autoRefresh, inp);
    assert forall e :: e in c.egresses && e.enabled ==> Healthy(e, inp);
  }

  lemma OneSorted(ip: string)
    ensures UniqueSorted([ip]) == [ip]
  {
    assert [ip][..0] == [];
    assert UniqueSorted([ip][..0]) == [];
  }

  /** The policies are resolved as `OnlyFoundAt` says. */
  ghost predicate OnlyJ(c: Config, inp: Inputs, j: nat) {
    && inp.apply && c.cache.enabled && c.cache.ttl != 0
    && forall k :: inp.dns(k) == if k == j then ONE_FOUND else NOT_FOUND
  }

  /** The cache file after the one lookup that found something. */
  function FoundFile(cc: CacheConfig, d: string): Cache.CacheFile {
    Cache.Saved([Cache.LiveEntry(cc, d, [FOUND], 0, "live")])
  }

  /** A failed lookup against the missing file leaves it missing and finds nothing. */
  lemma NothingFound(cc: CacheConfig, name: string)
    requires cc.enabled
    ensures var o := Cache.Resolve(cc, None, name, true, Cache.PreferFresh, NOT_FOUND);
      o.file == None && (o.result.Ok? ==> o.result.value.ips == [])
  {}

  /** The lookup that finds something stores it. */
  lemma FoundOnce(cc: CacheConfig, name: string, d: string)
    requires cc.enabled && Normalize(name) == Some(d)
    ensures Cache.Resolve(cc, None, name, true, Cache.PreferFresh, ONE_FOUND).file == FoundFile(cc, d)
  {}

  lemma StoredFound(cc: CacheConfig, d: string, x: string)
    requires cc.ttl != 0
    ensures Stored(FoundFile(cc, d), x).Some? <==> x == d
    ensures var s := Stored(FoundFile(cc, d), d); s.Some? && s.value.ips == [FOUND] && Cache.Fresh(s.value, 0)
  {
    OneSorted(FOUND);
    StoredAfterSave([Cache.LiveEntry(cc, d, [FOUND], 0, "live")], x);
    StoredAfterSave([Cache.LiveEntry(cc, d, [FOUND], 0, "live")], d);
  }

  /** Afterwards it is found fresh for its name, and lookups for other names find nothing; the file stays. */
  lemma FoundAgain(cc: CacheConfig, name: string, d: string, env: Cache.CallEnv)
    requires cc.enabled && cc.ttl != 0 && (env == NOT_FOUND || (env == ONE_FOUND && Normalize(name) == Some(d)))
    ensures var o := Cache.Resolve(cc, FoundFile(cc, d), name, true, Cache.PreferFresh, env);
      && o.file == FoundFile(cc, d) && (o.result.Ok? <==> Normalize(name).Some?)
      && (o.result.Ok? ==> o.result.value.ips == if Normalize(name) == Some(d) then [FOUND] else [])
  {
    StoredFound(cc, d, d);
    if Normalize(name).Some? { StoredFound(cc, d, Normalize(name).value); }
  }

  /** Up to the policy at j the file is missing, and after it holds what that policy's lookup found. */
  lemma {:induction false} FilesFirst(c: Config, inp: Inputs, m: map<string, Egress>, j: nat, n: nat, d: string)
    requires OnlyJ(c, inp, j) && j < |c.policies| && n <= |c.policies| && Asks(c, m, j)
    requires Normalize(c.policies[j].spec.domain.value) == Some(d)
    ensures FileAt(c, inp, m, None, n) == if n <= j then None else FoundFile(c.cache, d)
  {
    if n > 0 {
      FilesFirst(c, inp, m, j, n - 1, d);
      if Asks(c, m, n - 1) {
        var name := c.policies[n - 1].spec.domain.value;
        if n - 1 < j { NothingFound(c.cache, name); }
        else if n - 1 == j { FoundOnce(c.cache, name, d); }
        else { FoundAgain(c.cache, name, d, NOT_FOUND); }
      }
    }
  }

  /** From then on the file does not change. */
  lemma {:induction false} FilesAgain(c: Config, inp: Inputs, m: map<string, Egress>, j: nat, n: nat, d: string)
    requires OnlyJ(c, inp, j) && j < |c.policies| && n <= |c.policies| && Asks(c, m, j)
    requires Normalize(c.policies[j].spec.domain.value) == Some(d)
    ensures FileAt(c, inp, m, FoundFile(c.cache, d), n) == FoundFile(c.cache, d)
  {
    if n > 0 {
      FilesAgain(c, inp, m, j, n - 1, d);
      if Asks(c, m, n - 1) { FileStays(c, inp, m, j, n - 1, d); }
    }
  }

  lemma FileStays(c: Config, inp: Inputs, m: map<string, Egress>, j: nat, k: nat, d: string)
    requires OnlyJ(c, inp, j) && j < |c.policies| && k < |c.policies| && Asks(c, m, j) && Asks(c, m, k)
    requires Normalize(c.policies[j].spec.domain.value) == Some(d)
    ensures ResolvedAt(c, inp, FoundFile(c.cache, d), k).file == FoundFile(c.cache, d)
  {
    FoundAgain(c.cache, c.policies[k].spec.domain.value, d, inp.dns(k));
  }

  /** The second time a policy contributes at least as many rules as the first time; more, if it is for
      the name but comes before j. */
  lemma ContributesMore(c: Config, inp: Inputs, m: map<string, Egress>, j: nat, k: nat, d: string)
    requires OnlyJ(c, inp, j) && j < |c.policies| && k < |c.policies| && Asks(c, m, j)
    requires Normalize(c.policies[j].spec.domain.value) == Some(d)
    ensures var first, again := Contribution(c, inp, m, None, k), Contribution(c, inp, m, FoundFile(c.cache, d), k);
      && |first| <= |again|
      && (k < j && Asks(c, m, k) && Normalize(c.policies[k].spec.domain.value) == Some(d) ==> |first| < |again|)
  {
    FilesFirst(c, inp, m, j, k, d);
    FilesAgain(c, inp, m, j, k, d);
    if Asks(c, m, k) {
      var p := c.policies[k];
      FoundAgain(c.cache, p.spec.domain.value, d, inp.dns(k));
      if k < j { NothingFound(c.cache, p.spec.domain.value); }
      if k == j { FoundJ(c.cache, p.spec.domain.value, d); }
      if k > j { FoundAgain(c.cache, p.spec.domain.value, d, NOT_FOUND); }
      OneAddressRule(p.spec, m[p.egress].fwmark, [FOUND]);
    }
  }

  lemma FoundJ(cc: CacheConfig, name: string, d: string)
    requires cc.enabled && Normalize(name) == Some(d)
    ensures var r := Cache.Resolve(cc, None, name, true, Cache.PreferFresh, ONE_FOUND).result;
      r.Ok? && r.value.ips == [FOUND]
  {
    OneSorted(FOUND);
  }

  lemma OneAddressRule(s: MatchSpec, mark: u32, ips: seq<string>)
    requires |ips| == 1
    ensures AddressRules(s, mark, ips) == [ChainRule(Some(ips[0]), s.uid, mark)]
  {
    assert ips[1..] == [];
  }

  /** By how many rules the second chain is ahead of the first after n policies. */
  function Lead(c: Config, inp: Inputs, m: map<string, Egress>, n: nat, d: string): int
    requires n <= |c.policies|
  {
    |Compiled(c, inp, m, FoundFile(c.cache, d), n)| - |Compiled(c, inp, m, None, n)|
  }

  lemma LeadGrows(c: Config, inp: Inputs, m: map<string, Egress>, j: nat, k: nat, d: string)
    requires OnlyJ(c, inp, j) && j < |c.policies| && k < |c.policies| && Asks(c, m, j)
    requires Normalize(c.policies[j].spec.domain.value) == Some(d)
    ensures Lead(c, inp, m, k, d) <= Lead(c, inp, m, k + 1, d)
    ensures k < j && Asks(c, m, k) && Normalize(c.policies[k].spec.domain.value) == Some(d) ==>
      Lead(c, inp, m, k, d) < Lead(c, inp, m, k + 1, d)
  {
    ContributesMore(c, inp, m, j, k, d);
    LengthNext(c, inp, m, None, k);
    LengthNext(c, inp, m, FoundFile(c.cache, d), k);
  }

  ghost predicate Rising(f: seq<int>) { forall a, b :: 0 <= a < b < |f| && b == a + 1 ==> f[a] <= f[b] }

  lemma {:induction false} Climbs(f: seq<int>, i: nat, n: nat)
    requires i < n < |f| && Rising(f) && f[i] < f[i + 1]
    ensures f[0] < f[n]
  {
    NeverBelow(f, 0, i);
    NeverBelow(f, i + 1, n);
  }

  lemma {:induction false} NeverBelow(f: seq<int>, a: nat, b: nat)
    requires Rising(f) && a <= b < |f|
    ensures f[a] <= f[b]
    decreases b
  {
    if a < b { NeverBelow(f, a, b - 1); }
  }

  /** The leads after 0, 1, .. up to all policies. */
  function Leads(c: Config, inp: Inputs, m: map<string, Egress>, n: nat, d: string): (leads: seq<int>)
    requires n <= |c.policies|
    ensures |leads| == n + 1 && forall k :: 0 <= k <= n ==> leads[k] == Lead(c, inp, m, k, d)
  {
    seq(n + 1, k requires 0 <= k <= n => Lead(c, inp, m, k, d))
  }

  lemma NeverFallBehind(c: Config, inp: Inputs, m: map<string, Egress>, j: nat, leads: seq<int>, d: string)
    requires OnlyJ(c, inp, j) && j < |c.policies| && Asks(c, m, j)
    requires Normalize(c.policies[j].spec.domain.value) == Some(d) && leads == Leads(c, inp, m, |c.policies|, d)
    ensures Rising(leads)
  {
    forall a, b | 0 <= a < b < |leads| && b == a + 1 ensures leads[a] <= leads[b] { LeadGrows(c, inp, m, j, a, d); }
  }

  lemma LengthNext(c: Config, inp: Inputs, m: map<string, Egress>, file: Cache.CacheFile, i: nat)
    requires i < |c.policies|
    ensures |Compiled(c, inp, m, file, i + 1)| == |Compiled(c, inp, m, file, i)| + |Contribution(c, inp, m, file, i)|
  {}

  lemma ChainsDiffer(c: Config, inp: Inputs, m: map<string, Egress>, i: nat, j: nat, d: string)
    requires OnlyJ(c, inp, j) && i < j < |c.policies| && Asks(c, m, i) && Asks(c, m, j)
    requires Normalize(c.policies[i].spec.domain.value) == Normalize(c.policies[j].spec.domain.value) == Some(d)
    ensures var n := |c.policies|;
      Compiled(c, inp, m, FileAt(c, inp, m, None, n), n) != Compiled(c, inp, m, None, n)
  {
    FilesFirst(c, inp, m, j, |c.policies|, d);
    var leads := Leads(c, inp, m, |c.policies|, d);
    NeverFallBehind(c, inp, m, j, leads, d);
    LeadGrows(c, inp, m, j, i, d);
    Climbs(leads, i, |c.policies|);
  }

  lemma EnabledAsks(c: Config, parse: string -> Option<SockAddr>, inp: Inputs, m: map<string, Egress>, j: nat, i: nat)
    requires Valid(c, parse) && i < |c.policies| && EnabledDomain(c.policies[i]) && inp == OnlyFoundAt(c, inp.order, j)
    requires HealthyMap(c.egresses, c.autoRefresh, inp) == Ok(m)
    ensures Asks(c, m, i)
  {
    var p := c.policies[i];
    assert p in c.policies && p.egress in EnabledNames(c.egresses);
    AllUsable(c, inp, j);
    var e :| e in c.egresses && e.enabled && e.name == p.egress;
  }

  /** Such a reconcile exists: it only takes some iteration order. */
  lemma FoundRun(c: Config, j: nat) returns (inp: Inputs, m: map<string, Egress>)
    requires EgressesDistinct(c.egresses) && c.egresses != []
    ensures inp == OnlyFoundAt(c, inp.order, j) && InputsOk(c, inp)
    ensures HealthyMap(c.egresses, c.autoRefresh, inp) == Ok(m)
  {
    var unordered := OnlyFoundAt(c, [], j);
    AllUsable(c, unordered, j);
    m := HealthyMap(c.egresses, c.autoRefresh, unordered).value;
    var order := OrderOf(m, m.Keys);
    inp := OnlyFoundAt(c, order, j);
    assert inp == Anew(unordered, order, inp.fails);
    MapAnew(c.egresses, c.autoRefresh, unordered, order, inp.fails);
  }

  lemma TwoForOneName(c: Config, parse: string -> Option<SockAddr>, i: nat, j: nat)
    requires Valid(c, parse) && c.cache.enabled && i < j < |c.policies|
    requires EnabledDomain(c.policies[i]) && EnabledDomain(c.policies[j])
      && Normalize(c.policies[i].spec.domain.value).Some?
    requires Normalize(c.policies[i].spec.domain.value) == Normalize(c.policies[j].spec.domain.value)
    ensures !Idempotent(c)
  {
    var inp, m := DifferentChains(c, parse, i, j);
    NotTheSame(c, parse, inp, m, j);
  }

  lemma DifferentChains(c: Config, parse: string -> Option<SockAddr>, i: nat, j: nat)
    returns (inp: Inputs, m: map<string, Egress>)
    requires Valid(c, parse) && c.cache.enabled && i < j < |c.policies|
    requires EnabledDomain(c.policies[i]) && EnabledDomain(c.policies[j])
      && Normalize(c.policies[i].spec.domain.value).Some?
    requires Normalize(c.policies[i].spec.domain.value) == Normalize(c.policies[j].spec.domain.value)
    ensures inp == OnlyFoundAt(c, inp.order, j) && InputsOk(c, inp)
    ensures HealthyMap(c.egresses, c.autoRefresh, inp) == Ok(m)
    ensures var n := |c.policies|; Compiled(c, inp, m, FileAt(c, inp, m, None, n), n) != Compiled(c, inp, m, None, n)
  {
    inp, m := FoundRun(c, j);
    EnabledAsks(c, parse, inp, m, j, i);
    EnabledAsks(c, parse, inp, m, j, j);
    ChainsDiffer(c, inp, m, i, j, Normalize(c.policies[i].spec.domain.value).value);
  }

  lemma NotTheSame(c: Config, parse: string -> Option<SockAddr>, inp: Inputs, m: map<string, Egress>, j: nat)
    requires Valid(c, parse) && inp == OnlyFoundAt(c, inp.order, j) && InputsOk(c, inp)
    requires HealthyMap(c.egresses, c.autoRefresh, inp) == Ok(m)
    requires var n := |c.policies|; Compiled(c, inp, m, FileAt(c, inp, m, None, n), n) != Compiled(c, inp, m, None, n)
    ensures !Idempotent(c)
  {
    ChainsRefute(c, parse, inp, m);
  }

  /** Inputs under which no command fails and the chains differ refute idempotence. */
  lemma ChainsRefute(c: Config, parse: string -> Option<SockAddr>, inp: Inputs, m: map<string, Egress>)
    requires Valid(c, parse) && InputsOk(c, inp) && inp.apply && (forall t :: !inp.fails(t)) && OneClock(inp)
    requires HealthyMap(c.egresses, c.autoRefresh, inp) == Ok(m)
    requires var n := |c.policies|; Compiled(c, inp, m, FileAt(c, inp, m, None, n), n) != Compiled(c, inp, m, None, n)
    ensures !Idempotent(c)
  {
    var w := Start(Kernel(NoTable, [], map[]));
    var w1 := ReconcileOnce(w, c, inp);
    ErrorsComeFromOutside(w, c, parse, inp);
    ErrorsComeFromOutside(w1, c, parse, inp);
    assert Anew(inp, inp.order, inp.fails) == inp;
    assert BackToBack(w, c, inp, inp.order, inp.fails);
    ChainsOfBoth(w, c, parse, inp, inp.order, inp.fails);
  }
}
