/** Doing it again: a second successful reconcile with the same health, answers and clock leaves the
    kernel exactly as the first left it, in whatever order it visits the egresses. */
module Repeat {
  import opened Text
  import opened Domain
  import opened Config
  import opened Kernel
  import opened Reconcile
  import opened Compile
  import opened Order
  import opened Progress
  import opened CacheSystem
  import Cache

  // ---------------------------------------------------------------- resolving again

  /** Resolving a name again at the same time gives the same addresses, whatever happened to other
      names in between: the first call's own write does not change its answer. */
  lemma ResolveAgain(
    cc: CacheConfig, file: Cache.CacheFile, name: string, mode: Cache.Mode, env: Cache.CallEnv,
    later: Cache.CacheFile)
    requires var d := Normalize(name);
      d.Some? ==> Stored(later, d.value) == Stored(Cache.Resolve(cc, file, name, true, mode, env).file, d.value)
    ensures AnswerOf(Cache.Resolve(cc, later, name, true, mode, env).result) ==
      AnswerOf(Cache.Resolve(cc, file, name, true, mode, env).result)
  {
    if Normalize(name).Some? && cc.enabled && !env.loadFails {
      var d := Normalize(name).value;
      var es := Cache.Loaded(file);
      var dec := Cache.Decide(cc, es, d, mode, env.now, env.live);
      if dec.save.Some? && !env.saveFails {
        DecideSaves(cc, es, d, mode, env.now, env.live);
        StoredAfterSave(dec.save.value, d);
        FindUpsert(es, dec.answer.entry.value, d);
        DecideAgain(cc, es, Cache.Loaded(later), d, mode, env.now, env.live);
      } else {
        AnswerDependsOnEntry(cc, Cache.Loaded(later), es, d, mode, env.now, env.live);
      }
    }
  }

  lemma DecideAgain(
    cc: CacheConfig, es: seq<Cache.Entry>, later: seq<Cache.Entry>, d: string, mode: Cache.Mode, now: u64,
    live: Cache.Lookup)
    requires var dec := Cache.Decide(cc, es, d, mode, now, live);
      dec.save.Some? && Cache.Find(later, d) == dec.answer.entry
    ensures Cache.Decide(cc, later, d, mode, now, live).answer.ips ==
      Cache.Decide(cc, es, d, mode, now, live).answer.ips
  {}

  // ---------------------------------------------------------------- the policies' answers

  /** Policies for other names leave a name's stored entry alone. */
  lemma {:induction false} FileAtFrame(
    c: Config, inp: Inputs, m: map<string, Egress>, file: Cache.CacheFile, a: nat, b: nat, d: string)
    requires a <= b <= |c.policies|
    requires forall j :: a <= j < b && Asks(c, m, j) ==> Normalize(c.policies[j].spec.domain.value) != Some(d)
    ensures Stored(FileAt(c, inp, m, file, b), d) == Stored(FileAt(c, inp, m, file, a), d)
  {
    if a < b {
      FileAtFrame(c, inp, m, file, a, b - 1, d);
      if Asks(c, m, b - 1) {
        ResolveFrame(c.cache, FileAt(c, inp, m, file, b - 1), c.policies[b - 1].spec.domain.value, inp.apply,
          Cache.PreferFresh, inp.dns(b - 1), d);
      }
    }
  }

  /** Starting from the cache file the first pass left, every policy gets the answer it got before. */
  lemma AnswerAgain(c: Config, inp: Inputs, m: map<string, Egress>, file: Cache.CacheFile, i: nat)
    requires DomainsDistinct(c.policies) && inp.apply && i < |c.policies|
    ensures AnswerAt(c, inp, m, FileAt(c, inp, m, file, |c.policies|), i) == AnswerAt(c, inp, m, file, i)
  {
    if Asks(c, m, i) {
      var n := |c.policies|;
      var name, left := c.policies[i].spec.domain.value, FileAt(c, inp, m, file, n);
      var later := FileAt(c, inp, m, left, i);
      if Normalize(name).Some? {
        var d := Normalize(name).value;
        forall j | 0 <= j < n && j != i && Asks(c, m, j)
          ensures Normalize(c.policies[j].spec.domain.value) != Some(d)
        {}
        FileAtFrame(c, inp, m, file, i + 1, n, d);
        FileAtFrame(c, inp, m, left, 0, i, d);
      }
      ResolveAgain(c.cache, FileAt(c, inp, m, file, i), name, Cache.PreferFresh, inp.dns(i), later);
    }
  }

  ghost predicate SameAnswers(c: Config, inp: Inputs, m: map<string, Egress>, a: Cache.CacheFile, b: Cache.CacheFile) {
    forall i :: 0 <= i < |c.policies| ==> AnswerAt(c, inp, m, a, i) == AnswerAt(c, inp, m, b, i)
  }

  lemma {:induction false} SameAnswersCompileAlike(
    c: Config, inp: Inputs, m: map<string, Egress>, a: Cache.CacheFile, b: Cache.CacheFile, n: nat)
    requires SameAnswers(c, inp, m, a, b) && n <= |c.policies|
    ensures Compiled(c, inp, m, a, n) == Compiled(c, inp, m, b, n)
  {
    if n > 0 {
      SameAnswersCompileAlike(c, inp, m, a, b, n - 1);
      assert AnswerAt(c, inp, m, a, n - 1) == AnswerAt(c, inp, m, b, n - 1);
    }
  }

  /** Without a cache, answers do not depend on the file. */
  lemma UncachedAnswers(c: Config, inp: Inputs, m: map<string, Egress>, a: Cache.CacheFile, b: Cache.CacheFile, i: nat)
    requires !c.cache.enabled && i < |c.policies|
    ensures AnswerAt(c, inp, m, a, i) == AnswerAt(c, inp, m, b, i)
  {}

  /** The cache is off, or no two enabled policies resolve the same name. */
  ghost predicate Repeatable(c: Config) { !c.cache.enabled || DomainsDistinct(c.policies) }

  lemma CompiledAgain(c: Config, inp: Inputs, m: map<string, Egress>, file: Cache.CacheFile)
    requires Repeatable(c) && inp.apply
    ensures Compiled(c, inp, m, FileAt(c, inp, m, file, |c.policies|), |c.policies|) ==
      Compiled(c, inp, m, file, |c.policies|)
  {
    var left := FileAt(c, inp, m, file, |c.policies|);
    forall i | 0 <= i < |c.policies| ensures AnswerAt(c, inp, m, left, i) == AnswerAt(c, inp, m, file, i) {
      if c.cache.enabled { AnswerAgain(c, inp, m, file, i); } else { UncachedAnswers(c, inp, m, left, file, i); }
    }
    SameAnswersCompileAlike(c, inp, m, left, file, |c.policies|);
  }

  // ---------------------------------------------------------------- inputs that matter

  /** The same inputs but for the iteration order and the failing attempts. */
  function Anew(inp: Inputs, order: seq<string>, fails: nat -> bool): Inputs { inp.(order := order, fails := fails) }

  lemma {:induction false} MapAnew(
    es: seq<Egress>, autoRefresh: bool, inp: Inputs, order: seq<string>, fails: nat -> bool)
    ensures HealthyMap(es, autoRefresh, Anew(inp, order, fails)) == HealthyMap(es, autoRefresh, inp)
  {
    if es != [] { MapAnew(es[..|es| - 1], autoRefresh, inp, order, fails); }
  }

  lemma {:induction false} FileAnew(
    c: Config, inp: Inputs, m: map<string, Egress>, file: Cache.CacheFile, n: nat, order: seq<string>,
    fails: nat -> bool)
    requires n <= |c.policies|
    ensures FileAt(c, Anew(inp, order, fails), m, file, n) == FileAt(c, inp, m, file, n)
  {
    if n > 0 { FileAnew(c, inp, m, file, n - 1, order, fails); }
  }

  lemma {:induction false} CompiledAnew(
    c: Config, inp: Inputs, m: map<string, Egress>, file: Cache.CacheFile, n: nat, order: seq<string>,
    fails: nat -> bool)
    requires n <= |c.policies|
    ensures Compiled(c, Anew(inp, order, fails), m, file, n) == Compiled(c, inp, m, file, n)
  {
    if n > 0 {
      CompiledAnew(c, inp, m, file, n - 1, order, fails);
      FileAnew(c, inp, m, file, n - 1, order, fails);
    }
  }

  // ---------------------------------------------------------------- rules and routes

  /** After the route phase each egress's rule, or a line taken for it, is listed. */
  lemma {:induction false} EnsureAllLists(w: World, inp: Inputs, es: seq<Egress>)
    requires inp.apply && EnsureAll(w, inp, es).ok
    ensures AllListed(EnsureAll(w, inp, es).k.rules, es)
    decreases |es|
  {
    if es != [] {
      var e, w1 := es[0], EnsureEgress(w, inp, es[0]);
      if !w1.ok { AllStopped(w1, inp, es[1..]); }
      EnsureAllLists(w1, inp, es[1..]);
      EgressListed(w, inp, e);
      StaysListed(w1, inp, es[1..], e);
    }
  }

  lemma StaysListed(w: World, inp: Inputs, es: seq<Egress>, e: Egress)
    requires RuleListed(w.k.rules, e.fwmark, e.table)
    ensures RuleListed(EnsureAll(w, inp, es).k.rules, e.fwmark, e.table)
  {
    forall r | r in w.k.rules ensures r in EnsureAll(w, inp, es).k.rules { NeverRemoved(w, inp, es, r); }
    MoreListed(w.k.rules, EnsureAll(w, inp, es).k.rules, e.fwmark, e.table);
  }

  predicate AllListed(rules: seq<IpRule>, es: seq<Egress>) {
    forall i :: 0 <= i < |es| ==> RuleListed(rules, es[i].fwmark, es[i].table)
  }

  lemma EgressListed(w: World, inp: Inputs, e: Egress)
    requires inp.apply && EnsureEgress(w, inp, e).ok
    ensures RuleListed(EnsureEgress(w, inp, e).k.rules, e.fwmark, e.table)
  {
    var w1 := EnsureEgress(w, inp, e);
    if !RuleListed(w.k.rules, e.fwmark, e.table) {
      InsertRuleMembers(w.k.rules, OwnRule(e));
      assert OwnRule(e) in w1.k.rules;
      OwnIsListed(w1.k.rules, e);
    }
  }

  lemma OwnIsListed(rules: seq<IpRule>, e: Egress)
    requires OwnRule(e) in rules
    ensures RuleListed(rules, e.fwmark, e.table)
  {
    LineListedExact(OwnRule(e), e.fwmark, e.table);
    var i :| 0 <= i < |rules| && rules[i] == OwnRule(e);
  }

  ghost predicate AllRouted(routes: map<u32, Route>, es: seq<Egress>) {
    forall i :: 0 <= i < |es| ==> es[i].table in routes && routes[es[i].table] == DefaultOf(es[i])
  }

  /** The route phase changes nothing where everything is listed and routed already. */
  lemma {:induction false} EnsureAllAgain(w: World, inp: Inputs, es: seq<Egress>)
    requires AllListed(w.k.rules, es) && AllRouted(w.k.routes, es)
    ensures EnsureAll(w, inp, es).k == w.k
    decreases |es|
  {
    if es != [] {
      EnsureEgressAgain(w, inp, es[0]);
      assert forall i :: 0 <= i < |es[1..]| ==> es[1..][i] == es[i + 1];
      EnsureAllAgain(EnsureEgress(w, inp, es[0]), inp, es[1..]);
    }
  }

  lemma EnsureEgressAgain(w: World, inp: Inputs, e: Egress)
    requires RuleListed(w.k.rules, e.fwmark, e.table) && e.table in w.k.routes && w.k.routes[e.table] == DefaultOf(e)
    ensures EnsureEgress(w, inp, e).k == w.k
  {
    assert w.k.routes[e.table := DefaultOf(e)] == w.k.routes;
  }

  ghost predicate MapListed(rules: seq<IpRule>, m: map<string, Egress>) {
    forall n :: n in m ==> RuleListed(rules, m[n].fwmark, m[n].table)
  }

  lemma InstallLists(w: World, c: Config, inp: Inputs, m: map<string, Egress>)
    requires inp.apply && OrderOk(inp.order, m) && Install(w, c, inp, m).ok
    ensures MapListed(Install(w, c, inp, m).k.rules, m)
  {
    var es := Values(inp.order, m);
    InstallRoutes(w, c, inp, m);
    var w1 := EnsureAll(w, inp, es);
    if !w1.ok { PoliciesStopped(w1, c, inp, m, 0); }
    EnsureAllLists(w, inp, es);
    forall n | n in m ensures RuleListed(w1.k.rules, m[n].fwmark, m[n].table) {
      assert n in inp.order;
      var i :| 0 <= i < |inp.order| && inp.order[i] == n;
      assert es[i] == m[n];
    }
  }

  lemma InstallAgain(w: World, c: Config, inp: Inputs, m: map<string, Egress>)
    requires OrderOk(inp.order, m) && MapListed(w.k.rules, m) && DefaultsInstalled(w.k.routes, m)
    ensures var k := Install(w, c, inp, m).k; k.rules == w.k.rules && k.routes == w.k.routes
  {
    var es := Values(inp.order, m);
    InstallRoutes(w, c, inp, m);
    forall i | 0 <= i < |es| ensures es[i] == m[inp.order[i]] && inp.order[i] in m {}
    EnsureAllAgain(w, inp, es);
  }

  lemma ReconcileLists(w: World, c: Config, inp: Inputs)
    requires InputsOk(c, inp) && inp.apply && ReconcileOnce(w, c, inp).ok
    ensures HealthyMap(c.egresses, c.autoRefresh, inp).Ok?
    ensures MapListed(ReconcileOnce(w, c, inp).k.rules, HealthyMap(c.egresses, c.autoRefresh, inp).value)
  {
    InstallLists(AfterSetup(w.(ok := true), c, inp), c, inp, HealthyMap(c.egresses, c.autoRefresh, inp).value);
  }

  lemma RoutesAgain(w: World, c: Config, inp: Inputs, m: map<string, Egress>)
    requires InputsOk(c, inp) && inp.apply && ReconcileOnce(w, c, inp).ok
      && HealthyMap(c.egresses, c.autoRefresh, inp) == Ok(m)
    requires MapListed(w.k.rules, m) && DefaultsInstalled(w.k.routes, m)
    ensures var k := ReconcileOnce(w, c, inp).k; k.rules == w.k.rules && k.routes == w.k.routes
  {
    SetupLeavesChain(w.(ok := true), c, inp);
    InstallAgain(AfterSetup(w.(ok := true), c, inp), c, inp, m);
  }

  /** Two successful reconciles in a row with the same health, answers and clock. */
  ghost predicate BackToBack(w: World, c: Config, inp: Inputs, order: seq<string>, fails: nat -> bool) {
    && InputsOk(c, inp) && inp.apply && ReconcileOnce(w, c, inp).ok
    && InputsOk(c, Anew(inp, order, fails)) && ReconcileOnce(ReconcileOnce(w, c, inp), c, Anew(inp, order, fails)).ok
  }

  /** Rules and routes are settled by the first of them. */
  lemma {:induction false} RoutesAreSettled(
    w: World, c: Config, parse: string -> Option<SockAddr>, inp: Inputs, order: seq<string>, fails: nat -> bool)
    requires Valid(c, parse) && BackToBack(w, c, inp, order, fails)
    ensures var w1 := ReconcileOnce(w, c, inp);
      var w2 := ReconcileOnce(w1, c, Anew(inp, order, fails));
      w2.k.rules == w1.k.rules && w2.k.routes == w1.k.routes
  {
    ReconcileInstalls(w, c, inp);
    ReconcileLists(w, c, inp);
    MapAnew(c.egresses, c.autoRefresh, inp, order, fails);
    var m := HealthyMap(c.egresses, c.autoRefresh, inp).value;
    RoutesAgain(ReconcileOnce(w, c, inp), c, Anew(inp, order, fails), m);
  }

  /** The chains of the two, compiled from the same inputs and two cache files. */
  lemma ChainsOfBoth(
    w: World, c: Config, parse: string -> Option<SockAddr>, inp: Inputs, order: seq<string>, fails: nat -> bool)
    requires Valid(c, parse) && BackToBack(w, c, inp, order, fails)
    ensures HealthyMap(c.egresses, c.autoRefresh, inp).Ok?
    ensures var m, w1, n := HealthyMap(c.egresses, c.autoRefresh, inp).value, ReconcileOnce(w, c, inp), |c.policies|;
      && w1.k.nft == Chain(Compiled(c, inp, m, w.file, n))
      && ReconcileOnce(w1, c, Anew(inp, order, fails)).k.nft ==
        Chain(Compiled(c, inp, m, FileAt(c, inp, m, w.file, n), n))
  {
    var w1 := ReconcileOnce(w, c, inp);
    ReconcileInstalls(w, c, inp);
    MapAnew(c.egresses, c.autoRefresh, inp, order, fails);
    ReconcileInstalls(w1, c, Anew(inp, order, fails));
    var m := HealthyMap(c.egresses, c.autoRefresh, inp).value;
    CompiledAnew(c, inp, m, w1.file, |c.policies|, order, fails);
  }

  /** Idempotence: once a reconcile has succeeded, one with the same health, answers and clock that
      succeeds too leaves rules and routes as they are, for any iteration order and any attempts that
      fail without stopping it; and the chain too, if the cache is off or no two enabled policies
      resolve the same name. Marks that clash make no difference to this. */
  lemma {:induction false} ReconcileIsIdempotent(
    w: World, c: Config, parse: string -> Option<SockAddr>, inp: Inputs, order: seq<string>, fails: nat -> bool)
    requires Valid(c, parse) && Repeatable(c) && BackToBack(w, c, inp, order, fails)
    ensures ReconcileOnce(ReconcileOnce(w, c, inp), c, Anew(inp, order, fails)).k == ReconcileOnce(w, c, inp).k
  {
    RoutesAreSettled(w, c, parse, inp, order, fails);
    ChainsOfBoth(w, c, parse, inp, order, fails);
    CompiledAgain(c, inp, HealthyMap(c.egresses, c.autoRefresh, inp).value, w.file);
  }

  // ---------------------------------------------------------------- in another order

  lemma ValuesPermuted(c: Config, a: Inputs, b: Inputs, m: map<string, Egress>)
    requires EgressesDistinct(c.egresses) && InputsOk(c, a) && InputsOk(c, b)
    requires HealthyMap(c.egresses, c.autoRefresh, a) == HealthyMap(c.egresses, c.autoRefresh, b) == Ok(m)
    ensures Permuted(Values(b.order, m), Values(a.order, m))
  {
    var p, q := Values(a.order, m), Values(b.order, m);
    ValuesDistinct(c, a);
    ValuesDistinct(c, b);
    forall x ensures x in p <==> x in q {
      ValuesMember(a.order, m, x);
      ValuesMember(b.order, m, x);
    }
    SameDistinctPermuted(p, q);
  }

  lemma SameDistinctPermuted(p: seq<Egress>, q: seq<Egress>)
    requires EgressesDistinct(p) && EgressesDistinct(q) && forall x :: x in p <==> x in q
    ensures Permuted(q, p)
  {
    forall x ensures multiset(p)[x] == multiset(q)[x] {
      DistinctOnce(p, x);
      DistinctOnce(q, x);
      assert x in multiset(p) <==> x in p;
      assert x in multiset(q) <==> x in q;
    }
  }

  ghost predicate IsValue(m: map<string, Egress>, x: Egress) { exists n :: n in m && m[n] == x }

  lemma ValuesMember(order: seq<string>, m: map<string, Egress>, x: Egress)
    requires OrderOk(order, m)
    ensures x in Values(order, m) <==> IsValue(m, x)
  {
    var es := Values(order, m);
    if x in es {
      var i :| 0 <= i < |es| && es[i] == x;
      assert order[i] in m && m[order[i]] == x;
    }
    if n :| n in m && m[n] == x {
      assert n in order;
      var i :| 0 <= i < |order| && order[i] == n;
      assert es[i] == x;
    }
  }

  /** The iteration order of the healthy egresses is irrelevant to the whole reconcile, provided that
      no rule it adds is mistaken for another. */
  lemma OrderIsIrrelevant(
    w: World, c: Config, parse: string -> Option<SockAddr>, inp: Inputs, order: seq<string>, m: map<string, Egress>)
    requires Valid(c, parse) && InputsOk(c, inp) && InputsOk(c, Anew(inp, order, inp.fails)) && NoFailures(inp)
    requires HealthyMap(c.egresses, c.autoRefresh, inp) == Ok(m) && NoMistakes(Missing(w.k.rules, Values(inp.order, m)))
    ensures SameState(ReconcileOnce(w, c, inp).k, ReconcileOnce(w, c, Anew(inp, order, inp.fails)).k)
  {
    var other := Anew(inp, order, inp.fails);
    MapAnew(c.egresses, c.autoRefresh, inp, order, inp.fails);
    ErrorsComeFromOutside(w, c, parse, inp);
    ErrorsComeFromOutside(w, c, parse, other);
    ReconcileInstalls(w, c, inp);
    ReconcileInstalls(w, c, other);
    CompiledAnew(c, inp, m, w.file, |c.policies|, order, inp.fails);
    ValuesPermuted(c, inp, other, m);
    ValuesDistinct(c, inp);
    RoutePhases(w, c, inp, other, m);
  }

  lemma RoutePhases(w: World, c: Config, a: Inputs, b: Inputs, m: map<string, Egress>)
    requires NoFailures(a) && b == Anew(a, b.order, a.fails) && InputsOk(c, a) && InputsOk(c, b)
    requires HealthyMap(c.egresses, c.autoRefresh, a) == HealthyMap(c.egresses, c.autoRefresh, b) == Ok(m)
    requires ReconcileOnce(w, c, a).ok && ReconcileOnce(w, c, b).ok
    requires EgressesDistinct(Values(a.order, m)) && Permuted(Values(b.order, m), Values(a.order, m))
    requires NoMistakes(Missing(w.k.rules, Values(a.order, m)))
    ensures ReconcileOnce(w, c, a).k.routes == ReconcileOnce(w, c, b).k.routes
    ensures multiset(ReconcileOnce(w, c, a).k.rules) == multiset(ReconcileOnce(w, c, b).k.rules)
  {
    var w1 := AfterSetup(w.(ok := true), c, a);
    SetupAnew(w, c, a, b);
    ReconcileRoutes(w, c, a, m);
    ReconcileRoutes(w, c, b, m);
    EnsureAllAnew(w1, a, b, Values(b.order, m));
    OrdersAgree(w1, a, Values(a.order, m), Values(a.order, m), Values(b.order, m));
  }

  lemma SetupAnew(w: World, c: Config, a: Inputs, b: Inputs)
    requires a.apply && b.apply && a.fails == b.fails && AfterSetup(w.(ok := true), c, a).ok
    ensures AfterSetup(w.(ok := true), c, b) == AfterSetup(w.(ok := true), c, a)
    ensures AfterSetup(w.(ok := true), c, a).k.rules == w.k.rules
  {}

  lemma {:induction false} EnsureAllAnew(w: World, a: Inputs, b: Inputs, es: seq<Egress>)
    requires a.apply == b.apply && a.fails == b.fails
    ensures EnsureAll(w, a, es) == EnsureAll(w, b, es)
    decreases |es|
  {
    if es != [] {
      EnsureEgressAnew(w, a, b, es[0]);
      EnsureAllAnew(EnsureEgress(w, a, es[0]), a, b, es[1..]);
    }
  }

  lemma EnsureEgressAnew(w: World, a: Inputs, b: Inputs, e: Egress)
    requires a.apply == b.apply && a.fails == b.fails
    ensures EnsureEgress(w, a, e) == EnsureEgress(w, b, e)
  {}
}
