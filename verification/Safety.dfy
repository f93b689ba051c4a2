/** No dangling mark: after every single command of every run, each mark set by the chain has its
    policy-routing rule and its table has a default route. The condition under which this holds is
    exact: no rule line of an enabled egress looks like the rule of an egress that policies use. */
module Safety {
  import opened Text
  import opened Domain
  import opened Config
  import opened Kernel
  import opened Reconcile
  import Cache

  // ---------------------------------------------------------------- healthy egresses

  /** The same egress up to gateway and source address, which only the route shows. */
  predicate SameSlot(a: Egress, b: Egress) {
    a.name == b.name && a.fwmark == b.fwmark && a.table == b.table && a.priority == b.priority
  }

  /** An egress that is enabled and, if commands are applied, up. */
  predicate Usable(e: Egress, inp: Inputs) { e.enabled && (inp.apply ==> inp.linkUp(e.name)) }

  /** The egress is prepared as this one, which is in the same slot. */
  predicate UsedAs(e: Egress, used: Egress, autoRefresh: bool, inp: Inputs) {
    SameSlot(used, e) && Prepared(e, autoRefresh, inp) == Ok(used)
  }

  /** The healthy map holds exactly the egresses that are enabled and up, each as prepared, which changes
      at most its addresses. */
  lemma {:induction false} HealthyMapExact(es: seq<Egress>, autoRefresh: bool, inp: Inputs)
    requires HealthyMap(es, autoRefresh, inp).Ok?
    ensures var m := HealthyMap(es, autoRefresh, inp).value;
      && (forall n :: n in m ==>
            exists e :: e in es && Usable(e, inp) && e.name == n && UsedAs(e, m[n], autoRefresh, inp))
      && (forall e :: e in es && Usable(e, inp) ==> e.name in m)
  {
    if es != [] {
      var init, e := es[..|es| - 1], es[|es| - 1];
      HealthyMapExact(init, autoRefresh, inp);
      assert es == init + [e];
      var before, m := HealthyMap(init, autoRefresh, inp).value, HealthyMap(es, autoRefresh, inp).value;
      forall n | n in m
        ensures exists x :: x in es && Usable(x, inp) && x.name == n && UsedAs(x, m[n], autoRefresh, inp)
      {
        if n in before && m[n] == before[n] {
          var x :| x in init && Usable(x, inp) && x.name == n && UsedAs(x, before[n], autoRefresh, inp);
          assert x in es;
        } else {
          assert e in es && UsedAs(e, m[n], autoRefresh, inp);
        }
      }
    }
  }

  // ---------------------------------------------------------------- what must hold of the kernel

  /** A policy that can put a rule into the chain. */
  predicate Installs(p: Policy) {
    p.enabled && (p.spec.domain.Some? ==> Normalize(p.spec.domain.value).Some?)
  }

  /** Policies use the egress of this name. */
  ghost predicate Used(c: Config, name: string) {
    exists p :: p in c.policies && Installs(p) && p.egress == name
  }

  /** No rule of an enabled egress is mistaken for the rule of a used one. */
  ghost predicate ClashFree(c: Config) {
    forall a, e :: a in c.egresses && a.enabled && e in c.egresses && Used(c, e.name) ==>
      !Mistaken(OwnRule(a), e.fwmark, e.table)
  }

  /** No line of the list is mistaken for the rule of a used egress. */
  ghost predicate Unmistaken(c: Config, k: Kernel) {
    forall r, e :: r in k.rules && e in c.egresses && Used(c, e.name) ==> !Mistaken(r, e.fwmark, e.table)
  }

  /** Rules on a configured mark are the configured ones. */
  ghost predicate MarksOwned(c: Config, k: Kernel) {
    forall r, e :: r in k.rules && r.Fwmark? && e in c.egresses && r.mark == e.fwmark ==> r == OwnRule(e)
  }

  /** The egress's mark leads to its table and the table has a default route. */
  predicate Routed(k: Kernel, e: Egress) { OwnRule(e) in k.rules && e.table in k.routes }

  /** Every mark the chain sets is routed by its egress, except marks an earlier run left behind. */
  ghost predicate MarksRouted(c: Config, k: Kernel, stale: set<u32>) {
    k.nft.Chain? ==> forall r :: r in k.nft.rules && r.mark !in stale ==>
      exists e :: e in c.egresses && r.mark == e.fwmark && Routed(k, e)
  }

  ghost predicate NoDanglingMark(c: Config, k: Kernel) { MarksRouted(c, k, {}) }

  /** The rule list is in order, and nothing in it is on an owned mark or looks like a used egress's
      rule without being the egress's own rule. */
  ghost predicate Sound(c: Config, k: Kernel) { Ordered(k.rules) && MarksOwned(c, k) && Unmistaken(c, k) }

  ghost predicate Good(c: Config, k: Kernel, t: Tolerance) { Sound(c, k) && MarksRouted(c, k, t.stale) }

  /** Marks left behind by an earlier run, and how much of the trace is before this run. */
  datatype Tolerance = Tolerance(stale: set<u32>, since: nat)

  ghost predicate GoodWorld(c: Config, w: World, t: Tolerance) {
    Good(c, w.k, t) && forall i :: t.since <= i < |w.trace| ==> Good(c, w.trace[i], t)
  }

  /** Commands that keep the kernel good. */
  ghost predicate Permitted(c: Config, k: Kernel, cmd: Command) {
    match cmd
    case AddTable => true
    case AddChain => true
    case FlushChain => true
    case ReplaceDefault(_, _) => true
    case AddIpRule(r) => exists e :: e in c.egresses && e.enabled && r == OwnRule(e)
    case AddRule(rule) => exists e :: e in c.egresses && rule.mark == e.fwmark && Routed(k, e)
    case _ => false
  }

  lemma EffectGood(c: Config, t: Tolerance, k: Kernel, cmd: Command)
    requires EgressesDistinct(c.egresses) && ClashFree(c)
    requires Good(c, k, t) && Permitted(c, k, cmd) && Effect(k, cmd).Some?
    ensures Good(c, Effect(k, cmd).value, t)
  {
    var k' := Effect(k, cmd).value;
    match cmd
    case AddIpRule(r) =>
      InsertRuleMembers(k.rules, r);
      InsertRuleOrdered(k.rules, r);
      var own :| own in c.egresses && own.enabled && r == OwnRule(own);
      forall e | e in c.egresses && r.mark == e.fwmark ensures r == OwnRule(e) { MarkIdentifies(c.egresses, own, e); }
      StillRouted(c, t, k, k');
    case AddRule(rule) => StillRouted(c, t, k, k');
    case ReplaceDefault(_, _) => StillRouted(c, t, k, k');
    case _ =>
  }

  lemma MarkIdentifies(es: seq<Egress>, a: Egress, b: Egress)
    requires EgressesDistinct(es) && a in es && b in es && a.fwmark == b.fwmark
    ensures a == b
  {
    var i :| 0 <= i < |es| && es[i] == a;
    var j :| 0 <= j < |es| && es[j] == b;
  }

  /** Adding rules and routes dangles nothing that was there. */
  lemma StillRouted(c: Config, t: Tolerance, k: Kernel, k': Kernel)
    requires MarksRouted(c, k, t.stale)
    requires (forall r :: r in k.rules ==> r in k'.rules) && (forall t :: t in k.routes ==> t in k'.routes)
    ensures k.nft.Chain? ==> forall r :: r in k.nft.rules && r.mark !in t.stale ==>
      exists e :: e in c.egresses && r.mark == e.fwmark && Routed(k', e)
  {
    if k.nft.Chain? {
      forall r | r in k.nft.rules && r.mark !in t.stale
        ensures exists e :: e in c.egresses && r.mark == e.fwmark && Routed(k', e)
      {
        var e :| e in c.egresses && r.mark == e.fwmark && Routed(k, e);
        assert Routed(k', e);
      }
    }
  }

  lemma RunGood(c: Config, t: Tolerance, w: World, inp: Inputs, cmd: Command)
    requires EgressesDistinct(c.egresses) && ClashFree(c)
    requires GoodWorld(c, w, t) && Permitted(c, w.k, cmd)
    ensures GoodWorld(c, Run(w, inp, cmd), t)
  {
    if Effect(w.k, cmd).Some? { EffectGood(c, t, w.k, cmd); }
  }

  // ---------------------------------------------------------------- phase by phase

  /** The egress is an enabled configured one, up to its repaired addresses. */
  ghost predicate Backed(c: Config, e: Egress) {
    exists x :: x in c.egresses && x.enabled && SameSlot(e, x)
  }

  lemma SetupGood(c: Config, t: Tolerance, w: World, inp: Inputs)
    requires EgressesDistinct(c.egresses) && ClashFree(c) && GoodWorld(c, w, t)
    ensures GoodWorld(c, AfterSetup(w, c, inp), t)
  {
    if w.ok && inp.apply {
      RunGood(c, t, w.(tick := w.tick + 1), inp, AddTable);
      var w1 := EnsureTable(w, inp);
      assert GoodWorld(c, w1, t);
      RunGood(c, t, w1.(tick := w1.tick + 1), inp, AddChain);
    }
  }

  /** What looks like a used egress's rule is that rule. */
  lemma UsedListed(c: Config, k: Kernel, x: Egress)
    requires Unmistaken(c, k) && x in c.egresses && Used(c, x.name) && RuleListed(k.rules, x.fwmark, x.table)
      && MarksOwned(c, k)
    ensures OwnRule(x) in k.rules
  {
    RuleListedExact(k.rules, x.fwmark, x.table);
    assert forall r :: r in k.rules ==> !Mistaken(r, x.fwmark, x.table);
  }

  /** The rule command of an egress keeps the kernel good and gives a used egress its rule. */
  lemma EnsureFwmarkGood(c: Config, t: Tolerance, w: World, inp: Inputs, x: Egress)
    requires EgressesDistinct(c.egresses) && ClashFree(c) && GoodWorld(c, w, t) && x in c.egresses && x.enabled
    ensures var w' := EnsureFwmark(w, inp, x);
      && GoodWorld(c, w', t) && w'.k.routes == w.k.routes
      && (forall r :: r in w.k.rules ==> r in w'.k.rules)
      && (inp.apply && w'.ok && Used(c, x.name) ==> OwnRule(x) in w'.k.rules)
  {
    RunGood(c, t, Capture(w, inp), inp, AddIpRule(OwnRule(x)));
    InsertRuleMembers(w.k.rules, OwnRule(x));
    if Used(c, x.name) && RuleListed(w.k.rules, x.fwmark, x.table) { UsedListed(c, w.k, x); }
  }

  /** Ensuring one egress keeps routed egresses routed and routes a used one. */
  lemma EnsureEgressGood(c: Config, t: Tolerance, w: World, inp: Inputs, e: Egress)
    requires EgressesDistinct(c.egresses) && ClashFree(c) && GoodWorld(c, w, t)
    requires Backed(c, e)
    ensures var w' := EnsureEgress(w, inp, e);
      && GoodWorld(c, w', t)
      && (forall x: Egress :: Routed(w.k, x) ==> Routed(w'.k, x))
      && (inp.apply && w'.ok && Used(c, e.name) ==> Routed(w'.k, e))
  {
    var x :| x in c.egresses && x.enabled && SameSlot(e, x);
    var w1 := Run(w, inp, ReplaceDefault(e.table, DefaultOf(e)));
    RunGood(c, t, w, inp, ReplaceDefault(e.table, DefaultOf(e)));
    SameFwmark(w1, inp, e, x);
    EnsureFwmarkGood(c, t, w1, inp, x);
  }

  lemma SameFwmark(w: World, inp: Inputs, e: Egress, x: Egress)
    requires SameSlot(e, x)
    ensures EnsureFwmark(w, inp, e) == EnsureFwmark(w, inp, x) && OwnRule(e) == OwnRule(x)
  {}

  lemma {:induction false} EnsureAllGood(c: Config, t: Tolerance, w: World, inp: Inputs, es: seq<Egress>)
    requires EgressesDistinct(c.egresses) && ClashFree(c) && GoodWorld(c, w, t)
    requires forall e :: e in es ==> Backed(c, e)
    ensures var w' := EnsureAll(w, inp, es);
      && GoodWorld(c, w', t)
      && (forall x: Egress :: Routed(w.k, x) ==> Routed(w'.k, x))
      && (inp.apply && w'.ok ==> forall e :: e in es && Used(c, e.name) ==> Routed(w'.k, e))
    decreases |es|
  {
    if es != [] {
      var e := es[0];
      assert e in es && forall x :: x in es[1..] ==> x in es;
      EnsureEgressGood(c, t, w, inp, e);
      var w1 := EnsureEgress(w, inp, e);
      EnsureAllGood(c, t, w1, inp, es[1..]);
      if !w1.ok { AllStopped(w1, inp, es[1..]); }
    }
  }

  /** The egresses that policies use are routed. */
  ghost predicate UsedRouted(c: Config, k: Kernel, m: map<string, Egress>) {
    forall n :: n in m && Used(c, n) ==> Routed(k, m[n])
  }

  ghost predicate FromConfig(c: Config, m: map<string, Egress>) {
    forall n :: n in m ==> m[n].name == n && Backed(c, m[n])
  }

  lemma AddMatchRuleGood(c: Config, t: Tolerance, w: World, inp: Inputs, s: MatchSpec, e: Egress)
    requires EgressesDistinct(c.egresses) && ClashFree(c) && GoodWorld(c, w, t)
    requires Backed(c, e)
    requires Routed(w.k, e)
    ensures var w' := AddMatchRule(w, inp, s, e);
      GoodWorld(c, w', t) && w'.k.rules == w.k.rules && w'.k.routes == w.k.routes
  {
    if w.ok && AppendMatch(s, e.fwmark).Ok? {
      var x :| x in c.egresses && x.enabled && SameSlot(e, x);
      assert OwnRule(x) == OwnRule(e) && Routed(w.k, x);
      RunGood(c, t, w, inp, AddRule(AppendMatch(s, e.fwmark).value));
    }
  }

  lemma {:induction false} AddAddressesGood(
    c: Config, t: Tolerance, w: World, inp: Inputs, s: MatchSpec, e: Egress, ips: seq<string>)
    requires EgressesDistinct(c.egresses) && ClashFree(c) && GoodWorld(c, w, t)
    requires Backed(c, e)
    requires Routed(w.k, e)
    ensures var w' := AddAddresses(w, inp, s, e, ips);
      GoodWorld(c, w', t) && w'.k.rules == w.k.rules && w'.k.routes == w.k.routes
    decreases |ips|
  {
    if ips != [] {
      AddMatchRuleGood(c, t, w, inp, ResolvedSpec(s, ips[0]), e);
      AddAddressesGood(c, t, AddMatchRule(w, inp, ResolvedSpec(s, ips[0]), e), inp, s, e, ips[1..]);
    }
  }

  lemma AddPolicyGood(c: Config, t: Tolerance, w: World, inp: Inputs, m: map<string, Egress>, i: nat)
    requires EgressesDistinct(c.egresses) && ClashFree(c) && GoodWorld(c, w, t)
    requires i < |c.policies| && FromConfig(c, m) && (w.ok ==> UsedRouted(c, w.k, m))
    ensures var w' := AddPolicy(w, c, inp, m, i);
      GoodWorld(c, w', t) && w'.k.rules == w.k.rules && w'.k.routes == w.k.routes
  {
    var p := c.policies[i];
    if w.ok && p.enabled && p.egress in m {
      assert p in c.policies;
      var e := m[p.egress];
      match p.spec.domain
      case None =>
        assert Used(c, p.egress);
        AddMatchRuleGood(c, t, w, inp, p.spec, e);
      case Some(domain) =>
        var resolved := Cache.Resolve(c.cache, w.file, domain, inp.apply, Cache.PreferFresh, inp.dns(i));
        if resolved.result.Ok? {
          assert Used(c, p.egress);
          AddAddressesGood(c, t, w.(file := resolved.file), inp, p.spec, e, resolved.result.value.ips);
        }
    }
  }

  lemma {:induction false} AddPoliciesGood(
    c: Config, t: Tolerance, w: World, inp: Inputs, m: map<string, Egress>, i: nat)
    requires EgressesDistinct(c.egresses) && ClashFree(c) && GoodWorld(c, w, t)
    requires i <= |c.policies| && FromConfig(c, m) && (w.ok ==> UsedRouted(c, w.k, m))
    ensures var w' := AddPolicies(w, c, inp, m, i);
      GoodWorld(c, w', t) && w'.k.rules == w.k.rules && w'.k.routes == w.k.routes
    decreases |c.policies| - i
  {
    if i < |c.policies| {
      AddPolicyGood(c, t, w, inp, m, i);
      var w1 := AddPolicy(w, c, inp, m, i);
      if w.ok { StillUsedRouted(c, w.k, w1.k, m); }
      AddPoliciesGood(c, t, w1, inp, m, i + 1);
    }
  }

  lemma StillUsedRouted(c: Config, k: Kernel, k': Kernel, m: map<string, Egress>)
    requires UsedRouted(c, k, m) && k'.rules == k.rules && k'.routes == k.routes
    ensures UsedRouted(c, k', m)
  {
    forall n | n in m && Used(c, n) ensures Routed(k', m[n]) { assert Routed(k, m[n]); }
  }

  // ---------------------------------------------------------------- whole runs

  /** A dry run changes neither the kernel nor the cache file. */
  lemma DryRunInert(w: World, c: Config, inp: Inputs)
    requires InputsOk(c, inp) && !inp.apply
    ensures var w' := ReconcileOnce(w, c, inp); w'.k == w.k && w'.file == w.file && w'.trace == w.trace
  {
    var h := HealthyMap(c.egresses, c.autoRefresh, inp);
    if h.Ok? {
      var w1 := w.(ok := true);
      DryEnsureAll(w1, inp, Values(inp.order, h.value));
      DryPolicies(w1, c, inp, h.value, 0);
    }
  }

  lemma {:induction false} DryEnsureAll(w: World, inp: Inputs, es: seq<Egress>)
    requires !inp.apply
    ensures EnsureAll(w, inp, es) == w
    decreases |es|
  {
    if es != [] { DryEnsureAll(w, inp, es[1..]); }
  }

  lemma {:induction false} DryAddresses(w: World, inp: Inputs, s: MatchSpec, e: Egress, ips: seq<string>)
    requires !inp.apply
    ensures var w' := AddAddresses(w, inp, s, e, ips); w'.(ok := w.ok) == w
    decreases |ips|
  {
    if ips != [] { DryAddresses(AddMatchRule(w, inp, ResolvedSpec(s, ips[0]), e), inp, s, e, ips[1..]); }
  }

  lemma {:induction false} DryPolicies(w: World, c: Config, inp: Inputs, m: map<string, Egress>, i: nat)
    requires !inp.apply && i <= |c.policies|
    ensures var w' := AddPolicies(w, c, inp, m, i); w'.(ok := w.ok) == w
    decreases |c.policies| - i
  {
    if i < |c.policies| {
      DryPolicy(w, c, inp, m, i);
      DryPolicies(AddPolicy(w, c, inp, m, i), c, inp, m, i + 1);
    }
  }

  lemma DryPolicy(w: World, c: Config, inp: Inputs, m: map<string, Egress>, i: nat)
    requires !inp.apply && i < |c.policies|
    ensures var w' := AddPolicy(w, c, inp, m, i); w'.(ok := w.ok) == w
  {
    var p := c.policies[i];
    if w.ok && p.enabled && p.egress in m && p.spec.domain.Some? {
      var resolved := Cache.Resolve(c.cache, w.file, p.spec.domain.value, false, Cache.PreferFresh, inp.dns(i));
      assert resolved.file == w.file;
      if resolved.result.Ok? {
        DryAddresses(w.(file := resolved.file), inp, p.spec, m[p.egress], resolved.result.value.ips);
      }
    }
  }

  lemma MapFromConfig(c: Config, inp: Inputs)
    requires HealthyMap(c.egresses, c.autoRefresh, inp).Ok?
    ensures FromConfig(c, HealthyMap(c.egresses, c.autoRefresh, inp).value)
  {
    HealthyMapExact(c.egresses, c.autoRefresh, inp);
  }

  lemma ReconcileGood(c: Config, t: Tolerance, w: World, inp: Inputs)
    requires EgressesDistinct(c.egresses) && ClashFree(c) && GoodWorld(c, w, t) && InputsOk(c, inp)
    ensures GoodWorld(c, ReconcileOnce(w, c, inp), t)
    ensures inp.apply && ReconcileOnce(w, c, inp).ok ==>
      UsedRouted(c, ReconcileOnce(w, c, inp).k, HealthyMap(c.egresses, c.autoRefresh, inp).value)
  {
    if !inp.apply {
      DryRunInert(w, c, inp);
    } else {
      var w1 := AfterSetup(w.(ok := true), c, inp);
      SetupGood(c, t, w.(ok := true), inp);
      var h := HealthyMap(c.egresses, c.autoRefresh, inp);
      if w1.ok && h.Ok? {
        MapFromConfig(c, inp);
        InstallGood(c, t, w1, inp, h.value);
      }
    }
  }

  /** The route phase over the healthy egresses in any order routes the used ones. */
  lemma RoutePhaseGood(c: Config, t: Tolerance, w: World, inp: Inputs, m: map<string, Egress>)
    requires EgressesDistinct(c.egresses) && ClashFree(c) && GoodWorld(c, w, t) && inp.apply
    requires FromConfig(c, m) && OrderOk(inp.order, m)
    ensures var w' := EnsureAll(w, inp, Values(inp.order, m));
      GoodWorld(c, w', t) && (w'.ok ==> UsedRouted(c, w'.k, m))
  {
    var es := Values(inp.order, m);
    forall e | e in es ensures Backed(c, e) {
      var i :| 0 <= i < |es| && es[i] == e;
      assert inp.order[i] in m;
    }
    EnsureAllGood(c, t, w, inp, es);
    var w' := EnsureAll(w, inp, es);
    if w'.ok {
      forall n | n in m && Used(c, n) ensures Routed(w'.k, m[n]) {
        assert n in inp.order;
        var i :| 0 <= i < |inp.order| && inp.order[i] == n;
        assert es[i] in es;
      }
    }
  }

  lemma InstallGood(c: Config, t: Tolerance, w: World, inp: Inputs, m: map<string, Egress>)
    requires EgressesDistinct(c.egresses) && ClashFree(c) && GoodWorld(c, w, t) && w.ok && inp.apply
    requires FromConfig(c, m) && OrderOk(inp.order, m)
    ensures var w' := Install(w, c, inp, m); GoodWorld(c, w', t) && (w'.ok ==> UsedRouted(c, w'.k, m))
  {
    RunGood(c, t, w, inp, FlushChain);
    RoutePhaseGood(c, t, w, inp, m);
    PolicyPhaseGood(c, t, EnsureAll(w, inp, Values(inp.order, m)), inp, m);
  }

  /** The second flush and the policy loop keep used egresses routed. */
  lemma PolicyPhaseGood(c: Config, t: Tolerance, w: World, inp: Inputs, m: map<string, Egress>)
    requires EgressesDistinct(c.egresses) && ClashFree(c) && GoodWorld(c, w, t) && inp.apply
    requires FromConfig(c, m) && (w.ok ==> UsedRouted(c, w.k, m))
    ensures var w' := AddPolicies(Run(w, inp, FlushChain), c, inp, m, 0);
      GoodWorld(c, w', t) && (w'.ok ==> UsedRouted(c, w'.k, m))
  {
    RunGood(c, t, w, inp, FlushChain);
    var w1 := Run(w, inp, FlushChain);
    assert w1.ok ==> w1.k.rules == w.k.rules && w1.k.routes == w.k.routes;
    AddPoliciesGood(c, t, w1, inp, m, 0);
    if !w1.ok { PoliciesStopped(w1, c, inp, m, 0); }
  }

  /** From a good kernel, with any inputs and any command failing, the kernel is good after every
      single command of every run. */
  lemma {:induction false} EveryCommandGood(c: Config, t: Tolerance, w: World, runs: seq<Inputs>)
    requires EgressesDistinct(c.egresses) && ClashFree(c) && GoodWorld(c, w, t)
    requires forall i :: 0 <= i < |runs| ==> InputsOk(c, runs[i])
    ensures GoodWorld(c, ReconcileMany(w, c, runs), t)
  {
    if runs != [] {
      EveryCommandGood(c, t, w, runs[..|runs| - 1]);
      ReconcileGood(c, t, ReconcileMany(w, c, runs[..|runs| - 1]), runs[|runs| - 1]);
    }
  }
}
