/** The old chain stays in force until the new routes are in place: no single command of a reconcile
    changes the chain before every egress that is up has its default route. */
module Handover {
  import opened Text
  import opened Config
  import opened Kernel
  import opened Reconcile
  import opened Routes
  import opened Safety
  import opened Compile

  /** All kernels traced between the two states, and the last one, have the property. */
  ghost predicate Throughout(w: World, w': World, p: Kernel -> bool) {
    && |w.trace| <= |w'.trace| && w'.trace[..|w.trace|] == w.trace && p(w'.k)
    && forall i :: |w.trace| <= i < |w'.trace| ==> p(w'.trace[i])
  }

  lemma ThroughoutThen(a: World, b: World, d: World, p: Kernel -> bool)
    requires Throughout(a, b, p) && Throughout(b, d, p)
    ensures Throughout(a, d, p)
  {
    assert d.trace[..|a.trace|] == d.trace[..|b.trace|][..|a.trace|];
    assert forall i :: |a.trace| <= i < |b.trace| ==> d.trace[i] == d.trace[..|b.trace|][i];
  }

  lemma RunThroughout(w: World, inp: Inputs, cmd: Command, p: Kernel -> bool)
    requires p(w.k) && (Effect(w.k, cmd).Some? ==> p(Effect(w.k, cmd).value))
    ensures Throughout(w, Run(w, inp, cmd), p)
  {}

  /** The chain is this one. */
  function ChainIs(nft: Nft): Kernel -> bool { (k: Kernel) => k.nft == nft }

  lemma SetupKeepsChain(w: World, c: Config, inp: Inputs)
    requires w.k.nft.Chain?
    ensures Throughout(w, AfterSetup(w, c, inp), ChainIs(w.k.nft))
  {
    var p, w1 := ChainIs(w.k.nft), EnsureTable(w, inp);
    RunThroughout(w.(tick := w.tick + 1), inp, AddTable, p);
    RunThroughout(w1.(tick := w1.tick + 1), inp, AddChain, p);
    ThroughoutThen(w, w1, AfterSetup(w, c, inp), p);
  }

  lemma EgressKeepsChain(w: World, inp: Inputs, e: Egress)
    ensures Throughout(w, EnsureEgress(w, inp, e), ChainIs(w.k.nft))
  {
    var p, w1 := ChainIs(w.k.nft), Run(w, inp, ReplaceDefault(e.table, DefaultOf(e)));
    RunThroughout(w, inp, ReplaceDefault(e.table, DefaultOf(e)), p);
    FwmarkKeepsChain(w1, inp, e);
    ThroughoutThen(w, w1, EnsureEgress(w, inp, e), p);
  }

  lemma FwmarkKeepsChain(w: World, inp: Inputs, e: Egress)
    ensures Throughout(w, EnsureFwmark(w, inp, e), ChainIs(w.k.nft))
  {
    RunThroughout(w, inp, AddIpRule(OwnRule(e)), ChainIs(w.k.nft));
    RunThroughout(Capture(w, inp), inp, AddIpRule(OwnRule(e)), ChainIs(w.k.nft));
  }

  lemma {:induction false} EnsureAllKeepsChain(w: World, inp: Inputs, es: seq<Egress>)
    ensures Throughout(w, EnsureAll(w, inp, es), ChainIs(w.k.nft))
    decreases |es|
  {
    if es != [] {
      var w1 := EnsureEgress(w, inp, es[0]);
      EgressKeepsChain(w, inp, es[0]);
      EnsureAllKeepsChain(w1, inp, es[1..]);
      ThroughoutThen(w, w1, EnsureAll(w1, inp, es[1..]), ChainIs(w.k.nft));
    }
  }

  /** The default routes are these. */
  function RoutesAre(routes: map<u32, Route>): Kernel -> bool { (k: Kernel) => k.routes == routes }

  lemma RuleKeepsTheRoutes(w: World, inp: Inputs, s: MatchSpec, e: Egress)
    ensures Throughout(w, AddMatchRule(w, inp, s, e), RoutesAre(w.k.routes))
  {
    if w.ok && AppendMatch(s, e.fwmark).Ok? {
      RunThroughout(w, inp, AddRule(AppendMatch(s, e.fwmark).value), RoutesAre(w.k.routes));
    }
  }

  lemma {:induction false} AddressesKeepTheRoutes(w: World, inp: Inputs, s: MatchSpec, e: Egress, ips: seq<string>)
    ensures Throughout(w, AddAddresses(w, inp, s, e, ips), RoutesAre(w.k.routes))
    decreases |ips|
  {
    if ips != [] {
      var w1 := AddMatchRule(w, inp, ResolvedSpec(s, ips[0]), e);
      RuleKeepsTheRoutes(w, inp, ResolvedSpec(s, ips[0]), e);
      AddressesKeepTheRoutes(w1, inp, s, e, ips[1..]);
      ThroughoutThen(w, w1, AddAddresses(w1, inp, s, e, ips[1..]), RoutesAre(w.k.routes));
    }
  }

  lemma PolicyKeepsTheRoutes(w: World, c: Config, inp: Inputs, m: map<string, Egress>, i: nat)
    requires i < |c.policies|
    ensures Throughout(w, AddPolicy(w, c, inp, m, i), RoutesAre(w.k.routes))
  {
    var p := c.policies[i];
    if w.ok && Active(p, m) {
      if p.spec.domain.None? {
        RuleKeepsTheRoutes(w, inp, p.spec, m[p.egress]);
      } else {
        var resolved := ResolvedAt(c, inp, w.file, i);
        if resolved.result.Ok? {
          AddressesKeepTheRoutes(w.(file := resolved.file), inp, p.spec, m[p.egress], resolved.result.value.ips);
        }
      }
    }
  }

  lemma {:induction false} PoliciesKeepTheRoutes(w: World, c: Config, inp: Inputs, m: map<string, Egress>, i: nat)
    requires i <= |c.policies|
    ensures Throughout(w, AddPolicies(w, c, inp, m, i), RoutesAre(w.k.routes))
    decreases |c.policies| - i
  {
    if i < |c.policies| {
      var w1 := AddPolicy(w, c, inp, m, i);
      PolicyKeepsTheRoutes(w, c, inp, m, i);
      PoliciesKeepTheRoutes(w1, c, inp, m, i + 1);
      ThroughoutThen(w, w1, AddPolicies(w1, c, inp, m, i + 1), RoutesAre(w.k.routes));
    }
  }

  /** The second flush and the policies. */
  lemma PolicyPhaseKeepsTheRoutes(w: World, c: Config, inp: Inputs, m: map<string, Egress>)
    ensures Throughout(w, AddPolicies(Run(w, inp, FlushChain), c, inp, m, 0), RoutesAre(w.k.routes))
  {
    var w1 := Run(w, inp, FlushChain);
    RunThroughout(w, inp, FlushChain, RoutesAre(w.k.routes));
    PoliciesKeepTheRoutes(w1, c, inp, m, 0);
    ThroughoutThen(w, w1, AddPolicies(w1, c, inp, m, 0), RoutesAre(w.k.routes));
  }

  // ---------------------------------------------------------------- the theorem

  /** Every enabled egress that is up has the default route it is to have. */
  ghost predicate InPlace(c: Config, inp: Inputs, k: Kernel) {
    forall x :: x in c.egresses && x.enabled && inp.linkUp(x.name) ==>
      x.table in k.routes && DefaultFor(k.routes[x.table], x, inp.inspect(x.name))
  }

  /** The old chain is still there, or the routes are in place. */
  ghost function OldChainOr(c: Config, inp: Inputs, nft: Nft): Kernel -> bool {
    (k: Kernel) => k.nft == nft || InPlace(c, inp, k)
  }

  lemma Weaken(w: World, w': World, p: Kernel -> bool, q: Kernel -> bool)
    requires Throughout(w, w', p) && forall k :: p(k) ==> q(k)
    ensures Throughout(w, w', q)
  {}

  lemma DefaultsInPlace(c: Config, inp: Inputs, m: map<string, Egress>, k: Kernel)
    requires EgressesDistinct(c.egresses) && inp.apply && HealthyMap(c.egresses, c.autoRefresh, inp) == Ok(m)
    requires DefaultsInstalled(k.routes, m)
    ensures InPlace(c, inp, k)
  {
    HealthyMapExact(c.egresses, c.autoRefresh, inp);
    forall x | x in c.egresses && x.enabled && inp.linkUp(x.name)
      ensures x.table in k.routes && DefaultFor(k.routes[x.table], x, inp.inspect(x.name))
    {
      assert Usable(x, inp);
      var y :| y in c.egresses && Usable(y, inp) && y.name == x.name && UsedAs(y, m[x.name], c.autoRefresh, inp);
      NameIdentifies(c.egresses, x, y);
      PreparedDefault(x, c.autoRefresh, inp);
    }
  }

  lemma InstallHandsOver(w: World, c: Config, inp: Inputs, m: map<string, Egress>, nft: Nft)
    requires EgressesDistinct(c.egresses) && inp.apply && InputsOk(c, inp) && w.ok && w.k.nft == nft
    requires HealthyMap(c.egresses, c.autoRefresh, inp) == Ok(m)
    ensures Throughout(w, Install(w, c, inp, m), OldChainOr(c, inp, nft))
  {
    var q := OldChainOr(c, inp, nft);
    if |m| == 0 && c.failClosed {
      NoneUp(c, inp, m);
      RunThroughout(w, inp, FlushChain, q);
    } else {
      var es := Values(inp.order, m);
      var w1 := EnsureAll(w, inp, es);
      EnsureAllKeepsChain(w, inp, es);
      Weaken(w, w1, ChainIs(nft), q);
      RoutedPhase(w, w1, c, inp, m, nft);
      ThroughoutThen(w, w1, Install(w, c, inp, m), q);
    }
  }

  lemma NoneUp(c: Config, inp: Inputs, m: map<string, Egress>)
    requires HealthyMap(c.egresses, c.autoRefresh, inp) == Ok(m) && |m| == 0
    ensures forall k :: InPlace(c, inp, k)
  {
    HealthyMapExact(c.egresses, c.autoRefresh, inp);
    assert m == map[];
    forall x | x in c.egresses && x.enabled ensures !inp.linkUp(x.name) { assert !Usable(x, inp); }
  }

  lemma RoutedPhase(w: World, w1: World, c: Config, inp: Inputs, m: map<string, Egress>, nft: Nft)
    requires EgressesDistinct(c.egresses) && inp.apply && InputsOk(c, inp) && w.ok && w.k.nft == nft
    requires HealthyMap(c.egresses, c.autoRefresh, inp) == Ok(m)
    requires w1 == EnsureAll(w, inp, Values(inp.order, m)) && w1.k.nft == nft
    ensures Throughout(w1, AddPolicies(Run(w1, inp, FlushChain), c, inp, m, 0), OldChainOr(c, inp, nft))
  {
    var w2 := AddPolicies(Run(w1, inp, FlushChain), c, inp, m, 0);
    if w1.ok {
      ValuesDistinct(c, inp);
      RoutePhaseRoutes(w, inp, m);
      DefaultsInPlace(c, inp, m, w1.k);
      PolicyPhaseKeepsTheRoutes(w1, c, inp, m);
      Weaken(w1, w2, RoutesAre(w1.k.routes), OldChainOr(c, inp, nft));
    } else {
      PoliciesStopped(w1, c, inp, m, 0);
    }
  }

  /** After every single command of a reconcile, and at its end, successful or not, the chain is the one
      from before or every enabled egress that is up has the default route it is to have. */
  lemma {:induction false} ChainChangesLast(w: World, c: Config, inp: Inputs)
    requires EgressesDistinct(c.egresses) && InputsOk(c, inp) && inp.apply && w.k.nft.Chain?
    ensures var w' := ReconcileOnce(w, c, inp);
      && (forall i :: |w.trace| <= i < |w'.trace| ==> w'.trace[i].nft == w.k.nft || InPlace(c, inp, w'.trace[i]))
      && (w'.k.nft == w.k.nft || InPlace(c, inp, w'.k))
  {
    var q, start, w' := OldChainOr(c, inp, w.k.nft), w.(ok := true), ReconcileOnce(w, c, inp);
    var w1 := AfterSetup(start, c, inp);
    SetupKeepsChain(start, c, inp);
    Weaken(start, w1, ChainIs(w.k.nft), q);
    var h := HealthyMap(c.egresses, c.autoRefresh, inp);
    if w1.ok && h.Ok? {
      InstallHandsOver(w1, c, inp, h.value, w.k.nft);
      ThroughoutThen(start, w1, w', q);
    }
    assert Throughout(start, w', q);
  }
}
