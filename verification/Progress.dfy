/** When a reconcile succeeds: no command of a validated configuration is refused for want of a table,
    chain or rule, and the rule builder's own error cannot occur, so an error always comes from a failed
    attempt or from a direct egress that cannot be used. */
module Progress {
  import opened Text
  import opened Config
  import opened Kernel
  import opened Reconcile
  import opened Routes
  import opened Compile

  /** No attempt numbered from a up to b failed. */
  ghost predicate Clean(inp: Inputs, a: nat, b: nat) { forall t :: a <= t < b ==> !inp.fails(t) }

  lemma RunSucceeds(w: World, inp: Inputs, cmd: Command)
    requires w.ok && (inp.apply ==> Effect(w.k, cmd).Some?)
    ensures var w' := Run(w, inp, cmd);
      && w.tick <= w'.tick
      && (Clean(inp, w.tick, w'.tick) ==> w'.ok && (inp.apply ==> w'.k == Effect(w.k, cmd).value))
  {}

  lemma SetupSucceeds(w: World, c: Config, inp: Inputs)
    requires w.ok
    ensures var w' := AfterSetup(w, c, inp);
      && w.tick <= w'.tick
      && (Clean(inp, w.tick, w'.tick) ==> w'.ok)
      && (inp.apply && w'.ok ==> w'.k.nft.Chain?)
  {}

  /** Ensuring egresses leaves the chain alone and is never refused. */
  lemma {:induction false} EnsureAllSucceeds(w: World, inp: Inputs, es: seq<Egress>)
    ensures var w' := EnsureAll(w, inp, es);
      && w.tick <= w'.tick && w'.k.nft == w.k.nft
      && (w.ok && Clean(inp, w.tick, w'.tick) ==> w'.ok)
    decreases |es|
  {
    if es != [] { EnsureAllSucceeds(EnsureEgress(w, inp, es[0]), inp, es[1..]); }
  }

  lemma AddMatchRuleSucceeds(w: World, inp: Inputs, m: MatchSpec, e: Egress)
    requires m.destIp.Some? || m.destCidr.Some? || m.uid.Some?
    requires inp.apply ==> w.k.nft.Chain?
    ensures var w' := AddMatchRule(w, inp, m, e);
      && w.tick <= w'.tick && (inp.apply ==> w'.k.nft.Chain?)
      && (w.ok && Clean(inp, w.tick, w'.tick) ==> w'.ok)
  {}

  lemma {:induction false} AddAddressesSucceeds(w: World, inp: Inputs, m: MatchSpec, e: Egress, ips: seq<string>)
    requires inp.apply ==> w.k.nft.Chain?
    ensures var w' := AddAddresses(w, inp, m, e, ips);
      && w.tick <= w'.tick && (inp.apply ==> w'.k.nft.Chain?)
      && (w.ok && Clean(inp, w.tick, w'.tick) ==> w'.ok)
    decreases |ips|
  {
    if ips != [] {
      AddMatchRuleSucceeds(w, inp, ResolvedSpec(m, ips[0]), e);
      AddAddressesSucceeds(AddMatchRule(w, inp, ResolvedSpec(m, ips[0]), e), inp, m, e, ips[1..]);
    }
  }

  lemma AddPolicySucceeds(w: World, c: Config, inp: Inputs, m: map<string, Egress>, i: nat)
    requires i < |c.policies| && HasMatch(c.policies[i].spec)
    requires inp.apply ==> w.k.nft.Chain?
    ensures var w' := AddPolicy(w, c, inp, m, i);
      && w.tick <= w'.tick && (inp.apply ==> w'.k.nft.Chain?)
      && (w.ok && Clean(inp, w.tick, w'.tick) ==> w'.ok)
  {
    var p := c.policies[i];
    if w.ok && Active(p, m) {
      if p.spec.domain.None? {
        AddMatchRuleSucceeds(w, inp, p.spec, m[p.egress]);
      } else {
        var resolved := ResolvedAt(c, inp, w.file, i);
        if resolved.result.Ok? {
          AddAddressesSucceeds(w.(file := resolved.file), inp, p.spec, m[p.egress], resolved.result.value.ips);
        }
      }
    }
  }

  ghost predicate AllHaveMatch(ps: seq<Policy>) { forall i :: 0 <= i < |ps| ==> HasMatch(ps[i].spec) }

  lemma {:induction false} AddPoliciesSucceeds(w: World, c: Config, inp: Inputs, m: map<string, Egress>, i: nat)
    requires i <= |c.policies| && AllHaveMatch(c.policies)
    requires inp.apply ==> w.k.nft.Chain?
    ensures var w' := AddPolicies(w, c, inp, m, i);
      && w.tick <= w'.tick
      && (w.ok && Clean(inp, w.tick, w'.tick) ==> w'.ok)
    decreases |c.policies| - i
  {
    if i < |c.policies| {
      AddPolicySucceeds(w, c, inp, m, i);
      AddPoliciesSucceeds(AddPolicy(w, c, inp, m, i), c, inp, m, i + 1);
    }
  }

  lemma InstallSucceeds(w: World, c: Config, inp: Inputs, m: map<string, Egress>)
    requires w.ok && AllHaveMatch(c.policies) && OrderOk(inp.order, m)
    requires inp.apply ==> w.k.nft.Chain?
    ensures var w' := Install(w, c, inp, m);
      && w.tick <= w'.tick
      && (Clean(inp, w.tick, w'.tick) ==> w'.ok)
  {
    if |m| == 0 && c.failClosed {
      RunSucceeds(w, inp, FlushChain);
    } else {
      var w1 := EnsureAll(w, inp, Values(inp.order, m));
      EnsureAllSucceeds(w, inp, Values(inp.order, m));
      var w2 := Run(w1, inp, FlushChain);
      if w1.ok { RunSucceeds(w1, inp, FlushChain); }
      AddPoliciesSucceeds(w2, c, inp, m, 0);
    }
  }

  /** A reconcile of a validated configuration returns an error only if some attempt failed or a
      healthy direct egress could not be used; without failing attempts that is exactly when. */
  lemma ErrorsComeFromOutside(w: World, c: Config, parse: string -> Option<SockAddr>, inp: Inputs)
    requires Valid(c, parse) && InputsOk(c, inp)
    ensures var w' := ReconcileOnce(w, c, inp);
      && (Clean(inp, w.tick, w'.tick) ==> (w'.ok <==> HealthyMap(c.egresses, c.autoRefresh, inp).Ok?))
  {
    forall i | 0 <= i < |c.policies| ensures HasMatch(c.policies[i].spec) { assert c.policies[i] in c.policies; }
    var w1 := AfterSetup(w.(ok := true), c, inp);
    SetupSucceeds(w.(ok := true), c, inp);
    var h := HealthyMap(c.egresses, c.autoRefresh, inp);
    if w1.ok && h.Ok? { InstallSucceeds(w1, c, inp, h.value); }
  }

  /** So a reconcile in which no attempt fails errs exactly when some enabled direct egress is up whose
      addresses on the host are unknown, or moved without leave to follow them. */
  lemma {:induction false} ErrsOnlyForUnusable(
    w: World, c: Config, parse: string -> Option<SockAddr>, inp: Inputs)
    requires Valid(c, parse) && InputsOk(c, inp) && forall t :: !inp.fails(t)
    ensures !ReconcileOnce(w, c, inp).ok <==>
      inp.apply && exists x :: x in c.egresses && Blocks(x, c.autoRefresh, inp)
  {
    ErrorsComeFromOutside(w, c, parse, inp);
    HealthyMapFails(c.egresses, c.autoRefresh, inp);
  }
}
