/** Exactly when a reconcile returns an error: no failed attempt is overlooked, except that a table or
    chain that is not listed is added. */
module Failures {
  import opened Text
  import opened Config
  import opened Kernel
  import opened Reconcile
  import opened Routes
  import opened Compile
  import opened Progress

  /** Between the two states attempts were made, and if there is no error in the end, none failed. */
  ghost predicate Strict(inp: Inputs, w: World, w': World) {
    w.tick <= w'.tick && (w'.ok ==> w.ok && Clean(inp, w.tick, w'.tick))
  }

  lemma StrictThen(inp: Inputs, a: World, b: World, d: World)
    requires Strict(inp, a, b) && Strict(inp, b, d)
    ensures Strict(inp, a, d)
  {}

  lemma RunStrict(w: World, inp: Inputs, cmd: Command)
    ensures Strict(inp, w, Run(w, inp, cmd))
  {}

  lemma EnsureEgressStrict(w: World, inp: Inputs, e: Egress)
    ensures Strict(inp, w, EnsureEgress(w, inp, e))
  {
    var w1 := Run(w, inp, ReplaceDefault(e.table, DefaultOf(e)));
    RunStrict(w, inp, ReplaceDefault(e.table, DefaultOf(e)));
    FwmarkStrict(w1, inp, e);
    StrictThen(inp, w, w1, EnsureEgress(w, inp, e));
  }

  lemma FwmarkStrict(w: World, inp: Inputs, e: Egress)
    ensures Strict(inp, w, EnsureFwmark(w, inp, e))
  {
    RunStrict(if inp.apply then Capture(w, inp) else w, inp, AddIpRule(OwnRule(e)));
  }

  lemma {:induction false} EnsureAllStrict(w: World, inp: Inputs, es: seq<Egress>)
    ensures Strict(inp, w, EnsureAll(w, inp, es))
    decreases |es|
  {
    if es != [] {
      var w1 := EnsureEgress(w, inp, es[0]);
      EnsureEgressStrict(w, inp, es[0]);
      EnsureAllStrict(w1, inp, es[1..]);
      StrictThen(inp, w, w1, EnsureAll(w1, inp, es[1..]));
    }
  }

  lemma {:induction false} AddressesStrict(w: World, inp: Inputs, s: MatchSpec, e: Egress, ips: seq<string>)
    ensures Strict(inp, w, AddAddresses(w, inp, s, e, ips))
    decreases |ips|
  {
    if ips != [] {
      var w1 := AddMatchRule(w, inp, ResolvedSpec(s, ips[0]), e);
      AddressesStrict(w1, inp, s, e, ips[1..]);
      StrictThen(inp, w, w1, AddAddresses(w1, inp, s, e, ips[1..]));
    }
  }

  lemma PolicyStrict(w: World, c: Config, inp: Inputs, m: map<string, Egress>, i: nat)
    requires i < |c.policies|
    ensures Strict(inp, w, AddPolicy(w, c, inp, m, i))
  {
    var p := c.policies[i];
    if w.ok && Asks(c, m, i) {
      var resolved := ResolvedAt(c, inp, w.file, i);
      if resolved.result.Ok? {
        AddressesStrict(w.(file := resolved.file), inp, p.spec, m[p.egress], resolved.result.value.ips);
      }
    }
  }

  lemma {:induction false} PoliciesStrict(w: World, c: Config, inp: Inputs, m: map<string, Egress>, i: nat)
    requires i <= |c.policies|
    ensures Strict(inp, w, AddPolicies(w, c, inp, m, i))
    decreases |c.policies| - i
  {
    if i < |c.policies| {
      var w1 := AddPolicy(w, c, inp, m, i);
      PolicyStrict(w, c, inp, m, i);
      PoliciesStrict(w1, c, inp, m, i + 1);
      StrictThen(inp, w, w1, AddPolicies(w1, c, inp, m, i + 1));
    }
  }

  lemma InstallStrict(w: World, c: Config, inp: Inputs, m: map<string, Egress>)
    requires OrderOk(inp.order, m)
    ensures Strict(inp, w, Install(w, c, inp, m))
  {
    RunStrict(w, inp, FlushChain);
    var w1 := EnsureAll(w, inp, Values(inp.order, m));
    var w2 := Run(w1, inp, FlushChain);
    EnsureAllStrict(w, inp, Values(inp.order, m));
    RunStrict(w1, inp, FlushChain);
    PoliciesStrict(w2, c, inp, m, 0);
    StrictThen(inp, w, w1, w2);
    StrictThen(inp, w, w2, AddPolicies(w2, c, inp, m, 0));
  }

  /** The table is listed, or added; then the chain. The attempts are numbered from t. */
  ghost predicate SetUp(nft: Nft, fails: nat -> bool, t: nat) {
    var table := !fails(t) && !nft.NoTable?;
    var u := if table then t + 1 else t + 2;
    var chain := !fails(u) && nft.Chain?;
    (table || !fails(t + 1)) && (chain || !fails(u + 1))
  }

  lemma {:induction false} SetupOkIff(w: World, c: Config, inp: Inputs)
    requires w.ok
    ensures AfterSetup(w, c, inp).ok <==> !inp.apply || SetUp(w.k.nft, inp.fails, w.tick)
  {}

  /** A reconcile of a validated configuration succeeds exactly when the table and the chain are there or
      can be added, no enabled direct egress that is up is unusable, and no later attempt fails. */
  lemma {:induction false} ReconcileOkIff(w: World, c: Config, parse: string -> Option<SockAddr>, inp: Inputs)
    requires Valid(c, parse) && InputsOk(c, inp)
    ensures var setUp, w' := AfterSetup(w.(ok := true), c, inp), ReconcileOnce(w, c, inp);
      w'.ok <==>
        && (!inp.apply || SetUp(w.k.nft, inp.fails, w.tick))
        && !(inp.apply && exists x :: x in c.egresses && Blocks(x, c.autoRefresh, inp))
        && Clean(inp, setUp.tick, w'.tick)
  {
    var w1 := AfterSetup(w.(ok := true), c, inp);
    SetupOkIff(w.(ok := true), c, inp);
    SetupSucceeds(w.(ok := true), c, inp);
    HealthyMapFails(c.egresses, c.autoRefresh, inp);
    var h := HealthyMap(c.egresses, c.autoRefresh, inp);
    if w1.ok && h.Ok? {
      AllMatch(c, parse);
      InstallStrict(w1, c, inp, h.value);
      InstallSucceeds(w1, c, inp, h.value);
    }
  }

  lemma AllMatch(c: Config, parse: string -> Option<SockAddr>)
    requires Valid(c, parse)
    ensures AllHaveMatch(c.policies)
  {
    forall i | 0 <= i < |c.policies| ensures HasMatch(c.policies[i].spec) { assert c.policies[i] in c.policies; }
  }
}
