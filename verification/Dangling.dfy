/** Exactly when no run can leave a mark without its rule and route: when no rule line of an enabled
    egress is mistaken for the rule of an egress that policies use. */
module Dangling {
  import opened Text
  import opened Domain
  import opened Config
  import opened Kernel
  import opened DirectEgress
  import opened Reconcile
  import opened Safety
  import opened Compile
  import opened Order
  import opened Progress
  import Cache

  /** No line looks like the rule of any of the egresses; in particular none of the rules is there. */
  ghost predicate NoneListed(rules: seq<IpRule>, es: seq<Egress>) {
    forall e :: e in es ==> !RuleListed(rules, e.fwmark, e.table)
  }

  /** A host on which nothing of the configuration exists yet and no line looks like its rules. */
  ghost predicate Untouched(c: Config, k: Kernel) {
    && k.nft.NoTable? && Ordered(k.rules) && NoneListed(k.rules, c.egresses)
    && forall r, e :: r in k.rules && r.Fwmark? && e in c.egresses ==> r.mark != e.fwmark
  }

  ghost predicate AllInputsOk(c: Config, runs: seq<Inputs>) {
    forall i :: 0 <= i < |runs| ==> InputsOk(c, runs[i])
  }

  function Start(k: Kernel): World { World(k, None, 0, [], true) }

  /** Neither the final kernel nor the one after any single command has a dangling mark. */
  ghost predicate DangleFree(c: Config, w: World) {
    NoDanglingMark(c, w.k) && forall i :: 0 <= i < |w.trace| ==> NoDanglingMark(c, w.trace[i])
  }

  /** Whatever health, answers, iteration orders and failures a run of reconciles meets. */
  ghost predicate NeverDangles(c: Config, k: Kernel) {
    forall runs {:trigger AllInputsOk(c, runs)} :: AllInputsOk(c, runs) ==>
      DangleFree(c, ReconcileMany(Start(k), c, runs))
  }

  /** Over every run of reconciles from an untouched host, no mark dangles after any single command
      exactly when the configuration is free of clashes. */
  lemma {:induction false} NeverDanglesIffClashFree(c: Config, parse: string -> Option<SockAddr>, k: Kernel)
    requires Valid(c, parse) && Untouched(c, k)
    ensures NeverDangles(c, k) <==> ClashFree(c)
  {
    if ClashFree(c) {
      forall runs | AllInputsOk(c, runs) ensures DangleFree(c, ReconcileMany(Start(k), c, runs)) {
        ClashFreeRun(c, parse, k, runs);
      }
    } else {
      ClashingRun(c, parse, k);
    }
  }

  lemma ClashFreeRun(c: Config, parse: string -> Option<SockAddr>, k: Kernel, runs: seq<Inputs>)
    requires Valid(c, parse) && Untouched(c, k) && ClashFree(c) && AllInputsOk(c, runs)
    ensures DangleFree(c, ReconcileMany(Start(k), c, runs))
  {
    UntouchedIsSound(c, k);
    assert MarksRouted(c, k, {});
    EveryCommandGood(c, Tolerance({}, 0), Start(k), runs);
  }

  lemma ClashingRun(c: Config, parse: string -> Option<SockAddr>, k: Kernel)
    requires Valid(c, parse) && Untouched(c, k) && !ClashFree(c)
    ensures !NeverDangles(c, k)
  {
    var a, e :| a in c.egresses && a.enabled && e in c.egresses && Used(c, e.name)
      && Mistaken(OwnRule(a), e.fwmark, e.table);
    UsedIsEnabled(c, parse, e);
    OneRunDangles(c, parse, k, a, e);
    OneRunRefutes(c, k, Witness(a, e));
  }

  lemma OneRunRefutes(c: Config, k: Kernel, inp: Inputs)
    requires InputsOk(c, inp) && !NoDanglingMark(c, ReconcileOnce(Start(k), c, inp).k)
    ensures !NeverDangles(c, k)
  {
    OneRun(Start(k), c, inp);
    assert AllInputsOk(c, [inp]) && !DangleFree(c, ReconcileMany(Start(k), c, [inp]));
  }

  lemma OneRun(w: World, c: Config, inp: Inputs)
    requires InputsOk(c, inp)
    ensures ReconcileMany(w, c, [inp]) == ReconcileOnce(w, c, inp)
  {
    assert [inp][..0] == [];
    assert ReconcileMany(w, c, [inp][..0]) == w;
  }

  lemma UntouchedIsSound(c: Config, k: Kernel)
    requires Untouched(c, k)
    ensures Sound(c, k)
  {
    forall r, e | r in k.rules && e in c.egresses ensures !Mistaken(r, e.fwmark, e.table) {
      if Mistaken(r, e.fwmark, e.table) { ListedByMember(k.rules, r, e.fwmark, e.table); }
    }
  }

  lemma UsedIsEnabled(c: Config, parse: string -> Option<SockAddr>, e: Egress)
    requires Valid(c, parse) && e in c.egresses && Used(c, e.name)
    ensures e.enabled
  {
    var p :| p in c.policies && Installs(p) && p.egress == e.name;
    assert p.egress in EnabledNames(c.egresses);
    var x :| x in c.egresses && x.enabled && x.name == e.name;
    NameIdentifies(c.egresses, x, e);
  }

  // ---------------------------------------------------------------- a run that dangles

  /** What inspecting the host shows when it is as configured: the configured value, or any address. */
  function AsConfigured(e: Egress): RuntimeState { RuntimeState(Some(Shown(e.gateway)), Some(Shown(e.sourceIp))) }

  function Shown(configured: Option<string>): string {
    if configured.None? || Blank(configured.value) then "192.0.2.254" else Trim(configured.value)
  }

  const ANSWER: Cache.CallEnv := Cache.CallEnv(0, Cache.Found(["192.0.2.1"]), false, false)

  /** Two egresses are up and as configured, a comes first, names resolve and nothing fails. */
  function Witness(a: Egress, e: Egress): Inputs {
    Inputs(
      true,
      n => n == a.name || n == e.name,
      n => Some(AsConfigured(if n == a.name then a else e)),
      [a.name, e.name],
      _ => ANSWER,
      _ => false)
  }

  lemma AsConfiguredIsInSync(e: Egress)
    ensures DriftOf(AsConfigured(e), e.gateway, e.sourceIp) == InSync
  {}

  lemma {:induction false} UsableMap(es: seq<Egress>, autoRefresh: bool, inp: Inputs)
    requires forall x :: x in es && Healthy(x, inp) ==> Prepared(x, autoRefresh, inp).Ok?
    ensures HealthyMap(es, autoRefresh, inp).Ok?
  {
    if es != [] {
      var init := es[..|es| - 1];
      assert forall x :: x in init ==> x in es;
      UsableMap(init, autoRefresh, inp);
      assert es[|es| - 1] in es;
    }
  }

  lemma WitnessMap(c: Config, a: Egress, e: Egress)
    requires EgressesDistinct(c.egresses) && a in c.egresses && e in c.egresses && a != e && a.enabled && e.enabled
    ensures var inp := Witness(a, e);
      && HealthyMap(c.egresses, c.autoRefresh, inp).Ok?
      && OrderOk(inp.order, HealthyMap(c.egresses, c.autoRefresh, inp).value)
      && var m := HealthyMap(c.egresses, c.autoRefresh, inp).value;
         SameSlot(m[a.name], a) && SameSlot(m[e.name], e)
  {
    var inp := Witness(a, e);
    forall x | x in c.egresses && Healthy(x, inp)
      ensures (x == a || x == e) && Prepared(x, c.autoRefresh, inp) == Ok(x)
    {
      if x.name == a.name { NameIdentifies(c.egresses, x, a); } else { NameIdentifies(c.egresses, x, e); }
      if a.name == e.name { NameIdentifies(c.egresses, a, e); }
      AsConfiguredIsInSync(x);
    }
    UsableMap(c.egresses, c.autoRefresh, inp);
    HealthyMapExact(c.egresses, c.autoRefresh, inp);
    var m := HealthyMap(c.egresses, c.autoRefresh, inp).value;
    assert Healthy(a, inp) && Healthy(e, inp);
    if a.name == e.name { NameIdentifies(c.egresses, a, e); }
    forall n | n in m ensures n == a.name || n == e.name {}
    SlotOf(c, inp, m, a);
    SlotOf(c, inp, m, e);
  }

  lemma SlotOf(c: Config, inp: Inputs, m: map<string, Egress>, e: Egress)
    requires EgressesDistinct(c.egresses) && e in c.egresses && e.name in m
    requires exists x ::
      x in c.egresses && Usable(x, inp) && x.name == e.name && UsedAs(x, m[e.name], c.autoRefresh, inp)
    ensures SameSlot(m[e.name], e)
  {
    var x :| x in c.egresses && Usable(x, inp) && x.name == e.name && UsedAs(x, m[e.name], c.autoRefresh, inp);
    NameIdentifies(c.egresses, x, e);
  }

  /** A resolver that answers always yields addresses, from the cache or live. */
  lemma AnswersAreNonEmpty(c: Config, inp: Inputs, file: Cache.CacheFile, i: nat)
    requires i < |c.policies| && c.policies[i].spec.domain.Some? && Normalize(c.policies[i].spec.domain.value).Some?
    requires inp.dns(i) == ANSWER
    ensures ResolvedAt(c, inp, file, i).result.Ok? && ResolvedAt(c, inp, file, i).result.value.ips != []
  {
    UniqueSortedExact(["192.0.2.1"]);
    assert "192.0.2.1" in UniqueSorted(["192.0.2.1"]);
  }

  /** An installing policy whose egress is healthy puts a rule with the egress's mark into the chain. */
  lemma InstallingPolicyMarks(
    c: Config, inp: Inputs, m: map<string, Egress>, file: Cache.CacheFile, i: nat)
    returns (rule: ChainRule)
    requires i < |c.policies| && Installs(c.policies[i]) && HasMatch(c.policies[i].spec) && c.policies[i].egress in m
    requires inp.dns(i) == ANSWER
    ensures rule in Compiled(c, inp, m, file, |c.policies|) && rule.mark == m[c.policies[i].egress].fwmark
  {
    var p := c.policies[i];
    var mark := m[p.egress].fwmark;
    if p.spec.domain.Some? {
      AnswersAreNonEmpty(c, inp, FileAt(c, inp, m, file, i), i);
      var ips := AnswerAt(c, inp, m, file, i).value;
      rule := ChainRule(Some(ips[0]), p.spec.uid, mark);
      AddressRulesHas(p.spec, mark, ips, ips[0]);
    } else {
      rule := AppendMatch(p.spec, mark).value;
    }
    CompiledHas(c, inp, m, file, |c.policies|, i, rule);
  }

  lemma {:induction false} OneRunDangles(c: Config, parse: string -> Option<SockAddr>, k: Kernel, a: Egress, e: Egress)
    requires Valid(c, parse) && Untouched(c, k)
    requires a in c.egresses && a.enabled && e in c.egresses && e.enabled && Used(c, e.name)
    requires Mistaken(OwnRule(a), e.fwmark, e.table)
    ensures InputsOk(c, Witness(a, e))
    ensures !NoDanglingMark(c, ReconcileOnce(Start(k), c, Witness(a, e)).k)
  {
    var inp := Witness(a, e);
    WitnessMap(c, a, e);
    var m := HealthyMap(c.egresses, c.autoRefresh, inp).value;
    ErrorsComeFromOutside(Start(k), c, parse, inp);
    RuleIsMissing(c, k, a, e, m);
    assert inp.apply && forall i :: inp.dns(i) == ANSWER;
    UnroutedUse(Start(k), c, parse, inp, m, e);
  }

  /** A used healthy egress whose rule is missing leaves a dangling mark. */
  lemma UnroutedUse(
    w: World, c: Config, parse: string -> Option<SockAddr>, inp: Inputs, m: map<string, Egress>, e: Egress)
    requires Valid(c, parse) && InputsOk(c, inp) && inp.apply && ReconcileOnce(w, c, inp).ok
    requires HealthyMap(c.egresses, c.autoRefresh, inp) == Ok(m) && e in c.egresses && Used(c, e.name)
    requires e.name in m && SameSlot(m[e.name], e) && forall i :: inp.dns(i) == ANSWER
    requires OwnRule(e) !in ReconcileOnce(w, c, inp).k.rules
    ensures !NoDanglingMark(c, ReconcileOnce(w, c, inp).k)
  {
    ReconcileInstalls(w, c, inp);
    var rule := SomeRuleMarks(c, parse, inp, m, w.file, e);
    MarkDangles(c, ReconcileOnce(w, c, inp).k, rule, e);
  }

  lemma SomeRuleMarks(
    c: Config, parse: string -> Option<SockAddr>, inp: Inputs, m: map<string, Egress>, file: Cache.CacheFile,
    e: Egress)
    returns (rule: ChainRule)
    requires Valid(c, parse) && e in c.egresses && Used(c, e.name) && e.name in m && SameSlot(m[e.name], e)
    requires forall i :: inp.dns(i) == ANSWER
    ensures rule in Compiled(c, inp, m, file, |c.policies|) && rule.mark == e.fwmark
  {
    var p :| p in c.policies && Installs(p) && p.egress == e.name;
    var i :| 0 <= i < |c.policies| && c.policies[i] == p;
    rule := InstallingPolicyMarks(c, inp, m, file, i);
  }

  lemma MarkDangles(c: Config, k: Kernel, rule: ChainRule, e: Egress)
    requires EgressesDistinct(c.egresses) && e in c.egresses && OwnRule(e) !in k.rules
    requires k.nft.Chain? && rule in k.nft.rules && rule.mark == e.fwmark
    ensures !NoDanglingMark(c, k)
  {
    forall x | x in c.egresses && rule.mark == x.fwmark ensures !Routed(k, x) { MarkIdentifies(c.egresses, x, e); }
  }

  lemma RuleIsMissing(c: Config, k: Kernel, a: Egress, e: Egress, m: map<string, Egress>)
    requires Untouched(c, k) && a in c.egresses && e in c.egresses && Mistaken(OwnRule(a), e.fwmark, e.table)
    requires HealthyMap(c.egresses, c.autoRefresh, Witness(a, e)) == Ok(m) && OrderOk([a.name, e.name], m)
    requires SameSlot(m[a.name], a) && SameSlot(m[e.name], e)
    requires ReconcileOnce(Start(k), c, Witness(a, e)).ok
    ensures OwnRule(e) !in ReconcileOnce(Start(k), c, Witness(a, e)).k.rules
  {
    var inp := Witness(a, e);
    var w := AfterSetup(Start(k).(ok := true), c, inp);
    SetupLeavesChain(Start(k).(ok := true), c, inp);
    assert w.k.rules == k.rules && w.ok;
    InstallRoutes(w, c, inp, m);
    assert Values([a.name, e.name], m) == [m[a.name]] + [m[e.name]];
    FirstBlocksSecond(w, inp, m[a.name], m[e.name], [m[e.name]]);
  }

  // ---------------------------------------------------------------- what becomes of the packets

  /** In the dangling run no rule is on the mark of the egress whose rule is missing. */
  lemma NoRuleOnMark(c: Config, k: Kernel, a: Egress, e: Egress, m: map<string, Egress>, r: IpRule)
    requires EgressesDistinct(c.egresses) && a in c.egresses && e in c.egresses && Untouched(c, k)
    requires Mistaken(OwnRule(a), e.fwmark, e.table)
    requires HealthyMap(c.egresses, c.autoRefresh, Witness(a, e)) == Ok(m) && OrderOk([a.name, e.name], m)
    requires SameSlot(m[a.name], a) && SameSlot(m[e.name], e)
    requires ReconcileOnce(Start(k), c, Witness(a, e)).ok && r in ReconcileOnce(Start(k), c, Witness(a, e)).k.rules
    ensures r.Fwmark? ==> r.mark != e.fwmark
  {
    var inp := Witness(a, e);
    RuleIsMissing(c, k, a, e, m);
    ReconcileRoutes(Start(k), c, inp, m);
    SetupKeepsRoutes(Start(k).(ok := true), c, inp);
    var es := Values([a.name, e.name], m);
    assert es == [m[a.name], m[e.name]] && OwnRule(m[e.name]) == OwnRule(e);
    EnsureAllMembers(AfterSetup(Start(k).(ok := true), c, inp), inp, es, r);
    if r !in k.rules {
      var x :| x in es && r == OwnRule(x);
      assert x == m[a.name];
      if a.fwmark == e.fwmark { MarkIdentifies(c.egresses, a, e); }
    }
  }

  /** A packet that the policies send to that egress leaves with its mark and without a route by it. */
  lemma {:induction false} ClashedPacketIsUnrouted(
    c: Config, parse: string -> Option<SockAddr>, k: Kernel, a: Egress, e: Egress, m: map<string, Egress>,
    i: nat, pkt: Packet)
    requires Valid(c, parse) && Untouched(c, k)
    requires a in c.egresses && a.enabled && e in c.egresses && e.enabled && Mistaken(OwnRule(a), e.fwmark, e.table)
    requires HealthyMap(c.egresses, c.autoRefresh, Witness(a, e)) == Ok(m)
    requires LastSelecting(c, Witness(a, e), m, None, |c.policies|, pkt, i) && c.policies[i].egress == e.name
    ensures InputsOk(c, Witness(a, e))
    ensures var k' := ReconcileOnce(Start(k), c, Witness(a, e)).k;
      MarkOf(k', pkt) == e.fwmark && !RouteFor(k'.rules, k'.routes, pkt, e.fwmark).Via?
  {
    var inp := Witness(a, e);
    WitnessMap(c, a, e);
    WitnessSucceeds(c, parse, k, a, e);
    var k' := ReconcileOnce(Start(k), c, inp).k;
    MarkedInWitness(c, parse, k, a, e, m, i, pkt);
    forall r | r in k'.rules && r.Fwmark? ensures r.mark != e.fwmark { NoRuleOnMark(c, k, a, e, m, r); }
    RouteForLate(k'.rules, k'.routes, pkt, e.fwmark);
  }

  lemma WitnessSucceeds(c: Config, parse: string -> Option<SockAddr>, k: Kernel, a: Egress, e: Egress)
    requires Valid(c, parse) && InputsOk(c, Witness(a, e))
    requires HealthyMap(c.egresses, c.autoRefresh, Witness(a, e)).Ok?
    ensures ReconcileOnce(Start(k), c, Witness(a, e)).ok
  {
    ErrorsComeFromOutside(Start(k), c, parse, Witness(a, e));
  }

  lemma MarkedInWitness(
    c: Config, parse: string -> Option<SockAddr>, k: Kernel, a: Egress, e: Egress, m: map<string, Egress>,
    i: nat, pkt: Packet)
    requires Valid(c, parse) && InputsOk(c, Witness(a, e)) && ReconcileOnce(Start(k), c, Witness(a, e)).ok
    requires HealthyMap(c.egresses, c.autoRefresh, Witness(a, e)) == Ok(m) && e.name in m && SameSlot(m[e.name], e)
    requires LastSelecting(c, Witness(a, e), m, None, |c.policies|, pkt, i) && c.policies[i].egress == e.name
    ensures MarkOf(ReconcileOnce(Start(k), c, Witness(a, e)).k, pkt) == e.fwmark
  {
    ReconcileInstalls(Start(k), c, Witness(a, e));
    ChainMark(c, Witness(a, e), m, None, pkt, ReconcileOnce(Start(k), c, Witness(a, e)).k);
  }
}
