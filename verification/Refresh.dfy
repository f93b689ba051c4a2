/** The two repairs of a stale direct egress meet: refreshing the configuration first makes no
    difference to a reconcile with auto-refresh, and makes auto-refresh unnecessary once the host's
    values survive trimming. */
module Refresh {
  import opened Text
  import opened Config
  import opened Kernel
  import opened DirectEgress
  import opened Reconcile

  /** The configuration after `refresh-direct-egress`, with auto-refresh on or off. */
  function RefreshedConfig(c: Config, inspect: string -> Option<RuntimeState>, auto: bool): Config {
    c.(egresses := Refreshed(c.egresses, PlanRefresh(c.egresses, inspect)), autoRefresh := auto)
  }

  /** Nothing drifts any more once the egress has been refreshed. */
  predicate Repaired(e: Egress, inspect: string -> Option<RuntimeState>) {
    Planned(e) ==> !PlanFor(Repair(e, inspect), inspect).drift.IsDrift()
  }

  lemma PreparedAlike(e: Egress, inp: Inputs, auto: bool)
    requires inp.apply && (auto || Repaired(e, inp.inspect))
    ensures Healthy(Repair(e, inp.inspect), inp) == Healthy(e, inp) && Repair(e, inp.inspect).name == e.name
    ensures Healthy(e, inp) ==> Prepared(Repair(e, inp.inspect), auto, inp) == Prepared(e, true, inp)
  {
    if Planned(e) { RepairsAgree(e, inp.inspect); }
  }

  lemma {:induction false} MapAlike(es: seq<Egress>, after: seq<Egress>, inp: Inputs, auto: bool)
    requires |after| == |es| && inp.apply
    requires forall i :: 0 <= i < |es| ==>
      after[i] == Repair(es[i], inp.inspect) && (auto || Repaired(es[i], inp.inspect))
    ensures HealthyMap(after, auto, inp) == HealthyMap(es, true, inp)
    decreases |es|
  {
    if es != [] {
      MapAlike(es[..|es| - 1], after[..|after| - 1], inp, auto);
      PreparedAlike(es[|es| - 1], inp, auto);
    }
  }

  /** A reconcile uses a configuration's egresses through the healthy map only. */
  lemma {:induction false} PoliciesAlike(w: World, c: Config, d: Config, inp: Inputs, m: map<string, Egress>, i: nat)
    requires c.policies == d.policies && c.cache == d.cache && i <= |c.policies|
    ensures AddPolicies(w, c, inp, m, i) == AddPolicies(w, d, inp, m, i)
    decreases |c.policies| - i
  {
    if i < |c.policies| { PoliciesAlike(AddPolicy(w, c, inp, m, i), c, d, inp, m, i + 1); }
  }

  lemma InstallAlike(w: World, c: Config, d: Config, inp: Inputs, m: map<string, Egress>)
    requires c.policies == d.policies && c.cache == d.cache && c.failClosed == d.failClosed && OrderOk(inp.order, m)
    ensures Install(w, c, inp, m) == Install(w, d, inp, m)
  {
    PoliciesAlike(Run(EnsureAll(w, inp, Values(inp.order, m)), inp, FlushChain), c, d, inp, m, 0);
  }

  /** Reconciling a stale configuration with auto-refresh is, command by command, reconciling the
      refreshed configuration; and if the host's values settle, the refreshed configuration needs no
      auto-refresh any more. */
  lemma RefreshFirstOrNot(w: World, c: Config, inp: Inputs, auto: bool)
    requires EgressesDistinct(c.egresses) && c.autoRefresh && inp.apply && InputsOk(c, inp)
    requires auto || forall e :: e in c.egresses ==> Repaired(e, inp.inspect)
    ensures InputsOk(RefreshedConfig(c, inp.inspect, auto), inp)
    ensures ReconcileOnce(w, RefreshedConfig(c, inp.inspect, auto), inp) == ReconcileOnce(w, c, inp)
  {
    var d := RefreshedConfig(c, inp.inspect, auto);
    forall i | 0 <= i < |c.egresses|
      ensures d.egresses[i] == Repair(c.egresses[i], inp.inspect) && (auto || Repaired(c.egresses[i], inp.inspect))
    {
      RefreshIsRepair(c.egresses, inp.inspect, i);
      assert c.egresses[i] in c.egresses;
    }
    MapAlike(c.egresses, d.egresses, inp, auto);
    SameMapReconciles(w, c, d, inp);
  }

  lemma SameMapReconciles(w: World, c: Config, d: Config, inp: Inputs)
    requires HealthyMap(d.egresses, d.autoRefresh, inp) == HealthyMap(c.egresses, c.autoRefresh, inp)
    requires c.policies == d.policies && c.cache == d.cache && c.failClosed == d.failClosed && InputsOk(c, inp)
    ensures InputsOk(d, inp) && ReconcileOnce(w, d, inp) == ReconcileOnce(w, c, inp)
  {
    var h := HealthyMap(c.egresses, c.autoRefresh, inp);
    if h.Ok? { InstallAlike(AfterSetup(w.(ok := true), c, inp), c, d, inp, h.value); }
  }
}
