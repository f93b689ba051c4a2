/** Drift between a direct egress and the host: the two repairs (rewriting the configuration, and
    using the host's values for one reconcile) and when they converge. Inspecting the host is a
    parameter; None stands for a failed inspection. */
module DirectEgress {
  import opened Text
  import opened Config

  datatype RuntimeState = RuntimeState(gateway: Option<string>, sourceIp: Option<string>)

  datatype Drift = InSync | GatewayDrift | SourceIpDrift | BothDrift | MissingDefaultRoute | MissingIpv4 {
    predicate IsDrift() { GatewayDrift? || SourceIpDrift? || BothDrift? }
  }

  /** A configured value differs once trimmed; an absent or blank one never does. */
  predicate Differs(configured: Option<string>, runtime: string) {
    configured.Some? && !Blank(configured.value) && Trim(configured.value) != runtime
  }

  function DriftOf(s: RuntimeState, gateway: Option<string>, sourceIp: Option<string>): Drift {
    if s.gateway.None? then MissingDefaultRoute
    else if s.sourceIp.None? then MissingIpv4
    else
      match (Differs(gateway, s.gateway.value), Differs(sourceIp, s.sourceIp.value))
      case (false, false) => InSync
      case (true, false) => GatewayDrift
      case (false, true) => SourceIpDrift
      case (true, true) => BothDrift
  }

  function Inspected(e: Egress, inspect: string -> Option<RuntimeState>): RuntimeState {
    match inspect(e.name)
    case None => RuntimeState(None, None)
    case Some(s) => s
  }

  datatype RefreshPlan = RefreshPlan(name: string, runtime: RuntimeState, drift: Drift)

  function PlanFor(e: Egress, inspect: string -> Option<RuntimeState>): RefreshPlan {
    var s := Inspected(e, inspect);
    RefreshPlan(e.name, s, DriftOf(s, e.gateway, e.sourceIp))
  }

  predicate Planned(e: Egress) { e.enabled && e.kind == Direct }

  /** `plan_refresh`. */
  function PlanRefresh(es: seq<Egress>, inspect: string -> Option<RuntimeState>): seq<RefreshPlan> {
    if es == [] then []
    else if Planned(es[0]) then [PlanFor(es[0], inspect)] + PlanRefresh(es[1..], inspect)
    else PlanRefresh(es[1..], inspect)
  }

  /** What one plan does to one entry of the egress array. */
  function RefreshedBy(e: Egress, p: RefreshPlan): Egress {
    if p.drift.IsDrift() && p.runtime.gateway.Some? && p.runtime.sourceIp.Some? && e.name == p.name && e.kind == Direct
    then e.(gateway := p.runtime.gateway, sourceIp := p.runtime.sourceIp)
    else e
  }

  function RefreshedByAll(e: Egress, plans: seq<RefreshPlan>): Egress {
    if plans == [] then e else RefreshedBy(RefreshedByAll(e, plans[..|plans| - 1]), plans[|plans| - 1])
  }

  function Refreshed(es: seq<Egress>, plans: seq<RefreshPlan>): (r: seq<Egress>)
    ensures |r| == |es|
  {
    seq(|es|, i requires 0 <= i < |es| => RefreshedByAll(es[i], plans))
  }

  /** `apply_refresh` on the egress array of the configuration. */
  method ApplyRefresh(egresses: array<Egress>, plans: seq<RefreshPlan>)
    modifies egresses
    ensures egresses[..] == Refreshed(old(egresses[..]), plans)
  {
    ghost var was := egresses[..];
    for i := 0 to |plans|
      invariant egresses[..] == Refreshed(was, plans[..i])
    {
      var plan := plans[i];
      assert plans[..i + 1][..i] == plans[..i];
      if !plan.drift.IsDrift() || plan.runtime.gateway.None? || plan.runtime.sourceIp.None? {
        assert Refreshed(was, plans[..i + 1]) == Refreshed(was, plans[..i]);
        continue;
      }
      for j := 0 to egresses.Length
        invariant forall k :: 0 <= k < j ==> egresses[k] == RefreshedByAll(was[k], plans[..i + 1])
        invariant forall k :: j <= k < egresses.Length ==> egresses[k] == RefreshedByAll(was[k], plans[..i])
      {
        if egresses[j].name == plan.name && egresses[j].kind == Direct {
          egresses[j] := egresses[j].(gateway := plan.runtime.gateway, sourceIp := plan.runtime.sourceIp);
        }
      }
    }
    assert plans[..|plans|] == plans;
  }

  // ---------------------------------------------------------------- convergence

  /** The repair of one egress by its own plan. */
  function Repair(e: Egress, inspect: string -> Option<RuntimeState>): Egress {
    if Planned(e) then RefreshedBy(e, PlanFor(e, inspect)) else e
  }

  lemma {:induction false} PlanNames(es: seq<Egress>, inspect: string -> Option<RuntimeState>)
    ensures forall p :: p in PlanRefresh(es, inspect) <==> exists e :: e in es && Planned(e) && p == PlanFor(e, inspect)
  {
    if es != [] {
      PlanNames(es[1..], inspect);
      assert es == [es[0]] + es[1..];
    }
  }

  lemma {:induction false} OtherPlansDoNothing(e: Egress, plans: seq<RefreshPlan>)
    requires forall p :: p in plans ==> RefreshedBy(e, p) == e
    ensures RefreshedByAll(e, plans) == e
  {
    if plans != [] {
      OtherPlansDoNothing(e, plans[..|plans| - 1]);
      assert plans[|plans| - 1] in plans;
    }
  }

  /** Applying the same single repair again does nothing, so a list of plans that are either it or
      irrelevant repairs once. */
  lemma {:induction false} OwnPlanRepairs(e: Egress, own: RefreshPlan, plans: seq<RefreshPlan>)
    requires own in plans && forall p :: p in plans ==> p == own || p.name != e.name
    ensures RefreshedByAll(e, plans) == RefreshedBy(e, own)
  {
    var init, last := plans[..|plans| - 1], plans[|plans| - 1];
    assert plans == init + [last];
    if own in init {
      OwnPlanRepairs(e, own, init);
    } else {
      OtherPlansDoNothing(e, init);
    }
  }

  /** With distinct names, refreshing the configuration repairs every enabled direct egress by its
      own plan and leaves every other egress alone. */
  lemma {:induction false} RefreshIsRepair(es: seq<Egress>, inspect: string -> Option<RuntimeState>, i: nat)
    requires EgressesDistinct(es) && i < |es|
    ensures Refreshed(es, PlanRefresh(es, inspect))[i] == Repair(es[i], inspect)
  {
    var plans, e := PlanRefresh(es, inspect), es[i];
    PlanNames(es, inspect);
    forall p | p in plans ensures p.name != e.name || (Planned(e) && p == PlanFor(e, inspect)) {
      var x :| x in es && Planned(x) && p == PlanFor(x, inspect);
      var j :| 0 <= j < |es| && es[j] == x;
    }
    if Planned(e) {
      OwnPlanRepairs(e, PlanFor(e, inspect), plans);
    } else {
      OtherPlansDoNothing(e, plans);
    }
  }

  /** A host value that the trimmed comparison accepts once it is configured. */
  predicate Settles(v: string) { Trim(v) == v || Blank(v) }

  /** The repair changes only gateway and source address, repairing twice is repairing once, and it
      ends the drift exactly when the host's values survive trimming or are blank. */
  lemma RepairSettles(e: Egress, inspect: string -> Option<RuntimeState>)
    requires Planned(e)
    ensures var r := Repair(e, inspect);
      && r == e.(gateway := r.gateway, sourceIp := r.sourceIp)
      && Repair(r, inspect) == r
      && (PlanFor(e, inspect).drift.IsDrift() ==>
            (PlanFor(r, inspect).drift == InSync <==>
              Settles(PlanFor(e, inspect).runtime.gateway.value)
                && Settles(PlanFor(e, inspect).runtime.sourceIp.value)))
      && (!PlanFor(e, inspect).drift.IsDrift() ==> r == e)
  {}

  /** The egress drifts and will after its repair. */
  predicate StillDrifts(e: Egress, inspect: string -> Option<RuntimeState>) {
    var p := PlanFor(e, inspect);
    p.drift.IsDrift() && !(Settles(p.runtime.gateway.value) && Settles(p.runtime.sourceIp.value))
  }

  /** What is planned after the refresh: for each enabled direct egress, the plan of its repair. */
  lemma PlannedAfter(es: seq<Egress>, inspect: string -> Option<RuntimeState>, p: RefreshPlan)
    requires EgressesDistinct(es)
    ensures p in PlanRefresh(Refreshed(es, PlanRefresh(es, inspect)), inspect) <==>
      exists e :: e in es && Planned(e) && p == PlanFor(Repair(e, inspect), inspect)
  {
    var after := Refreshed(es, PlanRefresh(es, inspect));
    PlanNames(after, inspect);
    if p in PlanRefresh(after, inspect) {
      var x :| x in after && Planned(x) && p == PlanFor(x, inspect);
      var i :| 0 <= i < |after| && after[i] == x;
      RefreshIsRepair(es, inspect, i);
      assert es[i] in es && Planned(es[i]);
    }
    if e :| e in es && Planned(e) && p == PlanFor(Repair(e, inspect), inspect) {
      var i :| 0 <= i < |es| && es[i] == e;
      RefreshIsRepair(es, inspect, i);
      assert after[i] in after;
    }
  }

  /** Refresh then plan again reports no drift exactly when every drifting egress's host values settle. */
  lemma RefreshConverges(es: seq<Egress>, inspect: string -> Option<RuntimeState>)
    requires EgressesDistinct(es)
    ensures var after := Refreshed(es, PlanRefresh(es, inspect));
      (forall p :: p in PlanRefresh(after, inspect) ==> !p.drift.IsDrift())
      <==> (forall e :: e in es && Planned(e) && PlanFor(e, inspect).drift.IsDrift() ==>
             var s := PlanFor(e, inspect).runtime; Settles(s.gateway.value) && Settles(s.sourceIp.value))
  {
    var after := Refreshed(es, PlanRefresh(es, inspect));
    forall p | p in PlanRefresh(after, inspect) && p.drift.IsDrift()
      ensures exists e :: e in es && Planned(e) && StillDrifts(e, inspect)
    {
      PlannedAfter(es, inspect, p);
      var e :| e in es && Planned(e) && p == PlanFor(Repair(e, inspect), inspect);
      RepairSettles(e, inspect);
      assert StillDrifts(e, inspect);
    }
    if e :| e in es && Planned(e) && StillDrifts(e, inspect) {
      RepairSettles(e, inspect);
      PlannedAfter(es, inspect, PlanFor(Repair(e, inspect), inspect));
    }
  }

  // ---------------------------------------------------------------- the repair inside a reconcile

  /** `apply_direct_egress_runtime_state` in apply mode. */
  function RuntimeEgress(e: Egress, autoRefresh: bool, inspect: string -> Option<RuntimeState>): Result<Egress> {
    match inspect(e.name)
    case None => Err
    case Some(s) =>
      var drift := DriftOf(s, e.gateway, e.sourceIp);
      if drift == MissingDefaultRoute || drift == MissingIpv4 then Err
      else if !drift.IsDrift() then Ok(e)
      else if !autoRefresh then Err
      else Ok(e.(gateway := s.gateway, sourceIp := s.sourceIp))
  }

  /** The two repairs agree: with auto-refresh, a reconcile sees the same egress whether or not the
      configuration was refreshed first; and once the values settle, even one without auto-refresh. */
  lemma RepairsAgree(e: Egress, inspect: string -> Option<RuntimeState>)
    requires Planned(e)
    ensures RuntimeEgress(Repair(e, inspect), true, inspect) == RuntimeEgress(e, true, inspect)
    ensures !PlanFor(Repair(e, inspect), inspect).drift.IsDrift() ==>
      RuntimeEgress(Repair(e, inspect), false, inspect) == RuntimeEgress(e, true, inspect)
  {}
}
