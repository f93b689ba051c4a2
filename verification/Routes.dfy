/** Which default route an egress is to have, and when no reconcile is possible: from the configuration
    and what inspecting the host shows. */
module Routes {
  import opened Text
  import opened Config
  import opened Kernel
  import opened DirectEgress
  import opened Reconcile

  /** A route attribute is the given value, left out when blank. */
  predicate Given(attribute: Option<string>, value: Option<string>) {
    attribute == if value.Some? && Trim(value.value) != [] then value else None
  }

  /** By the egress's device, with this gateway and source address. */
  predicate RouteBy(r: Route, name: string, gateway: Option<string>, source: Option<string>) {
    r.dev == name && Given(r.gateway, gateway) && Given(r.src, source)
  }

  /** The host has another address than a configured one. */
  predicate Moved(configured: Option<string>, host: string) {
    configured.Some? && Trim(configured.value) != [] && Trim(configured.value) != host
  }

  /** Both addresses of a direct egress are taken from the host as soon as one of them moved. */
  predicate HostMoved(x: Egress, host: RuntimeState) {
    && host.gateway.Some? && host.sourceIp.Some?
    && (Moved(x.gateway, host.gateway.value) || Moved(x.sourceIp, host.sourceIp.value))
  }

  /** The default route a configured egress is to have on a host that inspection shows like this. */
  predicate DefaultFor(r: Route, x: Egress, host: Option<RuntimeState>) {
    if x.kind == Direct && host.Some? && HostMoved(x, host.value)
    then RouteBy(r, x.name, host.value.gateway, host.value.sourceIp)
    else RouteBy(r, x.name, x.gateway, x.sourceIp)
  }

  /** A reconcile prepares an enabled egress so that its default route is that one. */
  lemma PreparedDefault(x: Egress, autoRefresh: bool, inp: Inputs)
    requires inp.apply && Prepared(x, autoRefresh, inp).Ok?
    ensures DefaultFor(DefaultOf(Prepared(x, autoRefresh, inp).value), x, inp.inspect(x.name))
  {}

  /** A direct egress cannot be used: its addresses on the host are unknown, or moved without leave to
      follow them. */
  predicate Unusable(x: Egress, autoRefresh: bool, host: Option<RuntimeState>) {
    || host.None? || host.value.gateway.None? || host.value.sourceIp.None?
    || (!autoRefresh && HostMoved(x, host.value))
  }

  lemma PreparedFails(x: Egress, autoRefresh: bool, inp: Inputs)
    ensures Prepared(x, autoRefresh, inp).Err? <==>
      inp.apply && x.kind == Direct && Unusable(x, autoRefresh, inp.inspect(x.name))
  {}

  /** An enabled direct egress that is up and cannot be used. */
  predicate Blocks(x: Egress, autoRefresh: bool, inp: Inputs) {
    x.enabled && inp.linkUp(x.name) && x.kind == Direct && Unusable(x, autoRefresh, inp.inspect(x.name))
  }

  /** In apply mode there is no healthy map exactly when there is such an egress; otherwise there always is. */
  lemma {:induction false} HealthyMapFails(es: seq<Egress>, autoRefresh: bool, inp: Inputs)
    ensures HealthyMap(es, autoRefresh, inp).Err? <==> inp.apply && exists x :: x in es && Blocks(x, autoRefresh, inp)
  {
    if es != [] {
      var init, last := es[..|es| - 1], es[|es| - 1];
      HealthyMapFails(init, autoRefresh, inp);
      LastBlocks(es, autoRefresh, inp);
      assert forall x :: x in es <==> x in init || x == last by { assert es == init + [last]; }
    }
  }

  lemma LastBlocks(es: seq<Egress>, autoRefresh: bool, inp: Inputs)
    requires es != []
    ensures HealthyMap(es, autoRefresh, inp).Err? <==>
      HealthyMap(es[..|es| - 1], autoRefresh, inp).Err? || (inp.apply && Blocks(es[|es| - 1], autoRefresh, inp))
  {
    PreparedFails(es[|es| - 1], autoRefresh, inp);
  }

  /** The drift that is reported. */
  lemma DriftExact(x: Egress, host: RuntimeState)
    ensures var g, s := host.gateway, host.sourceIp;
      match DriftOf(host, x.gateway, x.sourceIp)
      case MissingDefaultRoute => g.None?
      case MissingIpv4 => g.Some? && s.None?
      case InSync => g.Some? && s.Some? && !Moved(x.gateway, g.value) && !Moved(x.sourceIp, s.value)
      case GatewayDrift => g.Some? && s.Some? && Moved(x.gateway, g.value) && !Moved(x.sourceIp, s.value)
      case SourceIpDrift => g.Some? && s.Some? && !Moved(x.gateway, g.value) && Moved(x.sourceIp, s.value)
      case BothDrift => g.Some? && s.Some? && Moved(x.gateway, g.value) && Moved(x.sourceIp, s.value)
  {}

  /** Refreshing the configuration gives the enabled direct egresses whose host moved both of the host's
      addresses, and changes nothing else. */
  lemma {:induction false} RefreshedExact(es: seq<Egress>, inspect: string -> Option<RuntimeState>, i: nat)
    requires EgressesDistinct(es) && i < |es|
    ensures var x := es[i];
      var host := inspect(x.name);
      Refreshed(es, PlanRefresh(es, inspect))[i] ==
        if x.enabled && x.kind == Direct && host.Some? && HostMoved(x, host.value)
        then x.(gateway := host.value.gateway, sourceIp := host.value.sourceIp)
        else x
  {
    RefreshIsRepair(es, inspect, i);
  }
}
