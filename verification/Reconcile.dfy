/** One reconcile: the commands it issues, in order, against a kernel whose state it partly reads
    back, with every command, listing and DNS answer free to fail. Each operation is given twice, as
    a value (what it does to a `World`) and as a method of `Host` that does it step by step. */
module Reconcile {
  import opened Text
  import opened Config
  import opened Kernel
  import opened DirectEgress
  import Cache

  // ---------------------------------------------------------------- the world

  /** Kernel and cache file; how many commands and listings were tried; the kernel after each tried
      command; and whether no error has been returned yet, after which nothing more happens. */
  datatype World = World(k: Kernel, file: Cache.CacheFile, tick: nat, trace: seq<Kernel>, ok: bool)

  /** Everything a reconcile does not decide: apply mode, link health and host inspection by
      interface name, the hash-map iteration order of the healthy egresses, the clock and answers
      for the policy at each index, and which command or listing attempts fail. */
  datatype Inputs = Inputs(
    apply: bool,
    linkUp: string -> bool,
    inspect: string -> Option<RuntimeState>,
    order: seq<string>,
    dns: nat -> Cache.CallEnv,
    fails: nat -> bool)

  /** `exec.run`: a dry run succeeds without effect; otherwise the attempt may fail, or be refused. */
  function Run(w: World, inp: Inputs, c: Command): World {
    if !w.ok || !inp.apply then w
    else
      match if inp.fails(w.tick) then None else Effect(w.k, c)
      case Some(k) => w.(k := k, tick := w.tick + 1, trace := w.trace + [k])
      case None => w.(tick := w.tick + 1, trace := w.trace + [w.k], ok := false)
  }

  /** `exec.capture` of the rule list: a failed listing is an error. */
  function Capture(w: World, inp: Inputs): World {
    if !w.ok then w else w.(tick := w.tick + 1, ok := !inp.fails(w.tick))
  }

  // ---------------------------------------------------------------- nft

  /** In apply mode the table is added when listing it fails, for whatever reason. */
  function EnsureTable(w: World, inp: Inputs): World {
    if !w.ok || !inp.apply then w
    else
      var probed := w.(tick := w.tick + 1);
      if inp.fails(w.tick) || w.k.nft.NoTable? then Run(probed, inp, AddTable) else probed
  }

  function EnsureChain(w: World, inp: Inputs): World {
    if !w.ok || !inp.apply then w
    else
      var probed := w.(tick := w.tick + 1);
      if inp.fails(w.tick) || !w.k.nft.Chain? then Run(probed, inp, AddChain) else probed
  }

  /** `append_match`: the destination operand and uid of a rule; a CIDR is preferred to an address. */
  function AppendMatch(m: MatchSpec, mark: u32): Result<ChainRule> {
    var dest := if m.destCidr.Some? then m.destCidr else m.destIp;
    if dest.None? && m.uid.None? then Err else Ok(ChainRule(dest, m.uid, mark))
  }

  function AddMatchRule(w: World, inp: Inputs, m: MatchSpec, e: Egress): World {
    if !w.ok then w
    else
      match AppendMatch(m, e.fwmark)
      case Err => w.(ok := false)
      case Ok(rule) => Run(w, inp, AddRule(rule))
  }

  /** A policy's match with the domain replaced by one resolved address. */
  function ResolvedSpec(m: MatchSpec, ip: string): MatchSpec {
    m.(domain := None, destIp := Some(ip), destCidr := None)
  }

  // ---------------------------------------------------------------- routes and rules

  function NonBlank(o: Option<string>): Option<string> {
    if o.Some? && !Blank(o.value) then o else None
  }

  /** The default route of an egress. */
  function DefaultOf(e: Egress): Route { Route(NonBlank(e.gateway), e.name, NonBlank(e.sourceIp)) }

  /** The policy-routing rule of an egress. */
  function OwnRule(e: Egress): IpRule { Fwmark(e.priority, e.fwmark, e.table) }

  /** `ensure_fwmark_rule`: the rule is added unless some line looks like it. */
  function EnsureFwmark(w: World, inp: Inputs, e: Egress): World {
    if !inp.apply then Run(w, inp, AddIpRule(OwnRule(e)))
    else
      var listed := Capture(w, inp);
      if !listed.ok || RuleListed(w.k.rules, e.fwmark, e.table) then listed
      else Run(listed, inp, AddIpRule(OwnRule(e)))
  }

  function EnsureEgress(w: World, inp: Inputs, e: Egress): World {
    EnsureFwmark(Run(w, inp, ReplaceDefault(e.table, DefaultOf(e))), inp, e)
  }

  /** The route and rule phase over a list of egresses. */
  function EnsureAll(w: World, inp: Inputs, es: seq<Egress>): World
    decreases |es|
  {
    if es == [] then w else EnsureAll(EnsureEgress(w, inp, es[0]), inp, es[1..])
  }

  // ---------------------------------------------------------------- healthy egresses

  /** `is_egress_healthy`: a dry run counts every enabled egress. */
  predicate Healthy(e: Egress, inp: Inputs) { e.enabled && (!inp.apply || inp.linkUp(e.name)) }

  /** The egress as this reconcile uses it. */
  function Prepared(e: Egress, autoRefresh: bool, inp: Inputs): Result<Egress> {
    if e.kind == Direct && inp.apply then RuntimeEgress(e, autoRefresh, inp.inspect) else Ok(e)
  }

  /** `healthy_egress_map`: keyed by name, abandoned on the first direct egress that cannot be used. */
  function HealthyMap(es: seq<Egress>, autoRefresh: bool, inp: Inputs): Result<map<string, Egress>> {
    if es == [] then Ok(map[])
    else
      match HealthyMap(es[..|es| - 1], autoRefresh, inp)
      case Err => Err
      case Ok(m) =>
        var e := es[|es| - 1];
        if !Healthy(e, inp) then Ok(m)
        else
          match Prepared(e, autoRefresh, inp)
          case Err => Err
          case Ok(used) => Ok(m[e.name := used])
  }

  /** The iteration order lists every key of the hash map exactly once. */
  ghost predicate OrderOk(order: seq<string>, m: map<string, Egress>) {
    && (forall n :: n in order <==> n in m)
    && (forall i, j :: 0 <= i < j < |order| ==> order[i] != order[j])
  }

  ghost predicate InputsOk(c: Config, inp: Inputs) {
    var m := HealthyMap(c.egresses, c.autoRefresh, inp);
    m.Ok? ==> OrderOk(inp.order, m.value)
  }

  /** The healthy egresses in iteration order. */
  function Values(order: seq<string>, m: map<string, Egress>): (es: seq<Egress>)
    requires forall n :: n in order ==> n in m
    ensures |es| == |order| && forall i :: 0 <= i < |es| ==> es[i] == m[order[i]]
  {
    if order == [] then [] else [m[order[0]]] + Values(order[1..], m)
  }

  // ---------------------------------------------------------------- policies

  function AddAddresses(w: World, inp: Inputs, m: MatchSpec, e: Egress, ips: seq<string>): World
    decreases |ips|
  {
    if ips == [] then w else AddAddresses(AddMatchRule(w, inp, ResolvedSpec(m, ips[0]), e), inp, m, e, ips[1..])
  }

  /** One policy of the policy loop. A domain that cannot be resolved, or resolves to nothing, is
      skipped; so is a policy whose egress is not healthy. */
  function AddPolicy(w: World, c: Config, inp: Inputs, m: map<string, Egress>, i: nat): World
    requires i < |c.policies|
  {
    var p := c.policies[i];
    if !w.ok || !p.enabled || p.egress !in m then w
    else
      var e := m[p.egress];
      match p.spec.domain
      case None => AddMatchRule(w, inp, p.spec, e)
      case Some(domain) =>
        var resolved := Cache.Resolve(c.cache, w.file, domain, inp.apply, Cache.PreferFresh, inp.dns(i));
        var w1 := w.(file := resolved.file);
        match resolved.result
        case Err => w1
        case Ok(resolution) => AddAddresses(w1, inp, p.spec, e, resolution.ips)
  }

  function AddPolicies(w: World, c: Config, inp: Inputs, m: map<string, Egress>, i: nat): World
    requires i <= |c.policies|
    decreases |c.policies| - i
  {
    if i == |c.policies| then w else AddPolicies(AddPolicy(w, c, inp, m, i), c, inp, m, i + 1)
  }

  // ---------------------------------------------------------------- the whole reconcile

  function AfterSetup(w: World, c: Config, inp: Inputs): World {
    EnsureChain(EnsureTable(w, inp), inp)
  }

  /** The routes, rules, flush and policies, once the healthy egresses are known. */
  function Install(w: World, c: Config, inp: Inputs, m: map<string, Egress>): World
    requires forall n :: n in inp.order ==> n in m
  {
    if |m| == 0 && c.failClosed then Run(w, inp, FlushChain)
    else AddPolicies(Run(EnsureAll(w, inp, Values(inp.order, m)), inp, FlushChain), c, inp, m, 0)
  }

  /** `reconcile_once`, as a value. */
  function ReconcileOnce(w0: World, c: Config, inp: Inputs): World
    requires InputsOk(c, inp)
  {
    var w := AfterSetup(w0.(ok := true), c, inp);
    if !w.ok then w
    else
      match HealthyMap(c.egresses, c.autoRefresh, inp)
      case Err => w.(ok := false)
      case Ok(m) => Install(w, c, inp, m)
  }

  /** The run loop: reconciles one after the other, whatever each returned. */
  function ReconcileMany(w: World, c: Config, runs: seq<Inputs>): World
    requires forall i :: 0 <= i < |runs| ==> InputsOk(c, runs[i])
  {
    if runs == [] then w
    else ReconcileOnce(ReconcileMany(w, c, runs[..|runs| - 1]), c, runs[|runs| - 1])
  }

  // ---------------------------------------------------------------- cleanup

  /** `run_allow_fail`: a failed or refused attempt is ignored. */
  function RunAllowFail(w: World, inp: Inputs, c: Command): World {
    Run(w, inp, c).(ok := w.ok)
  }

  /** The rule list as `capture_or_empty` gives it: nothing when the listing fails. */
  function ShownRules(w: World, inp: Inputs): seq<IpRule> {
    if inp.fails(w.tick) then [] else w.k.rules
  }

  function DeleteOwnTable(w: World, inp: Inputs): World {
    var probed := w.(tick := w.tick + 1);
    if (!inp.fails(w.tick) && !w.k.nft.NoTable?) || !inp.apply then RunAllowFail(probed, inp, DeleteTable) else probed
  }

  /** `delete_fwmark_rules`: at most one delete per egress, decided on the list read at the start. */
  function DeleteRules(w: World, inp: Inputs, shown: seq<IpRule>, es: seq<Egress>): World
    decreases |es|
  {
    if es == [] then w
    else
      DeleteRules(DeleteRuleOf(w, inp, shown, es[0]), inp, shown, es[1..])
  }

  function DeleteRuleOf(w: World, inp: Inputs, shown: seq<IpRule>, e: Egress): World {
    if RuleListed(shown, e.fwmark, e.table) || !inp.apply then RunAllowFail(w, inp, DelIpRule(OwnRule(e))) else w
  }

  function FlushTables(w: World, inp: Inputs, es: seq<Egress>): World
    decreases |es|
  {
    if es == [] then w
    else
      FlushTables(FlushTableOf(w, inp, es[0]), inp, es[1..])
  }

  function FlushTableOf(w: World, inp: Inputs, e: Egress): World {
    var probed := w.(tick := w.tick + 1);
    var hasRoutes := !inp.fails(w.tick) && e.table in w.k.routes;
    if hasRoutes || !inp.apply then RunAllowFail(probed, inp, FlushRoutes(e.table)) else probed
  }

  /** `cleanup`, as a value. */
  function Cleanup(w0: World, c: Config, inp: Inputs): World {
    FlushTables(DeleteOwnRules(DeleteOwnTable(w0.(ok := true), inp), c, inp), inp, c.egresses)
  }

  /** The rules are listed once, before the first deletion. */
  function DeleteOwnRules(w: World, c: Config, inp: Inputs): World {
    DeleteRules(w.(tick := w.tick + 1), inp, ShownRules(w, inp), c.egresses)
  }

  // ---------------------------------------------------------------- step by step

  /** The host: the kernel's fields and the cache file, changed by the same operations in place. */
  class Host {
    var nft: Nft
    var rules: seq<IpRule>
    var routes: map<u32, Route>
    const store: Cache.CacheStore
    var tick: nat
    ghost var trace: seq<Kernel>

    constructor (k: Kernel, store: Cache.CacheStore)
      ensures this.store == store && View(true) == World(k, store.file, 0, [], true)
    {
      nft, rules, routes, this.store, tick, trace := k.nft, k.rules, k.routes, store, 0, [];
    }

    function State(): Kernel
      reads this
    {
      Kernel(nft, rules, routes)
    }

    ghost function View(ok: bool): World
      reads this, store
    {
      World(State(), store.file, tick, trace, ok)
    }

    method Exec(inp: Inputs, c: Command) returns (ok: bool)
      modifies this
      ensures View(ok) == Run(old(View(true)), inp, c)
    {
      if !inp.apply { return true; }
      var failed := inp.fails(tick);
      tick := tick + 1;
      var effect := if failed then None else Effect(State(), c);
      match effect
      case None =>
        trace := trace + [State()];
        return false;
      case Some(k) =>
        nft, rules, routes := k.nft, k.rules, k.routes;
        trace := trace + [k];
        return true;
    }

    method EnsureTableAndChain(c: Config, inp: Inputs) returns (ok: bool)
      modifies this
      ensures View(ok) == AfterSetup(old(View(true)), c, inp)
    {
      ok := EnsureNftTable(inp);
      if ok { ok := EnsureNftChain(inp); }
    }

    method EnsureNftTable(inp: Inputs) returns (ok: bool)
      modifies this
      ensures View(ok) == EnsureTable(old(View(true)), inp)
    {
      var listed := false;
      if inp.apply {
        listed := !inp.fails(tick) && !nft.NoTable?;
        tick := tick + 1;
      }
      ok := true;
      if !listed { ok := Exec(inp, AddTable); }
    }

    method EnsureNftChain(inp: Inputs) returns (ok: bool)
      modifies this
      ensures View(ok) == EnsureChain(old(View(true)), inp)
    {
      var listed := false;
      if inp.apply {
        listed := !inp.fails(tick) && nft.Chain?;
        tick := tick + 1;
      }
      ok := true;
      if !listed { ok := Exec(inp, AddChain); }
    }

    method EnsureRouteTableDefault(inp: Inputs, e: Egress) returns (ok: bool)
      modifies this
      ensures View(ok) == Run(old(View(true)), inp, ReplaceDefault(e.table, DefaultOf(e)))
      ensures ok && inp.apply ==>
        && e.table in routes && routes[e.table].dev == e.name
        && routes[e.table].gateway == (if e.gateway.Some? && Trim(e.gateway.value) != "" then e.gateway else None)
        && routes[e.table].src == (if e.sourceIp.Some? && Trim(e.sourceIp.value) != "" then e.sourceIp else None)
    {
      var gateway, src := None, None;
      if e.gateway.Some? && !Blank(e.gateway.value) { gateway := e.gateway; }
      if e.sourceIp.Some? && !Blank(e.sourceIp.value) { src := e.sourceIp; }
      ok := Exec(inp, ReplaceDefault(e.table, Route(gateway, e.name, src)));
    }

    method EnsureFwmarkRule(inp: Inputs, e: Egress) returns (ok: bool)
      modifies this
      ensures View(ok) == EnsureFwmark(old(View(true)), inp, e)
    {
      if inp.apply {
        var failed := inp.fails(tick);
        tick := tick + 1;
        if failed { return false; }
        if RuleListed(rules, e.fwmark, e.table) { return true; }
      }
      ok := Exec(inp, AddIpRule(Fwmark(e.priority, e.fwmark, e.table)));
    }

    method EnsureEgresses(inp: Inputs, es: seq<Egress>) returns (ok: bool)
      modifies this
      ensures View(ok) == EnsureAll(old(View(true)), inp, es)
    {
      for i := 0 to |es|
        invariant EnsureAll(View(true), inp, es[i..]) == EnsureAll(old(View(true)), inp, es)
      {
        assert es[i..][1..] == es[i + 1..];
        ok := EnsureRouteTableDefault(inp, es[i]);
        if !ok { AllStopped(View(false), inp, es[i + 1..]); return; }
        ok := EnsureFwmarkRule(inp, es[i]);
        if !ok { AllStopped(View(false), inp, es[i + 1..]); return; }
      }
      return true;
    }

    method HealthyEgressMap(c: Config, inp: Inputs) returns (r: Result<map<string, Egress>>)
      ensures r == HealthyMap(c.egresses, c.autoRefresh, inp)
    {
      var es := c.egresses;
      var healthy: map<string, Egress> := map[];
      for i := 0 to |es|
        invariant HealthyMap(es[..i], c.autoRefresh, inp) == Ok(healthy)
      {
        assert es[..i + 1][..i] == es[..i];
        if !Healthy(es[i], inp) { continue; }
        var used := es[i];
        if used.kind == Direct {
          var repaired := ApplyDirectRuntimeState(used, c.autoRefresh, inp);
          if repaired.Err? { HealthyMapStops(es, i + 1, c.autoRefresh, inp); return Err; }
          used := repaired.value;
        }
        healthy := healthy[es[i].name := used];
      }
      assert es[..|es|] == es;
      return Ok(healthy);
    }

    /** `apply_direct_egress_runtime_state`. */
    method ApplyDirectRuntimeState(egress: Egress, autoRefresh: bool, inp: Inputs) returns (r: Result<Egress>)
      requires egress.kind == Direct
      ensures r == Prepared(egress, autoRefresh, inp)
    {
      if !inp.apply { return Ok(egress); }
      var state := inp.inspect(egress.name);
      if state.None? { return Err; }
      var drift := DriftOf(state.value, egress.gateway, egress.sourceIp);
      if drift == MissingDefaultRoute || drift == MissingIpv4 { return Err; }
      if !drift.IsDrift() { return Ok(egress); }
      if !autoRefresh { return Err; }
      return Ok(egress.(gateway := state.value.gateway, sourceIp := state.value.sourceIp));
    }

    method AddPolicyRule(inp: Inputs, m: MatchSpec, e: Egress) returns (ok: bool)
      modifies this
      ensures View(ok) == AddMatchRule(old(View(true)), inp, m, e)
    {
      var dest := if m.destCidr.Some? then m.destCidr else m.destIp;
      if dest.None? && m.uid.None? { return false; }
      ok := Exec(inp, AddRule(ChainRule(dest, m.uid, e.fwmark)));
    }

    method AddResolvedRules(inp: Inputs, m: MatchSpec, e: Egress, ips: seq<string>) returns (ok: bool)
      modifies this
      ensures View(ok) == AddAddresses(old(View(true)), inp, m, e, ips)
    {
      for i := 0 to |ips|
        invariant AddAddresses(View(true), inp, m, e, ips[i..]) == AddAddresses(old(View(true)), inp, m, e, ips)
      {
        assert ips[i..][1..] == ips[i + 1..];
        ok := AddPolicyRule(inp, ResolvedSpec(m, ips[i]), e);
        if !ok { AddressesStopped(View(false), inp, m, e, ips[i + 1..]); return; }
      }
      return true;
    }

    method AddOnePolicy(c: Config, inp: Inputs, m: map<string, Egress>, i: nat) returns (ok: bool)
      requires i < |c.policies|
      modifies this, store
      ensures View(ok) == AddPolicy(old(View(true)), c, inp, m, i)
    {
      var p := c.policies[i];
      if !p.enabled || p.egress !in m { return true; }
      var e := m[p.egress];
      match p.spec.domain
      case None =>
        ok := AddPolicyRule(inp, p.spec, e);
      case Some(domain) =>
        var resolved := store.ResolveWithMode(c.cache, domain, inp.apply, Cache.PreferFresh, inp.dns(i));
        if resolved.Err? { return true; }
        ok := AddResolvedRules(inp, p.spec, e, resolved.value.ips);
    }

    method AddAllPolicies(c: Config, inp: Inputs, m: map<string, Egress>) returns (ok: bool)
      modifies this, store
      ensures View(ok) == AddPolicies(old(View(true)), c, inp, m, 0)
    {
      for i := 0 to |c.policies|
        invariant AddPolicies(View(true), c, inp, m, i) == AddPolicies(old(View(true)), c, inp, m, 0)
      {
        ok := AddOnePolicy(c, inp, m, i);
        if !ok { PoliciesStopped(View(false), c, inp, m, i + 1); return; }
      }
      return true;
    }

    /** `reconcile_once`. */
    method Reconcile(c: Config, inp: Inputs) returns (ok: bool)
      requires InputsOk(c, inp)
      modifies this, store
      ensures View(ok) == ReconcileOnce(old(View(true)), c, inp)
    {
      ok := EnsureTableAndChain(c, inp);
      if !ok { return; }
      var healthy := HealthyEgressMap(c, inp);
      if healthy.Err? { return false; }
      if |healthy.value| == 0 && c.failClosed {
        ok := Exec(inp, FlushChain);
        return;
      }
      ok := EnsureEgresses(inp, Values(inp.order, healthy.value));
      if !ok { PoliciesStopped(View(false), c, inp, healthy.value, 0); return; }
      ok := Exec(inp, FlushChain);
      if !ok { PoliciesStopped(View(false), c, inp, healthy.value, 0); return; }
      ok := AddAllPolicies(c, inp, healthy.value);
    }

    method ExecAllowFail(inp: Inputs, c: Command)
      modifies this
      ensures View(true) == RunAllowFail(old(View(true)), inp, c)
    {
      var _ := Exec(inp, c);
    }

    /** `cleanup`. */
    method CleanUp(c: Config, inp: Inputs)
      modifies this
      ensures View(true) == Cleanup(old(View(true)), c, inp)
    {
      DeleteNftTable(inp);
      DeleteFwmarkRules(c, inp);
      FlushRouteTables(c, inp);
    }

    method DeleteNftTable(inp: Inputs)
      modifies this
      ensures View(true) == DeleteOwnTable(old(View(true)), inp)
    {
      var tableListed := !inp.fails(tick) && !nft.NoTable?;
      tick := tick + 1;
      if tableListed || !inp.apply { ExecAllowFail(inp, DeleteTable); }
    }

    method DeleteFwmarkRules(c: Config, inp: Inputs)
      modifies this
      ensures View(true) == DeleteOwnRules(old(View(true)), c, inp)
    {
      var shown := if inp.fails(tick) then [] else rules;
      tick := tick + 1;
      var es := c.egresses;
      ghost var start := View(true);
      for i := 0 to |es|
        invariant DeleteRules(View(true), inp, shown, es[i..]) == DeleteRules(start, inp, shown, es)
      {
        assert es[i..][1..] == es[i + 1..];
        if RuleListed(shown, es[i].fwmark, es[i].table) || !inp.apply {
          ExecAllowFail(inp, DelIpRule(OwnRule(es[i])));
        }
      }
    }

    method FlushRouteTables(c: Config, inp: Inputs)
      modifies this
      ensures View(true) == FlushTables(old(View(true)), inp, c.egresses)
    {
      var es := c.egresses;
      for i := 0 to |es|
        invariant FlushTables(View(true), inp, es[i..]) == FlushTables(old(View(true)), inp, es)
      {
        assert es[i..][1..] == es[i + 1..];
        var hasRoutes := !inp.fails(tick) && es[i].table in routes;
        tick := tick + 1;
        if hasRoutes || !inp.apply { ExecAllowFail(inp, FlushRoutes(es[i].table)); }
      }
    }
  }

  // ---------------------------------------------------------------- after an error nothing happens

  lemma {:induction false} AllStopped(w: World, inp: Inputs, es: seq<Egress>)
    requires !w.ok
    ensures EnsureAll(w, inp, es) == w
    decreases |es|
  {
    if es != [] { AllStopped(w, inp, es[1..]); }
  }

  lemma {:induction false} AddressesStopped(w: World, inp: Inputs, m: MatchSpec, e: Egress, ips: seq<string>)
    requires !w.ok
    ensures AddAddresses(w, inp, m, e, ips) == w
    decreases |ips|
  {
    if ips != [] { AddressesStopped(w, inp, m, e, ips[1..]); }
  }

  lemma {:induction false} PoliciesStopped(w: World, c: Config, inp: Inputs, m: map<string, Egress>, i: nat)
    requires !w.ok && i <= |c.policies|
    ensures AddPolicies(w, c, inp, m, i) == w
    decreases |c.policies| - i
  {
    if i < |c.policies| { PoliciesStopped(w, c, inp, m, i + 1); }
  }

  lemma {:induction false} HealthyMapStops(es: seq<Egress>, n: nat, autoRefresh: bool, inp: Inputs)
    requires n <= |es| && HealthyMap(es[..n], autoRefresh, inp).Err?
    ensures HealthyMap(es, autoRefresh, inp).Err?
    decreases |es| - n
  {
    if n < |es| {
      assert es[..n + 1][..n] == es[..n];
      HealthyMapStops(es, n + 1, autoRefresh, inp);
    } else {
      assert es[..n] == es;
    }
  }
}
