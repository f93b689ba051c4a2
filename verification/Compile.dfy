/** The reconciler as a compiler: after a successful reconcile, what the kernel does with a packet is
    what the list of policies says. */
module Compile {
  import opened Text
  import opened Config
  import opened Kernel
  import opened Reconcile
  import opened Routes
  import opened Safety
  import Cache

  // ---------------------------------------------------------------- the meaning of the policies

  /** What a policy's domain resolved to: None without a domain or when resolution failed. */
  type Answer = Option<seq<string>>

  /** The policy applies: enabled, with a healthy egress, and not skipped for want of addresses. */
  predicate Active(p: Policy, m: map<string, Egress>) { p.enabled && p.egress in m }

  /** A packet is the policy's: its destination is covered by the resolved addresses of the domain if
      there is one, else by the CIDR, else by the address, if any; and its uid is the given one. */
  predicate Covers(p: Policy, answer: Answer, pkt: Packet) {
    && (if p.spec.domain.Some? then answer.Some? && exists ip :: ip in answer.value && pkt.inNet(ip)
        else if p.spec.destCidr.Some? then pkt.inNet(p.spec.destCidr.value)
        else p.spec.destIp.Some? ==> pkt.inNet(p.spec.destIp.value))
    && (p.spec.uid.Some? ==> p.spec.uid.value == pkt.uid)
  }

  predicate Selects(p: Policy, m: map<string, Egress>, answer: Answer, pkt: Packet) {
    Active(p, m) && Covers(p, answer, pkt)
  }

  // ---------------------------------------------------------------- answers

  function AnswerOf(r: Result<Cache.Resolution>): Answer {
    if r.Ok? then Some(r.value.ips) else None
  }

  /** The resolution of the policy at i, against the cache file as its predecessors left it. */
  function ResolvedAt(c: Config, inp: Inputs, file: Cache.CacheFile, i: nat): Cache.Outcome<Cache.Resolution>
    requires i < |c.policies| && c.policies[i].spec.domain.Some?
  {
    Cache.Resolve(c.cache, file, c.policies[i].spec.domain.value, inp.apply, Cache.PreferFresh, inp.dns(i))
  }

  predicate Asks(c: Config, m: map<string, Egress>, i: nat)
    requires i < |c.policies|
  {
    Active(c.policies[i], m) && c.policies[i].spec.domain.Some?
  }

  /** The cache file when the policy loop reaches the policy at n. */
  function FileAt(c: Config, inp: Inputs, m: map<string, Egress>, file: Cache.CacheFile, n: nat): Cache.CacheFile
    requires n <= |c.policies|
  {
    if n == 0 then file
    else
      var before := FileAt(c, inp, m, file, n - 1);
      if Asks(c, m, n - 1) then ResolvedAt(c, inp, before, n - 1).file else before
  }

  /** The answer the policy at i gets in a reconcile that starts with the given cache file. */
  function AnswerAt(c: Config, inp: Inputs, m: map<string, Egress>, file: Cache.CacheFile, i: nat): Answer
    requires i < |c.policies|
  {
    if Asks(c, m, i) then AnswerOf(ResolvedAt(c, inp, FileAt(c, inp, m, file, i), i).result) else None
  }

  // ---------------------------------------------------------------- the generated chain

  function AddressRules(m: MatchSpec, mark: u32, ips: seq<string>): seq<ChainRule> {
    if ips == [] then [] else [ChainRule(Some(ips[0]), m.uid, mark)] + AddressRules(m, mark, ips[1..])
  }

  function RulesOf(p: Policy, m: map<string, Egress>, answer: Answer): seq<ChainRule> {
    if !Active(p, m) then []
    else if p.spec.domain.Some? then
      if answer.Some? then AddressRules(p.spec, m[p.egress].fwmark, answer.value) else []
    else
      match AppendMatch(p.spec, m[p.egress].fwmark)
      case Ok(rule) => [rule]
      case Err => []
  }

  /** The rules of the first n policies, in policy order. */
  function Compiled(c: Config, inp: Inputs, m: map<string, Egress>, file: Cache.CacheFile, n: nat): seq<ChainRule>
    requires n <= |c.policies|
  {
    if n == 0 then []
    else Compiled(c, inp, m, file, n - 1) + RulesOf(c.policies[n - 1], m, AnswerAt(c, inp, m, file, n - 1))
  }

  /** What the policy at i contributes to the chain. */
  function Contribution(c: Config, inp: Inputs, m: map<string, Egress>, file: Cache.CacheFile, i: nat): seq<ChainRule>
    requires i < |c.policies|
  {
    RulesOf(c.policies[i], m, AnswerAt(c, inp, m, file, i))
  }

  lemma {:induction false} AddAddressesEmits(w: World, inp: Inputs, s: MatchSpec, e: Egress, ips: seq<string>)
    requires w.ok && inp.apply && w.k.nft.Chain?
    ensures var w' := AddAddresses(w, inp, s, e, ips);
      && w'.file == w.file
      && (w'.ok ==> w'.k == w.k.(nft := Chain(w.k.nft.rules + AddressRules(s, e.fwmark, ips))))
    decreases |ips|
  {
    if ips == [] {
      assert w.k.nft.rules + [] == w.k.nft.rules;
    } else {
      var rule := ChainRule(Some(ips[0]), s.uid, e.fwmark);
      var w1 := AddMatchRule(w, inp, ResolvedSpec(s, ips[0]), e);
      assert w1 == Run(w, inp, AddRule(rule));
      if w1.ok {
        AddAddressesEmits(w1, inp, s, e, ips[1..]);
        assert w.k.nft.rules + [rule] + AddressRules(s, e.fwmark, ips[1..]) ==
          w.k.nft.rules + AddressRules(s, e.fwmark, ips);
      } else {
        AddressesStopped(w1, inp, s, e, ips[1..]);
      }
    }
  }

  /** One policy appends its rules, or fails. */
  lemma AddPolicyEmits(w: World, c: Config, inp: Inputs, m: map<string, Egress>, i: nat, answer: Answer)
    requires i < |c.policies| && w.ok && inp.apply && w.k.nft.Chain?
    requires answer == if Asks(c, m, i) then AnswerOf(ResolvedAt(c, inp, w.file, i).result) else None
    ensures var w' := AddPolicy(w, c, inp, m, i);
      w'.ok ==>
        && w'.k == w.k.(nft := Chain(w.k.nft.rules + RulesOf(c.policies[i], m, answer)))
        && w'.file == if Asks(c, m, i) then ResolvedAt(c, inp, w.file, i).file else w.file
  {
    var p := c.policies[i];
    assert w.k.nft.rules + [] == w.k.nft.rules;
    if Asks(c, m, i) {
      var resolved := ResolvedAt(c, inp, w.file, i);
      if resolved.result.Ok? {
        AddAddressesEmits(w.(file := resolved.file), inp, p.spec, m[p.egress], resolved.result.value.ips);
      }
    }
  }

  /** The policies from n on extend the chain compiled so far to the whole compiled chain. */
  lemma {:induction false} AddPoliciesEmits(
    w: World, c: Config, inp: Inputs, m: map<string, Egress>, file: Cache.CacheFile, n: nat)
    requires n <= |c.policies| && w.ok && inp.apply
    requires w.k.nft == Chain(Compiled(c, inp, m, file, n)) && w.file == FileAt(c, inp, m, file, n)
    ensures var w' := AddPolicies(w, c, inp, m, n);
      w'.ok ==>
        && w'.k == w.k.(nft := Chain(Compiled(c, inp, m, file, |c.policies|)))
        && w'.file == FileAt(c, inp, m, file, |c.policies|)
    decreases |c.policies| - n
  {
    if n < |c.policies| {
      AddPolicyEmits(w, c, inp, m, n, AnswerAt(c, inp, m, file, n));
      var w1 := AddPolicy(w, c, inp, m, n);
      if w1.ok {
        AddPoliciesEmits(w1, c, inp, m, file, n + 1);
      } else {
        PoliciesStopped(w1, c, inp, m, n + 1);
      }
    }
  }

  /** With no healthy egress nothing is compiled, so the early return leaves the same chain. */
  lemma {:induction false} NothingCompiled(
    c: Config, inp: Inputs, m: map<string, Egress>, file: Cache.CacheFile, n: nat)
    requires n <= |c.policies| && |m| == 0
    ensures Compiled(c, inp, m, file, n) == [] && FileAt(c, inp, m, file, n) == file
  {
    if n > 0 {
      NothingCompiled(c, inp, m, file, n - 1);
      assert !Active(c.policies[n - 1], m);
    }
  }

  // ---------------------------------------------------------------- routes

  ghost predicate TablesDistinct(es: seq<Egress>) {
    forall i, j :: 0 <= i < j < |es| ==> es[i].table != es[j].table
  }

  lemma EnsureEgressRoutes(w: World, inp: Inputs, e: Egress)
    requires w.ok && inp.apply
    ensures var w' := EnsureEgress(w, inp, e);
      && w'.k.nft == w.k.nft && w'.file == w.file
      && (w'.ok ==> w'.k.routes == w.k.routes[e.table := DefaultOf(e)])
  {}

  /** None of the egresses has this table. */
  ghost predicate NotOf(es: seq<Egress>, t: u32) { forall i :: 0 <= i < |es| ==> es[i].table != t }

  /** The same default route, or none, in both. */
  predicate SameRoute(a: map<u32, Route>, b: map<u32, Route>, t: u32) {
    (t in a <==> t in b) && (t in a ==> a[t] == b[t])
  }

  /** The route phase touches no other table, nor the chain or the cache file. */
  lemma {:induction false} EnsureAllFrame(w: World, inp: Inputs, es: seq<Egress>, t: u32)
    requires NotOf(es, t)
    ensures var w' := EnsureAll(w, inp, es);
      w'.k.nft == w.k.nft && w'.file == w.file && SameRoute(w.k.routes, w'.k.routes, t)
    decreases |es|
  {
    if es != [] {
      assert NotOf(es[1..], t) by { assert forall i :: 0 <= i < |es[1..]| ==> es[1..][i] == es[i + 1]; }
      EnsureAllFrame(EnsureEgress(w, inp, es[0]), inp, es[1..], t);
    }
  }

  lemma {:induction false} EnsureAllSets(w: World, inp: Inputs, es: seq<Egress>, i: nat)
    requires w.ok && inp.apply && TablesDistinct(es) && i < |es| && EnsureAll(w, inp, es).ok
    ensures var routes := EnsureAll(w, inp, es).k.routes;
      es[i].table in routes && routes[es[i].table] == DefaultOf(es[i])
    decreases |es|
  {
    var w1 := EnsureEgress(w, inp, es[0]);
    if !w1.ok { AllStopped(w1, inp, es[1..]); }
    EnsureEgressRoutes(w, inp, es[0]);
    assert forall k :: 0 <= k < |es[1..]| ==> es[1..][k] == es[k + 1];
    if i > 0 { EnsureAllSets(w1, inp, es[1..], i - 1); } else { EnsureAllFrame(w1, inp, es[1..], es[0].table); }
  }

  /** After the route phase every listed egress's table has that egress's default route, and all other
      tables are as they were. */
  lemma {:induction false} EnsureAllRoutes(w: World, inp: Inputs, es: seq<Egress>)
    requires w.ok && inp.apply
    requires TablesDistinct(es)
    ensures var w' := EnsureAll(w, inp, es);
      && w'.k.nft == w.k.nft && w'.file == w.file
      && (forall t :: NotOf(es, t) ==> SameRoute(w.k.routes, w'.k.routes, t))
      && (w'.ok ==> forall i :: 0 <= i < |es| ==>
            && es[i].table in w'.k.routes
            && var r := w'.k.routes[es[i].table];
               r == DefaultOf(es[i]) && RouteBy(r, es[i].name, es[i].gateway, es[i].sourceIp))
  {
    var w' := EnsureAll(w, inp, es);
    EnsureAllLeaves(w, inp, es);
    forall t | NotOf(es, t) ensures SameRoute(w.k.routes, w'.k.routes, t) { EnsureAllFrame(w, inp, es, t); }
    if w'.ok {
      forall i | 0 <= i < |es|
        ensures es[i].table in w'.k.routes && w'.k.routes[es[i].table] == DefaultOf(es[i])
      {
        EnsureAllSets(w, inp, es, i);
      }
    }
  }

  lemma {:induction false} EnsureAllLeaves(w: World, inp: Inputs, es: seq<Egress>)
    ensures var w' := EnsureAll(w, inp, es); w'.k.nft == w.k.nft && w'.file == w.file
    decreases |es|
  {
    if es != [] { EnsureAllLeaves(EnsureEgress(w, inp, es[0]), inp, es[1..]); }
  }

  /** Healthy egresses have pairwise different names, tables and marks. */
  lemma ValuesDistinct(c: Config, inp: Inputs)
    requires EgressesDistinct(c.egresses) && InputsOk(c, inp) && HealthyMap(c.egresses, c.autoRefresh, inp).Ok?
    ensures var es := Values(inp.order, HealthyMap(c.egresses, c.autoRefresh, inp).value);
      TablesDistinct(es) && EgressesDistinct(es)
  {
    var m := HealthyMap(c.egresses, c.autoRefresh, inp).value;
    MapFromConfig(c, inp);
    var es := Values(inp.order, m);
    forall i, j | 0 <= i < j < |es|
      ensures es[i].name != es[j].name && es[i].table != es[j].table && es[i].fwmark != es[j].fwmark
    {
      assert inp.order[i] in m && inp.order[j] in m;
      SlotsDistinct(c, es[i], es[j]);
    }
  }

  lemma SlotsDistinct(c: Config, a: Egress, b: Egress)
    requires EgressesDistinct(c.egresses) && Backed(c, a) && Backed(c, b) && a.name != b.name
    ensures a.table != b.table && a.fwmark != b.fwmark
  {
    var x :| x in c.egresses && x.enabled && SameSlot(a, x);
    var y :| y in c.egresses && y.enabled && SameSlot(b, y);
    var i :| 0 <= i < |c.egresses| && c.egresses[i] == x;
    var j :| 0 <= j < |c.egresses| && c.egresses[j] == y;
  }

  lemma SetupKeepsRoutes(w: World, c: Config, inp: Inputs)
    ensures var w' := AfterSetup(w, c, inp); w'.k.rules == w.k.rules && w'.k.routes == w.k.routes
  {}

  lemma SetupLeavesChain(w: World, c: Config, inp: Inputs)
    requires inp.apply && AfterSetup(w, c, inp).ok
    ensures var w' := AfterSetup(w, c, inp);
      w'.k.nft.Chain? && w'.k.rules == w.k.rules && w'.k.routes == w.k.routes && w'.file == w.file
  {}

  /** What a successful reconcile installs: the compiled chain, the default route of every healthy
      egress, and the cache file its resolutions left. The early return is no exception. */
  lemma ReconcileInstalls(w: World, c: Config, inp: Inputs)
    requires EgressesDistinct(c.egresses) && InputsOk(c, inp) && inp.apply && ReconcileOnce(w, c, inp).ok
    ensures HealthyMap(c.egresses, c.autoRefresh, inp).Ok?
    ensures Installed(c, inp, HealthyMap(c.egresses, c.autoRefresh, inp).value, w.file, ReconcileOnce(w, c, inp))
  {
    SetupLeavesChain(w.(ok := true), c, inp);
    var m := HealthyMap(c.egresses, c.autoRefresh, inp).value;
    ValuesDistinct(c, inp);
    InstallInstalls(AfterSetup(w.(ok := true), c, inp), c, inp, m);
  }

  /** Every healthy egress's table has that egress's default route. */
  ghost predicate DefaultsInstalled(routes: map<u32, Route>, m: map<string, Egress>) {
    forall n :: n in m ==> m[n].table in routes && routes[m[n].table] == DefaultOf(m[n])
  }

  /** The whole outcome, from the given healthy egresses and initial cache file. */
  ghost predicate Installed(c: Config, inp: Inputs, m: map<string, Egress>, file: Cache.CacheFile, w: World) {
    && w.k.nft == Chain(Compiled(c, inp, m, file, |c.policies|))
    && DefaultsInstalled(w.k.routes, m)
    && w.file == FileAt(c, inp, m, file, |c.policies|)
  }

  /** The default routes a reconcile leaves: those that the enabled egresses that are up are to have, and in
      all other tables those from before. */
  ghost predicate RoutesAsConfigured(c: Config, inp: Inputs, before: map<u32, Route>, after: map<u32, Route>) {
    && (forall x :: x in c.egresses && x.enabled && inp.linkUp(x.name) ==>
          x.table in after && DefaultFor(after[x.table], x, inp.inspect(x.name)))
    && (forall t :: (forall x :: x in c.egresses && x.enabled && inp.linkUp(x.name) ==> x.table != t) ==>
          SameRoute(before, after, t))
  }

  lemma {:induction false} ReconcileRoutesAsConfigured(w: World, c: Config, inp: Inputs)
    requires EgressesDistinct(c.egresses) && InputsOk(c, inp) && inp.apply && ReconcileOnce(w, c, inp).ok
    ensures RoutesAsConfigured(c, inp, w.k.routes, ReconcileOnce(w, c, inp).k.routes)
  {
    ReconcileInstalls(w, c, inp);
    var m, after := HealthyMap(c.egresses, c.autoRefresh, inp).value, ReconcileOnce(w, c, inp).k.routes;
    HealthyMapExact(c.egresses, c.autoRefresh, inp);
    forall x | x in c.egresses && x.enabled && inp.linkUp(x.name)
      ensures x.table in after && DefaultFor(after[x.table], x, inp.inspect(x.name))
    {
      assert Usable(x, inp);
      var y :| y in c.egresses && Usable(y, inp) && y.name == x.name && UsedAs(y, m[x.name], c.autoRefresh, inp);
      NameIdentifies(c.egresses, x, y);
      PreparedDefault(x, c.autoRefresh, inp);
    }
    forall t | forall x :: x in c.egresses && x.enabled && inp.linkUp(x.name) ==> x.table != t
      ensures SameRoute(w.k.routes, after, t)
    {
      OtherTables(w, c, inp, m, t);
    }
  }

  lemma NameIdentifies(es: seq<Egress>, a: Egress, b: Egress)
    requires EgressesDistinct(es) && a in es && b in es && a.name == b.name
    ensures a == b
  {
    var i :| 0 <= i < |es| && es[i] == a;
    var j :| 0 <= j < |es| && es[j] == b;
  }

  lemma OtherTables(w: World, c: Config, inp: Inputs, m: map<string, Egress>, t: u32)
    requires InputsOk(c, inp) && inp.apply && ReconcileOnce(w, c, inp).ok
    requires HealthyMap(c.egresses, c.autoRefresh, inp) == Ok(m)
    requires forall x :: x in c.egresses && x.enabled && inp.linkUp(x.name) ==> x.table != t
    ensures SameRoute(w.k.routes, ReconcileOnce(w, c, inp).k.routes, t)
  {
    HealthyMapExact(c.egresses, c.autoRefresh, inp);
    var es := Values(inp.order, m);
    forall i | 0 <= i < |es| ensures es[i].table != t {
      assert inp.order[i] in m;
      var x :| x in c.egresses && Usable(x, inp) && x.name == inp.order[i] && UsedAs(x, es[i], c.autoRefresh, inp);
    }
    ReconcileRoutes(w, c, inp, m);
    SetupKeepsRoutes(w.(ok := true), c, inp);
    EnsureAllFrame(AfterSetup(w.(ok := true), c, inp), inp, es, t);
  }

  lemma RoutePhaseRoutes(w: World, inp: Inputs, m: map<string, Egress>)
    requires w.ok && inp.apply && OrderOk(inp.order, m) && TablesDistinct(Values(inp.order, m))
    ensures var w' := EnsureAll(w, inp, Values(inp.order, m));
      && w'.k.nft == w.k.nft && w'.file == w.file
      && (w'.ok ==> DefaultsInstalled(w'.k.routes, m))
  {
    var es := Values(inp.order, m);
    EnsureAllRoutes(w, inp, es);
    var w' := EnsureAll(w, inp, es);
    if w'.ok {
      forall n | n in m ensures m[n].table in w'.k.routes && w'.k.routes[m[n].table] == DefaultOf(m[n]) {
        assert n in inp.order;
        var i :| 0 <= i < |inp.order| && inp.order[i] == n;
        assert es[i] == m[n];
      }
    }
  }

  lemma InstallInstalls(w: World, c: Config, inp: Inputs, m: map<string, Egress>)
    requires w.ok && inp.apply && OrderOk(inp.order, m) && Install(w, c, inp, m).ok
    requires TablesDistinct(Values(inp.order, m))
    ensures Installed(c, inp, m, w.file, Install(w, c, inp, m))
  {
    if |m| == 0 && c.failClosed {
      EarlyReturn(w, c, inp, m);
    } else {
      FullInstall(w, c, inp, m);
    }
  }

  lemma EarlyReturn(w: World, c: Config, inp: Inputs, m: map<string, Egress>)
    requires w.ok && inp.apply && |m| == 0 && Run(w, inp, FlushChain).ok
    ensures Installed(c, inp, m, w.file, Run(w, inp, FlushChain))
  {
    NothingCompiled(c, inp, m, w.file, |c.policies|);
    assert m == map[];
  }

  lemma FullInstall(w: World, c: Config, inp: Inputs, m: map<string, Egress>)
    requires w.ok && inp.apply && OrderOk(inp.order, m) && TablesDistinct(Values(inp.order, m))
    requires AddPolicies(Run(EnsureAll(w, inp, Values(inp.order, m)), inp, FlushChain), c, inp, m, 0).ok
    ensures var w2 := Run(EnsureAll(w, inp, Values(inp.order, m)), inp, FlushChain);
      Installed(c, inp, m, w.file, AddPolicies(w2, c, inp, m, 0))
  {
    var w2 := Run(EnsureAll(w, inp, Values(inp.order, m)), inp, FlushChain);
    FlushedAfterRoutes(w, inp, m);
    if !w2.ok { PoliciesStopped(w2, c, inp, m, 0); }
    AfterFlush(w2, c, inp, m, w.file);
  }

  lemma FlushedAfterRoutes(w: World, inp: Inputs, m: map<string, Egress>)
    requires w.ok && inp.apply && OrderOk(inp.order, m) && TablesDistinct(Values(inp.order, m))
    ensures var w2 := Run(EnsureAll(w, inp, Values(inp.order, m)), inp, FlushChain);
      w2.ok ==> w2.k.nft == Chain([]) && w2.file == w.file && DefaultsInstalled(w2.k.routes, m)
  {
    RoutePhaseRoutes(w, inp, m);
  }

  lemma AfterFlush(w: World, c: Config, inp: Inputs, m: map<string, Egress>, file: Cache.CacheFile)
    requires w.ok && inp.apply && w.k.nft == Chain([]) && w.file == file && AddPolicies(w, c, inp, m, 0).ok
    requires DefaultsInstalled(w.k.routes, m)
    ensures Installed(c, inp, m, file, AddPolicies(w, c, inp, m, 0))
  {
    AddPoliciesEmits(w, c, inp, m, file, 0);
  }

  /** Adding policies touches neither rules nor routes. */
  lemma {:induction false} AddressesKeepRoutes(w: World, inp: Inputs, s: MatchSpec, e: Egress, ips: seq<string>)
    ensures var w' := AddAddresses(w, inp, s, e, ips); w'.k.rules == w.k.rules && w'.k.routes == w.k.routes
    decreases |ips|
  {
    if ips != [] { AddressesKeepRoutes(AddMatchRule(w, inp, ResolvedSpec(s, ips[0]), e), inp, s, e, ips[1..]); }
  }

  lemma PolicyKeepsRoutes(w: World, c: Config, inp: Inputs, m: map<string, Egress>, i: nat)
    requires i < |c.policies|
    ensures var w' := AddPolicy(w, c, inp, m, i); w'.k.rules == w.k.rules && w'.k.routes == w.k.routes
  {
    var p := c.policies[i];
    if w.ok && Asks(c, m, i) {
      var resolved := ResolvedAt(c, inp, w.file, i);
      if resolved.result.Ok? {
        AddressesKeepRoutes(w.(file := resolved.file), inp, p.spec, m[p.egress], resolved.result.value.ips);
      }
    }
  }

  lemma {:induction false} PoliciesKeepRoutes(w: World, c: Config, inp: Inputs, m: map<string, Egress>, i: nat)
    requires i <= |c.policies|
    ensures var w' := AddPolicies(w, c, inp, m, i); w'.k.rules == w.k.rules && w'.k.routes == w.k.routes
    decreases |c.policies| - i
  {
    if i < |c.policies| {
      PolicyKeepsRoutes(w, c, inp, m, i);
      PoliciesKeepRoutes(AddPolicy(w, c, inp, m, i), c, inp, m, i + 1);
    }
  }

  /** Rules and routes of a reconcile are those of its route phase; an early return has none. */
  lemma InstallRoutes(w: World, c: Config, inp: Inputs, m: map<string, Egress>)
    requires OrderOk(inp.order, m)
    ensures Install(w, c, inp, m).k.rules == EnsureAll(w, inp, Values(inp.order, m)).k.rules
    ensures Install(w, c, inp, m).k.routes == EnsureAll(w, inp, Values(inp.order, m)).k.routes
  {
    if inp.order != [] { assert inp.order[0] in m; }
    PoliciesKeepRoutes(Run(EnsureAll(w, inp, Values(inp.order, m)), inp, FlushChain), c, inp, m, 0);
  }

  lemma ReconcileRoutes(w: World, c: Config, inp: Inputs, m: map<string, Egress>)
    requires InputsOk(c, inp) && inp.apply && ReconcileOnce(w, c, inp).ok
      && HealthyMap(c.egresses, c.autoRefresh, inp) == Ok(m)
    ensures var w1 := AfterSetup(w.(ok := true), c, inp);
      && w1.ok
      && ReconcileOnce(w, c, inp).k.rules == EnsureAll(w1, inp, Values(inp.order, m)).k.rules
      && ReconcileOnce(w, c, inp).k.routes == EnsureAll(w1, inp, Values(inp.order, m)).k.routes
  {
    InstallRoutes(AfterSetup(w.(ok := true), c, inp), c, inp, m);
  }

  // ---------------------------------------------------------------- what the chain does

  lemma {:induction false} MarkAfterAppend(a: seq<ChainRule>, b: seq<ChainRule>, pkt: Packet, mark: u32)
    ensures MarkAfter(a + b, pkt, mark) == MarkAfter(b, pkt, MarkAfter(a, pkt, mark))
    decreases |a|
  {
    if a == [] {
      assert a + b == b;
    } else {
      assert (a + b)[1..] == a[1..] + b;
      MarkAfterAppend(a[1..], b, pkt, if Matches(a[0], pkt) then a[0].mark else mark);
    }
  }

  lemma {:induction false} AddressRulesMark(s: MatchSpec, mark: u32, ips: seq<string>, pkt: Packet, before: u32)
    ensures MarkAfter(AddressRules(s, mark, ips), pkt, before) ==
      if (exists ip :: ip in ips && pkt.inNet(ip)) && (s.uid.Some? ==> s.uid.value == pkt.uid) then mark else before
    decreases |ips|
  {
    if ips != [] {
      var rules := AddressRules(s, mark, ips);
      assert rules[1..] == AddressRules(s, mark, ips[1..]);
      AddressRulesMark(s, mark, ips[1..], pkt, if Matches(rules[0], pkt) then mark else before);
      assert ips[0] in ips && forall ip :: ip in ips ==> ip == ips[0] || ip in ips[1..];
    }
  }

  /** The rules of one policy mark exactly the packets it selects. */
  lemma RulesOfMark(p: Policy, m: map<string, Egress>, answer: Answer, pkt: Packet, before: u32)
    requires HasMatch(p.spec)
    ensures MarkAfter(RulesOf(p, m, answer), pkt, before) ==
      if Selects(p, m, answer, pkt) then m[p.egress].fwmark else before
  {
    if Active(p, m) && p.spec.domain.Some? && answer.Some? {
      AddressRulesMark(p.spec, m[p.egress].fwmark, answer.value, pkt, before);
    } else if Active(p, m) && p.spec.domain.None? {
      var rule := AppendMatch(p.spec, m[p.egress].fwmark).value;
      assert RulesOf(p, m, answer) == [rule];
      assert [rule][1..] == [];
    }
  }

  /** The policy at i is the last of the first n that selects the packet. */
  ghost predicate LastSelecting(
    c: Config, inp: Inputs, m: map<string, Egress>, file: Cache.CacheFile, n: nat, pkt: Packet, i: int)
    requires n <= |c.policies|
  {
    && 0 <= i < n && Selects(c.policies[i], m, AnswerAt(c, inp, m, file, i), pkt)
    && forall j :: i < j < n ==> !Selects(c.policies[j], m, AnswerAt(c, inp, m, file, j), pkt)
  }

  /** The index of that policy among the first n, or -1. */
  function LastIndex(
    c: Config, inp: Inputs, m: map<string, Egress>, file: Cache.CacheFile, n: nat, pkt: Packet): (i: int)
    requires n <= |c.policies|
    ensures -1 <= i < n && (i >= 0 ==> Active(c.policies[i], m))
  {
    if n == 0 then -1
    else if Selects(c.policies[n - 1], m, AnswerAt(c, inp, m, file, n - 1), pkt) then n - 1
    else LastIndex(c, inp, m, file, n - 1, pkt)
  }

  lemma {:induction false} LastIndexExact(
    c: Config, inp: Inputs, m: map<string, Egress>, file: Cache.CacheFile, n: nat, pkt: Packet, i: int)
    requires n <= |c.policies|
    ensures LastSelecting(c, inp, m, file, n, pkt, i) <==> 0 <= i == LastIndex(c, inp, m, file, n, pkt)
  {
    if n > 0 && !Selects(c.policies[n - 1], m, AnswerAt(c, inp, m, file, n - 1), pkt) {
      LastIndexExact(c, inp, m, file, n - 1, pkt, i);
      assert LastSelecting(c, inp, m, file, n, pkt, i) <==> LastSelecting(c, inp, m, file, n - 1, pkt, i);
    }
  }

  /** The compiled rules of the first n policies mark a packet for the last of them that selects it. */
  lemma {:induction false} CompiledMark(
    c: Config, inp: Inputs, m: map<string, Egress>, file: Cache.CacheFile, n: nat, pkt: Packet)
    requires n <= |c.policies| && forall p :: p in c.policies ==> HasMatch(p.spec)
    ensures var i := LastIndex(c, inp, m, file, n, pkt);
      MarkAfter(Compiled(c, inp, m, file, n), pkt, 0) == if i < 0 then 0 else m[c.policies[i].egress].fwmark
  {
    if n > 0 {
      CompiledMark(c, inp, m, file, n - 1, pkt);
      var p, answer, init := c.policies[n - 1], AnswerAt(c, inp, m, file, n - 1), Compiled(c, inp, m, file, n - 1);
      assert p in c.policies;
      MarkAfterAppend(init, RulesOf(p, m, answer), pkt, 0);
      RulesOfMark(p, m, answer, pkt, MarkAfter(init, pkt, 0));
    }
  }

  lemma ChainMark(c: Config, inp: Inputs, m: map<string, Egress>, file: Cache.CacheFile, pkt: Packet, k: Kernel)
    requires forall p :: p in c.policies ==> HasMatch(p.spec)
    requires k.nft == Chain(Compiled(c, inp, m, file, |c.policies|))
    ensures forall i :: LastSelecting(c, inp, m, file, |c.policies|, pkt, i) ==>
      MarkOf(k, pkt) == m[c.policies[i].egress].fwmark
    ensures NoneSelects(c, inp, m, file, pkt) ==> MarkOf(k, pkt) == 0
  {
    var n := |c.policies|;
    var i := LastIndex(c, inp, m, file, n, pkt);
    CompiledMark(c, inp, m, file, n, pkt);
    LastIndexExact(c, inp, m, file, n, pkt, i);
    forall j | LastSelecting(c, inp, m, file, n, pkt, j) ensures j == i { LastIndexExact(c, inp, m, file, n, pkt, j); }
  }

  // ---------------------------------------------------------------- the theorem

  /** The packet is marked for the configured egress and, unless a foreign rule decides first, takes the
      default route the egress is to have. */
  ghost predicate LeavesBy(k: Kernel, foreign: seq<IpRule>, pkt: Packet, x: Egress, inp: Inputs) {
    && MarkOf(k, pkt) == x.fwmark
    && (Free(foreign, pkt, x.priority) ==>
          var way := RouteFor(k.rules, k.routes, pkt, x.fwmark);
          way.Via? && DefaultFor(way.route, x, inp.inspect(x.name)))
  }

  /** It leaves by the enabled egress of that name. */
  ghost predicate Leaves(c: Config, inp: Inputs, k: Kernel, foreign: seq<IpRule>, pkt: Packet, name: string) {
    exists x :: x in c.egresses && x.enabled && x.name == name && LeavesBy(k, foreign, pkt, x, inp)
  }

  /** It leaves without a mark, and by no route of a marked table unless a foreign rule is on mark 0. */
  ghost predicate LeavesUnmarked(k: Kernel, before: seq<IpRule>, pkt: Packet) {
    && MarkOf(k, pkt) == 0
    && ((forall r :: r in before && r.Fwmark? ==> r.mark != 0) ==> !RouteFor(k.rules, k.routes, pkt, 0).Via?)
  }

  /** The rules of the egresses that policies use come before the main table's, at priority 32766. */
  ghost predicate BeforeMain(c: Config) {
    forall e :: e in c.egresses && Used(c, e.name) ==> e.priority < 32766
  }

  /** In the kernel k the packet goes where the policies say: by the egress of the last policy that
      selects it, or unmarked if none does. */
  ghost predicate FollowsPolicies(
    c: Config, inp: Inputs, m: map<string, Egress>, file: Cache.CacheFile, pkt: Packet, foreign: seq<IpRule>, k: Kernel)
  {
    && (forall i :: LastSelecting(c, inp, m, file, |c.policies|, pkt, i) ==>
          Leaves(c, inp, k, foreign, pkt, c.policies[i].egress))
    && (NoneSelects(c, inp, m, file, pkt) ==> LeavesUnmarked(k, foreign, pkt))
  }

  /** Compilation preserves meaning. After a successful reconcile of a validated configuration, every
      packet goes where the policies say. */
  lemma {:induction false} CompilationPreservesMeaning(
    w: World, c: Config, parse: string -> Option<SockAddr>, inp: Inputs, pkt: Packet)
    requires Valid(c, parse) && ClashFree(c) && BeforeMain(c) && InputsOk(c, inp) && inp.apply
    requires Sound(c, w.k) && ReconcileOnce(w, c, inp).ok
    ensures HealthyMap(c.egresses, c.autoRefresh, inp).Ok?
    ensures var m := HealthyMap(c.egresses, c.autoRefresh, inp).value;
      FollowsPolicies(c, inp, m, w.file, pkt, w.k.rules, ReconcileOnce(w, c, inp).k)
  {
    ReconcileInstalls(w, c, inp);
    var stale := if w.k.nft.Chain? then set r <- w.k.nft.rules :: r.mark else {};
    ReconcileGood(c, Tolerance(stale, |w.trace|), w, inp);
    MapFromConfig(c, inp);
    var m := HealthyMap(c.egresses, c.autoRefresh, inp).value;
    MapAsPrepared(c, inp);
    RulesAdded(w, c, inp);
    InstalledMeansPolicies(c, inp, m, w.file, pkt, w.k.rules, ReconcileOnce(w, c, inp).k);
  }

  /** The rules are those from before and rules of configured egresses. */
  ghost predicate OnlyAdds(c: Config, rules: seq<IpRule>, before: seq<IpRule>) {
    forall r :: r in rules ==> r in before || exists x :: x in c.egresses && r == OwnRule(x)
  }

  lemma {:induction false} EnsureAllMembers(w: World, inp: Inputs, es: seq<Egress>, r: IpRule)
    requires r in EnsureAll(w, inp, es).k.rules
    ensures r in w.k.rules || exists e :: e in es && r == OwnRule(e)
    decreases |es|
  {
    if es != [] {
      EnsureAllMembers(EnsureEgress(w, inp, es[0]), inp, es[1..], r);
      InsertRuleMembers(w.k.rules, OwnRule(es[0]));
      assert es[0] in es && forall x :: x in es[1..] ==> x in es;
    }
  }

  /** A reconcile adds only rules of configured egresses. */
  lemma RulesAdded(w: World, c: Config, inp: Inputs)
    requires InputsOk(c, inp)
    ensures OnlyAdds(c, ReconcileOnce(w, c, inp).k.rules, w.k.rules)
  {
    var w1 := AfterSetup(w.(ok := true), c, inp);
    SetupKeepsRoutes(w.(ok := true), c, inp);
    var h := HealthyMap(c.egresses, c.autoRefresh, inp);
    if w1.ok && h.Ok? {
      MapFromConfig(c, inp);
      InstallAdds(w1, c, inp, h.value);
    }
  }

  lemma InstallAdds(w: World, c: Config, inp: Inputs, m: map<string, Egress>)
    requires OrderOk(inp.order, m) && FromConfig(c, m)
    ensures OnlyAdds(c, Install(w, c, inp, m).k.rules, w.k.rules)
  {
    var es := Values(inp.order, m);
    InstallRoutes(w, c, inp, m);
    forall r | r in EnsureAll(w, inp, es).k.rules && r !in w.k.rules
      ensures exists x :: x in c.egresses && r == OwnRule(x)
    {
      EnsureAllMembers(w, inp, es, r);
      var e :| e in es && r == OwnRule(e);
      ValueHasConfiguredRule(c, inp, m, e);
    }
  }

  lemma ValueHasConfiguredRule(c: Config, inp: Inputs, m: map<string, Egress>, e: Egress)
    requires OrderOk(inp.order, m) && FromConfig(c, m) && e in Values(inp.order, m)
    ensures exists x :: x in c.egresses && OwnRule(e) == OwnRule(x)
  {
    var es := Values(inp.order, m);
    var j :| 0 <= j < |es| && es[j] == e;
    assert inp.order[j] in m;
    var x :| x in c.egresses && x.enabled && SameSlot(e, x);
  }

  ghost predicate NoneSelects(c: Config, inp: Inputs, m: map<string, Egress>, file: Cache.CacheFile, pkt: Packet) {
    forall i :: 0 <= i < |c.policies| ==> !Selects(c.policies[i], m, AnswerAt(c, inp, m, file, i), pkt)
  }

  lemma InstalledMeansPolicies(
    c: Config, inp: Inputs, m: map<string, Egress>, file: Cache.CacheFile, pkt: Packet, before: seq<IpRule>, k: Kernel)
    requires EgressesDistinct(c.egresses) && FromConfig(c, m) && forall p :: p in c.policies ==> HasMatch(p.spec)
    requires forall e :: e in c.egresses ==> e.fwmark != 0
    requires Sound(c, k) && UsedRouted(c, k, m) && k.nft == Chain(Compiled(c, inp, m, file, |c.policies|))
    requires BeforeMain(c) && AsPrepared(c, inp, m) && inp.apply
    requires DefaultsInstalled(k.routes, m) && OnlyAdds(c, k.rules, before)
    ensures FollowsPolicies(c, inp, m, file, pkt, before, k)
  {
    ChainMark(c, inp, m, file, pkt, k);
    forall i | LastSelecting(c, inp, m, file, |c.policies|, pkt, i)
      ensures Leaves(c, inp, k, before, pkt, c.policies[i].egress)
    {
      assert c.policies[i] in c.policies;
      SelectedLeaves(c, inp, m, file, i, pkt, before, k);
    }
    if forall r :: r in before && r.Fwmark? ==> r.mark != 0 { RouteForLate(k.rules, k.routes, pkt, 0); }
  }

  /** Every healthy egress is a configured one as this reconcile prepared it. */
  ghost predicate AsPrepared(c: Config, inp: Inputs, m: map<string, Egress>) {
    forall n :: n in m ==>
      exists x :: x in c.egresses && x.enabled && x.name == n && UsedAs(x, m[n], c.autoRefresh, inp)
  }

  lemma MapAsPrepared(c: Config, inp: Inputs)
    requires HealthyMap(c.egresses, c.autoRefresh, inp).Ok?
    ensures AsPrepared(c, inp, HealthyMap(c.egresses, c.autoRefresh, inp).value)
  {
    HealthyMapExact(c.egresses, c.autoRefresh, inp);
  }

  lemma SelectedLeaves(
    c: Config, inp: Inputs, m: map<string, Egress>, file: Cache.CacheFile, i: nat, pkt: Packet, before: seq<IpRule>,
    k: Kernel)
    requires FromConfig(c, m) && i < |c.policies|
    requires Selects(c.policies[i], m, AnswerAt(c, inp, m, file, i), pkt)
    requires Sound(c, k) && UsedRouted(c, k, m) && BeforeMain(c) && AsPrepared(c, inp, m) && inp.apply
    requires DefaultsInstalled(k.routes, m) && OnlyAdds(c, k.rules, before)
    requires MarkOf(k, pkt) == m[c.policies[i].egress].fwmark
    ensures Leaves(c, inp, k, before, pkt, c.policies[i].egress)
  {
    var name := c.policies[i].egress;
    var x :| x in c.egresses && x.enabled && x.name == name && UsedAs(x, m[name], c.autoRefresh, inp);
    PreparedDefault(x, c.autoRefresh, inp);
    if Free(before, pkt, x.priority) { SelectedIsRouted(c, inp, m, file, i, pkt, k); }
    assert LeavesBy(k, before, pkt, x, inp);
  }

  lemma {:induction false} CompiledHas(
    c: Config, inp: Inputs, m: map<string, Egress>, file: Cache.CacheFile, n: nat, i: nat, rule: ChainRule)
    requires i < n <= |c.policies| && rule in RulesOf(c.policies[i], m, AnswerAt(c, inp, m, file, i))
    ensures rule in Compiled(c, inp, m, file, n)
  {
    var init, last := Compiled(c, inp, m, file, n - 1), RulesOf(c.policies[n - 1], m, AnswerAt(c, inp, m, file, n - 1));
    if i < n - 1 { CompiledHas(c, inp, m, file, n - 1, i, rule); }
    InEither(init, last, rule);
  }

  lemma InEither<T>(a: seq<T>, b: seq<T>, x: T)
    requires x in a || x in b
    ensures x in a + b
  {
  }

  lemma {:induction false} AddressRulesHas(s: MatchSpec, mark: u32, ips: seq<string>, ip: string)
    requires ip in ips
    ensures ChainRule(Some(ip), s.uid, mark) in AddressRules(s, mark, ips)
    decreases |ips|
  {
    if ip != ips[0] { AddressRulesHas(s, mark, ips[1..], ip); }
  }

  /** After a reconcile without clashes every enabled egress that is up and that policies use has its rule. */
  lemma {:induction false} ReconcileRulesAsConfigured(w: World, c: Config, inp: Inputs, x: Egress)
    requires EgressesDistinct(c.egresses) && ClashFree(c) && Sound(c, w.k) && InputsOk(c, inp)
    requires inp.apply && ReconcileOnce(w, c, inp).ok
    requires x in c.egresses && x.enabled && inp.linkUp(x.name) && Used(c, x.name)
    ensures Fwmark(x.priority, x.fwmark, x.table) in ReconcileOnce(w, c, inp).k.rules
  {
    var stale := if w.k.nft.Chain? then set r <- w.k.nft.rules :: r.mark else {};
    ReconcileGood(c, Tolerance(stale, |w.trace|), w, inp);
    ReconcileInstalls(w, c, inp);
    HealthyMapExact(c.egresses, c.autoRefresh, inp);
    var m := HealthyMap(c.egresses, c.autoRefresh, inp).value;
    assert Usable(x, inp);
    var y :| y in c.egresses && Usable(y, inp) && y.name == x.name && UsedAs(y, m[x.name], c.autoRefresh, inp);
    NameIdentifies(c.egresses, x, y);
    assert Routed(ReconcileOnce(w, c, inp).k, m[x.name]);
  }

  /** A selecting policy uses its egress, so the egress's mark leads to its route. */
  lemma SelectedIsRouted(
    c: Config, inp: Inputs, m: map<string, Egress>, file: Cache.CacheFile, i: nat, pkt: Packet, k: Kernel)
    requires FromConfig(c, m) && i < |c.policies|
    requires Selects(c.policies[i], m, AnswerAt(c, inp, m, file, i), pkt)
    requires Sound(c, k) && UsedRouted(c, k, m)
    requires BeforeMain(c)
    requires DefaultsInstalled(k.routes, m) && Free(k.rules, pkt, m[c.policies[i].egress].priority)
    ensures RouteFor(k.rules, k.routes, pkt, m[c.policies[i].egress].fwmark) == Via(DefaultOf(m[c.policies[i].egress]))
  {
    var p := c.policies[i];
    var e := m[p.egress];
    assert p in c.policies && Installs(p);
    assert Used(c, p.egress);
    var x :| x in c.egresses && x.enabled && SameSlot(e, x);
    assert OwnRule(e) == OwnRule(x);
    RouteForOwned(k.rules, k.routes, pkt, OwnRule(e));
  }
}
