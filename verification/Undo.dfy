/** Cleanup inverts reconcile: whatever mixture of complete and aborted reconciles and cleanups ran
    before, one undisturbed cleanup gives back exactly the kernel state of the start. No hypothesis on
    clashing marks is needed: a clash can keep a rule from being added, never add it twice. */
module Undo {
  import opened Config
  import opened Kernel
  import opened Reconcile
  import opened Safety
  import opened Order
  import opened Compile

  function Own(c: Config): set<IpRule> { set e <- c.egresses :: OwnRule(e) }

  function Tables(c: Config): set<u32> { set e <- c.egresses :: e.table }

  /** The rules that are not the given ones, in order. */
  function Rest(rules: seq<IpRule>, own: set<IpRule>): seq<IpRule> {
    if rules == [] then []
    else if rules[0] in own then Rest(rules[1..], own)
    else [rules[0]] + Rest(rules[1..], own)
  }

  lemma {:induction false} RestInsert(rules: seq<IpRule>, own: set<IpRule>, r: IpRule)
    requires r in own
    ensures Rest(InsertRule(rules, r), own) == Rest(rules, own)
  {
    if rules == [] {
      assert InsertRule(rules, r)[1..] == [];
    } else if r.priority < rules[0].priority {
      assert InsertRule(rules, r)[1..] == rules;
    } else {
      assert InsertRule(rules, r)[1..] == InsertRule(rules[1..], r);
      RestInsert(rules[1..], own, r);
    }
  }

  lemma {:induction false} RestRemove(rules: seq<IpRule>, own: set<IpRule>, r: IpRule)
    requires r in own
    ensures Rest(RemoveRule(rules, r), own) == Rest(rules, own)
  {
    if rules != [] && rules[0] != r {
      assert RemoveRule(rules, r)[1..] == RemoveRule(rules[1..], r);
      RestRemove(rules[1..], own, r);
    }
  }

  lemma {:induction false} RestOfOthers(rules: seq<IpRule>, own: set<IpRule>)
    requires forall r :: r in rules ==> r !in own
    ensures Rest(rules, own) == rules
  {
    if rules != [] {
      assert rules[0] in rules && rules == [rules[0]] + rules[1..];
      RestOfOthers(rules[1..], own);
    }
  }

  /** What belongs to others is as it was, and each own rule is there at most once. */
  ghost predicate Kept(c: Config, k0: Kernel, k: Kernel) {
    RulesKept(c, k0.rules, k.rules) && RoutesKept(c, k0.routes, k.routes)
  }

  ghost predicate RulesKept(c: Config, before: seq<IpRule>, rules: seq<IpRule>) {
    Rest(rules, Own(c)) == before && forall e :: e in c.egresses ==> multiset(rules)[OwnRule(e)] <= 1
  }

  ghost predicate RoutesKept(c: Config, before: map<u32, Route>, routes: map<u32, Route>) {
    routes - Tables(c) == before
  }

  // ---------------------------------------------------------------- one command

  /** The kernel is kept, and so is every kernel of the trace from the given point on. */
  ghost predicate KeptWorld(c: Config, k0: Kernel, since: nat, w: World) {
    Kept(c, k0, w.k) && forall i :: since <= i < |w.trace| ==> Kept(c, k0, w.trace[i])
  }

  /** Commands on the own table, rules and routes that add no rule twice. */
  predicate Harmless(c: Config, k: Kernel, cmd: Command) {
    match cmd
    case ReplaceDefault(table, _) => table in Tables(c)
    case FlushRoutes(table) => table in Tables(c)
    case AddIpRule(r) => r in Own(c) && r !in k.rules
    case DelIpRule(r) => r in Own(c)
    case _ => true
  }

  lemma EffectKeeps(c: Config, k0: Kernel, k: Kernel, cmd: Command)
    requires Kept(c, k0, k) && Harmless(c, k, cmd) && Effect(k, cmd).Some?
    ensures Kept(c, k0, Effect(k, cmd).value)
  {
    match cmd
    case ReplaceDefault(table, r) => assert k.routes[table := r] - Tables(c) == k.routes - Tables(c);
    case FlushRoutes(table) => assert (k.routes - {table}) - Tables(c) == k.routes - Tables(c);
    case AddIpRule(r) => AdditionKept(c, k0.rules, k.rules, r);
    case DelIpRule(r) => DeletionKept(c, k0.rules, k.rules, r);
    case _ =>
  }

  lemma AdditionKept(c: Config, before: seq<IpRule>, rules: seq<IpRule>, r: IpRule)
    requires RulesKept(c, before, rules) && r in Own(c) && r !in rules
    ensures RulesKept(c, before, InsertRule(rules, r))
  {
    RestInsert(rules, Own(c), r);
    InsertRuleMembers(rules, r);
    assert multiset(rules)[r] == 0;
  }

  lemma DeletionKept(c: Config, before: seq<IpRule>, rules: seq<IpRule>, r: IpRule)
    requires RulesKept(c, before, rules) && r in Own(c) && r in rules
    ensures RulesKept(c, before, RemoveRule(rules, r))
  {
    RestRemove(rules, Own(c), r);
    RemoveRuleFacts(rules, r);
  }

  lemma RunKeeps(c: Config, k0: Kernel, since: nat, w: World, inp: Inputs, cmd: Command)
    requires KeptWorld(c, k0, since, w) && Harmless(c, w.k, cmd)
    ensures KeptWorld(c, k0, since, Run(w, inp, cmd))
  {
    if Effect(w.k, cmd).Some? { EffectKeeps(c, k0, w.k, cmd); }
  }

  // ---------------------------------------------------------------- reconciles

  /** The slot of a configured egress. */
  ghost predicate Slotted(c: Config, e: Egress) { exists x :: x in c.egresses && SameSlot(e, x) }

  lemma SetupKeeps(c: Config, k0: Kernel, since: nat, w: World, inp: Inputs)
    requires KeptWorld(c, k0, since, w)
    ensures KeptWorld(c, k0, since, AfterSetup(w, c, inp))
  {
    TableKeeps(c, k0, since, w, inp);
    ChainKeeps(c, k0, since, EnsureTable(w, inp), inp);
  }

  lemma TableKeeps(c: Config, k0: Kernel, since: nat, w: World, inp: Inputs)
    requires KeptWorld(c, k0, since, w)
    ensures KeptWorld(c, k0, since, EnsureTable(w, inp))
  {
    RunKeeps(c, k0, since, w.(tick := w.tick + 1), inp, AddTable);
  }

  lemma ChainKeeps(c: Config, k0: Kernel, since: nat, w: World, inp: Inputs)
    requires KeptWorld(c, k0, since, w)
    ensures KeptWorld(c, k0, since, EnsureChain(w, inp))
  {
    RunKeeps(c, k0, since, w.(tick := w.tick + 1), inp, AddChain);
  }

  lemma EnsureEgressKeeps(c: Config, k0: Kernel, since: nat, w: World, inp: Inputs, e: Egress)
    requires KeptWorld(c, k0, since, w) && Slotted(c, e)
    ensures KeptWorld(c, k0, since, EnsureEgress(w, inp, e))
  {
    var x :| x in c.egresses && SameSlot(e, x);
    assert OwnRule(e) == OwnRule(x) && x.table in Tables(c) && OwnRule(x) in Own(c);
    RunKeeps(c, k0, since, w, inp, ReplaceDefault(e.table, DefaultOf(e)));
    FwmarkKeeps(c, k0, since, Run(w, inp, ReplaceDefault(e.table, DefaultOf(e))), inp, e);
  }

  /** The rule is added only when it is absent. */
  lemma FwmarkKeeps(c: Config, k0: Kernel, since: nat, w: World, inp: Inputs, e: Egress)
    requires KeptWorld(c, k0, since, w) && OwnRule(e) in Own(c)
    ensures KeptWorld(c, k0, since, EnsureFwmark(w, inp, e))
  {
    FwmarkIsOneCommand(w, inp, e);
    if !RuleListed(w.k.rules, e.fwmark, e.table) {
      AbsentIfUnlisted(w.k.rules, e);
      RunKeeps(c, k0, since, Capture(w, inp), inp, AddIpRule(OwnRule(e)));
    }
  }

  /** What `ensure_fwmark_rule` does: at most one command, and only where the rule is not listed. */
  lemma FwmarkIsOneCommand(w: World, inp: Inputs, e: Egress)
    ensures var w' := EnsureFwmark(w, inp, e);
      || (w'.k == w.k && w'.trace == w.trace)
      || (!RuleListed(w.k.rules, e.fwmark, e.table) && w' == Run(Capture(w, inp), inp, AddIpRule(OwnRule(e))))
  {}

  lemma {:induction false} EnsureAllKeeps(c: Config, k0: Kernel, since: nat, w: World, inp: Inputs, es: seq<Egress>)
    requires KeptWorld(c, k0, since, w) && forall i :: 0 <= i < |es| ==> Slotted(c, es[i])
    ensures KeptWorld(c, k0, since, EnsureAll(w, inp, es))
    decreases |es|
  {
    if es != [] {
      EnsureEgressKeeps(c, k0, since, w, inp, es[0]);
      EnsureAllKeeps(c, k0, since, EnsureEgress(w, inp, es[0]), inp, es[1..]);
    }
  }

  lemma {:induction false} AddressesKeep(
    c: Config, k0: Kernel, since: nat, w: World, inp: Inputs, s: MatchSpec, e: Egress, ips: seq<string>)
    requires KeptWorld(c, k0, since, w)
    ensures KeptWorld(c, k0, since, AddAddresses(w, inp, s, e, ips))
    decreases |ips|
  {
    if ips != [] {
      MatchRuleKeeps(c, k0, since, w, inp, ResolvedSpec(s, ips[0]), e);
      AddressesKeep(c, k0, since, AddMatchRule(w, inp, ResolvedSpec(s, ips[0]), e), inp, s, e, ips[1..]);
    }
  }

  lemma MatchRuleKeeps(c: Config, k0: Kernel, since: nat, w: World, inp: Inputs, s: MatchSpec, e: Egress)
    requires KeptWorld(c, k0, since, w)
    ensures KeptWorld(c, k0, since, AddMatchRule(w, inp, s, e))
  {
    if AppendMatch(s, e.fwmark).Ok? { RunKeeps(c, k0, since, w, inp, AddRule(AppendMatch(s, e.fwmark).value)); }
  }

  lemma PolicyKeeps(c: Config, k0: Kernel, since: nat, w: World, inp: Inputs, m: map<string, Egress>, i: nat)
    requires KeptWorld(c, k0, since, w) && i < |c.policies|
    ensures KeptWorld(c, k0, since, AddPolicy(w, c, inp, m, i))
  {
    var p := c.policies[i];
    if Asks(c, m, i) {
      var resolved := ResolvedAt(c, inp, w.file, i);
      if resolved.result.Ok? {
        AddressesKeep(c, k0, since, w.(file := resolved.file), inp, p.spec, m[p.egress], resolved.result.value.ips);
      }
    } else if Active(p, m) {
      MatchRuleKeeps(c, k0, since, w, inp, p.spec, m[p.egress]);
    }
  }

  lemma {:induction false} PoliciesKeep(
    c: Config, k0: Kernel, since: nat, w: World, inp: Inputs, m: map<string, Egress>, i: nat)
    requires KeptWorld(c, k0, since, w) && i <= |c.policies|
    ensures KeptWorld(c, k0, since, AddPolicies(w, c, inp, m, i))
    decreases |c.policies| - i
  {
    if i < |c.policies| {
      PolicyKeeps(c, k0, since, w, inp, m, i);
      PoliciesKeep(c, k0, since, AddPolicy(w, c, inp, m, i), inp, m, i + 1);
    }
  }

  lemma InstallKeeps(c: Config, k0: Kernel, since: nat, w: World, inp: Inputs, m: map<string, Egress>)
    requires KeptWorld(c, k0, since, w) && FromConfig(c, m) && OrderOk(inp.order, m)
    ensures KeptWorld(c, k0, since, Install(w, c, inp, m))
  {
    var es := Values(inp.order, m);
    forall i | 0 <= i < |es| ensures Slotted(c, es[i]) {
      assert inp.order[i] in m;
      assert Backed(c, m[inp.order[i]]);
    }
    RunKeeps(c, k0, since, w, inp, FlushChain);
    EnsureAllKeeps(c, k0, since, w, inp, es);
    RunKeeps(c, k0, since, EnsureAll(w, inp, es), inp, FlushChain);
    PoliciesKeep(c, k0, since, Run(EnsureAll(w, inp, es), inp, FlushChain), inp, m, 0);
  }

  lemma ReconcileKeeps(c: Config, k0: Kernel, since: nat, w: World, inp: Inputs)
    requires KeptWorld(c, k0, since, w) && InputsOk(c, inp)
    ensures KeptWorld(c, k0, since, ReconcileOnce(w, c, inp))
  {
    var w1 := AfterSetup(w.(ok := true), c, inp);
    SetupKeeps(c, k0, since, w.(ok := true), inp);
    var h := HealthyMap(c.egresses, c.autoRefresh, inp);
    if w1.ok && h.Ok? {
      MapFromConfig(c, inp);
      InstallKeeps(c, k0, since, w1, inp, h.value);
    }
  }

  // ---------------------------------------------------------------- cleanups

  /** Rules may have gone; the rest is the same. */
  predicate Shrunk(w: World, w': World) {
    w'.ok == w.ok && w'.k.nft == w.k.nft && w'.k.routes == w.k.routes && multiset(w'.k.rules) <= multiset(w.k.rules)
  }

  predicate Among(es: seq<Egress>, all: seq<Egress>) { forall e :: e in es ==> e in all }

  lemma DeleteRuleKeeps(c: Config, k0: Kernel, since: nat, w: World, inp: Inputs, shown: seq<IpRule>, e: Egress)
    requires KeptWorld(c, k0, since, w) && e in c.egresses
    ensures KeptWorld(c, k0, since, DeleteRuleOf(w, inp, shown, e)) && Shrunk(w, DeleteRuleOf(w, inp, shown, e))
  {
    assert OwnRule(e) in Own(c);
    RunKeeps(c, k0, since, w, inp, DelIpRule(OwnRule(e)));
    DeleteRuleAfter(w, inp, shown, e);
    if OwnRule(e) in w.k.rules { RemoveRuleFacts(w.k.rules, OwnRule(e)); }
  }

  lemma DeleteRuleAfter(w: World, inp: Inputs, shown: seq<IpRule>, e: Egress)
    ensures var w' := DeleteRuleOf(w, inp, shown, e);
      && w'.ok == w.ok
      && (w' == w || w' == Run(w, inp, DelIpRule(OwnRule(e))).(ok := w.ok))
      && (w'.k == w.k
          || (OwnRule(e) in w.k.rules && w'.k == w.k.(rules := RemoveRule(w.k.rules, OwnRule(e)))))
  {}

  lemma {:induction false} DeleteRulesKeeps(
    c: Config, k0: Kernel, since: nat, w: World, inp: Inputs, shown: seq<IpRule>, es: seq<Egress>)
    requires KeptWorld(c, k0, since, w) && Among(es, c.egresses)
    ensures KeptWorld(c, k0, since, DeleteRules(w, inp, shown, es)) && Shrunk(w, DeleteRules(w, inp, shown, es))
    decreases |es|
  {
    if es != [] {
      DeleteRuleKeeps(c, k0, since, w, inp, shown, es[0]);
      DeleteRulesKeeps(c, k0, since, DeleteRuleOf(w, inp, shown, es[0]), inp, shown, es[1..]);
    }
  }

  lemma StaysGone(w: World, w': World, r: IpRule)
    requires Shrunk(w, w') && r !in w.k.rules
    ensures r !in w'.k.rules
  {
    assert r !in multiset(w.k.rules);
    assert r in w'.k.rules <==> r in multiset(w'.k.rules);
  }

  /** Undisturbed, every own rule that was listed goes, as each is there once at most. */
  lemma {:induction false} DeleteRulesClears(
    c: Config, k0: Kernel, since: nat, w: World, inp: Inputs, shown: seq<IpRule>, es: seq<Egress>, gone: Egress)
    requires KeptWorld(c, k0, since, w) && Among(es, c.egresses) && NoFailures(inp) && w.ok && gone in es
    requires OwnRule(gone) in w.k.rules ==> OwnRule(gone) in shown
    ensures OwnRule(gone) !in DeleteRules(w, inp, shown, es).k.rules
    decreases |es|
  {
    var e := es[0];
    var w1 := DeleteRuleOf(w, inp, shown, e);
    DeleteRuleKeeps(c, k0, since, w, inp, shown, e);
    if OwnRule(gone) == OwnRule(e) {
      DeletedOnce(w, inp, shown, e);
      DeleteRulesKeeps(c, k0, since, w1, inp, shown, es[1..]);
      StaysGone(w1, DeleteRules(w1, inp, shown, es[1..]), OwnRule(gone));
    } else {
      if OwnRule(gone) !in w.k.rules { StaysGone(w, w1, OwnRule(gone)); }
      DeleteRulesClears(c, k0, since, w1, inp, shown, es[1..], gone);
    }
  }

  lemma DeletedOnce(w: World, inp: Inputs, shown: seq<IpRule>, e: Egress)
    requires NoFailures(inp) && w.ok && multiset(w.k.rules)[OwnRule(e)] <= 1
    requires OwnRule(e) in w.k.rules ==> OwnRule(e) in shown
    ensures OwnRule(e) !in DeleteRuleOf(w, inp, shown, e).k.rules
  {
    if OwnRule(e) in w.k.rules {
      if !RuleListed(shown, e.fwmark, e.table) { AbsentIfUnlisted(shown, e); }
      RemovedOnce(w.k.rules, OwnRule(e));
    }
  }

  lemma RemovedOnce(rules: seq<IpRule>, r: IpRule)
    requires r in rules && multiset(rules)[r] <= 1
    ensures r !in RemoveRule(rules, r)
  {
    RemoveRuleFacts(rules, r);
    assert r !in multiset(RemoveRule(rules, r));
  }

  predicate Flushed(routes: map<u32, Route>, es: seq<Egress>) { forall e :: e in es ==> e.table !in routes }

  lemma FlushTableKeeps(c: Config, k0: Kernel, since: nat, w: World, inp: Inputs, e: Egress)
    requires KeptWorld(c, k0, since, w) && e in c.egresses
    ensures var w' := FlushTableOf(w, inp, e);
      && KeptWorld(c, k0, since, w') && w'.k.nft == w.k.nft && w'.k.rules == w.k.rules && w'.ok == w.ok
      && w'.k.routes.Keys <= w.k.routes.Keys
      && (NoFailures(inp) && w.ok ==> e.table !in w'.k.routes)
  {
    assert e.table in Tables(c);
    RunKeeps(c, k0, since, w.(tick := w.tick + 1), inp, FlushRoutes(e.table));
    FlushTableAfter(w, inp, e);
  }

  lemma FlushTableAfter(w: World, inp: Inputs, e: Egress)
    ensures var w' := FlushTableOf(w, inp, e);
      && (w' == w.(tick := w.tick + 1)
          || w' == Run(w.(tick := w.tick + 1), inp, FlushRoutes(e.table)).(ok := w.ok))
      && w'.k.nft == w.k.nft && w'.k.rules == w.k.rules && w'.ok == w.ok
      && w'.k.routes.Keys <= w.k.routes.Keys
      && (NoFailures(inp) && w.ok ==> e.table !in w'.k.routes)
  {}

  lemma {:induction false} FlushTablesKeeps(c: Config, k0: Kernel, since: nat, w: World, inp: Inputs, es: seq<Egress>)
    requires KeptWorld(c, k0, since, w) && Among(es, c.egresses)
    ensures var w' := FlushTables(w, inp, es);
      && KeptWorld(c, k0, since, w') && w'.k.nft == w.k.nft && w'.k.rules == w.k.rules
      && w'.k.routes.Keys <= w.k.routes.Keys
      && (NoFailures(inp) && w.ok ==> Flushed(w'.k.routes, es))
    decreases |es|
  {
    if es != [] {
      FlushTableKeeps(c, k0, since, w, inp, es[0]);
      FlushTablesKeeps(c, k0, since, FlushTableOf(w, inp, es[0]), inp, es[1..]);
      assert forall x :: x in es ==> x == es[0] || x in es[1..];
    }
  }

  lemma DeleteTableKeeps(c: Config, k0: Kernel, since: nat, w: World, inp: Inputs)
    requires KeptWorld(c, k0, since, w)
    ensures var w' := DeleteOwnTable(w, inp);
      && KeptWorld(c, k0, since, w') && w'.ok == w.ok && w'.k.rules == w.k.rules && w'.k.routes == w.k.routes
      && (NoFailures(inp) && w.ok ==> w'.k.nft.NoTable?)
  {
    RunKeeps(c, k0, since, w.(tick := w.tick + 1), inp, DeleteTable);
  }

  lemma CleanupKeeps(c: Config, k0: Kernel, since: nat, w: World, inp: Inputs)
    requires KeptWorld(c, k0, since, w)
    ensures KeptWorld(c, k0, since, Cleanup(w, c, inp))
  {
    var w1 := DeleteOwnTable(w.(ok := true), inp);
    DeleteTableKeeps(c, k0, since, w.(ok := true), inp);
    DeleteRulesKeeps(c, k0, since, w1.(tick := w1.tick + 1), inp, ShownRules(w1, inp), c.egresses);
    FlushTablesKeeps(c, k0, since, DeleteOwnRules(w1, c, inp), inp, c.egresses);
  }

  /** None of the own rules is there. */
  predicate Gone(rules: seq<IpRule>, es: seq<Egress>) { forall e :: e in es ==> OwnRule(e) !in rules }

  lemma DeleteOwnRulesClears(c: Config, k0: Kernel, since: nat, w: World, inp: Inputs)
    requires KeptWorld(c, k0, since, w) && NoFailures(inp) && w.ok
    ensures var w' := DeleteOwnRules(w, c, inp);
      && KeptWorld(c, k0, since, w') && w'.ok && w'.k.nft == w.k.nft && Gone(w'.k.rules, c.egresses)
  {
    var listed := w.(tick := w.tick + 1);
    assert ShownRules(w, inp) == w.k.rules;
    DeleteRulesKeeps(c, k0, since, listed, inp, w.k.rules, c.egresses);
    forall e | e in c.egresses ensures OwnRule(e) !in DeleteRules(listed, inp, w.k.rules, c.egresses).k.rules {
      DeleteRulesClears(c, k0, since, listed, inp, w.k.rules, c.egresses, e);
    }
  }

  /** An undisturbed cleanup leaves nothing of its own. */
  lemma CleanupClears(c: Config, k0: Kernel, w: World, inp: Inputs)
    requires Kept(c, k0, w.k) && NoFailures(inp)
    ensures var k := Cleanup(w, c, inp).k;
      k.nft.NoTable? && Flushed(k.routes, c.egresses) && Gone(k.rules, c.egresses)
  {
    var since := |w.trace|;
    var w1 := DeleteOwnTable(w.(ok := true), inp);
    DeleteTableKeeps(c, k0, since, w.(ok := true), inp);
    DeleteOwnRulesClears(c, k0, since, w1, inp);
    FlushTablesKeeps(c, k0, since, DeleteOwnRules(w1, c, inp), inp, c.egresses);
  }

  // ---------------------------------------------------------------- histories

  /** One invocation of the program: a reconcile or a cleanup, each with its own inputs. */
  datatype Invocation = Reconciled(inp: Inputs) | CleanedUp(inp: Inputs)

  ghost predicate InvocationOk(c: Config, i: Invocation) { i.Reconciled? ==> InputsOk(c, i.inp) }

  function After(w: World, c: Config, history: seq<Invocation>): World
    requires forall i :: 0 <= i < |history| ==> InvocationOk(c, history[i])
  {
    if history == [] then w
    else
      var before := After(w, c, history[..|history| - 1]);
      assert InvocationOk(c, history[|history| - 1]);
      match history[|history| - 1]
      case Reconciled(inp) => ReconcileOnce(before, c, inp)
      case CleanedUp(inp) => Cleanup(before, c, inp)
  }

  /** After every single command of every invocation, complete or aborted, the rules and routes of
      others are untouched and no own rule is there twice. */
  lemma {:induction false} HistoryKeeps(c: Config, w: World, history: seq<Invocation>)
    requires Kept(c, w.k, w.k) && forall i :: 0 <= i < |history| ==> InvocationOk(c, history[i])
    ensures KeptWorld(c, w.k, |w.trace|, After(w, c, history))
  {
    if history != [] {
      HistoryKeeps(c, w, history[..|history| - 1]);
      var before := After(w, c, history[..|history| - 1]);
      assert InvocationOk(c, history[|history| - 1]);
      match history[|history| - 1]
      case Reconciled(inp) => ReconcileKeeps(c, w.k, |w.trace|, before, inp);
      case CleanedUp(inp) => CleanupKeeps(c, w.k, |w.trace|, before, inp);
    }
  }

  /** Cleanup inverts reconcile. From a kernel with none of the owned table, rules and routes, any
      history of reconciles and cleanups, in apply mode or not and with any command failing, followed by
      one cleanup in which nothing fails, gives back that kernel, rules in their old order. */
  lemma {:induction false} CleanupInvertsReconcile(c: Config, w: World, history: seq<Invocation>, inp: Inputs)
    requires w.k.nft.NoTable? && forall e :: e in c.egresses ==> OwnRule(e) !in w.k.rules && e.table !in w.k.routes
    requires NoFailures(inp) && forall i :: 0 <= i < |history| ==> InvocationOk(c, history[i])
    ensures Cleanup(After(w, c, history), c, inp).k == w.k
  {
    NothingOwned(c, w.k);
    HistoryKeeps(c, w, history);
    var before := After(w, c, history);
    CleanupKeeps(c, w.k, |before.trace|, before, inp);
    CleanupClears(c, w.k, before, inp);
    NothingOwned(c, Cleanup(before, c, inp).k);
  }

  lemma NothingOwned(c: Config, k: Kernel)
    requires forall e :: e in c.egresses ==> OwnRule(e) !in k.rules && e.table !in k.routes
    ensures Rest(k.rules, Own(c)) == k.rules && k.routes - Tables(c) == k.routes
    ensures Kept(c, k, k)
  {
    RestOfOthers(k.rules, Own(c));
    forall e | e in c.egresses ensures multiset(k.rules)[OwnRule(e)] == 0 {
      assert OwnRule(e) !in multiset(k.rules);
    }
    assert k.routes - Tables(c) == k.routes;
  }
}
