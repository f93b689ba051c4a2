/** Exactly when the host does with packets what the policies say, after every successful reconcile of
    every run: when no rule line of an enabled egress is mistaken for the rule of an egress that policies
    use, and the rules of those egresses come before the main table's. */
module Faithful {
  import opened Text
  import opened Config
  import opened Kernel
  import opened Reconcile
  import opened Safety
  import opened Compile
  import opened Order
  import opened Progress
  import opened Dangling
  import Cache

  /** After earlier reconciles that met whatever they met, this one succeeds. */
  ghost predicate Succeeds(c: Config, k: Kernel, runs: seq<Inputs>, inp: Inputs) {
    && AllInputsOk(c, runs) && InputsOk(c, inp) && inp.apply
    && ReconcileOnce(ReconcileMany(Start(k), c, runs), c, inp).ok
  }

  /** The reconcile leaves every packet going where the policies say. */
  ghost predicate AllFollow(w: World, c: Config, inp: Inputs)
    requires InputsOk(c, inp)
  {
    var h := HealthyMap(c.egresses, c.autoRefresh, inp);
    && h.Ok?
    && forall pkt :: FollowsPolicies(c, inp, h.value, w.file, pkt, w.k.rules, ReconcileOnce(w, c, inp).k)
  }

  ghost predicate PacketsFollow(c: Config, k: Kernel) {
    forall runs, inp :: Succeeds(c, k, runs, inp) ==> AllFollow(ReconcileMany(Start(k), c, runs), c, inp)
  }

  lemma {:induction false} PacketsFollowIff(c: Config, parse: string -> Option<SockAddr>, k: Kernel)
    requires Valid(c, parse) && Untouched(c, k)
    ensures PacketsFollow(c, k) <==> ClashFree(c) && BeforeMain(c)
  {
    if ClashFree(c) && BeforeMain(c) {
      forall runs, inp | Succeeds(c, k, runs, inp) ensures AllFollow(ReconcileMany(Start(k), c, runs), c, inp) {
        FollowAfterRuns(c, parse, k, runs, inp);
      }
    } else if !BeforeMain(c) {
      var e :| e in c.egresses && Used(c, e.name) && e.priority >= MAIN_PRIORITY;
      LateRuleMisroutes(c, parse, k, e);
    } else {
      var a, e :| a in c.egresses && a.enabled && e in c.egresses && Used(c, e.name)
        && Mistaken(OwnRule(a), e.fwmark, e.table);
      ClashMisroutes(c, parse, k, a, e);
    }
  }

  lemma FollowAfterRuns(
    c: Config, parse: string -> Option<SockAddr>, k: Kernel, runs: seq<Inputs>, inp: Inputs)
    requires Valid(c, parse) && Untouched(c, k) && ClashFree(c) && BeforeMain(c) && Succeeds(c, k, runs, inp)
    ensures AllFollow(ReconcileMany(Start(k), c, runs), c, inp)
  {
    UntouchedIsSound(c, k);
    assert MarksRouted(c, k, {});
    EveryCommandGood(c, Tolerance({}, 0), Start(k), runs);
    FollowAfterOne(ReconcileMany(Start(k), c, runs), c, parse, inp);
  }

  lemma FollowAfterOne(w: World, c: Config, parse: string -> Option<SockAddr>, inp: Inputs)
    requires Valid(c, parse) && ClashFree(c) && BeforeMain(c) && InputsOk(c, inp) && inp.apply
    requires Sound(c, w.k) && ReconcileOnce(w, c, inp).ok
    ensures AllFollow(w, c, inp)
  {
    var m := HealthyMap(c.egresses, c.autoRefresh, inp).value;
    forall pkt ensures FollowsPolicies(c, inp, m, w.file, pkt, w.k.rules, ReconcileOnce(w, c, inp).k) {
      CompilationPreservesMeaning(w, c, parse, inp, pkt);
    }
  }

  // ---------------------------------------------------------------- one egress up

  /** One egress is up and as configured, names resolve and nothing fails. */
  function Only(x: Egress): Inputs {
    Inputs(true, n => n == x.name, _ => Some(AsConfigured(x)), [x.name], _ => ANSWER, _ => false)
  }

  lemma OnlyMap(c: Config, x: Egress) returns (m: map<string, Egress>)
    requires EgressesDistinct(c.egresses) && x in c.egresses && x.enabled
    ensures HealthyMap(c.egresses, c.autoRefresh, Only(x)) == Ok(m) && OrderOk([x.name], m)
    ensures SameSlot(m[x.name], x)
  {
    var inp := Only(x);
    forall y | y in c.egresses && Healthy(y, inp) ensures y == x && Prepared(y, c.autoRefresh, inp) == Ok(y) {
      NameIdentifies(c.egresses, y, x);
      AsConfiguredIsInSync(y);
    }
    UsableMap(c.egresses, c.autoRefresh, inp);
    HealthyMapExact(c.egresses, c.autoRefresh, inp);
    m := HealthyMap(c.egresses, c.autoRefresh, inp).value;
    assert Healthy(x, inp);
    SlotOf(c, inp, m, x);
  }

  lemma OnlySucceeds(w: World, c: Config, parse: string -> Option<SockAddr>, x: Egress)
    requires Valid(c, parse) && x in c.egresses && x.enabled
    ensures InputsOk(c, Only(x)) && ReconcileOnce(w, c, Only(x)).ok
  {
    var m := OnlyMap(c, x);
    ErrorsComeFromOutside(w, c, parse, Only(x));
  }

  /** Such a reconcile adds the rule of that egress unless some line looks like it, and no other. */
  lemma OnlyRules(w: World, c: Config, parse: string -> Option<SockAddr>, x: Egress)
    requires Valid(c, parse) && x in c.egresses && x.enabled && InputsOk(c, Only(x))
    ensures ReconcileOnce(w, c, Only(x)).k.rules ==
      if RuleListed(w.k.rules, x.fwmark, x.table) then w.k.rules else InsertRule(w.k.rules, OwnRule(x))
  {
    var inp := Only(x);
    var m := OnlyMap(c, x);
    OnlySucceeds(w, c, parse, x);
    ReconcileRoutes(w, c, inp, m);
    SetupKeepsRoutes(w.(ok := true), c, inp);
    OneEgress(AfterSetup(w.(ok := true), c, inp), inp, m[x.name]);
    assert Values([x.name], m) == [m[x.name]];
  }

  lemma OneEgress(w: World, inp: Inputs, e: Egress)
    requires NoFailures(inp) && w.ok
    ensures EnsureAll(w, inp, [e]).k.rules ==
      if RuleListed(w.k.rules, e.fwmark, e.table) then w.k.rules else InsertRule(w.k.rules, OwnRule(e))
  {
    assert [e][1..] == [];
    if RuleListed(w.k.rules, e.fwmark, e.table) { EnsureEgressFinds(w, inp, e); } else { EnsureEgressAdds(w, inp, e); }
  }

  // ---------------------------------------------------------------- packets that go astray

  /** Some policy selects the packet. */
  ghost predicate Selected(c: Config, inp: Inputs, file: Cache.CacheFile, pkt: Packet) {
    var h := HealthyMap(c.egresses, c.autoRefresh, inp);
    && h.Ok?
    && exists i: nat ::
         i < |c.policies| && Selects(c.policies[i], h.value, AnswerAt(c, inp, h.value, file, i), pkt)
  }

  /** With one egress up and no rule for it in time, every packet that any policy selects leaves with
      that egress's mark and without a route by it. */
  lemma {:induction false} EverySelectedIsUnrouted(
    w: World, c: Config, parse: string -> Option<SockAddr>, e: Egress, pkt: Packet)
    requires Valid(c, parse) && e in c.egresses && e.enabled && InputsOk(c, Only(e))
    requires NoneInTime(ReconcileOnce(w, c, Only(e)).k.rules, e.fwmark) && Selected(c, Only(e), w.file, pkt)
    ensures var k := ReconcileOnce(w, c, Only(e)).k;
      MarkOf(k, pkt) == e.fwmark && !RouteFor(k.rules, k.routes, pkt, e.fwmark).Via?
  {
    var k := ReconcileOnce(w, c, Only(e)).k;
    var i := MarkedForOnly(w, c, parse, e, pkt);
    RouteForLate(k.rules, k.routes, pkt, e.fwmark);
  }

  /** The last policy that selects it uses that egress. */
  lemma MarkedForOnly(w: World, c: Config, parse: string -> Option<SockAddr>, e: Egress, pkt: Packet) returns (i: nat)
    requires Valid(c, parse) && e in c.egresses && e.enabled && InputsOk(c, Only(e))
    requires Selected(c, Only(e), w.file, pkt)
    ensures var h := HealthyMap(c.egresses, c.autoRefresh, Only(e));
      h.Ok? && LastSelecting(c, Only(e), h.value, w.file, |c.policies|, pkt, i)
    ensures MarkOf(ReconcileOnce(w, c, Only(e)).k, pkt) == e.fwmark
  {
    var m := OnlyMap(c, e);
    i := SomeoneIsLast(c, Only(e), m, w.file, |c.policies|, pkt);
    assert c.policies[i].egress in m;
    OnlyMarks(w, c, parse, e, m, pkt, i);
  }

  lemma OnlyMarks(
    w: World, c: Config, parse: string -> Option<SockAddr>, e: Egress, m: map<string, Egress>, pkt: Packet, i: nat)
    requires Valid(c, parse) && e in c.egresses && e.enabled && InputsOk(c, Only(e))
    requires HealthyMap(c.egresses, c.autoRefresh, Only(e)) == Ok(m)
    requires LastSelecting(c, Only(e), m, w.file, |c.policies|, pkt, i)
    ensures MarkOf(ReconcileOnce(w, c, Only(e)).k, pkt) == m[c.policies[i].egress].fwmark
  {
    OnlySucceeds(w, c, parse, e);
    ReconcileInstalls(w, c, Only(e));
    ChainMark(c, Only(e), m, w.file, pkt, ReconcileOnce(w, c, Only(e)).k);
  }

  lemma {:induction false} SomeoneIsLast(
    c: Config, inp: Inputs, m: map<string, Egress>, file: Cache.CacheFile, n: nat, pkt: Packet) returns (i: nat)
    requires n <= |c.policies|
    requires exists i: nat :: i < n && Selects(c.policies[i], m, AnswerAt(c, inp, m, file, i), pkt)
    ensures LastSelecting(c, inp, m, file, n, pkt, i)
  {
    i := n - 1;
    if !Selects(c.policies[i], m, AnswerAt(c, inp, m, file, i), pkt) {
      i := SomeoneIsLast(c, inp, m, file, n - 1, pkt);
    }
  }

  /** A packet to everywhere of a user, that no foreign rule takes. */
  function Anywhere(uid: u32): Packet { Packet(_ => true, uid, _ => false) }

  /** If policies use that egress, there is such a packet. */
  lemma SomePacketSelected(w: World, c: Config, e: Egress) returns (pkt: Packet)
    requires EgressesDistinct(c.egresses) && e in c.egresses && e.enabled && Used(c, e.name)
    ensures Selected(c, Only(e), w.file, pkt) && forall line :: !pkt.taken(line)
  {
    var m := OnlyMap(c, e);
    var p :| p in c.policies && Installs(p) && p.egress == e.name;
    var i: nat :| i < |c.policies| && c.policies[i] == p;
    pkt := Anywhere(if p.spec.uid.Some? then p.spec.uid.value else 0);
    var answer := AnswerAt(c, Only(e), m, w.file, i);
    if p.spec.domain.Some? {
      AnswersAreNonEmpty(c, Only(e), FileAt(c, Only(e), m, w.file, i), i);
      assert answer.value[0] in answer.value;
    }
    assert Selects(p, m, answer, pkt);
  }

  /** So a used egress without a rule in time refutes that packets follow. */
  lemma MissingRuleMisroutes(
    c: Config, parse: string -> Option<SockAddr>, k: Kernel, runs: seq<Inputs>, e: Egress)
    requires Valid(c, parse) && AllInputsOk(c, runs) && e in c.egresses && e.enabled && Used(c, e.name)
    requires InputsOk(c, Only(e))
    requires NoneInTime(ReconcileOnce(ReconcileMany(Start(k), c, runs), c, Only(e)).k.rules, e.fwmark)
    ensures !PacketsFollow(c, k)
  {
    var w := ReconcileMany(Start(k), c, runs);
    OnlySucceeds(w, c, parse, e);
    var pkt := SomePacketSelected(w, c, e);
    EverySelectedIsUnrouted(w, c, parse, e, pkt);
    var i := MarkedForOnly(w, c, parse, e, pkt);
    assert Succeeds(c, k, runs, Only(e));
    StraysFromPolicies(w, c, e, pkt, i);
  }

  lemma StraysFromPolicies(w: World, c: Config, e: Egress, pkt: Packet, i: nat)
    requires EgressesDistinct(c.egresses) && e in c.egresses && e.enabled && InputsOk(c, Only(e))
    requires var h := HealthyMap(c.egresses, c.autoRefresh, Only(e));
      h.Ok? && LastSelecting(c, Only(e), h.value, w.file, |c.policies|, pkt, i)
    requires forall line :: !pkt.taken(line)
    requires var k := ReconcileOnce(w, c, Only(e)).k;
      MarkOf(k, pkt) == e.fwmark && !RouteFor(k.rules, k.routes, pkt, e.fwmark).Via?
    ensures !AllFollow(w, c, Only(e))
  {
    var m := OnlyMap(c, e);
    var k := ReconcileOnce(w, c, Only(e)).k;
    forall y | y in c.egresses && y.name == c.policies[i].egress ensures !LeavesBy(k, w.k.rules, pkt, y, Only(e)) {
      NameIdentifies(c.egresses, y, e);
      assert Free(w.k.rules, pkt, y.priority);
    }
    assert !Leaves(c, Only(e), k, w.k.rules, pkt, c.policies[i].egress);
    assert !FollowsPolicies(c, Only(e), m, w.file, pkt, w.k.rules, k);
  }

  // ---------------------------------------------------------------- the two ways to go wrong

  /** A rule on the untouched host's mark can only be the egress's own. */
  lemma LateRuleMisroutes(c: Config, parse: string -> Option<SockAddr>, k: Kernel, e: Egress)
    requires Valid(c, parse) && Untouched(c, k)
    requires e in c.egresses && Used(c, e.name) && e.priority >= MAIN_PRIORITY
    ensures !PacketsFollow(c, k)
  {
    UsedIsEnabled(c, parse, e);
    OnlySucceeds(Start(k), c, parse, e);
    OnlyRules(Start(k), c, parse, e);
    InsertRuleMembers(k.rules, OwnRule(e));
    assert ReconcileMany(Start(k), c, []) == Start(k);
    MissingRuleMisroutes(c, parse, k, [], e);
  }

  /** First only a is up, and gets its rule; then only e is, and gets none, because a's looks like it. */
  lemma ClashMisroutes(c: Config, parse: string -> Option<SockAddr>, k: Kernel, a: Egress, e: Egress)
    requires Valid(c, parse) && Untouched(c, k)
    requires a in c.egresses && a.enabled && e in c.egresses && Used(c, e.name)
    requires Mistaken(OwnRule(a), e.fwmark, e.table)
    ensures !PacketsFollow(c, k)
  {
    UsedIsEnabled(c, parse, e);
    ClashRun(c, parse, k, a, e);
    MissingRuleMisroutes(c, parse, k, [Only(a)], e);
  }

  lemma ClashRun(c: Config, parse: string -> Option<SockAddr>, k: Kernel, a: Egress, e: Egress)
    requires Valid(c, parse) && Untouched(c, k)
    requires a in c.egresses && a.enabled && e in c.egresses && e.enabled
    requires Mistaken(OwnRule(a), e.fwmark, e.table)
    ensures AllInputsOk(c, [Only(a)]) && InputsOk(c, Only(e))
    ensures NoneInTime(ReconcileOnce(ReconcileMany(Start(k), c, [Only(a)]), c, Only(e)).k.rules, e.fwmark)
  {
    OnlySucceeds(Start(k), c, parse, a);
    OnlySucceeds(Start(k), c, parse, e);
    ClashKeepsRuleOut(c, parse, k, a, e);
    OneRun(Start(k), c, Only(a));
  }

  /** What then becomes of the packets: each that any policy selects goes astray. */
  lemma {:induction false} ClashUnroutesEverySelected(
    c: Config, parse: string -> Option<SockAddr>, k: Kernel, a: Egress, e: Egress, pkt: Packet)
    requires Valid(c, parse) && Untouched(c, k)
    requires a in c.egresses && a.enabled && e in c.egresses && e.enabled
    requires Mistaken(OwnRule(a), e.fwmark, e.table)
    ensures InputsOk(c, Only(a)) && InputsOk(c, Only(e))
    ensures var w := ReconcileOnce(Start(k), c, Only(a));
      Selected(c, Only(e), w.file, pkt) ==>
        var k' := ReconcileOnce(w, c, Only(e)).k;
        MarkOf(k', pkt) == e.fwmark && !RouteFor(k'.rules, k'.routes, pkt, e.fwmark).Via?
  {
    OnlySucceeds(Start(k), c, parse, a);
    OnlySucceeds(Start(k), c, parse, e);
    var w := ReconcileOnce(Start(k), c, Only(a));
    ClashKeepsRuleOut(c, parse, k, a, e);
    if Selected(c, Only(e), w.file, pkt) { EverySelectedIsUnrouted(w, c, parse, e, pkt); }
  }

  lemma ClashKeepsRuleOut(c: Config, parse: string -> Option<SockAddr>, k: Kernel, a: Egress, e: Egress)
    requires Valid(c, parse) && Untouched(c, k) && InputsOk(c, Only(a)) && InputsOk(c, Only(e))
    requires a in c.egresses && a.enabled && e in c.egresses && e.enabled
    requires Mistaken(OwnRule(a), e.fwmark, e.table)
    ensures NoneInTime(ReconcileOnce(ReconcileOnce(Start(k), c, Only(a)), c, Only(e)).k.rules, e.fwmark)
  {
    var w := ReconcileOnce(Start(k), c, Only(a));
    OnlyRules(Start(k), c, parse, a);
    OnlyRules(w, c, parse, e);
    InsertRuleMembers(k.rules, OwnRule(a));
    ListedByMember(w.k.rules, OwnRule(a), e.fwmark, e.table);
    if a.fwmark == e.fwmark { MarkIdentifies(c.egresses, a, e); }
  }
}
