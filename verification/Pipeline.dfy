/** The whole way from the bytes of a DNS reply to the device a packet leaves by: an answer the proxy
    released stays in the cache while it is fresh, and the next successful reconcile turns it into
    rules that send packets for its addresses through the policy's egress. */
module Pipeline {
  import opened Text
  import opened Domain
  import opened Config
  import opened Kernel
  import opened Wire
  import opened WireProofs
  import opened Reconcile
  import opened Safety
  import opened Compile
  import opened Order
  import opened Progress
  import opened Proxy
  import opened Handler
  import opened CacheSystem
  import opened CacheRaces
  import Cache

  // ---------------------------------------------------------------- what keeps an entry

  /** Something that happens to the cache file, or to the kernel and the cache file. */
  datatype Event =
    | Reconciled(inp: Inputs)
    | Pruned(write: bool, env: Cache.CallEnv)
    | Resolved(name: string, write: bool, mode: Cache.Mode, env: Cache.CallEnv)
    | Queried(query: seq<Byte>, upstreams: seq<SockAddr>, outcome: Upstreams, write: bool, env: Cache.CallEnv)

  ghost predicate EventOk(c: Config, ev: Event) { ev.Reconciled? ==> InputsOk(c, ev.inp) }

  function Happen(w: World, c: Config, ev: Event): World
    requires EventOk(c, ev)
  {
    match ev
    case Reconciled(inp) => ReconcileOnce(w, c, inp)
    case Pruned(write, env) => w.(file := Cache.Prune(w.file, Cache.ConfiguredDomains(c.policies), write, env).file)
    case Resolved(name, write, mode, env) => w.(file := Cache.Resolve(c.cache, w.file, name, write, mode, env).file)
    case Queried(query, upstreams, outcome, write, env) =>
      w.(file := Handle(c, w.file, query, upstreams, outcome, write, env).file)
  }

  /** Every clock reading of the reconcile's policies is before the given time. */
  ghost predicate Before(c: Config, inp: Inputs, time: u64) {
    forall j :: 0 <= j < |c.policies| ==> inp.dns(j).now < time
  }

  /** The event is about other names, or resolves this one while its entry is fresh. */
  ghost predicate Spares(c: Config, ev: Event, d: string, expires: u64) {
    match ev
    case Reconciled(inp) => Before(c, inp, expires)
    case Pruned(_, _) => d in Cache.ConfiguredDomains(c.policies)
    case Resolved(name, _, mode, env) => Normalize(name) != Some(d) || (mode == Cache.PreferFresh && env.now < expires)
    case Queried(query, _, _, _, _) => QuestionOf(query).Some? ==> QuestionOf(query).value.domain != d
  }

  lemma {:induction false} EnsureAllFile(w: World, inp: Inputs, es: seq<Egress>)
    ensures EnsureAll(w, inp, es).file == w.file
    decreases |es|
  {
    if es != [] { EnsureAllFile(EnsureEgress(w, inp, es[0]), inp, es[1..]); }
  }

  lemma {:induction false} AddAddressesFile(w: World, inp: Inputs, s: MatchSpec, e: Egress, ips: seq<string>)
    ensures AddAddresses(w, inp, s, e, ips).file == w.file
    decreases |ips|
  {
    if ips != [] { AddAddressesFile(AddMatchRule(w, inp, ResolvedSpec(s, ips[0]), e), inp, s, e, ips[1..]); }
  }

  /** A policy's resolution leaves a fresh entry as it is, whosever it is. */
  lemma PolicyKeepsEntry(w: World, c: Config, inp: Inputs, m: map<string, Egress>, i: nat, e: Cache.Entry)
    requires i < |c.policies| && Stored(w.file, e.domain) == Some(e) && e.ips != [] && inp.dns(i).now < e.expiresAt
    ensures Stored(AddPolicy(w, c, inp, m, i).file, e.domain) == Some(e)
  {
    var p := c.policies[i];
    if w.ok && Asks(c, m, i) {
      ResolveFrame(c.cache, w.file, p.spec.domain.value, inp.apply, Cache.PreferFresh, inp.dns(i), e.domain);
      var resolved := ResolvedAt(c, inp, w.file, i);
      if resolved.result.Ok? {
        AddAddressesFile(w.(file := resolved.file), inp, p.spec, m[p.egress], resolved.result.value.ips);
      }
    }
  }

  lemma {:induction false} PoliciesKeepEntry(
    w: World, c: Config, inp: Inputs, m: map<string, Egress>, i: nat, e: Cache.Entry)
    requires i <= |c.policies| && Stored(w.file, e.domain) == Some(e) && e.ips != [] && Before(c, inp, e.expiresAt)
    ensures Stored(AddPolicies(w, c, inp, m, i).file, e.domain) == Some(e)
    decreases |c.policies| - i
  {
    if i < |c.policies| {
      PolicyKeepsEntry(w, c, inp, m, i, e);
      PoliciesKeepEntry(AddPolicy(w, c, inp, m, i), c, inp, m, i + 1, e);
    }
  }

  /** A reconcile, complete or aborted, leaves every fresh entry as it is. */
  lemma ReconcileKeepsEntry(w: World, c: Config, inp: Inputs, e: Cache.Entry)
    requires InputsOk(c, inp) && Stored(w.file, e.domain) == Some(e) && e.ips != [] && Before(c, inp, e.expiresAt)
    ensures Stored(ReconcileOnce(w, c, inp).file, e.domain) == Some(e)
  {
    var w1 := AfterSetup(w.(ok := true), c, inp);
    assert w1.file == w.file;
    var h := HealthyMap(c.egresses, c.autoRefresh, inp);
    if w1.ok && h.Ok? {
      var es := Values(inp.order, h.value);
      EnsureAllFile(w1, inp, es);
      PoliciesKeepEntry(Reconcile.Run(EnsureAll(w1, inp, es), inp, FlushChain), c, inp, h.value, 0, e);
    }
  }

  lemma EventKeepsEntry(w: World, c: Config, ev: Event, e: Cache.Entry)
    requires EventOk(c, ev) && Spares(c, ev, e.domain, e.expiresAt)
    requires Stored(w.file, e.domain) == Some(e) && e.ips != []
    ensures Stored(Happen(w, c, ev).file, e.domain) == Some(e)
  {
    match ev
    case Reconciled(inp) => ReconcileKeepsEntry(w, c, inp, e);
    case Pruned(write, env) =>
      if write && !env.loadFails && !env.saveFails {
        PruneExact(w.file, Cache.ConfiguredDomains(c.policies), env, e.domain);
      }
    case Resolved(name, write, mode, env) => ResolveFrame(c.cache, w.file, name, write, mode, env, e.domain);
    case Queried(query, upstreams, outcome, write, env) =>
      HandleFrame(c, w.file, query, upstreams, outcome, write, env, e.domain);
  }

  ghost predicate Sparing(c: Config, evs: seq<Event>, d: string, expires: u64) {
    forall i :: 0 <= i < |evs| ==> EventOk(c, evs[i]) && Spares(c, evs[i], d, expires)
  }

  function HappenAll(w: World, c: Config, evs: seq<Event>): World
    requires forall i :: 0 <= i < |evs| ==> EventOk(c, evs[i])
  {
    if evs == [] then w
    else
      assert EventOk(c, evs[|evs| - 1]);
      Happen(HappenAll(w, c, evs[..|evs| - 1]), c, evs[|evs| - 1])
  }

  lemma {:induction false} EventsKeepEntry(w: World, c: Config, evs: seq<Event>, e: Cache.Entry)
    requires Sparing(c, evs, e.domain, e.expiresAt) && Stored(w.file, e.domain) == Some(e) && e.ips != []
    ensures Stored(HappenAll(w, c, evs).file, e.domain) == Some(e)
  {
    if evs != [] {
      var init := evs[..|evs| - 1];
      assert forall i :: 0 <= i < |init| ==> init[i] == evs[i];
      EventsKeepEntry(w, c, init, e);
      assert EventOk(c, evs[|evs| - 1]);
      EventKeepsEntry(HappenAll(w, c, init), c, evs[|evs| - 1], e);
    }
  }

  // ---------------------------------------------------------------- from the cache to the chain

  /** Policies before n leave a fresh entry as it is. */
  lemma {:induction false} FileAtKeepsEntry(
    c: Config, inp: Inputs, m: map<string, Egress>, file: Cache.CacheFile, n: nat, e: Cache.Entry)
    requires n <= |c.policies| && Stored(file, e.domain) == Some(e) && e.ips != [] && Before(c, inp, e.expiresAt)
    ensures Stored(FileAt(c, inp, m, file, n), e.domain) == Some(e)
  {
    if n > 0 {
      FileAtKeepsEntry(c, inp, m, file, n - 1, e);
      if Asks(c, m, n - 1) {
        ResolveFrame(c.cache, FileAt(c, inp, m, file, n - 1), c.policies[n - 1].spec.domain.value, inp.apply,
          Cache.PreferFresh, inp.dns(n - 1), e.domain);
      }
    }
  }

  /** The policy for a freshly cached name is answered from the cache, unless the cache cannot be read
      when the policy is reached: then it gets no answer. */
  lemma AnsweredFromCache(c: Config, inp: Inputs, m: map<string, Egress>, file: Cache.CacheFile, i: nat, e: Cache.Entry)
    requires i < |c.policies| && Active(c.policies[i], m) && IsFor(c.policies[i], e.domain) && c.cache.enabled
    requires Stored(file, e.domain) == Some(e) && e.ips != [] && Before(c, inp, e.expiresAt)
    ensures AnswerAt(c, inp, m, file, i) == if inp.dns(i).loadFails then None else Some(e.ips)
  {
    FileAtKeepsEntry(c, inp, m, file, i, e);
  }

  /** Every address has a rule with the mark. */
  ghost predicate RulesFor(k: Kernel, uid: Option<u32>, mark: u32, ips: seq<string>) {
    k.nft.Chain? && forall ip :: ip in ips ==> ChainRule(Some(ip), uid, mark) in k.nft.rules
  }

  /** A successful reconcile while the entry is fresh installs a rule with the policy's mark for every
      cached address, of every enabled policy for the name whose egress is healthy; except that a policy
      for which the cache could not be read is skipped, without an error, and contributes nothing. */
  lemma {:induction false} CachedAddressesAreRouted(
    w: World, c: Config, inp: Inputs, m: map<string, Egress>, i: nat, e: Cache.Entry)
    requires EgressesDistinct(c.egresses) && InputsOk(c, inp) && inp.apply && ReconcileOnce(w, c, inp).ok
    requires HealthyMap(c.egresses, c.autoRefresh, inp) == Ok(m)
    requires i < |c.policies| && Active(c.policies[i], m) && IsFor(c.policies[i], e.domain) && c.cache.enabled
    requires Stored(w.file, e.domain) == Some(e) && e.ips != [] && Before(c, inp, e.expiresAt)
    ensures ReconcileOnce(w, c, inp).k.nft == Chain(Compiled(c, inp, m, w.file, |c.policies|))
    ensures
      if inp.dns(i).loadFails then Contribution(c, inp, m, w.file, i) == []
      else RulesFor(ReconcileOnce(w, c, inp).k, c.policies[i].spec.uid, m[c.policies[i].egress].fwmark, e.ips)
  {
    var p := c.policies[i];
    var mark := m[p.egress].fwmark;
    ReconcileInstalls(w, c, inp);
    AnsweredFromCache(c, inp, m, w.file, i, e);
    if !inp.dns(i).loadFails {
      forall ip | ip in e.ips
        ensures ChainRule(Some(ip), p.spec.uid, mark) in Compiled(c, inp, m, w.file, |c.policies|)
      {
        AddressRulesHas(p.spec, mark, e.ips, ip);
        CompiledHas(c, inp, m, w.file, |c.policies|, i, ChainRule(Some(ip), p.spec.uid, mark));
      }
    }
  }

  /** An unreadable cache stops no reconcile: it succeeds, and the policies concerned contribute nothing. */
  lemma UnreadableCacheSkipsPolicy(
    w: World, c: Config, parse: string -> Option<SockAddr>, inp: Inputs, m: map<string, Egress>, i: nat)
    requires Valid(c, parse) && InputsOk(c, inp) && NoFailures(inp)
      && HealthyMap(c.egresses, c.autoRefresh, inp) == Ok(m)
    requires i < |c.policies| && c.policies[i].spec.domain.Some? && c.cache.enabled && inp.dns(i).loadFails
    ensures ReconcileOnce(w, c, inp).ok && Contribution(c, inp, m, w.file, i) == []
  {
    ErrorsComeFromOutside(w, c, parse, inp);
  }

  // ---------------------------------------------------------------- the whole way

  /** Nothing since the answer disturbs its entry, and the reconcile that follows comes before the
      entry expires. */
  ghost predicate InTime(c: Config, evs: seq<Event>, inp: Inputs, d: string, expires: u64) {
    Sparing(c, evs, d, expires) && InputsOk(c, inp) && inp.apply && Before(c, inp, expires)
  }

  /** Every class-IN type-A record of the message has a rule with the mark. */
  ghost predicate RulesForRecords(k: Kernel, uid: Option<u32>, mark: u32, m: Message) {
    k.nft.Chain? && forall r :: r in m.answers && IsAddress(r) ==>
      ChainRule(Some(DottedQuad(r.rdata)), uid, mark) in k.nft.rules
  }

  lemma RecordsAreAddresses(k: Kernel, uid: Option<u32>, mark: u32, m: Message)
    requires MessageOk(m) && ARecords(Encode(m)).Some? && RulesFor(k, uid, mark, ARecords(Encode(m)).value)
    ensures RulesForRecords(k, uid, mark, m)
  {
    AddressesParsed(m);
  }

  lemma StoredAnswerIsRouted(
    w: World, c: Config, bytes: seq<Byte>, now: u64, evs: seq<Event>, inp: Inputs, m: map<string, Egress>,
    i: nat, d: string)
    requires EgressesDistinct(c.egresses) && c.cache.enabled && i < |c.policies| && IsFor(c.policies[i], d)
    requires ARecords(bytes).Some? && ARecords(bytes).value != [] && AnswerStored(c, w.file, d, bytes, now)
    requires InTime(c, evs, inp, d, Cache.SatAdd(now, c.cache.ttl))
    requires HealthyMap(c.egresses, c.autoRefresh, inp) == Ok(m) && c.policies[i].egress in m
    requires ReconcileOnce(HappenAll(w, c, evs), c, inp).ok
    ensures var w1 := HappenAll(w, c, evs);
      if inp.dns(i).loadFails then Contribution(c, inp, m, w1.file, i) == []
      else RulesFor(ReconcileOnce(w1, c, inp).k, c.policies[i].spec.uid, m[c.policies[i].egress].fwmark,
        ARecords(bytes).value)
  {
    var e := Stored(w.file, d).value;
    EventsKeepEntry(w, c, evs, e);
    CachedAddressesAreRouted(HappenAll(w, c, evs), c, inp, m, i, e);
  }

  /** From a released reply to rules. After any sequence of prunes, complete or aborted reconciles,
      resolutions and queries for other names, a successful reconcile before the answer expires
      installs a rule with the policy's mark for every class-IN type-A address of the reply; if the
      cache cannot be read for the policy, the reconcile skips it and installs none of its rules. */
  lemma {:induction false} ReleasedAnswerIsRouted(
    w: World, c: Config, query: seq<Byte>, upstreams: seq<SockAddr>, outcome: Upstreams, env: Cache.CallEnv, d: string,
    reply: Message, evs: seq<Event>, inp: Inputs, m: map<string, Egress>, i: nat)
    requires EgressesDistinct(c.egresses) && Caching(c, true) && i < |c.policies| && IsFor(c.policies[i], d)
    requires QuestionOf(query) == Some(Question(d, 1, 1))
    requires MessageOk(reply) && Handle(c, w.file, query, upstreams, outcome, true, env).reply == Ok(Encode(reply))
    requires InTime(c, evs, inp, d, Cache.SatAdd(env.now, c.cache.ttl))
    requires HealthyMap(c.egresses, c.autoRefresh, inp) == Ok(m) && c.policies[i].egress in m
    requires ReconcileOnce(Answered(w, c, query, upstreams, outcome, env, evs), c, inp).ok
    ensures var w1 := Answered(w, c, query, upstreams, outcome, env, evs);
      if inp.dns(i).loadFails && ARecords(Encode(reply)) != Some([]) then Contribution(c, inp, m, w1.file, i) == []
      else RulesForRecords(ReconcileOnce(w1, c, inp).k, c.policies[i].spec.uid, m[c.policies[i].egress].fwmark, reply)
  {
    var bytes, answered := Encode(reply), w.(file := Handle(c, w.file, query, upstreams, outcome, true, env).file);
    assert c.policies[i] in c.policies;
    Readable(reply);
    var k := ReconcileOnce(HappenAll(answered, c, evs), c, inp).k;
    if ARecords(bytes).value != [] {
      AddressesAreReleased(c, w.file, query, upstreams, outcome, true, env, d, bytes);
      StoredAnswerIsRouted(answered, c, bytes, env.now, evs, inp, m, i, d);
    } else {
      ReconcileInstalls(HappenAll(answered, c, evs), c, inp);
    }
    if !(inp.dns(i).loadFails && ARecords(bytes) != Some([])) {
      RecordsAreAddresses(k, c.policies[i].spec.uid, m[c.policies[i].egress].fwmark, reply);
    }
  }

  /** The world after the query was handled and the events happened. */
  function Answered(
    w: World, c: Config, query: seq<Byte>, upstreams: seq<SockAddr>, outcome: Upstreams, env: Cache.CallEnv,
    evs: seq<Event>): World
    requires forall i :: 0 <= i < |evs| ==> EventOk(c, evs[i])
  {
    HappenAll(w.(file := Handle(c, w.file, query, upstreams, outcome, true, env).file), c, evs)
  }

  lemma Readable(m: Message)
    requires MessageOk(m)
    ensures ARecords(Encode(m)).Some?
  {
    AddressesParsed(m);
  }

  /** The same when loads and saves overlap. Once the file holds the answer and no process is about to
      save anything else for the name, every interleaving of operations on other names, of prunes that
      keep it, and of resolutions that fail or find it fresh, a running reconcile's included, leaves it to
      be routed by a successful reconcile before it expires. */
  lemma {:induction false} InterleavedAnswerIsRouted(
    w: World, c: Config, s: Sys, actions: seq<Action>, bytes: seq<Byte>, now: u64,
    inp: Inputs, m: map<string, Egress>, i: nat, d: string)
    requires EgressesDistinct(c.egresses) && c.cache.enabled && i < |c.policies| && IsFor(c.policies[i], d)
    requires ARecords(bytes).Some? && ARecords(bytes).value != [] && AnswerStored(c, s.file, d, bytes, now)
    requires Carries(s, d, Stored(s.file, d))
    requires forall k :: 0 <= k < |actions| ==> Gentle(actions[k], d, Stored(s.file, d))
    requires w.file == StepAll(c.cache, s, actions).file
    requires InputsOk(c, inp) && inp.apply && Before(c, inp, Cache.SatAdd(now, c.cache.ttl))
    requires HealthyMap(c.egresses, c.autoRefresh, inp) == Ok(m) && c.policies[i].egress in m
    requires ReconcileOnce(w, c, inp).ok
    ensures
      if inp.dns(i).loadFails then Contribution(c, inp, m, w.file, i) == []
      else RulesFor(ReconcileOnce(w, c, inp).k, c.policies[i].spec.uid, m[c.policies[i].egress].fwmark,
        ARecords(bytes).value)
  {
    InterleavingsCarry(c.cache, s, actions, d, Stored(s.file, d));
    var e := Stored(w.file, d).value;
    SameButNote(e, Stored(s.file, d).value);
    CachedAddressesAreRouted(w, c, inp, m, i, e);
  }

  lemma SameButNote(a: Cache.Entry, b: Cache.Entry)
    requires a.(lastError := None) == b.(lastError := None)
    ensures a.domain == b.domain && a.ips == b.ips && a.expiresAt == b.expiresAt
  {
    var a0, b0 := a.(lastError := None), b.(lastError := None);
    assert a0.domain == a.domain && b0.domain == b.domain && a0.ips == a.ips && b0.ips == b.ips;
    assert a0.expiresAt == a.expiresAt && b0.expiresAt == b.expiresAt;
  }

  // ---------------------------------------------------------------- to the device

  lemma ReconcileStaysSound(w: World, c: Config, inp: Inputs)
    requires EgressesDistinct(c.egresses) && ClashFree(c) && Sound(c, w.k) && InputsOk(c, inp)
    ensures Sound(c, ReconcileOnce(w, c, inp).k)
  {
    var stale := if w.k.nft.Chain? then set r <- w.k.nft.rules :: r.mark else {};
    ReconcileGood(c, Tolerance(stale, |w.trace|), w, inp);
  }

  lemma {:induction false} EventsStaySound(w: World, c: Config, evs: seq<Event>)
    requires EgressesDistinct(c.egresses) && ClashFree(c) && Sound(c, w.k)
    requires forall i :: 0 <= i < |evs| ==> EventOk(c, evs[i])
    ensures Sound(c, HappenAll(w, c, evs).k)
  {
    if evs != [] {
      EventsStaySound(w, c, evs[..|evs| - 1]);
      var before, ev := HappenAll(w, c, evs[..|evs| - 1]), evs[|evs| - 1];
      assert EventOk(c, ev);
      if ev.Reconciled? { ReconcileStaysSound(before, c, ev.inp); }
    }
  }

  /** No policy after the one at i claims the packet. */
  ghost predicate Unclaimed(
    c: Config, inp: Inputs, m: map<string, Egress>, file: Cache.CacheFile, i: nat, pkt: Packet)
  {
    forall j :: i < j < |c.policies| ==> !Selects(c.policies[j], m, AnswerAt(c, inp, m, file, j), pkt)
  }

  /** From a fresh cached entry to the device. A packet for one of its addresses, of the policy's user if
      it names one and not claimed by a later policy, leaves by the policy's egress; if the cache cannot be
      read for the policy, the packet is none of the policy's. */
  lemma CachedPacketLeavesByEgress(
    w: World, c: Config, parse: string -> Option<SockAddr>, inp: Inputs, m: map<string, Egress>, i: nat,
    e: Cache.Entry, ip: string, pkt: Packet)
    requires Valid(c, parse) && ClashFree(c) && BeforeMain(c) && Sound(c, w.k)
    requires InputsOk(c, inp) && inp.apply && ReconcileOnce(w, c, inp).ok
    requires HealthyMap(c.egresses, c.autoRefresh, inp) == Ok(m) && c.cache.enabled
    requires i < |c.policies| && Active(c.policies[i], m) && IsFor(c.policies[i], e.domain)
    requires Stored(w.file, e.domain) == Some(e) && ip in e.ips && Before(c, inp, e.expiresAt)
    requires pkt.inNet(ip) && (c.policies[i].spec.uid.Some? ==> c.policies[i].spec.uid.value == pkt.uid)
    requires Unclaimed(c, inp, m, w.file, i, pkt)
    ensures
      if inp.dns(i).loadFails then !Selects(c.policies[i], m, AnswerAt(c, inp, m, w.file, i), pkt)
      else Leaves(c, inp, ReconcileOnce(w, c, inp).k, w.k.rules, pkt, c.policies[i].egress)
  {
    AnsweredFromCache(c, inp, m, w.file, i, e);
    if !inp.dns(i).loadFails {
      assert Selects(c.policies[i], m, AnswerAt(c, inp, m, w.file, i), pkt);
      assert LastSelecting(c, inp, m, w.file, |c.policies|, pkt, i);
    }
    CompilationPreservesMeaning(w, c, parse, inp, pkt);
  }

  /** The same from a stored answer, after any events that spare it. */
  lemma {:induction false} AnsweredPacketLeavesByEgress(
    w: World, c: Config, parse: string -> Option<SockAddr>, bytes: seq<Byte>, now: u64, evs: seq<Event>,
    inp: Inputs, m: map<string, Egress>, i: nat, d: string, ip: string, pkt: Packet)
    requires Valid(c, parse) && ClashFree(c) && BeforeMain(c) && Sound(c, w.k)
    requires c.cache.enabled && i < |c.policies| && IsFor(c.policies[i], d)
    requires ARecords(bytes).Some? && ip in ARecords(bytes).value && AnswerStored(c, w.file, d, bytes, now)
    requires InTime(c, evs, inp, d, Cache.SatAdd(now, c.cache.ttl))
    requires HealthyMap(c.egresses, c.autoRefresh, inp) == Ok(m) && c.policies[i].egress in m
    requires ReconcileOnce(HappenAll(w, c, evs), c, inp).ok
    requires pkt.inNet(ip) && (c.policies[i].spec.uid.Some? ==> c.policies[i].spec.uid.value == pkt.uid)
    requires Unclaimed(c, inp, m, HappenAll(w, c, evs).file, i, pkt)
    ensures var w1 := HappenAll(w, c, evs);
      if inp.dns(i).loadFails then !Selects(c.policies[i], m, AnswerAt(c, inp, m, w1.file, i), pkt)
      else Leaves(c, inp, ReconcileOnce(w1, c, inp).k, w1.k.rules, pkt, c.policies[i].egress)
  {
    var w1, e := HappenAll(w, c, evs), Stored(w.file, d).value;
    EventsStaySound(w, c, evs);
    EventsKeepEntry(w, c, evs, e);
    CachedPacketLeavesByEgress(w1, c, parse, inp, m, i, e, ip, pkt);
  }

  /** The same after an interleaving of loads and saves that leave it alone, as in
      `InterleavedAnswerIsRouted`. */
  lemma {:induction false} InterleavedPacketLeavesByEgress(
    w: World, c: Config, parse: string -> Option<SockAddr>, s: Sys, actions: seq<Action>, bytes: seq<Byte>, now: u64,
    inp: Inputs, m: map<string, Egress>, i: nat, d: string, ip: string, pkt: Packet)
    requires Valid(c, parse) && ClashFree(c) && BeforeMain(c) && Sound(c, w.k)
    requires c.cache.enabled && i < |c.policies| && IsFor(c.policies[i], d)
    requires ARecords(bytes).Some? && ip in ARecords(bytes).value && AnswerStored(c, s.file, d, bytes, now)
    requires Carries(s, d, Stored(s.file, d))
    requires forall k :: 0 <= k < |actions| ==> Gentle(actions[k], d, Stored(s.file, d))
    requires w.file == StepAll(c.cache, s, actions).file
    requires InputsOk(c, inp) && inp.apply && Before(c, inp, Cache.SatAdd(now, c.cache.ttl))
    requires HealthyMap(c.egresses, c.autoRefresh, inp) == Ok(m) && c.policies[i].egress in m
    requires ReconcileOnce(w, c, inp).ok
    requires pkt.inNet(ip) && (c.policies[i].spec.uid.Some? ==> c.policies[i].spec.uid.value == pkt.uid)
    requires Unclaimed(c, inp, m, w.file, i, pkt)
    ensures
      if inp.dns(i).loadFails then !Selects(c.policies[i], m, AnswerAt(c, inp, m, w.file, i), pkt)
      else Leaves(c, inp, ReconcileOnce(w, c, inp).k, w.k.rules, pkt, c.policies[i].egress)
  {
    InterleavingsCarry(c.cache, s, actions, d, Stored(s.file, d));
    var e := Stored(w.file, d).value;
    SameButNote(e, Stored(s.file, d).value);
    CachedPacketLeavesByEgress(w, c, parse, inp, m, i, e, ip, pkt);
  }

  /** The whole way: from the handled query to the device, unless the cache cannot be read. */
  lemma {:induction false} ReleasedAnswerReachesDevice(
    w: World, c: Config, parse: string -> Option<SockAddr>, query: seq<Byte>,
    upstreams: seq<SockAddr>, outcome: Upstreams, env: Cache.CallEnv, d: string, bytes: seq<Byte>, evs: seq<Event>,
    inp: Inputs, m: map<string, Egress>, i: nat, ip: string, pkt: Packet)
    requires Valid(c, parse) && ClashFree(c) && BeforeMain(c) && Sound(c, w.k)
    requires Caching(c, true) && i < |c.policies| && IsFor(c.policies[i], d)
    requires QuestionOf(query) == Some(Question(d, 1, 1))
    requires Handle(c, w.file, query, upstreams, outcome, true, env).reply == Ok(bytes)
    requires ARecords(bytes).Some? && ip in ARecords(bytes).value
    requires InTime(c, evs, inp, d, Cache.SatAdd(env.now, c.cache.ttl))
    requires HealthyMap(c.egresses, c.autoRefresh, inp) == Ok(m) && c.policies[i].egress in m
    requires ReconcileOnce(Answered(w, c, query, upstreams, outcome, env, evs), c, inp).ok
    requires pkt.inNet(ip) && (c.policies[i].spec.uid.Some? ==> c.policies[i].spec.uid.value == pkt.uid)
    requires Unclaimed(c, inp, m, Answered(w, c, query, upstreams, outcome, env, evs).file, i, pkt)
    ensures var w1 := Answered(w, c, query, upstreams, outcome, env, evs);
      if inp.dns(i).loadFails then !Selects(c.policies[i], m, AnswerAt(c, inp, m, w1.file, i), pkt)
      else Leaves(c, inp, ReconcileOnce(w1, c, inp).k, w1.k.rules, pkt, c.policies[i].egress)
  {
    assert c.policies[i] in c.policies;
    AddressesAreReleased(c, w.file, query, upstreams, outcome, true, env, d, bytes);
    var answered := w.(file := Handle(c, w.file, query, upstreams, outcome, true, env).file);
    AnsweredPacketLeavesByEgress(answered, c, parse, bytes, env.now, evs, inp, m, i, d, ip, pkt);
  }
}
