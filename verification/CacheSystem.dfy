/** Properties of the cache operations: what each leaves alone, and the invariant of the shared file
    when the runtime, the timers and the proxy interleave their unlocked loads and saves. */
module CacheSystem {
  import opened Text
  import opened Domain
  import opened Config
  import opened Cache

  // ---------------------------------------------------------------- one operation at a time

  function Stored(file: CacheFile, d: string): Option<Entry> { Find(Loaded(file), d) }

  lemma StoredAfterSave(es: seq<Entry>, d: string)
    ensures Stored(Saved(es), d) == Find(es, d)
  {
    SaveLoad(es);
    FindIsLookup(Loaded(Saved(es)), d);
    FindIsLookup(es, d);
  }

  lemma FindUpsert(es: seq<Entry>, e: Entry, d: string)
    ensures Find(Upsert(es, e), d) == if d == e.domain then Some(e) else Find(es, d)
  {
    UpsertIsUpdate(es, e);
    FindIsLookup(Upsert(es, e), d);
    FindIsLookup(es, d);
  }

  lemma FindRetain(es: seq<Entry>, keep: set<string>, d: string)
    ensures Find(Retain(es, keep), d) == if d in keep then Find(es, d) else None
  {
    RetainIsRestriction(es, keep);
    FindIsLookup(Retain(es, keep), d);
    FindIsLookup(es, d);
  }

  /** Pruning removes exactly the unconfigured domains from what is stored. */
  lemma PruneExact(file: CacheFile, keep: set<string>, env: CallEnv, d: string)
    requires !env.loadFails && !env.saveFails
    ensures Stored(Prune(file, keep, true, env).file, d) == if d in keep then Stored(file, d) else None
  {
    var es := Loaded(file);
    FindRetain(es, keep, d);
    RetainExact(es, keep);
    StoredAfterSave(Retain(es, keep), d);
  }

  /** Pruning twice is pruning once: the second pass removes nothing and writes nothing. */
  lemma PruneIdempotent(file: CacheFile, keep: set<string>, env: CallEnv, again: CallEnv)
    requires !env.loadFails && !env.saveFails && !again.loadFails
    ensures var once := Prune(file, keep, true, env);
      var twice := Prune(once.file, keep, true, again);
      && twice.file == once.file && twice.result.Ok? && twice.result.value.0 == twice.result.value.1
      && once.result == Ok((|Loaded(file)|, twice.result.value.0))
  {
    var es := Loaded(file);
    var kept := Retain(es, keep);
    RetainExact(es, keep);
    var after := Loaded(Saved(kept));
    SortIsIdentity(kept);
    SortIsIdentity(SortEntries(kept));
    assert |after| == |multiset(after)| == |multiset(kept)| == |kept|;
    RetainExact(after, keep);
    RetainExact(es, keep);
  }

  /** The answer of a resolve depends on the stored entry of its own domain only. */
  lemma AnswerDependsOnEntry(
    cc: CacheConfig, es: seq<Entry>, fs: seq<Entry>, d: string, mode: Mode, now: u64, live: Lookup)
    requires Find(es, d) == Find(fs, d)
    ensures Decide(cc, es, d, mode, now, live).answer == Decide(cc, fs, d, mode, now, live).answer
    ensures Decide(cc, es, d, mode, now, live).save.None? <==> Decide(cc, fs, d, mode, now, live).save.None?
  {}

  /** A prune, even an aborted or dry one, never changes what resolving a configured domain returns. */
  lemma PruneKeepsAnswers(
    cc: CacheConfig, file: CacheFile, keep: set<string>, dry: bool, pruneEnv: CallEnv,
    name: string, write: bool, mode: Mode, env: CallEnv)
    requires Normalize(name).Some? && Normalize(name).value in keep
    ensures Resolve(cc, Prune(file, keep, !dry, pruneEnv).file, name, write, mode, env).result
         == Resolve(cc, file, name, write, mode, env).result
  {
    var d := Normalize(name).value;
    if !pruneEnv.loadFails && !pruneEnv.saveFails && !dry { PruneExact(file, keep, pruneEnv, d); }
    var pruned := Prune(file, keep, !dry, pruneEnv).file;
    assert Stored(pruned, d) == Stored(file, d);
    AnswerDependsOnEntry(cc, Loaded(pruned), Loaded(file), d, mode, env.now, env.live);
  }

  /** Resolving one name leaves the stored entries of all other domains alone, and leaves its own
      while that is fresh and need not be forced. */
  lemma ResolveFrame(cc: CacheConfig, file: CacheFile, name: string, write: bool, mode: Mode, env: CallEnv, d: string)
    requires
      || Normalize(name) != Some(d)
      || (mode == PreferFresh && Stored(file, d).Some? && Fresh(Stored(file, d).value, env.now))
    ensures Stored(Resolve(cc, file, name, write, mode, env).file, d) == Stored(file, d)
  {
    if Normalize(name).Some? && cc.enabled && !env.loadFails {
      var mine := Normalize(name).value;
      var dec := Decide(cc, Loaded(file), mine, mode, env.now, env.live);
      if dec.save.Some? {
        DecideSaves(cc, Loaded(file), mine, mode, env.now, env.live);
        StoredAfterSave(dec.save.value, d);
        FindUpsert(Loaded(file), dec.answer.entry.value, d);
      }
    }
  }

  /** A resolve that saves puts exactly its reported entry into the list. */
  lemma DecideSaves(cc: CacheConfig, es: seq<Entry>, d: string, mode: Mode, now: u64, live: Lookup)
    requires Decide(cc, es, d, mode, now, live).save.Some?
    ensures var dec := Decide(cc, es, d, mode, now, live);
      && dec.answer.entry.Some? && dec.answer.entry.value.domain == d
      && dec.save == Some(Upsert(es, dec.answer.entry.value))
  {
    FindIsLookup(es, d);
    ToMapKeys(es);
  }

  /** A written proxy answer replaces the stored entry of its domain and nothing else. */
  lemma ProxyUpsertExact(cc: CacheConfig, file: CacheFile, name: string, ips: seq<string>, env: CallEnv, d: string)
    requires Normalize(name).Some? && ips != [] && cc.enabled && !env.loadFails && !env.saveFails
    ensures Stored(ProxyUpsert(cc, file, name, ips, true, env).file, d) ==
      if d == Normalize(name).value then Some(LiveEntry(cc, d, ips, env.now, "dns-proxy")) else Stored(file, d)
  {
    var e := LiveEntry(cc, Normalize(name).value, ips, env.now, "dns-proxy");
    StoredAfterSave(Upsert(Loaded(file), e), d);
    FindUpsert(Loaded(file), e, d);
  }

  datatype ResolveCall = ResolveCall(name: string, write: bool, mode: Mode, env: CallEnv)

  function ResolveAll(cc: CacheConfig, file: CacheFile, calls: seq<ResolveCall>): CacheFile
    decreases |calls|
  {
    if calls == [] then file
    else
      var c := calls[0];
      ResolveAll(cc, Resolve(cc, file, c.name, c.write, c.mode, c.env).file, calls[1..])
  }

  predicate SameData(a: Option<Entry>, b: Option<Entry>) {
    && (a.None? <==> b.None?)
    && (a.Some? ==> a.value.(lastError := None) == b.value.(lastError := None))
  }

  /** The resolver fails or finds nothing. */
  predicate LookupFails(env: CallEnv) { env.live.Failed? || env.live.ips == [] }

  /** No sequence of failed resolutions, one after the other, changes stored addresses, their age or their expiry. */
  lemma {:induction false} FailuresKeepData(cc: CacheConfig, file: CacheFile, calls: seq<ResolveCall>, d: string)
    requires forall i :: 0 <= i < |calls| ==> LookupFails(calls[i].env)
    ensures SameData(Stored(ResolveAll(cc, file, calls), d), Stored(file, d))
    decreases |calls|
  {
    if calls != [] {
      var c := calls[0];
      var next := Resolve(cc, file, c.name, c.write, c.mode, c.env).file;
      FailureKeepsData(cc, file, c, d);
      FailuresKeepData(cc, next, calls[1..], d);
    }
  }

  lemma FailureKeepsData(cc: CacheConfig, file: CacheFile, c: ResolveCall, d: string)
    requires LookupFails(c.env)
    ensures SameData(Stored(Resolve(cc, file, c.name, c.write, c.mode, c.env).file, d), Stored(file, d))
  {
    if Normalize(c.name) != Some(d) {
      ResolveFrame(cc, file, c.name, c.write, c.mode, c.env, d);
    } else if cc.enabled && !c.env.loadFails {
      var es := Loaded(file);
      var dec := Decide(cc, es, d, c.mode, c.env.now, c.env.live);
      if dec.save.Some? {
        DecideSaves(cc, es, d, c.mode, c.env.now, c.env.live);
        StoredAfterSave(dec.save.value, d);
        FindUpsert(es, dec.answer.entry.value, d);
      }
    }
  }

  // ---------------------------------------------------------------- several processes

  datatype Op =
    | ResolveOp(name: string, mode: Mode)
    | ProxyOp(name: string, ips: seq<string>)
    | PruneOp(keep: set<string>)

  /** What a process does between its load and its save. */
  datatype Plan = Plan(answer: Option<Resolution>, learned: Option<Recorded>, save: Option<seq<Entry>>)

  /** An answer some resolver or upstream gave. */
  datatype Recorded = Recorded(domain: string, ips: seq<string>, at: u64)

  function PlanOf(cc: CacheConfig, es: seq<Entry>, op: Op, env: CallEnv): Plan {
    match op
    case ResolveOp(name, mode) =>
      if Normalize(name).None? || !cc.enabled then Plan(None, None, None)
      else
        var dec := Decide(cc, es, Normalize(name).value, mode, env.now, env.live);
        var learned := if dec.answer.source == Live then Some(Recorded(dec.answer.domain, dec.answer.ips, env.now))
          else None;
        Plan(Some(dec.answer), learned, dec.save)
    case ProxyOp(name, ips) =>
      if Normalize(name).None? || !cc.enabled || ips == [] then Plan(None, None, None)
      else
        var e := LiveEntry(cc, Normalize(name).value, ips, env.now, "dns-proxy");
        Plan(None, Some(Recorded(e.domain, e.ips, env.now)), Some(Upsert(es, e)))
    case PruneOp(keep) =>
      var kept := Retain(es, keep);
      Plan(None, None, if |kept| == |es| then None else Some(kept))
  }

  /** The whole calls of one process are its load, its plan and its save with nothing between. */
  lemma CallsAreLoadThenSave(cc: CacheConfig, file: CacheFile, op: Op, write: bool, env: CallEnv)
    requires !env.loadFails
    ensures var plan := PlanOf(cc, Loaded(file), op, env);
      var after := if plan.save.Some? && write && !env.saveFails then Saved(plan.save.value) else file;
      match op
      case ResolveOp(name, mode) => Resolve(cc, file, name, write, mode, env).file == after
      case ProxyOp(name, ips) => ProxyUpsert(cc, file, name, ips, write, env).file == after
      case PruneOp(keep) => Prune(file, keep, write, env).file == after
  {}

  /** A resolution returned from the cache, and the clock it was judged by. */
  datatype Served = Served(answer: Resolution, now: u64)

  /** The shared file, the entries each process has loaded and changed but not yet saved, and the
      history of answers learned and resolutions returned. */
  datatype Sys = Sys(file: CacheFile, pending: map<nat, seq<Entry>>, learned: set<Recorded>, log: seq<Served>)

  /** `Begin` is the atomic load with the computation after it; `Commit` is the atomic save. */
  datatype Action = Begin(pid: nat, op: Op, write: bool, env: CallEnv) | Commit(pid: nat, fails: bool)

  function Step(cc: CacheConfig, s: Sys, a: Action): Sys {
    match a
    case Begin(pid, op, write, env) =>
      if pid in s.pending || env.loadFails then s
      else
        var plan := PlanOf(cc, Loaded(s.file), op, env);
        s.(learned := if plan.learned.Some? then s.learned + {plan.learned.value} else s.learned,
           log := if plan.answer.Some? then s.log + [Served(plan.answer.value, env.now)] else s.log,
           pending := if plan.save.Some? && write then s.pending[pid := plan.save.value] else s.pending)
    case Commit(pid, fails) =>
      if pid !in s.pending then s
      else s.(file := if fails then s.file else Saved(s.pending[pid]), pending := s.pending - {pid})
  }

  const START := Sys(None, map[], {}, [])

  function SysAfter(cc: CacheConfig, actions: seq<Action>): Sys {
    if actions == [] then START else Step(cc, SysAfter(cc, actions[..|actions| - 1]), actions[|actions| - 1])
  }

  predicate GoodEntryData(cc: CacheConfig, e: Entry, learned: set<Recorded>) {
    && Canonical(e.domain) && e.ips != []
    && Recorded(e.domain, e.ips, e.resolvedAt) in learned
    && e.expiresAt == SatAdd(e.resolvedAt, cc.ttl)
  }

  ghost predicate GoodEntry(cc: CacheConfig, e: Entry, learned: set<Recorded>) {
    GoodEntryData(cc, e, learned) && Sorted(e.ips)
  }

  ghost predicate GoodEntries(cc: CacheConfig, es: seq<Entry>, learned: set<Recorded>) {
    NoDuplicates(es) && forall e :: e in es ==> GoodEntry(cc, e, learned)
  }

  /** The staleness bound of one returned resolution. */
  ghost predicate Bounded(cc: CacheConfig, ev: Served, learned: set<Recorded>) {
    match ev.answer.source
    case Live => Recorded(ev.answer.domain, ev.answer.ips, ev.now) in learned
    case CacheFresh =>
      exists r :: r in learned && r.domain == ev.answer.domain && r.ips == ev.answer.ips && ev.now < r.at + cc.ttl
    case CacheStale =>
      && (Trim(cc.unresolvedMode) == ALLOW_STALE || !cc.failClosedUnresolved)
      && exists r ::
           r in learned && r.domain == ev.answer.domain && r.ips == ev.answer.ips && ev.now <= r.at + cc.ttl + cc.grace
    case Empty => ev.answer.ips == []
  }

  ghost predicate Inv(cc: CacheConfig, s: Sys) {
    && (s.file.Some? ==> GoodEntries(cc, s.file.value, s.learned) && SortedEntries(s.file.value))
    && (forall p :: p in s.pending ==> GoodEntries(cc, s.pending[p], s.learned))
    && (forall i :: 0 <= i < |s.log| ==> Bounded(cc, s.log[i], s.learned))
  }

  lemma GoodLoaded(cc: CacheConfig, es: seq<Entry>, learned: set<Recorded>)
    requires GoodEntries(cc, es, learned)
    ensures GoodEntries(cc, SortEntries(es), learned) && SortedEntries(SortEntries(es))
  {
    SortIsIdentity(es);
    SortStrict(es);
  }

  lemma GoodUpsert(cc: CacheConfig, es: seq<Entry>, e: Entry, learned: set<Recorded>)
    requires GoodEntries(cc, es, learned) && GoodEntry(cc, e, learned)
    ensures GoodEntries(cc, Upsert(es, e), learned)
  {
    UpsertIsUpdate(es, e);
  }

  lemma GoodRetain(cc: CacheConfig, es: seq<Entry>, keep: set<string>, learned: set<Recorded>)
    requires GoodEntries(cc, es, learned)
    ensures GoodEntries(cc, Retain(es, keep), learned)
  {
    RetainExact(es, keep);
    RetainKeepsDistinct(es, keep);
  }

  lemma LiveEntryGood(cc: CacheConfig, name: string, ips: seq<string>, now: u64, source: string, learned: set<Recorded>)
    requires Normalize(name).Some? && ips != []
    requires Recorded(Normalize(name).value, UniqueSorted(ips), now) in learned
    ensures GoodEntry(cc, LiveEntry(cc, Normalize(name).value, ips, now, source), learned)
  {
    NormalizeFixedPoints(name);
    UniqueSortedExact(ips);
    assert ips[0] in UniqueSorted(ips);
  }

  /** A resolve from good entries saves good entries. */
  lemma DecideSavesGood(cc: CacheConfig, es: seq<Entry>, name: string, mode: Mode, env: CallEnv, learned: set<Recorded>)
    requires Normalize(name).Some? && GoodEntries(cc, es, learned)
    requires var dec := Decide(cc, es, Normalize(name).value, mode, env.now, env.live);
      && dec.save.Some?
      && (dec.answer.source == Live ==> Recorded(dec.answer.domain, dec.answer.ips, env.now) in learned)
    ensures var dec := Decide(cc, es, Normalize(name).value, mode, env.now, env.live);
      GoodEntries(cc, dec.save.value, learned)
  {
    var d := Normalize(name).value;
    var dec := Decide(cc, es, d, mode, env.now, env.live);
    FoundIsGood(cc, es, d, learned);
    if dec.answer.source == Live { LiveEntryGood(cc, name, env.live.ips, env.now, "live", learned); }
    DecideSaves(cc, es, d, mode, env.now, env.live);
    GoodUpsert(cc, es, dec.answer.entry.value, learned);
  }

  lemma FoundIsGood(cc: CacheConfig, es: seq<Entry>, d: string, learned: set<Recorded>)
    requires GoodEntries(cc, es, learned)
    ensures var found := Find(es, d);
      found.Some? ==>
        GoodEntry(cc, found.value, learned) && Recorded(d, found.value.ips, found.value.resolvedAt) in learned
  {
    FindIsLookup(es, d);
    ToMapKeys(es);
  }

  /** A resolve from good entries saves good entries and returns a bounded answer. */
  lemma DecideGood(cc: CacheConfig, es: seq<Entry>, name: string, mode: Mode, env: CallEnv, learned: set<Recorded>)
    requires Normalize(name).Some? && GoodEntries(cc, es, learned)
    requires var dec := Decide(cc, es, Normalize(name).value, mode, env.now, env.live);
      dec.answer.source == Live ==> Recorded(dec.answer.domain, dec.answer.ips, env.now) in learned
    ensures var dec := Decide(cc, es, Normalize(name).value, mode, env.now, env.live);
      && (dec.save.Some? ==> GoodEntries(cc, dec.save.value, learned))
      && Bounded(cc, Served(dec.answer, env.now), learned)
  {
    var d := Normalize(name).value;
    var dec := Decide(cc, es, d, mode, env.now, env.live);
    FoundIsGood(cc, es, d, learned);
    if dec.save.Some? { DecideSavesGood(cc, es, name, mode, env, learned); }
  }

  lemma PlanGood(cc: CacheConfig, es: seq<Entry>, op: Op, env: CallEnv, learned: set<Recorded>)
    requires GoodEntries(cc, es, learned)
    requires var plan := PlanOf(cc, es, op, env); plan.learned.Some? ==> plan.learned.value in learned
    ensures var plan := PlanOf(cc, es, op, env);
      && (plan.save.Some? ==> GoodEntries(cc, plan.save.value, learned))
      && (plan.answer.Some? ==> Bounded(cc, Served(plan.answer.value, env.now), learned))
  {
    var plan := PlanOf(cc, es, op, env);
    match op
    case ResolveOp(name, mode) =>
      if plan.answer.Some? { DecideGood(cc, es, name, mode, env, learned); }
    case ProxyOp(name, ips) =>
      if plan.save.Some? {
        LiveEntryGood(cc, name, ips, env.now, "dns-proxy", learned);
        GoodUpsert(cc, es, LiveEntry(cc, Normalize(name).value, ips, env.now, "dns-proxy"), learned);
      }
    case PruneOp(keep) => GoodRetain(cc, es, keep, learned);
  }

  /** Learning more keeps every good list good and every bound valid. */
  lemma LearnMore(cc: CacheConfig, s: Sys, more: set<Recorded>)
    requires Inv(cc, s) && s.learned <= more
    ensures Inv(cc, s.(learned := more))
  {
    forall i | 0 <= i < |s.log| ensures Bounded(cc, s.log[i], more) {
      assert Bounded(cc, s.log[i], s.learned);
    }
  }

  lemma StepKeepsInv(cc: CacheConfig, s: Sys, a: Action)
    requires Inv(cc, s)
    ensures Inv(cc, Step(cc, s, a))
  {
    match a
    case Begin(pid, op, write, env) =>
      if pid !in s.pending && !env.loadFails {
        var plan := PlanOf(cc, Loaded(s.file), op, env);
        var more := if plan.learned.Some? then s.learned + {plan.learned.value} else s.learned;
        LearnMore(cc, s, more);
        if s.file.Some? { GoodLoaded(cc, s.file.value, more); }
        PlanGood(cc, Loaded(s.file), op, env, more);
      }
    case Commit(pid, fails) =>
      if pid in s.pending && !fails { GoodLoaded(cc, s.pending[pid], s.learned); }
  }

  /** Shared-file invariant and staleness bound, over every interleaving of every run: the file is
      strictly sorted without duplicates, every entry is one recorded answer with the expiry of its
      age, and every answer returned from it is within its bound. */
  lemma {:induction false} EveryRunKeepsInv(cc: CacheConfig, actions: seq<Action>)
    ensures Inv(cc, SysAfter(cc, actions))
  {
    if actions != [] {
      EveryRunKeepsInv(cc, actions[..|actions| - 1]);
      StepKeepsInv(cc, SysAfter(cc, actions[..|actions| - 1]), actions[|actions| - 1]);
    }
  }
}
