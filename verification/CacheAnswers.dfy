/** What resolving a name returns and stores, case by case, from what was stored for it, the resolver's
    answer, the clock, the settings and the failures. */
module CacheAnswers {
  import opened Text
  import opened Domain
  import opened Config
  import opened Cache
  import opened CacheSystem

  /** The strictly sorted list of exactly the found addresses. */
  ghost predicate SortedSetOf(ips: seq<string>, found: seq<string>) {
    Sorted(ips) && forall ip :: ip in ips <==> ip in found
  }

  /** An unexpired entry with addresses may answer without a lookup. */
  predicate Unexpired(stored: Option<Entry>, mode: Mode, now: u64) {
    mode == PreferFresh && stored.Some? && stored.value.ips != [] && now < stored.value.expiresAt
  }

  /** An entry may answer although the lookup failed: stale addresses are allowed, there are some, and the
      grace period after their expiry is not over. */
  predicate StaleAllowed(cc: CacheConfig, e: Entry, now: u64) {
    && (Trim(cc.unresolvedMode) == "allow_stale" || !cc.failClosedUnresolved)
    && e.ips != [] && now as int <= e.expiresAt as int + cc.grace as int
  }

  ghost predicate Answers(r: Result<Resolution>, source: Source, ips: seq<string>) {
    r.Ok? && r.value.source == source && r.value.ips == ips
  }

  /** The result of resolving, with the entry that was stored for the name. */
  ghost predicate ResolvesTo(
    cc: CacheConfig, stored: Option<Entry>, write: bool, mode: Mode, env: CallEnv, r: Result<Resolution>)
  {
    var found := env.live.Found? && env.live.ips != [];
    if !cc.enabled then
      if env.live.Failed? then r.Err? else r.Ok? && r.value.source == Live && SortedSetOf(r.value.ips, env.live.ips)
    else if env.loadFails then r.Err?
    else if Unexpired(stored, mode, env.now) then Answers(r, CacheFresh, stored.value.ips)
    else if !found && stored.None? then Answers(r, Empty, [])
    else if write && env.saveFails then r.Err?
    else if found then r.Ok? && r.value.source == Live && SortedSetOf(r.value.ips, env.live.ips)
    else if StaleAllowed(cc, stored.value, env.now) then Answers(r, CacheStale, stored.value.ips)
    else Answers(r, Empty, [])
  }

  /** The text of a failed lookup's error. */
  function FailureText(live: Lookup): string {
    if live.Failed? then live.error else "resolver returned zero IPv4 addresses"
  }

  /** The error that is reported with a result: the failed lookup's, or the one noted in a fresh entry. */
  predicate Reports(stored: Option<Entry>, env: CallEnv, r: Resolution) {
    match r.source
    case Live => r.lastError == None
    case CacheFresh => stored.Some? && r.lastError == stored.value.lastError
    case _ => r.lastError == Some(FailureText(env.live))
  }

  /** The decision on a loaded cache: what it answers, and whether it stores anything. */
  lemma DecideAnswers(cc: CacheConfig, es: seq<Entry>, d: string, mode: Mode, env: CallEnv)
    ensures var stored, dec := Find(es, d), Decide(cc, es, d, mode, env.now, env.live);
      var a := dec.answer;
      && a.domain == d && Reports(stored, env, a)
      && if Unexpired(stored, mode, env.now) then dec.save.None? && a.source == CacheFresh && a.ips == stored.value.ips
         else if env.live.Found? && env.live.ips != [] then
           dec.save.Some? && a.source == Live && a.ips == UniqueSorted(env.live.ips)
         else if stored.None? then dec.save.None? && a.source == Empty && a.ips == []
         else if StaleAllowed(cc, stored.value, env.now) then
           dec.save.Some? && a.source == CacheStale && a.ips == stored.value.ips
         else dec.save.Some? && a.source == Empty && a.ips == []
  {}

  lemma {:induction false} ResolveExact(
    cc: CacheConfig, file: CacheFile, name: string, d: string, write: bool, mode: Mode, env: CallEnv)
    requires Normalize(name) == Some(d)
    ensures var r := Resolve(cc, file, name, write, mode, env).result;
      && ResolvesTo(cc, Stored(file, d), write, mode, env, r)
      && (r.Ok? ==> r.value.domain == d && Reports(Stored(file, d), env, r.value))
  {
    if env.live.Found? { UniqueSortedExact(env.live.ips); }
    DecideAnswers(cc, Loaded(file), d, mode, env);
  }

  /** A name that is none cannot be resolved. */
  lemma ResolveMalformed(cc: CacheConfig, file: CacheFile, name: string, write: bool, mode: Mode, env: CallEnv)
    ensures Normalize(name).None? ==> Resolve(cc, file, name, write, mode, env) == Outcome(Err, file)
  {}

  /** When the lookup fails, the stored addresses are served exactly while stale ones are allowed and the
      grace period lasts; otherwise there is no address. */
  lemma {:induction false} StaleServedIff(
    cc: CacheConfig, file: CacheFile, name: string, d: string, write: bool, mode: Mode, env: CallEnv)
    requires Normalize(name) == Some(d) && cc.enabled && !env.loadFails && LookupFails(env)
    requires (write ==> !env.saveFails) && !Unexpired(Stored(file, d), mode, env.now)
    ensures var r, stored := Resolve(cc, file, name, write, mode, env).result, Stored(file, d);
      && (Answers(r, CacheStale, if stored.Some? then stored.value.ips else []) <==>
            && (Trim(cc.unresolvedMode) == "allow_stale" || !cc.failClosedUnresolved)
            && stored.Some? && stored.value.ips != []
            && env.now as int <= stored.value.expiresAt as int + cc.grace as int)
      && (r.Ok? && (r.value.source == CacheStale || Answers(r, Empty, [])))
  {
    ResolveExact(cc, file, name, d, write, mode, env);
  }

  // ---------------------------------------------------------------- what is stored

  /** The entry of a name just looked up. */
  ghost predicate StoredLive(
    e: Option<Entry>, cc: CacheConfig, d: string, found: seq<string>, now: u64, source: string)
  {
    && e.Some? && SortedSetOf(e.value.ips, found)
    && e.value.domain == d && e.value.resolvedAt == now && e.value.source == source && e.value.lastError == None
    && e.value.expiresAt as int ==
      if now as int + cc.ttl as int <= 0xFFFF_FFFF_FFFF_FFFF then now + cc.ttl else 0xFFFF_FFFF_FFFF_FFFF
  }

  lemma {:induction false} ResolveStores(
    cc: CacheConfig, file: CacheFile, name: string, d: string, write: bool, mode: Mode, env: CallEnv)
    requires Normalize(name) == Some(d)
    ensures var after, stored := Resolve(cc, file, name, write, mode, env).file, Stored(file, d);
      var found := env.live.Found? && env.live.ips != [];
      if !cc.enabled || env.loadFails || Unexpired(stored, mode, env.now) || !write || env.saveFails
      then after == file
      else if found then StoredLive(Stored(after, d), cc, d, env.live.ips, env.now, "live")
      else if stored.None? then after == file
      else Stored(after, d) == Some(stored.value.(lastError := Some(FailureText(env.live))))
  {
    if cc.enabled && !env.loadFails && !Unexpired(Stored(file, d), mode, env.now) && write && !env.saveFails {
      var es := Loaded(file);
      var dec := Decide(cc, es, d, mode, env.now, env.live);
      if dec.save.Some? {
        DecideSaves(cc, es, d, mode, env.now, env.live);
        StoredAfterSave(dec.save.value, d);
        FindUpsert(es, dec.answer.entry.value, d);
        if env.live.Found? { UniqueSortedExact(env.live.ips); }
      }
    }
  }

  /** A proxy answer is stored, or kept back: nothing to store or no cache to store it in, a dry run, or a
      failure, which is reported. */
  lemma {:induction false} ProxyUpsertStores(
    cc: CacheConfig, file: CacheFile, name: string, d: string, ips: seq<string>, write: bool, env: CallEnv)
    requires Normalize(name) == Some(d)
    ensures var o := ProxyUpsert(cc, file, name, ips, write, env);
      var wanted := ips != [] && cc.enabled;
      && (o.result.Err? <==> wanted && (env.loadFails || (write && env.saveFails)))
      && (o.result.Ok? ==> (o.result.value.Some? <==> wanted))
      && (o.result.Ok? && wanted ==> StoredLive(o.result.value, cc, d, ips, env.now, "dns-proxy"))
      && if o.result.Ok? && wanted && write then Stored(o.file, d) == o.result.value else o.file == file
  {
    UniqueSortedExact(ips);
    if ips != [] && cc.enabled && !env.loadFails && !env.saveFails {
      ProxyUpsertExact(cc, file, name, ips, env, d);
    }
  }

  // ---------------------------------------------------------------- pruning

  lemma {:induction false} KeptCount(es: seq<Entry>, keep: set<string>)
    ensures |Retain(es, keep)| <= |es|
    ensures |Retain(es, keep)| == |es| <==> forall d :: Find(es, d).Some? ==> d in keep
  {
    if es != [] {
      KeptCount(es[1..], keep);
      assert Find(es, es[0].domain).Some?;
      assert forall d :: Find(es, d).Some? <==> d == es[0].domain || Find(es[1..], d).Some?;
    }
  }

  lemma SortedCount(es: seq<Entry>)
    ensures |SortEntries(es)| == |es|
  {
    SortIsIdentity(es);
    assert |SortEntries(es)| == |multiset(SortEntries(es))| == |multiset(es)| == |es|;
  }

  function Entries(file: CacheFile): nat { if file.None? then 0 else |file.value| }

  /** Some policy, enabled or not, has this name. */
  ghost predicate Configured(ps: seq<Policy>, d: string) {
    exists p :: p in ps && p.spec.domain.Some? && Normalize(p.spec.domain.value) == Some(d)
  }

  lemma ConfiguredExact(ps: seq<Policy>, d: string)
    ensures d in ConfiguredDomains(ps) <==> Configured(ps, d)
  {}

  /** Something is stored for a name that no policy has. */
  ghost predicate Orphaned(file: CacheFile, ps: seq<Policy>) {
    exists d :: Stored(file, d).Some? && !Configured(ps, d)
  }

  /** Pruning to the policies drops what is stored for names no policy has and keeps all else. It writes
      only if there is something to drop, errs only if it cannot read or write, and reports how many entries
      there were and are left. */
  lemma {:induction false} PrunePolicies(file: CacheFile, ps: seq<Policy>, write: bool, env: CallEnv, d: string)
    ensures var o := Prune(file, ConfiguredDomains(ps), write, env);
      && (o.result.Err? <==> env.loadFails || (Orphaned(file, ps) && write && env.saveFails))
      && (o.result.Ok? ==> o.result.value.0 == Entries(file) && (write ==> o.result.value.1 == Entries(o.file)))
      && if o.result.Ok? && Orphaned(file, ps) && write
         then Stored(o.file, d) == if Configured(ps, d) then Stored(file, d) else None
         else o.file == file
  {
    var es, keep := Loaded(file), ConfiguredDomains(ps);
    KeptCount(es, keep);
    forall x ensures x in keep <==> Configured(ps, x) { ConfiguredExact(ps, x); }
    if file.Some? { SortedCount(file.value); }
    SortedCount(Retain(es, keep));
    if !env.loadFails && !env.saveFails { PruneExact(file, keep, env, d); }
  }

  // ---------------------------------------------------------------- listing

  /** The snapshot of a file without duplicates lists what is stored for the name of every policy, enabled
      or not, and nothing else; it fails if the file cannot be read or some policy's domain is malformed. */
  lemma {:induction false} SnapshotExact(file: CacheFile, ps: seq<Policy>, loadFails: bool)
    requires file.Some? ==> NoDuplicates(file.value)
    ensures var r := Snapshot(file, ps, loadFails);
      && (r.Err? <==> loadFails || exists p :: p in ps && p.spec.domain.Some? && Normalize(p.spec.domain.value).None?)
      && (r.Ok? ==>
            forall d :: (d in r.value <==> Configured(ps, d)) && (d in r.value ==> r.value[d] == Stored(file, d)))
  {
    if file.Some? { SortStrict(file.value); }
    SnapshotAgreesWithFind(Loaded(file), ConfiguredDomains(ps));
  }
}
