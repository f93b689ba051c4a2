/** The DNS cache file: a list of entries kept sorted by domain, the resolve, proxy-update and prune
    operations on it, and the proof that the list behaves as a map. The clock, the resolver and
    file-system failures are inputs of each call. */
module Cache {
  import opened Text
  import opened Domain
  import opened Config

  const U64_MAX: u64 := 0xFFFF_FFFF_FFFF_FFFF

  /** `saturating_add`. */
  function SatAdd(a: u64, b: u64): (r: u64)
    ensures r == a + b || (r == U64_MAX < a + b)
  {
    if a as int + b as int > U64_MAX then U64_MAX else a + b
  }

  datatype Entry = Entry(
    domain: string,
    ips: seq<string>,
    resolvedAt: u64,
    expiresAt: u64,
    source: string,
    lastError: Option<string>)

  /** The cache file, None while it does not exist. */
  type CacheFile = Option<seq<Entry>>

  datatype Source = Live | CacheFresh | CacheStale | Empty

  datatype Resolution = Resolution(
    domain: string,
    ips: seq<string>,
    source: Source,
    entry: Option<Entry>,
    lastError: Option<string>)

  datatype Mode = PreferFresh | ForceLive

  /** What the system resolver says: IPv4 addresses, or an error. */
  datatype Lookup = Found(ips: seq<string>) | Failed(error: string)

  /** One call's view of the outside: clock, resolver, and whether reading or writing fails. */
  datatype CallEnv = CallEnv(now: u64, live: Lookup, loadFails: bool, saveFails: bool)

  const ZERO_ADDRESSES := "resolver returned zero IPv4 addresses"

  // ---------------------------------------------------------------- the list

  function Find(es: seq<Entry>, domain: string): Option<Entry> {
    if es == [] then None
    else if es[0].domain == domain then Some(es[0])
    else Find(es[1..], domain)
  }

  /** `upsert_entry`, as a value: replace the first entry of the domain, or append. */
  function Upsert(es: seq<Entry>, e: Entry): seq<Entry> {
    if es == [] then [e]
    else if es[0].domain == e.domain then [e] + es[1..]
    else [es[0]] + Upsert(es[1..], e)
  }

  lemma UpsertFrom(es: seq<Entry>, i: nat, e: Entry)
    requires i < |es|
    ensures es[..i] + Upsert(es[i..], e) ==
      if es[i].domain == e.domain then es[i := e] else es[..i + 1] + Upsert(es[i + 1..], e)
  {
    assert es[i..][1..] == es[i + 1..];
    var rest := Upsert(es[i + 1..], e);
    assert es[..i] + ([es[i]] + rest) == es[..i + 1] + rest;
    assert es[..i] + ([e] + es[i + 1..]) == es[i := e];
  }

  method UpsertEntry(cache: seq<Entry>, entry: Entry) returns (r: seq<Entry>)
    ensures r == Upsert(cache, entry)
  {
    ghost var all := Upsert(cache, entry);
    for i := 0 to |cache|
      invariant all == cache[..i] + Upsert(cache[i..], entry)
    {
      UpsertFrom(cache, i, entry);
      if cache[i].domain == entry.domain { return cache[i := entry]; }
    }
    return cache + [entry];
  }

  function Retain(es: seq<Entry>, keep: set<string>): seq<Entry> {
    if es == [] then []
    else if es[0].domain in keep then [es[0]] + Retain(es[1..], keep)
    else Retain(es[1..], keep)
  }

  /** Insertion after every entry that is not greater, so that sorting is stable. */
  function InsertEntry(es: seq<Entry>, e: Entry): seq<Entry> {
    if es == [] then [e]
    else if Less(e.domain, es[0].domain) then [e] + es
    else [es[0]] + InsertEntry(es[1..], e)
  }

  /** `sort_by(domain)`. */
  function SortEntries(es: seq<Entry>): seq<Entry> {
    if es == [] then [] else InsertEntry(SortEntries(es[..|es| - 1]), es[|es| - 1])
  }

  // ---------------------------------------------------------------- decisions

  /** What a resolve does with a loaded cache: its answer, and the entries to save if any. */
  datatype Decision = Decision(answer: Resolution, save: Option<seq<Entry>>)

  function LiveEntry(cc: CacheConfig, domain: string, ips: seq<string>, now: u64, source: string): Entry {
    Entry(domain, UniqueSorted(ips), now, SatAdd(now, cc.ttl), source, None)
  }

  predicate Fresh(e: Entry, now: u64) { e.expiresAt > now && e.ips != [] }

  predicate MayServeStale(cc: CacheConfig, e: Entry, now: u64) {
    && (Trim(cc.unresolvedMode) == ALLOW_STALE || !cc.failClosedUnresolved)
    && SatAdd(e.expiresAt, cc.grace) >= now && e.ips != []
  }

  /** `fallback_after_live_failure`. */
  function Fallback(cc: CacheConfig, es: seq<Entry>, domain: string, now: u64, error: string): Decision {
    match Find(es, domain)
    case None => Decision(Resolution(domain, [], Empty, None, Some(error)), None)
    case Some(known) =>
      var e := known.(lastError := Some(error));
      var answer := if MayServeStale(cc, e, now)
                    then Resolution(domain, e.ips, CacheStale, Some(e), Some(error))
                    else Resolution(domain, [], Empty, Some(e), Some(error));
      Decision(answer, Some(Upsert(es, e)))
  }

  function Decide(cc: CacheConfig, es: seq<Entry>, domain: string, mode: Mode, now: u64, live: Lookup): Decision {
    var existing := Find(es, domain);
    if mode == PreferFresh && existing.Some? && Fresh(existing.value, now) then
      Decision(Resolution(domain, existing.value.ips, CacheFresh, existing, existing.value.lastError), None)
    else
      match live
      case Failed(error) => Fallback(cc, es, domain, now, error)
      case Found(ips) =>
        if ips == [] then Fallback(cc, es, domain, now, ZERO_ADDRESSES)
        else
          var e := LiveEntry(cc, domain, ips, now, "live");
          Decision(Resolution(domain, e.ips, Live, Some(e), None), Some(Upsert(es, e)))
  }

  // ---------------------------------------------------------------- whole calls

  datatype Outcome<T> = Outcome(result: Result<T>, file: CacheFile)

  function Loaded(file: CacheFile): seq<Entry> {
    if file.None? then [] else SortEntries(file.value)
  }

  function Saved(es: seq<Entry>): CacheFile { Some(SortEntries(es)) }

  /** The end of an operation that wants to write: skipped in a dry run, and it may fail. */
  function Finish<T>(file: CacheFile, es: seq<Entry>, write: bool, saveFails: bool, answer: T): Outcome<T> {
    if !write then Outcome(Ok(answer), file)
    else if saveFails then Outcome(Err, file)
    else Outcome(Ok(answer), Saved(es))
  }

  /** `resolve_with_mode`, as a value. */
  function Resolve(
    cc: CacheConfig, file: CacheFile, name: string, write: bool, mode: Mode, env: CallEnv): Outcome<Resolution>
  {
    match Normalize(name)
    case None => Outcome(Err, file)
    case Some(domain) =>
      if !cc.enabled then
        match env.live
        case Failed(_) => Outcome(Err, file)
        case Found(ips) => Outcome(Ok(Resolution(domain, UniqueSorted(ips), Live, None, None)), file)
      else if env.loadFails then Outcome(Err, file)
      else
        var d := Decide(cc, Loaded(file), domain, mode, env.now, env.live);
        if d.save.None? then Outcome(Ok(d.answer), file)
        else Finish(file, d.save.value, write, env.saveFails, d.answer)
  }

  /** `upsert_live_ips_from_proxy`, as a value. */
  function ProxyUpsert(cc: CacheConfig, file: CacheFile, name: string, ips: seq<string>, write: bool, env: CallEnv)
    : Outcome<Option<Entry>>
  {
    match Normalize(name)
    case None => Outcome(Err, file)
    case Some(domain) =>
      if ips == [] || !cc.enabled then Outcome(Ok(None), file)
      else if env.loadFails then Outcome(Err, file)
      else
        var e := LiveEntry(cc, domain, ips, env.now, "dns-proxy");
        Finish(file, Upsert(Loaded(file), e), write, env.saveFails, Some(e))
  }

  /** The domains of all policies, enabled or not, whose name is well formed. */
  function ConfiguredDomains(ps: seq<Policy>): set<string> {
    set p <- ps | p.spec.domain.Some? && Normalize(p.spec.domain.value).Some? :: Normalize(p.spec.domain.value).value
  }

  /** `prune_cache_to_configured_domains`, as a value: the sizes before and after. */
  function Prune(file: CacheFile, keep: set<string>, write: bool, env: CallEnv): Outcome<(nat, nat)> {
    if env.loadFails then Outcome(Err, file)
    else
      var es := Loaded(file);
      var kept := Retain(es, keep);
      if |es| == |kept| then Outcome(Ok((|es|, |kept|)), file)
      else Finish(file, kept, write, env.saveFails, (|es|, |kept|))
  }

  /** The last-wins snapshot of `configured_domain_cache_snapshot`. */
  function SnapshotOf(es: seq<Entry>, domains: set<string>): map<string, Option<Entry>> {
    if es == [] then map d | d in domains :: None
    else
      var before, e := SnapshotOf(es[..|es| - 1], domains), es[|es| - 1];
      if e.domain in domains then before[e.domain := Some(e)] else before
  }

  /** `configured_domain_cache_snapshot`, as a value: any malformed policy domain is an error. */
  function Snapshot(file: CacheFile, ps: seq<Policy>, loadFails: bool): Result<map<string, Option<Entry>>> {
    if loadFails || (exists p :: p in ps && BadName(p)) then Err
    else Ok(SnapshotOf(Loaded(file), ConfiguredDomains(ps)))
  }

  predicate BadName(p: Policy) { p.spec.domain.Some? && Normalize(p.spec.domain.value).None? }

  /** The first loop: every policy's domain, nothing cached yet. */
  method ConfiguredKeys(ps: seq<Policy>) returns (r: Result<map<string, Option<Entry>>>)
    ensures r == if exists p :: p in ps && BadName(p) then Err else Ok(SnapshotOf([], ConfiguredDomains(ps)))
  {
    var m: map<string, Option<Entry>> := map[];
    for i := 0 to |ps|
      invariant m.Keys == ConfiguredDomains(ps[..i]) && forall d :: d in m ==> m[d] == None
      invariant forall p :: p in ps[..i] ==> !BadName(p)
    {
      OneMorePolicy(ps, i);
      if ps[i].spec.domain.Some? {
        var normalized := Normalize(ps[i].spec.domain.value);
        if normalized.None? { assert ps[i] in ps && BadName(ps[i]); return Err; }
        if normalized.value !in m { m := m[normalized.value := None]; }
      }
    }
    assert ps[..|ps|] == ps;
    EmptySnapshot(m);
    return Ok(m);
  }

  lemma EmptySnapshot(m: map<string, Option<Entry>>)
    requires forall d :: d in m ==> m[d] == None
    ensures m == SnapshotOf([], m.Keys)
  {}

  lemma OneMorePolicy(ps: seq<Policy>, i: nat)
    requires i < |ps|
    ensures var name := ps[i].spec.domain;
      ConfiguredDomains(ps[..i + 1]) == ConfiguredDomains(ps[..i]) +
        if name.Some? && Normalize(name.value).Some? then {Normalize(name.value).value} else {}
    ensures forall p :: p in ps[..i + 1] <==> p in ps[..i] || p == ps[i]
  {
    assert ps[..i + 1] == ps[..i] + [ps[i]];
  }

  /** The second loop: later entries win. */
  method FillSnapshot(keys: map<string, Option<Entry>>, es: seq<Entry>) returns (m: map<string, Option<Entry>>)
    requires keys == SnapshotOf([], keys.Keys)
    ensures m == SnapshotOf(es, keys.Keys)
  {
    m := keys;
    for i := 0 to |es|
      invariant m == SnapshotOf(es[..i], keys.Keys) && m.Keys == keys.Keys
    {
      assert es[..i + 1][..i] == es[..i];
      if es[i].domain in m { m := m[es[i].domain := Some(es[i])]; }
    }
    assert es[..|es|] == es;
  }

  /** The shared cache file and the operations of this process on it. */
  class CacheStore {
    var file: CacheFile

    constructor (file: CacheFile)
      ensures this.file == file
    {
      this.file := file;
    }

    method Load(fails: bool) returns (r: Result<seq<Entry>>)
      ensures r == if fails then Err else Ok(Loaded(file))
    {
      if fails { return Err; }
      match file
      case None => return Ok([]);
      case Some(es) => return Ok(SortEntries(es));
    }

    method Save(es: seq<Entry>, fails: bool) returns (ok: bool)
      modifies this
      ensures ok == !fails
      ensures file == if fails then old(file) else Saved(es)
    {
      if fails { return false; }
      file := Some(SortEntries(es));
      return true;
    }

    method ResolveWithMode(
      cc: CacheConfig, name: string, write: bool, mode: Mode, env: CallEnv)
      returns (r: Result<Resolution>)
      modifies this
      ensures Outcome(r, file) == Resolve(cc, old(file), name, write, mode, env)
    {
      var normalized := Normalize(name);
      if normalized.None? { return Err; }
      var domain := normalized.value;
      if !cc.enabled {
        match env.live
        case Failed(_) => return Err;
        case Found(ips) => return Ok(Resolution(domain, UniqueSorted(ips), Live, None, None));
      }
      var loaded := Load(env.loadFails);
      if loaded.Err? { return Err; }
      var cache := loaded.value;
      var existing := Find(cache, domain);
      if mode == PreferFresh && existing.Some? && existing.value.expiresAt > env.now && existing.value.ips != [] {
        return Ok(Resolution(domain, existing.value.ips, CacheFresh, existing, existing.value.lastError));
      }
      match env.live
      case Failed(error) =>
        r := FallbackAfterLiveFailure(cc, domain, existing, env, write, cache, error);
      case Found(found) =>
        if found == [] {
          r := FallbackAfterLiveFailure(cc, domain, existing, env, write, cache, ZERO_ADDRESSES);
          return;
        }
        var ips := UniqueSorted(found);
        var entry := Entry(domain, ips, env.now, SatAdd(env.now, cc.ttl), "live", None);
        cache := UpsertEntry(cache, entry);
        if write {
          var ok := Save(cache, env.saveFails);
          if !ok { return Err; }
        }
        return Ok(Resolution(domain, ips, Live, Some(entry), None));
    }

    method FallbackAfterLiveFailure(
      cc: CacheConfig, domain: string, existing: Option<Entry>, env: CallEnv, write: bool, cache: seq<Entry>,
        error: string)
      returns (r: Result<Resolution>)
      requires existing == Find(cache, domain)
      modifies this
      ensures var d := Fallback(cc, cache, domain, env.now, error);
        Outcome(r, file) ==
          if d.save.None? then Outcome(Ok(d.answer), old(file))
          else Finish(old(file), d.save.value, write, env.saveFails, d.answer)
    {
      if existing.None? { return Ok(Resolution(domain, [], Empty, None, Some(error))); }
      var entry := existing.value.(lastError := Some(error));
      var withinGrace := SatAdd(entry.expiresAt, cc.grace) >= env.now;
      var allowStale := Trim(cc.unresolvedMode) == ALLOW_STALE;
      var canUseStale := (allowStale || !cc.failClosedUnresolved) && withinGrace && entry.ips != [];
      var updated := UpsertEntry(cache, entry);
      if write {
        var ok := Save(updated, env.saveFails);
        if !ok { return Err; }
      }
      if canUseStale { return Ok(Resolution(domain, entry.ips, CacheStale, Some(entry), Some(error))); }
      return Ok(Resolution(domain, [], Empty, Some(entry), Some(error)));
    }

    method UpsertLiveIpsFromProxy(cc: CacheConfig, name: string, found: seq<string>, write: bool, env: CallEnv)
      returns (r: Result<Option<Entry>>)
      modifies this
      ensures Outcome(r, file) == ProxyUpsert(cc, old(file), name, found, write, env)
    {
      var normalized := Normalize(name);
      if normalized.None? { return Err; }
      var ips := UniqueSorted(found);
      UniqueSortedExact(found);
      assert ips == [] <==> found == [] by { if found != [] { assert found[0] in ips; } else { assert ips == []; } }
      if ips == [] || !cc.enabled { return Ok(None); }
      var loaded := Load(env.loadFails);
      if loaded.Err? { return Err; }
      var entry := Entry(normalized.value, ips, env.now, SatAdd(env.now, cc.ttl), "dns-proxy", None);
      var cache := UpsertEntry(loaded.value, entry);
      if write {
        var ok := Save(cache, env.saveFails);
        if !ok { return Err; }
      }
      return Ok(Some(entry));
    }

    method PruneToConfigured(ps: seq<Policy>, write: bool, env: CallEnv) returns (r: Result<(nat, nat)>)
      modifies this
      ensures Outcome(r, file) == Prune(old(file), ConfiguredDomains(ps), write, env)
    {
      var loaded := Load(env.loadFails);
      if loaded.Err? { return Err; }
      var cache := loaded.value;
      var before := |cache|;
      cache := Retain(cache, ConfiguredDomains(ps));
      var after := |cache|;
      if write && before != after {
        var ok := Save(cache, env.saveFails);
        if !ok { return Err; }
      }
      return Ok((before, after));
    }

    method ConfiguredDomainSnapshot(ps: seq<Policy>, loadFails: bool) returns (r: Result<map<string, Option<Entry>>>)
      ensures r == Snapshot(file, ps, loadFails)
    {
      var loaded := Load(loadFails);
      if loaded.Err? { return Err; }
      var keys := ConfiguredKeys(ps);
      if keys.Err? { return Err; }
      assert keys.value.Keys == ConfiguredDomains(ps);
      var m := FillSnapshot(keys.value, loaded.value);
      return Ok(m);
    }
  }

  // ---------------------------------------------------------------- the list is a map

  /** The abstract cache: each domain with its first entry. */
  function ToMap(es: seq<Entry>): map<string, Entry> {
    if es == [] then map[] else ToMap(es[1..])[es[0].domain := es[0]]
  }

  ghost predicate NoDuplicates(es: seq<Entry>) {
    forall i, j :: 0 <= i < j < |es| ==> es[i].domain != es[j].domain
  }

  ghost predicate SortedEntries(es: seq<Entry>) {
    forall i, j :: 0 <= i < j < |es| ==> Less(es[i].domain, es[j].domain)
  }

  ghost predicate WeaklySorted(es: seq<Entry>) {
    forall i, j :: 0 <= i < j < |es| ==> !Less(es[j].domain, es[i].domain)
  }

  /** First-match search is map lookup. */
  lemma {:induction false} FindIsLookup(es: seq<Entry>, domain: string)
    ensures Find(es, domain) == if domain in ToMap(es) then Some(ToMap(es)[domain]) else None
  {
    if es != [] { FindIsLookup(es[1..], domain); }
  }

  lemma {:induction false} ToMapKeys(es: seq<Entry>)
    ensures forall d :: d in ToMap(es) <==> exists i :: 0 <= i < |es| && es[i].domain == d
    ensures forall d :: d in ToMap(es) ==> ToMap(es)[d].domain == d && ToMap(es)[d] in es
  {
    if es != [] {
      ToMapKeys(es[1..]);
      assert es == [es[0]] + es[1..];
      forall d ensures d in ToMap(es) <==> exists i :: 0 <= i < |es| && es[i].domain == d {
        if d in ToMap(es[1..]) {
          var i :| 0 <= i < |es[1..]| && es[1..][i].domain == d;
          assert es[i + 1].domain == d;
        }
        if i :| 0 < i < |es| && es[i].domain == d {
          assert es[1..][i - 1].domain == d;
        }
        assert es[0].domain in ToMap(es);
      }
    }
  }

  lemma {:induction false} UpsertMembers(es: seq<Entry>, e: Entry)
    ensures forall x :: x in Upsert(es, e) ==> x in es || x == e
  {
    if es != [] {
      UpsertMembers(es[1..], e);
      assert es == [es[0]] + es[1..];
    }
  }

  lemma {:induction false} UpsertKeepsDistinct(es: seq<Entry>, e: Entry)
    requires NoDuplicates(es)
    ensures NoDuplicates(Upsert(es, e))
  {
    if es != [] && es[0].domain != e.domain {
      UpsertKeepsDistinct(es[1..], e);
      UpsertMembers(es[1..], e);
      var r := Upsert(es[1..], e);
      forall j | 0 <= j < |r| ensures r[j].domain != es[0].domain {
        assert r[j] in r;
        if r[j] != e {
          var k :| 0 <= k < |es[1..]| && es[1..][k] == r[j];
          assert es[k + 1] == r[j];
        }
      }
    }
  }

  /** Upsert is map update, and it creates no duplicates. */
  lemma UpsertIsUpdate(es: seq<Entry>, e: Entry)
    ensures ToMap(Upsert(es, e)) == ToMap(es)[e.domain := e]
    ensures NoDuplicates(es) ==> NoDuplicates(Upsert(es, e))
    ensures forall x :: x in Upsert(es, e) ==> x in es || x == e
  {
    UpsertMap(es, e);
    UpsertMembers(es, e);
    if NoDuplicates(es) { UpsertKeepsDistinct(es, e); }
  }

  lemma {:induction false} UpsertMap(es: seq<Entry>, e: Entry)
    ensures ToMap(Upsert(es, e)) == ToMap(es)[e.domain := e]
  {
    if es != [] {
      UpsertMap(es[1..], e);
      if es[0].domain == e.domain {
        assert Upsert(es, e)[1..] == es[1..];
      } else {
        assert Upsert(es, e)[1..] == Upsert(es[1..], e);
      }
    }
  }

  /** Retain is map restriction. */
  lemma {:induction false} RetainIsRestriction(es: seq<Entry>, keep: set<string>)
    ensures ToMap(Retain(es, keep)) == map d | d in ToMap(es) && d in keep :: ToMap(es)[d]
  {
    if es != [] {
      RetainIsRestriction(es[1..], keep);
      if es[0].domain in keep {
        assert Retain(es, keep)[1..] == Retain(es[1..], keep);
      }
    }
  }

  /** Retain drops exactly the entries of other domains, and nothing when there are none. */
  lemma {:induction false} RetainExact(es: seq<Entry>, keep: set<string>)
    ensures forall x :: x in Retain(es, keep) <==> x in es && x.domain in keep
    ensures |Retain(es, keep)| <= |es|
    ensures |Retain(es, keep)| == |es| <==> Retain(es, keep) == es
    ensures (forall x :: x in es ==> x.domain in keep) <==> Retain(es, keep) == es
  {
    if es != [] {
      RetainExact(es[1..], keep);
      assert es == [es[0]] + es[1..];
    }
  }

  lemma {:induction false} RetainKeepsDistinct(es: seq<Entry>, keep: set<string>)
    requires NoDuplicates(es)
    ensures NoDuplicates(Retain(es, keep))
  {
    if es != [] {
      RetainKeepsDistinct(es[1..], keep);
      RetainExact(es[1..], keep);
      var t := Retain(es[1..], keep);
      forall j | 0 <= j < |t| ensures t[j].domain != es[0].domain {
        assert t[j] in t && t[j] in es[1..];
        var k :| 0 <= k < |es[1..]| && es[1..][k] == t[j];
        assert es[k + 1] == t[j];
      }
    }
  }

  lemma {:induction false} InsertEntryMembers(es: seq<Entry>, e: Entry)
    ensures multiset(InsertEntry(es, e)) == multiset(es) + multiset{e}
    ensures forall x :: x in InsertEntry(es, e) <==> x in es || x == e
  {
    if es != [] {
      assert es == [es[0]] + es[1..];
      if !Less(e.domain, es[0].domain) { InsertEntryMembers(es[1..], e); }
    }
  }

  /** Everything in a weakly sorted list is above anything below its head. */
  lemma AboveHead(es: seq<Entry>, d: string)
    requires WeaklySorted(es) && es != [] && Less(d, es[0].domain)
    ensures forall j :: 0 <= j < |es| ==> Less(d, es[j].domain) && es[j].domain != d && !Less(es[j].domain, d)
  {
    forall j | 0 <= j < |es| ensures Less(d, es[j].domain) && es[j].domain != d && !Less(es[j].domain, d) {
      LessTotal(es[0].domain, es[j].domain);
      if j > 0 && Less(es[0].domain, es[j].domain) { LessTransitive(d, es[0].domain, es[j].domain); }
      LessIrreflexive(d);
      if Less(es[j].domain, d) { LessTransitive(d, es[j].domain, d); }
    }
  }

  lemma {:induction false} InsertEntrySorted(es: seq<Entry>, e: Entry)
    requires WeaklySorted(es)
    ensures WeaklySorted(InsertEntry(es, e))
  {
    if es != [] {
      if Less(e.domain, es[0].domain) {
        AboveHead(es, e.domain);
      } else {
        InsertEntrySorted(es[1..], e);
        InsertEntryMembers(es[1..], e);
        var t := InsertEntry(es[1..], e);
        forall j | 0 <= j < |t| ensures !Less(t[j].domain, es[0].domain) {
          assert t[j] in t;
          if t[j] != e {
            var k :| 0 <= k < |es[1..]| && es[1..][k] == t[j];
            assert es[k + 1] == t[j];
          }
        }
      }
    }
  }

  lemma {:induction false} InsertEntryMap(es: seq<Entry>, e: Entry)
    requires WeaklySorted(es)
    ensures ToMap(InsertEntry(es, e)) == if e.domain in ToMap(es) then ToMap(es) else ToMap(es)[e.domain := e]
  {
    if es != [] {
      if Less(e.domain, es[0].domain) {
        AboveHead(es, e.domain);
        ToMapKeys(es);
        assert ([e] + es)[1..] == es;
      } else {
        InsertEntryMap(es[1..], e);
        assert InsertEntry(es, e)[1..] == InsertEntry(es[1..], e);
      }
    }
  }

  lemma {:induction false} ToMapSnoc(es: seq<Entry>, e: Entry)
    ensures ToMap(es + [e]) == if e.domain in ToMap(es) then ToMap(es) else ToMap(es)[e.domain := e]
  {
    if es == [] {
      assert ([e])[1..] == [];
    } else {
      ToMapSnoc(es[1..], e);
      assert (es + [e])[1..] == es[1..] + [e];
    }
  }

  /** Sorting is a permutation that leaves the map as it is, even on lists with duplicates;
      without duplicates its result is strictly sorted. */
  lemma {:induction false} SortIsIdentity(es: seq<Entry>)
    ensures WeaklySorted(SortEntries(es))
    ensures multiset(SortEntries(es)) == multiset(es)
    ensures forall x :: x in SortEntries(es) <==> x in es
    ensures ToMap(SortEntries(es)) == ToMap(es)
  {
    SortPermutes(es);
    SortOrders(es);
    SortMap(es);
  }

  lemma {:induction false} SortOrders(es: seq<Entry>)
    ensures WeaklySorted(SortEntries(es))
  {
    if es != [] {
      SortOrders(es[..|es| - 1]);
      InsertEntrySorted(SortEntries(es[..|es| - 1]), es[|es| - 1]);
    }
  }

  lemma {:induction false} SortMap(es: seq<Entry>)
    ensures ToMap(SortEntries(es)) == ToMap(es)
  {
    if es != [] {
      var init, last := es[..|es| - 1], es[|es| - 1];
      SortMap(init);
      SortOrders(init);
      InsertEntryMap(SortEntries(init), last);
      ToMapSnoc(init, last);
      assert es == init + [last];
    }
  }

  lemma {:induction false} SortPermutes(es: seq<Entry>)
    ensures multiset(SortEntries(es)) == multiset(es)
    ensures forall x :: x in SortEntries(es) <==> x in es
  {
    if es != [] {
      var init, last := es[..|es| - 1], es[|es| - 1];
      SortPermutes(init);
      InsertEntryMembers(SortEntries(init), last);
      assert es == init + [last];
    }
  }

  lemma {:induction false} SortStrict(es: seq<Entry>)
    requires NoDuplicates(es)
    ensures SortedEntries(SortEntries(es)) && NoDuplicates(SortEntries(es))
  {
    if es != [] {
      var init, last := es[..|es| - 1], es[|es| - 1];
      SortStrict(init);
      SortIsIdentity(init);
      forall x | x in SortEntries(init) ensures x.domain != last.domain {
        var k :| 0 <= k < |init| && init[k] == x;
      }
      InsertEntryStrict(SortEntries(init), last);
    }
    StrictNoDuplicates(SortEntries(es));
  }

  lemma StrictNoDuplicates(es: seq<Entry>)
    requires SortedEntries(es)
    ensures NoDuplicates(es)
  {
    forall i, j | 0 <= i < j < |es| ensures es[i].domain != es[j].domain { LessIrreflexive(es[i].domain); }
  }

  lemma {:induction false} InsertEntryStrict(es: seq<Entry>, e: Entry)
    requires SortedEntries(es) && forall x :: x in es ==> x.domain != e.domain
    ensures SortedEntries(InsertEntry(es, e))
  {
    if es != [] {
      assert es[0] in es;
      if Less(e.domain, es[0].domain) {
        forall j | 0 < j < |es| ensures Less(e.domain, es[j].domain) {
          LessTransitive(e.domain, es[0].domain, es[j].domain);
        }
      } else {
        LessTotal(e.domain, es[0].domain);
        InsertEntryStrict(es[1..], e);
        InsertEntryMembers(es[1..], e);
        var t := InsertEntry(es[1..], e);
        forall j | 0 <= j < |t| ensures Less(es[0].domain, t[j].domain) {
          assert t[j] in t;
          if t[j] != e {
            var k :| 0 <= k < |es[1..]| && es[1..][k] == t[j];
            assert es[k + 1] == t[j];
          }
        }
      }
    }
  }

  /** Saving and loading give back the same map. */
  lemma SaveLoad(es: seq<Entry>)
    ensures ToMap(Loaded(Saved(es))) == ToMap(es)
  {
    SortIsIdentity(es);
    SortIsIdentity(SortEntries(es));
  }

  /** On duplicate-free caches the last-wins snapshot and first-match search agree. */
  lemma {:induction false} SnapshotAgreesWithFind(es: seq<Entry>, domains: set<string>)
    requires NoDuplicates(es)
    ensures SnapshotOf(es, domains).Keys == domains
    ensures forall d :: d in domains ==> SnapshotOf(es, domains)[d] == Find(es, d)
  {
    if es != [] {
      var init, last := es[..|es| - 1], es[|es| - 1];
      SnapshotAgreesWithFind(init, domains);
      assert es == init + [last];
      ToMapSnoc(init, last);
      ToMapKeys(init);
      forall d | d in domains ensures SnapshotOf(es, domains)[d] == Find(es, d) {
        FindIsLookup(es, d);
        FindIsLookup(init, d);
      }
    }
  }
}
