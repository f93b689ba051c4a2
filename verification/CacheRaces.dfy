/** What overlapping loads and saves of the shared file do to a name: a save sets every name to what its
    operation makes of the entry it loaded, whatever was saved in between; and an entry survives any
    interleaving of operations that leave it alone. */
module CacheRaces {
  import opened Text
  import opened Domain
  import opened Config
  import opened Cache
  import opened CacheSystem

  function StepAll(cc: CacheConfig, s: Sys, actions: seq<Action>): Sys
    decreases |actions|
  {
    if actions == [] then s else StepAll(cc, Step(cc, s, actions[0]), actions[1..])
  }

  lemma {:induction false} StepAllSnoc(cc: CacheConfig, s: Sys, actions: seq<Action>, a: Action)
    ensures StepAll(cc, s, actions + [a]) == Step(cc, StepAll(cc, s, actions), a)
    decreases |actions|
  {
    if actions == [] {
      assert [a][1..] == [] && [] + [a] == [a];
    } else {
      assert (actions + [a])[1..] == actions[1..] + [a];
      StepAllSnoc(cc, Step(cc, s, actions[0]), actions[1..], a);
    }
  }

  /** Runs from the missing file are steps from the start. */
  lemma {:induction false} RunsAreSteps(cc: CacheConfig, actions: seq<Action>)
    ensures SysAfter(cc, actions) == StepAll(cc, START, actions)
  {
    if actions != [] {
      var init, last := actions[..|actions| - 1], actions[|actions| - 1];
      RunsAreSteps(cc, init);
      StepAllSnoc(cc, START, init, last);
      assert actions == init + [last];
    }
  }

  // ---------------------------------------------------------------- what a save does

  /** The operation is not about this domain, and does not prune it. */
  predicate Untargeted(op: Op, d: string) {
    match op
    case ResolveOp(name, _) => Normalize(name) != Some(d)
    case ProxyOp(name, _) => Normalize(name) != Some(d)
    case PruneOp(keep) => d in keep
  }

  function ErrorOf(live: Lookup): string { if live.Failed? then live.error else ZERO_ADDRESSES }

  /** What an operation that saves makes of the entry of a domain. */
  function EntryAfter(cc: CacheConfig, before: Option<Entry>, op: Op, env: CallEnv, d: string): Option<Entry> {
    if Untargeted(op, d) then before
    else
      match op
      case PruneOp(_) => None
      case ProxyOp(_, ips) => Some(LiveEntry(cc, d, ips, env.now, "dns-proxy"))
      case ResolveOp(_, _) =>
        if !LookupFails(env) then Some(LiveEntry(cc, d, env.live.ips, env.now, "live"))
        else if before.None? then None
        else Some(before.value.(lastError := Some(ErrorOf(env.live))))
  }

  lemma PlannedEntry(cc: CacheConfig, es: seq<Entry>, op: Op, env: CallEnv, d: string)
    requires PlanOf(cc, es, op, env).save.Some?
    ensures Find(PlanOf(cc, es, op, env).save.value, d) == EntryAfter(cc, Find(es, d), op, env, d)
  {
    match op
    case ResolveOp(name, mode) =>
      var mine := Normalize(name).value;
      DecideSaves(cc, es, mine, mode, env.now, env.live);
      FindUpsert(es, Decide(cc, es, mine, mode, env.now, env.live).answer.entry.value, d);
    case ProxyOp(name, ips) => FindUpsert(es, LiveEntry(cc, Normalize(name).value, ips, env.now, "dns-proxy"), d);
    case PruneOp(keep) => FindRetain(es, keep, d);
  }

  predicate IsCommitOf(a: Action, pid: nat) { a.Commit? && a.pid == pid }

  /** What a process is about to save, nobody else changes. */
  lemma {:induction false} PendingStays(cc: CacheConfig, s: Sys, actions: seq<Action>, pid: nat)
    requires pid in s.pending && forall i :: 0 <= i < |actions| ==> !IsCommitOf(actions[i], pid)
    ensures var s' := StepAll(cc, s, actions); pid in s'.pending && s'.pending[pid] == s.pending[pid]
    decreases |actions|
  {
    if actions != [] { PendingStays(cc, Step(cc, s, actions[0]), actions[1..], pid); }
  }

  /** A save is decided by its load. Whatever the other processes did in between, after the save every
      domain, the operation's own included, has what the operation makes of the entry that was stored
      when it loaded; so an update in between stays only if it happens to equal that. */
  lemma {:induction false} CommitIsDecidedByLoad(
    cc: CacheConfig, s: Sys, pid: nat, op: Op, env: CallEnv, between: seq<Action>, d: string)
    requires pid !in s.pending && !env.loadFails && PlanOf(cc, Loaded(s.file), op, env).save.Some?
    requires forall i :: 0 <= i < |between| ==> !IsCommitOf(between[i], pid)
    ensures var atSave := StepAll(cc, Step(cc, s, Begin(pid, op, true, env)), between);
      Stored(Step(cc, atSave, Commit(pid, false)).file, d) == EntryAfter(cc, Stored(s.file, d), op, env, d)
  {
    var begun := Step(cc, s, Begin(pid, op, true, env));
    PendingStays(cc, begun, between, pid);
    PlannedEntry(cc, Loaded(s.file), op, env, d);
    StoredAfterSave(begun.pending[pid], d);
  }

  /** In particular a failed refresh puts back the addresses it loaded, over any newer ones. */
  lemma {:induction false} FailedRefreshRestores(
    cc: CacheConfig, s: Sys, pid: nat, name: string, mode: Mode, env: CallEnv, between: seq<Action>, d: string)
    requires LookupFails(env) && pid !in s.pending && !env.loadFails
    requires PlanOf(cc, Loaded(s.file), ResolveOp(name, mode), env).save.Some?
    requires forall i :: 0 <= i < |between| ==> !IsCommitOf(between[i], pid)
    ensures var atSave := StepAll(cc, Step(cc, s, Begin(pid, ResolveOp(name, mode), true, env)), between);
      SameData(Stored(Step(cc, atSave, Commit(pid, false)).file, d), Stored(s.file, d))
  {
    CommitIsDecidedByLoad(cc, s, pid, ResolveOp(name, mode), env, between, d);
  }

  // ---------------------------------------------------------------- runs that lose an update

  /** A proxy answer from load to save, with nothing in between. */
  function Answering(pid: nat, d: string, ips: seq<string>, env: CallEnv): seq<Action> {
    [Begin(pid, ProxyOp(d, ips), true, env), Commit(pid, false)]
  }

  lemma AnsweredAlone(cc: CacheConfig, s: Sys, pid: nat, d: string, ips: seq<string>, env: CallEnv)
    requires cc.enabled && Canonical(d) && ips != [] && !env.loadFails && pid !in s.pending
    ensures var s' := StepAll(cc, s, Answering(pid, d, ips, env));
      s'.pending == s.pending && Stored(s'.file, d) == Some(LiveEntry(cc, d, ips, env.now, "dns-proxy"))
  {
    NormalizeFixedPoints(d);
    TwoSteps(cc, s, Begin(pid, ProxyOp(d, ips), true, env), Commit(pid, false));
    SavedAtOnce(cc, s, pid, ProxyOp(d, ips), env, d);
  }

  /** A save right after its load. */
  lemma SavedAtOnce(cc: CacheConfig, s: Sys, pid: nat, op: Op, env: CallEnv, d: string)
    requires pid !in s.pending && !env.loadFails && PlanOf(cc, Loaded(s.file), op, env).save.Some?
    ensures var s' := Step(cc, Step(cc, s, Begin(pid, op, true, env)), Commit(pid, false));
      s'.pending == s.pending && Stored(s'.file, d) == EntryAfter(cc, Stored(s.file, d), op, env, d)
  {
    CommitIsDecidedByLoad(cc, s, pid, op, env, [], d);
    var list := PlanOf(cc, Loaded(s.file), op, env).save.value;
    assert s.pending[pid := list] - {pid} == s.pending;
  }

  /** Two names: of two proxies that load before either saves, the first one's answer is gone. */
  lemma UpdateCanBeLost(cc: CacheConfig, d1: string, d2: string, ips: seq<string>, env: CallEnv)
    requires cc.enabled && Canonical(d1) && Canonical(d2) && d1 != d2 && ips != [] && !env.loadFails
    ensures var begin1, begin2 := Begin(1, ProxyOp(d1, ips), true, env), Begin(2, ProxyOp(d2, ips), true, env);
      var end := SysAfter(cc, [begin1, begin2, Commit(1, false), Commit(2, false)]);
      && Stored(end.file, d1).None? && Stored(end.file, d2).Some?
      && Recorded(d1, UniqueSorted(ips), env.now) in end.learned
  {
    var e1, e2 := LiveEntry(cc, d1, ips, env.now, "dns-proxy"), LiveEntry(cc, d2, ips, env.now, "dns-proxy");
    var begin1, begin2 := Begin(1, ProxyOp(d1, ips), true, env), Begin(2, ProxyOp(d2, ips), true, env);
    var s1 := Step(cc, START, begin1);
    BeginProxy(cc, START, 1, d1, ips, env);
    BeginProxy(cc, s1, 2, d2, ips, env);
    RunsAreSteps(cc, [begin1, begin2, Commit(1, false), Commit(2, false)]);
    FourSteps(cc, START, begin1, begin2, Commit(1, false), Commit(2, false));
    SecondSaveStays(cc, Step(cc, s1, begin2), e1, e2);
  }

  lemma SecondSaveStays(cc: CacheConfig, s: Sys, e1: Entry, e2: Entry)
    requires s.pending == map[1 := [e1], 2 := [e2]] && e1.domain != e2.domain
    ensures var end := Step(cc, Step(cc, s, Commit(1, false)), Commit(2, false));
      Stored(end.file, e1.domain).None? && Stored(end.file, e2.domain) == Some(e2) && end.learned == s.learned
  {
    StoredAfterSave([e2], e1.domain);
    StoredAfterSave([e2], e2.domain);
  }

  lemma BeginProxy(cc: CacheConfig, s: Sys, pid: nat, d: string, ips: seq<string>, env: CallEnv)
    requires cc.enabled && Canonical(d) && ips != [] && !env.loadFails && pid !in s.pending && s.file.None?
    ensures var e := LiveEntry(cc, d, ips, env.now, "dns-proxy");
      Step(cc, s, Begin(pid, ProxyOp(d, ips), true, env)) ==
        s.(learned := s.learned + {Recorded(d, e.ips, env.now)}, pending := s.pending[pid := [e]])
  {
    NormalizeFixedPoints(d);
  }

  lemma FourSteps(cc: CacheConfig, s: Sys, a: Action, b: Action, x: Action, y: Action)
    ensures StepAll(cc, s, [a, b, x, y]) == Step(cc, Step(cc, Step(cc, Step(cc, s, a), b), x), y)
  {
    assert [a, b, x, y] == [a, b] + [x, y];
    StepAllAppend(cc, s, [a, b], [x, y]);
    TwoSteps(cc, s, a, b);
    TwoSteps(cc, StepAll(cc, s, [a, b]), x, y);
  }

  lemma TwoSteps(cc: CacheConfig, s: Sys, a: Action, b: Action)
    ensures StepAll(cc, s, [a, b]) == Step(cc, Step(cc, s, a), b)
  {
    assert [a, b] == [a] + [b] && [] + [a] == [a];
    StepAllSnoc(cc, s, [a], b);
    StepAllSnoc(cc, s, [], a);
  }

  /** One name: a refresh loads, the proxy stores a newer answer, and the refresh fails and saves. The
      newer addresses are gone and the old ones are back. */
  lemma {:induction false} FailedRefreshUndoesUpdate(
    cc: CacheConfig, s: Sys, d: string, was: Entry, ips: seq<string>, refresh: CallEnv, proxy: CallEnv)
    requires cc.enabled && Canonical(d) && ips != [] && Stored(s.file, d) == Some(was)
    requires 1 !in s.pending && 2 !in s.pending && LookupFails(refresh) && !refresh.loadFails && !proxy.loadFails
    ensures var begun := Step(cc, s, Begin(1, ResolveOp(d, ForceLive), true, refresh));
      var answered := StepAll(cc, begun, Answering(2, d, ips, proxy));
      var end := Step(cc, answered, Commit(1, false));
      && Stored(answered.file, d) == Some(LiveEntry(cc, d, ips, proxy.now, "dns-proxy"))
      && Stored(end.file, d) == Some(was.(lastError := Some(ErrorOf(refresh.live))))
  {
    RefreshFails(cc, s, d, was, refresh);
    var begun := Step(cc, s, Begin(1, ResolveOp(d, ForceLive), true, refresh));
    AnsweredAlone(cc, begun, 2, d, ips, proxy);
    CommitIsDecidedByLoad(cc, s, 1, ResolveOp(d, ForceLive), refresh, Answering(2, d, ips, proxy), d);
  }

  lemma RefreshFails(cc: CacheConfig, s: Sys, d: string, was: Entry, env: CallEnv)
    requires cc.enabled && Canonical(d) && Stored(s.file, d) == Some(was) && LookupFails(env)
    ensures PlanOf(cc, Loaded(s.file), ResolveOp(d, ForceLive), env).save.Some?
    ensures EntryAfter(cc, Some(was), ResolveOp(d, ForceLive), env, d) ==
      Some(was.(lastError := Some(ErrorOf(env.live))))
  {
    NormalizeFixedPoints(d);
  }

  /** Such a run exists from the missing file. */
  lemma RefreshCanUndoUpdate(
    cc: CacheConfig, d: string, first: seq<string>, second: seq<string>, refresh: CallEnv, proxy: CallEnv)
    requires cc.enabled && Canonical(d) && first != [] && second != []
    requires LookupFails(refresh) && !refresh.loadFails && !proxy.loadFails
    ensures var run := Answering(0, d, first, proxy) + [Begin(1, ResolveOp(d, ForceLive), true, refresh)]
        + Answering(2, d, second, proxy);
      var before, after := SysAfter(cc, run), SysAfter(cc, run + [Commit(1, false)]);
      && Stored(before.file, d).Some? && Stored(before.file, d).value.ips == UniqueSorted(second)
      && Stored(after.file, d).Some? && Stored(after.file, d).value.ips == UniqueSorted(first)
  {
    var stored := StepAll(cc, START, Answering(0, d, first, proxy));
    AnsweredAlone(cc, START, 0, d, first, proxy);
    FailedRefreshUndoesUpdate(cc, stored, d, Stored(stored.file, d).value, second, refresh, proxy);
    var begin := Begin(1, ResolveOp(d, ForceLive), true, refresh);
    var run := Answering(0, d, first, proxy) + [begin] + Answering(2, d, second, proxy);
    RunsAreSteps(cc, run);
    RunsAreSteps(cc, run + [Commit(1, false)]);
    StepAllSnoc(cc, START, run, Commit(1, false));
    StepAllSnoc(cc, START, Answering(0, d, first, proxy), begin);
    StepAllAppend(cc, START, Answering(0, d, first, proxy) + [begin], Answering(2, d, second, proxy));
  }

  lemma {:induction false} StepAllAppend(cc: CacheConfig, s: Sys, a: seq<Action>, b: seq<Action>)
    ensures StepAll(cc, s, a + b) == StepAll(cc, StepAll(cc, s, a), b)
    decreases |a|
  {
    if a == [] {
      assert a + b == b;
    } else {
      assert (a + b)[1..] == a[1..] + b;
      StepAllAppend(cc, Step(cc, s, a[0]), a[1..], b);
    }
  }

  // ---------------------------------------------------------------- what survives every interleaving

  /** The file, and everything loaded and not yet saved, have this entry of the domain, up to the note
      of the last error. */
  ghost predicate Carries(s: Sys, d: string, e: Option<Entry>) {
    && SameData(Stored(s.file, d), e)
    && forall p :: p in s.pending ==> SameData(Find(s.pending[p], d), e)
  }

  /** The operation leaves the entry alone: it is about other names, or it is a resolution that fails or
      finds the entry fresh. */
  predicate Gentle(a: Action, d: string, e: Option<Entry>) {
    a.Begin? ==>
      || Untargeted(a.op, d)
      || (a.op.ResolveOp? && (LookupFails(a.env) || (a.op.mode == PreferFresh && e.Some? && Fresh(e.value, a.env.now))))
  }

  lemma StepCarries(cc: CacheConfig, s: Sys, a: Action, d: string, e: Option<Entry>)
    requires Carries(s, d, e) && Gentle(a, d, e)
    ensures Carries(Step(cc, s, a), d, e)
  {
    match a
    case Begin(pid, op, write, env) =>
      var plan := PlanOf(cc, Loaded(s.file), op, env);
      if plan.save.Some? { PlannedEntry(cc, Loaded(s.file), op, env, d); }
    case Commit(pid, fails) =>
      if pid in s.pending { StoredAfterSave(s.pending[pid], d); }
  }

  /** Once the file and all pending lists carry an entry, it survives every interleaving of the loads
      and saves of operations that leave it alone. */
  lemma {:induction false} InterleavingsCarry(
    cc: CacheConfig, s: Sys, actions: seq<Action>, d: string, e: Option<Entry>)
    requires Carries(s, d, e) && forall i :: 0 <= i < |actions| ==> Gentle(actions[i], d, e)
    ensures Carries(StepAll(cc, s, actions), d, e)
    decreases |actions|
  {
    if actions != [] {
      StepCarries(cc, s, actions[0], d, e);
      InterleavingsCarry(cc, Step(cc, s, actions[0]), actions[1..], d, e);
    }
  }

  /** Interleaved failed refreshes alone never change what is stored for any name. */
  lemma {:induction false} InterleavedFailuresKeepData(cc: CacheConfig, s: Sys, actions: seq<Action>, d: string)
    requires s.pending == map[]
    requires forall i :: 0 <= i < |actions| && actions[i].Begin? ==>
      actions[i].op.ResolveOp? && LookupFails(actions[i].env)
    ensures SameData(Stored(StepAll(cc, s, actions).file, d), Stored(s.file, d))
  {
    InterleavingsCarry(cc, s, actions, d, Stored(s.file, d));
  }
}
