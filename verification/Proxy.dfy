/** The DNS proxy's searches: which policy a name belongs to, and which upstream answers. What each
    upstream does is an input. */
module Proxy {
  import opened Text
  import opened Domain
  import opened Config
  import opened Wire

  // ---------------------------------------------------------------- the policy of a name

  /** `find_enabled_domain_policy`, as a value: a malformed domain of an enabled policy before the
      first match is an error. */
  function FindPolicy(ps: seq<Policy>, name: string): Result<Option<Policy>> {
    if Normalize(name).None? then Err else FindFrom(ps, Normalize(name).value)
  }

  function FindFrom(ps: seq<Policy>, d: string): Result<Option<Policy>> {
    if ps == [] then Ok(None)
    else if !EnabledDomain(ps[0]) then FindFrom(ps[1..], d)
    else
      match Normalize(ps[0].spec.domain.value)
      case None => Err
      case Some(mine) => if mine == d then Ok(Some(ps[0])) else FindFrom(ps[1..], d)
  }

  method FindEnabledDomainPolicy(ps: seq<Policy>, name: string) returns (r: Result<Option<Policy>>)
    ensures r == FindPolicy(ps, name)
  {
    var normalized := Normalize(name);
    if normalized.None? { return Err; }
    for i := 0 to |ps|
      invariant FindFrom(ps, normalized.value) == FindFrom(ps[i..], normalized.value)
    {
      assert ps[i..][1..] == ps[i + 1..];
      if !EnabledDomain(ps[i]) { continue; }
      match Normalize(ps[i].spec.domain.value)
      case None => return Err;
      case Some(mine) => if mine == normalized.value { return Ok(Some(ps[i])); }
    }
    return Ok(None);
  }

  /** The policy is for this name. */
  predicate IsFor(p: Policy, d: string) {
    p.enabled && p.spec.domain.Some? && Normalize(p.spec.domain.value) == Some(d)
  }

  predicate BadDomain(p: Policy) {
    p.enabled && p.spec.domain.Some? && Normalize(p.spec.domain.value).None?
  }

  ghost predicate WellFormed(ps: seq<Policy>) { forall p :: p in ps ==> !BadDomain(p) }

  /** The policy at i is the first that ends the search: for the name, or malformed. */
  ghost predicate Decides(ps: seq<Policy>, d: string, i: nat) {
    && i < |ps| && (BadDomain(ps[i]) || IsFor(ps[i], d))
    && forall j :: 0 <= j < i ==> !BadDomain(ps[j]) && !IsFor(ps[j], d)
  }

  /** The search ends at the first policy that is for the name or malformed: with that policy, or with
      an error; and it finds nothing exactly when there is no such policy. */
  lemma {:induction false} FindFromExact(ps: seq<Policy>, d: string)
    ensures forall i: nat :: Decides(ps, d, i) ==> FindFrom(ps, d) == if BadDomain(ps[i]) then Err else Ok(Some(ps[i]))
    ensures FindFrom(ps, d) == Ok(None) <==> WellFormed(ps) && forall p :: p in ps ==> !IsFor(p, d)
    ensures FindFrom(ps, d) != Ok(None) ==> exists i: nat :: Decides(ps, d, i)
  {
    if ps != [] {
      FindFromExact(ps[1..], d);
      assert ps == [ps[0]] + ps[1..] && ps[0] in ps && forall p :: p in ps[1..] ==> p in ps;
      if BadDomain(ps[0]) || IsFor(ps[0], d) {
        assert Decides(ps, d, 0);
        assert forall i: nat :: Decides(ps, d, i) ==> !(0 < i);
      } else {
        forall i: nat ensures Decides(ps, d, i) <==> i > 0 && Decides(ps[1..], d, i - 1) { LaterDecides(ps, d, i); }
        if i: nat :| Decides(ps[1..], d, i) { assert Decides(ps, d, i + 1); }
      }
    }
  }

  lemma LaterDecides(ps: seq<Policy>, d: string, i: nat)
    requires ps != [] && !BadDomain(ps[0]) && !IsFor(ps[0], d)
    ensures Decides(ps, d, i) <==> i > 0 && Decides(ps[1..], d, i - 1)
  {
    if i > 0 {
      assert forall j :: 0 <= j < |ps| - 1 ==> ps[1..][j] == ps[j + 1];
      assert forall j :: 0 < j < |ps| ==> ps[j] == ps[1..][j - 1];
    }
  }

  /** What is found is a policy for the name; an error means a malformed policy. */
  lemma FoundIsFor(ps: seq<Policy>, d: string)
    ensures var r := FindFrom(ps, d);
      && (r.Ok? && r.value.Some? ==> r.value.value in ps && IsFor(r.value.value, d))
      && (r.Err? ==> !WellFormed(ps))
  {
    FindFromExact(ps, d);
    if FindFrom(ps, d) != Ok(None) {
      var i: nat :| Decides(ps, d, i);
      assert ps[i] in ps;
    }
  }

  /** A name of no policy is searched for in vain, or with an error, exactly as no policy is malformed
      or some is. */
  lemma SearchInVain(ps: seq<Policy>, d: string)
    requires forall p :: p in ps ==> !IsFor(p, d)
    ensures FindFrom(ps, d) == if WellFormed(ps) then Ok(None) else Err
  {
    FindFromExact(ps, d);
    FoundIsFor(ps, d);
  }

  /** The first policy decides. */
  lemma FirstDecides(p: Policy, rest: seq<Policy>, d: string)
    ensures BadDomain(p) ==> FindFrom([p] + rest, d) == Err
    ensures IsFor(p, d) ==> FindFrom([p] + rest, d) == Ok(Some(p))
  {}

  /** No policy of the list depends on its place in it. */
  ghost predicate OrderFreeSearch(ps: seq<Policy>) {
    forall qs, name :: Permuted(qs, ps) ==> FindPolicy(qs, name) == FindPolicy(ps, name)
  }

  /** The search does not depend on the order of the policies exactly when either no enabled domain
      policy is malformed and no two are for one name, or all of them are malformed. */
  lemma SearchIsOrderFreeIff(ps: seq<Policy>)
    requires forall i, j :: 0 <= i < j < |ps| ==> ps[i].id != ps[j].id
    ensures OrderFreeSearch(ps) <==>
      (WellFormed(ps) && DomainsDistinct(ps)) || (forall p :: p in ps && EnabledDomain(p) ==> BadDomain(p))
  {
    if WellFormed(ps) && DomainsDistinct(ps) {
      forall qs, name | Permuted(qs, ps) ensures FindPolicy(qs, name) == FindPolicy(ps, name) {
        DistinctSearch(ps, qs, name);
      }
    } else if forall p :: p in ps && EnabledDomain(p) ==> BadDomain(p) {
      forall qs, name | Permuted(qs, ps) ensures FindPolicy(qs, name) == FindPolicy(ps, name) {
        MalformedSearch(ps, qs, name);
      }
    } else if !WellFormed(ps) {
      var good :| good in ps && EnabledDomain(good) && !BadDomain(good);
      var bad :| bad in ps && BadDomain(bad);
      SearchDiffers(ps, good, bad);
    } else {
      var i, j :| 0 <= i < j < |ps| && EnabledDomain(ps[i]) && EnabledDomain(ps[j])
        && Normalize(ps[i].spec.domain.value).Some?
        && Normalize(ps[i].spec.domain.value) == Normalize(ps[j].spec.domain.value);
      SearchDiffers(ps, ps[i], ps[j]);
    }
  }

  lemma SameMembers<T>(p: seq<T>, q: seq<T>)
    requires Permuted(p, q)
    ensures forall x :: x in p <==> x in q
  {
    forall x ensures x in p <==> x in q { assert x in p <==> x in multiset(p); assert x in q <==> x in multiset(q); }
  }

  lemma DistinctSearch(ps: seq<Policy>, qs: seq<Policy>, name: string)
    requires WellFormed(ps) && DomainsDistinct(ps) && Permuted(qs, ps)
    ensures FindPolicy(qs, name) == FindPolicy(ps, name)
  {
    SameMembers(qs, ps);
    if Normalize(name).Some? {
      var d := Normalize(name).value;
      FindFromExact(ps, d);
      FindFromExact(qs, d);
      FoundIsFor(ps, d);
      FoundIsFor(qs, d);
      var a, b := FindFrom(ps, d).value, FindFrom(qs, d).value;
      if a.Some? && b.Some? { OnePolicyPerName(ps, a.value, b.value, d); }
    }
  }

  lemma OnePolicyPerName(ps: seq<Policy>, a: Policy, b: Policy, d: string)
    requires DomainsDistinct(ps) && a in ps && b in ps && IsFor(a, d) && IsFor(b, d)
    ensures a == b
  {
    var i :| 0 <= i < |ps| && ps[i] == a;
    var j :| 0 <= j < |ps| && ps[j] == b;
  }

  lemma {:induction false} AllBad(ps: seq<Policy>, d: string)
    requires forall p :: p in ps && EnabledDomain(p) ==> BadDomain(p)
    ensures FindFrom(ps, d) == if exists p :: p in ps && EnabledDomain(p) then Err else Ok(None)
  {
    if ps != [] {
      assert ps[0] in ps && forall p :: p in ps[1..] ==> p in ps;
      if !EnabledDomain(ps[0]) { AllBad(ps[1..], d); }
      assert forall p :: p in ps ==> p == ps[0] || p in ps[1..];
    }
  }

  lemma MalformedSearch(ps: seq<Policy>, qs: seq<Policy>, name: string)
    requires Permuted(qs, ps) && forall p :: p in ps && EnabledDomain(p) ==> BadDomain(p)
    ensures FindPolicy(qs, name) == FindPolicy(ps, name)
  {
    SameMembers(qs, ps);
    if Normalize(name).Some? {
      AllBad(ps, Normalize(name).value);
      AllBad(qs, Normalize(name).value);
    }
  }

  /** Two policies that disagree about a name: whichever comes first decides. */
  lemma SearchDiffers(ps: seq<Policy>, a: Policy, b: Policy)
    requires a in ps && b in ps && EnabledDomain(a) && !BadDomain(a) && a != b
    requires BadDomain(b) || IsFor(b, Normalize(a.spec.domain.value).value)
    ensures !OrderFreeSearch(ps)
  {
    var name := a.spec.domain.value;
    var d := Normalize(name).value;
    var behindA := OneFirst(ps, a);
    var behindB := OneFirst(ps, b);
    FirstDecides(a, behindA, d);
    FirstDecides(b, behindB, d);
    assert FindPolicy([a] + behindA, name) != FindPolicy([b] + behindB, name);
  }

  /** For a validated configuration whose domain policies are well formed and free of KELVIN SIGN,
      the search finds the one policy for a name, in whatever order the policies are listed. */
  lemma {:induction false} ValidatedSearch(c: Config, parse: string -> Option<SockAddr>, p: Policy, name: string)
    requires Valid(c, parse) && WellFormed(c.policies)
    requires forall q :: q in c.policies && EnabledDomain(q) ==> KELVIN !in Bare(q.spec.domain.value)
    ensures OrderFreeSearch(c.policies)
    ensures Normalize(name).Some? && p in c.policies && IsFor(p, Normalize(name).value) ==>
      FindPolicy(c.policies, name) == Ok(Some(p))
  {
    ValidDomainsDistinct(c, parse);
    SearchIsOrderFreeIff(c.policies);
    if Normalize(name).Some? && p in c.policies && IsFor(p, Normalize(name).value) {
      var d := Normalize(name).value;
      FindFromExact(c.policies, d);
      FoundIsFor(c.policies, d);
      OnePolicyPerName(c.policies, FindFrom(c.policies, d).value.value, p, d);
    }
  }

  // ---------------------------------------------------------------- failover

  /** The reply, if any, and the upstreams tried for it, in order. */
  datatype Forwarded = Forwarded(reply: Option<seq<Byte>>, tried: seq<SockAddr>)

  /** What the i-th attempt, at an upstream, brings: a reply or a failure. */
  type Upstreams = (nat, SockAddr) -> Option<seq<Byte>>

  /** `forward_query_with_failover` from the i-th upstream on, as a value. */
  function Forward(upstreams: seq<SockAddr>, outcome: Upstreams, i: nat): (r: Forwarded)
    requires i <= |upstreams|
    decreases |upstreams| - i
  {
    if i == |upstreams| then Forwarded(None, [])
    else
      match outcome(i, upstreams[i])
      case Some(reply) => Forwarded(Some(reply), [upstreams[i]])
      case None =>
        var later := Forward(upstreams, outcome, i + 1);
        Forwarded(later.reply, [upstreams[i]] + later.tried)
  }

  method ForwardQueryWithFailover(upstreams: seq<SockAddr>, outcome: Upstreams) returns (r: Forwarded)
    ensures r == Forward(upstreams, outcome, 0)
  {
    var tried: seq<SockAddr> := [];
    for i := 0 to |upstreams|
      invariant Forward(upstreams, outcome, 0).reply == Forward(upstreams, outcome, i).reply
      invariant Forward(upstreams, outcome, 0).tried == tried + Forward(upstreams, outcome, i).tried
    {
      ghost var before := tried;
      tried := tried + [upstreams[i]];
      assert before + ([upstreams[i]] + Forward(upstreams, outcome, i + 1).tried) ==
        tried + Forward(upstreams, outcome, i + 1).tried;
      match outcome(i, upstreams[i])
      case Some(reply) => return Forwarded(Some(reply), tried);
      case None =>
    }
    return Forwarded(None, tried);
  }

  /** Attempt i is the first to bring a reply. */
  ghost predicate FirstReply(upstreams: seq<SockAddr>, outcome: Upstreams, i: nat) {
    && i < |upstreams| && outcome(i, upstreams[i]).Some?
    && forall j :: 0 <= j < i ==> outcome(j, upstreams[j]).None?
  }

  /** The first reply wins, nothing is tried after it, and failover fails only when every upstream
      was tried and failed. */
  lemma {:induction false} ForwardFrom(upstreams: seq<SockAddr>, outcome: Upstreams, i: nat)
    requires i <= |upstreams| && forall j :: 0 <= j < i ==> outcome(j, upstreams[j]).None?
    ensures var r := Forward(upstreams, outcome, i);
      && (forall n: nat :: FirstReply(upstreams, outcome, n) ==>
            i <= n && r.reply == outcome(n, upstreams[n]) && r.tried == upstreams[i..n + 1])
      && (r.reply.None? <==> forall n :: 0 <= n < |upstreams| ==> outcome(n, upstreams[n]).None?)
      && (r.reply.None? ==> r.tried == upstreams[i..])
      && (r.reply.Some? ==> exists n: nat :: FirstReply(upstreams, outcome, n))
    decreases |upstreams| - i
  {
    if i < |upstreams| {
      if outcome(i, upstreams[i]).None? {
        ForwardFrom(upstreams, outcome, i + 1);
        assert forall n :: i < n <= |upstreams| ==> [upstreams[i]] + upstreams[i + 1..n] == upstreams[i..n];
      } else {
        assert FirstReply(upstreams, outcome, i);
        assert forall n: nat :: FirstReply(upstreams, outcome, n) ==> !(i < n);
      }
    }
  }

  // Failover when an upstream's outcome depends on its address only.

  function ByAddress(f: SockAddr -> Option<seq<Byte>>): Upstreams { (i, a) => f(a) }

  /** Failover over one more upstream, seen from the end of the list. */
  lemma ForwardSnoc(xs: seq<SockAddr>, x: SockAddr, f: SockAddr -> Option<seq<Byte>>)
    ensures var r, longer := Forward(xs, ByAddress(f), 0), Forward(xs + [x], ByAddress(f), 0);
      longer == if r.reply.Some? then r else Forwarded(f(x), xs + [x])
  {
    var outcome, more := ByAddress(f), xs + [x];
    ForwardFrom(xs, outcome, 0);
    ForwardFrom(more, outcome, 0);
    if Forward(xs, outcome, 0).reply.Some? {
      var n: nat :| FirstReply(xs, outcome, n);
      assert FirstReply(more, outcome, n) && more[0..n + 1] == xs[0..n + 1];
    } else if f(x).Some? {
      assert FirstReply(more, outcome, |xs|) && more[0..|xs| + 1] == more;
    } else {
      assert more[0..] == more;
    }
  }

  lemma {:induction false} ForwardFailsIff(xs: seq<SockAddr>, f: SockAddr -> Option<seq<Byte>>)
    ensures Forward(xs, ByAddress(f), 0).reply.None? <==> forall x :: x in xs ==> f(x).None?
    ensures Forward(xs, ByAddress(f), 0).reply.None? ==> Forward(xs, ByAddress(f), 0).tried == xs
  {
    ForwardFrom(xs, ByAddress(f), 0);
    assert xs[0..] == xs;
    if forall n :: 0 <= n < |xs| ==> ByAddress(f)(n, xs[n]).None? {
      forall x | x in xs ensures f(x).None? {
        var n :| 0 <= n < |xs| && xs[n] == x;
        assert ByAddress(f)(n, xs[n]).None?;
      }
    }
  }

  /** Duplicate upstreams do not matter: failover over the list without them brings the same reply,
      tries the same upstreams in the same order but each only once, and fails exactly when all fail. */
  lemma {:induction false} FailoverIgnoresDuplicates(xs: seq<SockAddr>, f: SockAddr -> Option<seq<Byte>>)
    ensures var once, all := Forward(Dedup(xs), ByAddress(f), 0), Forward(xs, ByAddress(f), 0);
      && once.reply == all.reply && once.tried == Dedup(all.tried)
      && (once.reply.None? <==> forall x :: x in xs ==> f(x).None?)
  {
    ForwardFailsIff(xs, f);
    if xs != [] {
      var init, last := xs[..|xs| - 1], xs[|xs| - 1];
      assert xs == init + [last];
      FailoverIgnoresDuplicates(init, f);
      ForwardSnoc(init, last, f);
      ForwardFailsIff(init, f);
      ForwardFailsIff(Dedup(init), f);
      DedupExact(init);
      if last !in Dedup(init) { ForwardSnoc(Dedup(init), last, f); }
    }
  }
}
