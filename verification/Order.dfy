/** The route and rule phase runs in hash-map order. Every order reaches the same kernel exactly when
    no rule it adds is mistaken for another it would add. */
module Order {
  import opened Text
  import opened Config
  import opened Kernel
  import opened Reconcile
  import opened Compile

  ghost predicate NoFailures(inp: Inputs) { inp.apply && forall t :: !inp.fails(t) }

  /** No rule line of one egress is mistaken for the rule of another. */
  ghost predicate NoMistakes(es: seq<Egress>) {
    forall a, e :: a in es && e in es ==> !Mistaken(OwnRule(a), e.fwmark, e.table)
  }

  /** The egresses whose rule is not listed, so that the route phase adds it. */
  function Missing(rules: seq<IpRule>, es: seq<Egress>): seq<Egress> {
    if es == [] then []
    else if RuleListed(rules, es[0].fwmark, es[0].table) then Missing(rules, es[1..])
    else [es[0]] + Missing(rules, es[1..])
  }

  /** The same chain and routes, and the same rules up to the order within one priority. */
  ghost predicate SameState(a: Kernel, b: Kernel) {
    a.nft == b.nft && a.routes == b.routes && multiset(a.rules) == multiset(b.rules)
  }

  /** The rules of the egresses, each as often as its egress. */
  function OwnRules(es: seq<Egress>): multiset<IpRule> {
    if es == [] then multiset{} else multiset{OwnRule(es[0])} + OwnRules(es[1..])
  }

  // ---------------------------------------------------------------- permutations

  lemma {:induction false} DistinctOnce(es: seq<Egress>, x: Egress)
    requires EgressesDistinct(es)
    ensures multiset(es)[x] <= 1
  {
    if es != [] {
      DistinctOnce(es[1..], x);
      assert es == [es[0]] + es[1..];
      forall j | 0 <= j < |es[1..]| ensures es[1..][j] != es[0] { assert es[1..][j] == es[j + 1]; }
    }
  }

  lemma OccursTwice(p: seq<Egress>, i: nat, j: nat)
    requires i < j < |p| && p[i] == p[j]
    ensures multiset(p)[p[i]] >= 2
  {
    WithoutOne(p, i);
    assert Without(p, i)[j - 1] == p[j];
    assert p[j] in multiset(Without(p, i));
  }

  lemma DistinctPermuted(es: seq<Egress>, p: seq<Egress>)
    requires EgressesDistinct(es) && Permuted(p, es)
    ensures EgressesDistinct(p) && forall x :: x in p <==> x in es
  {
    forall x ensures x in p <==> x in es { assert x in p <==> x in multiset(p); assert x in es <==> x in multiset(es); }
    forall i, j | 0 <= i < j < |p|
      ensures p[i].name != p[j].name && p[i].table != p[j].table && p[i].fwmark != p[j].fwmark
    {
      DistinctOnce(es, p[i]);
      if p[i] == p[j] { OccursTwice(p, i, j); }
      DifferentSlots(es, p[i], p[j]);
    }
  }

  lemma DifferentSlots(es: seq<Egress>, x: Egress, y: Egress)
    requires EgressesDistinct(es) && x in es && y in es && x != y
    ensures x.name != y.name && x.table != y.table && x.fwmark != y.fwmark
  {
    var a :| 0 <= a < |es| && es[a] == x;
    var b :| 0 <= b < |es| && es[b] == y;
  }

  lemma {:induction false} OwnRulesAppend(a: seq<Egress>, b: seq<Egress>)
    ensures OwnRules(a + b) == OwnRules(a) + OwnRules(b)
    decreases |a|
  {
    if a == [] {
      assert a + b == b;
    } else {
      assert (a + b)[1..] == a[1..] + b;
      OwnRulesAppend(a[1..], b);
    }
  }

  lemma OwnRulesWithout(es: seq<Egress>, i: nat)
    requires i < |es|
    ensures OwnRules(es) == OwnRules(Without(es, i)) + multiset{OwnRule(es[i])}
  {
    var front, back := es[..i], es[i + 1..];
    assert es == front + ([es[i]] + back) && ([es[i]] + back)[1..] == back;
    OwnRulesAppend(front, back);
    OwnRulesAppend(front, [es[i]] + back);
  }

  lemma {:induction false} OwnRulesPermuted(p: seq<Egress>, es: seq<Egress>)
    requires Permuted(p, es)
    ensures OwnRules(p) == OwnRules(es)
    decreases |p|
  {
    if p == [] {
      assert |es| == |multiset(es)| == 0;
    } else {
      assert p[0] in multiset(es);
      var i :| 0 <= i < |es| && es[i] == p[0];
      WithoutOne(es, i);
      WithoutOne(p, 0);
      OwnRulesPermuted(Without(p, 0), Without(es, i));
      OwnRulesWithout(es, i);
      OwnRulesWithout(p, 0);
    }
  }

  // ---------------------------------------------------------------- without mistakes

  lemma EnsureEgressAdds(w: World, inp: Inputs, e: Egress)
    requires NoFailures(inp) && w.ok && !RuleListed(w.k.rules, e.fwmark, e.table)
    ensures var w' := EnsureEgress(w, inp, e); w'.ok && w'.k.rules == InsertRule(w.k.rules, OwnRule(e))
  {}

  lemma StillUnlisted(rules: seq<IpRule>, a: Egress, e: Egress)
    requires !RuleListed(rules, e.fwmark, e.table) && !LineListed(Render(OwnRule(a)), e.fwmark, e.table)
    ensures !RuleListed(InsertRule(rules, OwnRule(a)), e.fwmark, e.table)
  {
    InsertRuleMembers(rules, OwnRule(a));
    var after := InsertRule(rules, OwnRule(a));
    forall i | 0 <= i < |after| ensures !LineListed(Render(after[i]), e.fwmark, e.table) {
      assert after[i] in after;
      if after[i] != OwnRule(a) {
        var j :| 0 <= j < |rules| && rules[j] == after[i];
      }
    }
  }

  lemma {:induction false} MissingCount(rules: seq<IpRule>, es: seq<Egress>, x: Egress)
    ensures multiset(Missing(rules, es))[x] == if RuleListed(rules, x.fwmark, x.table) then 0 else multiset(es)[x]
    ensures x in Missing(rules, es) <==> x in es && !RuleListed(rules, x.fwmark, x.table)
  {
    if es != [] {
      assert es == [es[0]] + es[1..];
      MissingCount(rules, es[1..], x);
    }
  }

  lemma MissingPermuted(rules: seq<IpRule>, p: seq<Egress>, q: seq<Egress>)
    requires Permuted(p, q)
    ensures Permuted(Missing(rules, p), Missing(rules, q))
  {
    forall x ensures multiset(Missing(rules, p))[x] == multiset(Missing(rules, q))[x] {
      MissingCount(rules, p, x);
      MissingCount(rules, q, x);
    }
  }

  /** Adding a rule that is mistaken for none of the missing ones leaves the same ones missing. */
  lemma {:induction false} StillMissing(rules: seq<IpRule>, a: Egress, es: seq<Egress>)
    requires forall e :: e in es && !RuleListed(rules, e.fwmark, e.table) ==>
      !LineListed(Render(OwnRule(a)), e.fwmark, e.table)
    ensures Missing(InsertRule(rules, OwnRule(a)), es) == Missing(rules, es)
  {
    if es != [] {
      var e := es[0];
      assert e in es && forall x :: x in es[1..] ==> x in es;
      InsertRuleMembers(rules, OwnRule(a));
      if RuleListed(rules, e.fwmark, e.table) {
        MoreListed(rules, InsertRule(rules, OwnRule(a)), e.fwmark, e.table);
      } else {
        StillUnlisted(rules, a, e);
      }
      StillMissing(rules, a, es[1..]);
    }
  }

  lemma MoreListed(rules: seq<IpRule>, more: seq<IpRule>, mark: u32, table: u32)
    requires RuleListed(rules, mark, table) && forall r :: r in rules ==> r in more
    ensures RuleListed(more, mark, table)
  {
    var i :| 0 <= i < |rules| && LineListed(Render(rules[i]), mark, table);
    assert rules[i] in more;
    var j :| 0 <= j < |more| && more[j] == rules[i];
  }

  lemma NotTaken(es: seq<Egress>, rules: seq<IpRule>, a: Egress, e: Egress)
    requires NoMistakes(Missing(rules, es)) && a in es && e in es && a.fwmark != e.fwmark
    requires !RuleListed(rules, a.fwmark, a.table) && !RuleListed(rules, e.fwmark, e.table)
    ensures !LineListed(Render(OwnRule(a)), e.fwmark, e.table)
  {
    MissingCount(rules, es, a);
    MissingCount(rules, es, e);
    assert !Mistaken(OwnRule(a), e.fwmark, e.table);
  }

  /** Without mistakes among them exactly the missing rules are added, each once. */
  lemma {:induction false} EnsureAllAdds(w: World, inp: Inputs, es: seq<Egress>)
    requires NoFailures(inp) && w.ok && EgressesDistinct(es) && NoMistakes(Missing(w.k.rules, es))
    ensures var w' := EnsureAll(w, inp, es);
      w'.ok && multiset(w'.k.rules) == multiset(w.k.rules) + OwnRules(Missing(w.k.rules, es))
    decreases |es|
  {
    if es != [] {
      var e, tail, w1 := es[0], es[1..], EnsureEgress(w, inp, es[0]);
      if RuleListed(w.k.rules, e.fwmark, e.table) {
        EnsureEgressFinds(w, inp, e);
      } else {
        EnsureEgressAdds(w, inp, e);
        InsertRuleMembers(w.k.rules, OwnRule(e));
        forall x | x in tail && !RuleListed(w.k.rules, x.fwmark, x.table)
          ensures !LineListed(Render(OwnRule(e)), x.fwmark, x.table)
        {
          var j :| 0 <= j < |tail| && tail[j] == x;
          assert es[j + 1] == x && e in es;
          NotTaken(es, w.k.rules, e, x);
        }
        StillMissing(w.k.rules, e, tail);
        assert Missing(w.k.rules, es)[1..] == Missing(w.k.rules, tail);
        TailNoMistakes(Missing(w.k.rules, es));
      }
      EnsureAllAdds(w1, inp, tail);
    }
  }

  lemma TailNoMistakes(es: seq<Egress>)
    requires NoMistakes(es) && es != []
    ensures NoMistakes(es[1..])
  {
    assert forall x :: x in es[1..] ==> x in es;
  }

  lemma EnsureEgressFinds(w: World, inp: Inputs, e: Egress)
    requires NoFailures(inp) && w.ok && RuleListed(w.k.rules, e.fwmark, e.table)
    ensures var w' := EnsureEgress(w, inp, e); w'.ok && w'.k.rules == w.k.rules
  {}

  lemma RouteAlike(w: World, inp: Inputs, p: seq<Egress>, q: seq<Egress>, t: u32)
    requires NoFailures(inp) && w.ok && TablesDistinct(p) && TablesDistinct(q)
    requires (forall x :: x in p <==> x in q) && EnsureAll(w, inp, p).ok && EnsureAll(w, inp, q).ok
    ensures var a, b := EnsureAll(w, inp, p).k.routes, EnsureAll(w, inp, q).k.routes;
      t in a ==> t in b && b[t] == a[t]
  {
    if i: nat :| i < |p| && p[i].table == t {
      assert p[i] in q;
      var j: nat :| j < |q| && q[j] == p[i];
      EnsureAllSets(w, inp, p, i);
      EnsureAllSets(w, inp, q, j);
    } else {
      forall j | 0 <= j < |q| ensures q[j].table != t { assert q[j] in p; }
      EnsureAllFrame(w, inp, p, t);
      EnsureAllFrame(w, inp, q, t);
    }
  }

  lemma SameRoutes(w: World, inp: Inputs, p: seq<Egress>, q: seq<Egress>)
    requires NoFailures(inp) && w.ok && EgressesDistinct(p) && EgressesDistinct(q)
    requires (forall x :: x in p <==> x in q) && EnsureAll(w, inp, p).ok && EnsureAll(w, inp, q).ok
    ensures EnsureAll(w, inp, p).k.routes == EnsureAll(w, inp, q).k.routes
    ensures EnsureAll(w, inp, p).k.nft == EnsureAll(w, inp, q).k.nft
  {
    EnsureAllRoutes(w, inp, p);
    EnsureAllRoutes(w, inp, q);
    var a, b := EnsureAll(w, inp, p).k.routes, EnsureAll(w, inp, q).k.routes;
    forall t ensures (t in a <==> t in b) && (t in a ==> a[t] == b[t]) {
      RouteAlike(w, inp, p, q, t);
      RouteAlike(w, inp, q, p, t);
    }
  }

  lemma NoMistakesPermuted(rules: seq<IpRule>, es: seq<Egress>, p: seq<Egress>)
    requires Permuted(p, es) && NoMistakes(Missing(rules, es))
    ensures NoMistakes(Missing(rules, p))
  {
    forall x | x in Missing(rules, p) ensures x in Missing(rules, es) {
      MissingCount(rules, p, x);
      MissingCount(rules, es, x);
      assert x in multiset(p);
    }
  }

  /** Without mistakes any two orders end in the same state. */
  lemma OrdersAgree(w: World, inp: Inputs, es: seq<Egress>, p: seq<Egress>, q: seq<Egress>)
    requires NoFailures(inp) && w.ok && EgressesDistinct(es) && NoMistakes(Missing(w.k.rules, es))
    requires Permuted(p, es) && Permuted(q, es)
    ensures SameState(EnsureAll(w, inp, p).k, EnsureAll(w, inp, q).k)
  {
    DistinctPermuted(es, p);
    DistinctPermuted(es, q);
    NoMistakesPermuted(w.k.rules, es, p);
    NoMistakesPermuted(w.k.rules, es, q);
    EnsureAllAdds(w, inp, p);
    EnsureAllAdds(w, inp, q);
    MissingPermuted(w.k.rules, p, q);
    OwnRulesPermuted(Missing(w.k.rules, p), Missing(w.k.rules, q));
    SameRoutes(w, inp, p, q);
  }

  // ---------------------------------------------------------------- with a mistake

  /** Once some line looks like an absent rule, that rule is never added. */
  lemma {:induction false} NeverAdded(w: World, inp: Inputs, es: seq<Egress>, r: IpRule)
    requires inp.apply && r.Fwmark? && RuleListed(w.k.rules, r.mark, r.table) && r !in w.k.rules
    ensures r !in EnsureAll(w, inp, es).k.rules
    decreases |es|
  {
    if es != [] {
      NotAdded(w, inp, es[0], r);
      NeverAdded(EnsureEgress(w, inp, es[0]), inp, es[1..], r);
    }
  }

  lemma NotAdded(w: World, inp: Inputs, e: Egress, r: IpRule)
    requires inp.apply && r.Fwmark? && RuleListed(w.k.rules, r.mark, r.table) && r !in w.k.rules
    ensures var rules := EnsureEgress(w, inp, e).k.rules; r !in rules && RuleListed(rules, r.mark, r.table)
  {
    var rules := EnsureEgress(w, inp, e).k.rules;
    if rules != w.k.rules {
      RulesAfter(w, inp, e);
      InsertRuleMembers(w.k.rules, OwnRule(e));
      MoreListed(w.k.rules, rules, r.mark, r.table);
    }
  }

  /** An egress's rule is added only where it is not listed. */
  lemma RulesAfter(w: World, inp: Inputs, e: Egress)
    ensures var rules := EnsureEgress(w, inp, e).k.rules;
      rules == w.k.rules || (!RuleListed(w.k.rules, e.fwmark, e.table) && rules == InsertRule(w.k.rules, OwnRule(e)))
  {}

  /** Rules once there stay there. */
  lemma {:induction false} NeverRemoved(w: World, inp: Inputs, es: seq<Egress>, r: IpRule)
    requires r in w.k.rules
    ensures r in EnsureAll(w, inp, es).k.rules
    decreases |es|
  {
    if es != [] {
      InsertRuleMembers(w.k.rules, OwnRule(es[0]));
      NeverRemoved(EnsureEgress(w, inp, es[0]), inp, es[1..], r);
    }
  }

  lemma ListedByMember(rules: seq<IpRule>, r: IpRule, mark: u32, table: u32)
    requires r in rules && LineListed(Render(r), mark, table)
    ensures RuleListed(rules, mark, table)
  {
    var i :| 0 <= i < |rules| && rules[i] == r;
  }

  lemma AbsentIfUnlisted(rules: seq<IpRule>, e: Egress)
    requires !RuleListed(rules, e.fwmark, e.table)
    ensures OwnRule(e) !in rules
  {
    RuleListedExact(rules, e.fwmark, e.table);
  }

  /** An egress mistaken for another keeps the other's rule out when it comes first. */
  lemma FirstBlocksSecond(w: World, inp: Inputs, a: Egress, b: Egress, rest: seq<Egress>)
    requires NoFailures(inp) && w.ok && !RuleListed(w.k.rules, a.fwmark, a.table)
      && !RuleListed(w.k.rules, b.fwmark, b.table)
    requires Mistaken(OwnRule(a), b.fwmark, b.table)
    ensures OwnRule(b) !in EnsureAll(w, inp, [a] + rest).k.rules
  {
    EnsureEgressAdds(w, inp, a);
    var wa := EnsureEgress(w, inp, a);
    InsertRuleMembers(w.k.rules, OwnRule(a));
    AbsentIfUnlisted(w.k.rules, b);
    ListedByMember(wa.k.rules, OwnRule(a), b.fwmark, b.table);
    NeverAdded(wa, inp, rest, OwnRule(b));
    assert ([a] + rest)[1..] == rest;
  }

  lemma FirstIsAdded(w: World, inp: Inputs, b: Egress, rest: seq<Egress>)
    requires NoFailures(inp) && w.ok && !RuleListed(w.k.rules, b.fwmark, b.table)
    ensures OwnRule(b) in EnsureAll(w, inp, [b] + rest).k.rules
  {
    EnsureEgressAdds(w, inp, b);
    InsertRuleMembers(w.k.rules, OwnRule(b));
    assert ([b] + rest)[1..] == rest;
    NeverRemoved(EnsureEgress(w, inp, b), inp, rest, OwnRule(b));
  }

  /** Every iteration order reaches the same state. */
  ghost predicate OrderFree(w: World, inp: Inputs, es: seq<Egress>) {
    forall p, q :: Permuted(p, es) && Permuted(q, es) ==> SameState(EnsureAll(w, inp, p).k, EnsureAll(w, inp, q).k)
  }

  lemma TwoOrdersDiffer(w: World, inp: Inputs, es: seq<Egress>, a: Egress, b: Egress)
    requires NoFailures(inp) && w.ok && !RuleListed(w.k.rules, a.fwmark, a.table)
      && !RuleListed(w.k.rules, b.fwmark, b.table)
    requires a in es && b in es && Mistaken(OwnRule(a), b.fwmark, b.table)
    ensures !OrderFree(w, inp, es)
  {
    var behindA := OneFirst(es, a);
    var behindB := OneFirst(es, b);
    FirstBlocksSecond(w, inp, a, b, behindA);
    FirstIsAdded(w, inp, b, behindB);
    Distinguished(EnsureAll(w, inp, [a] + behindA).k, EnsureAll(w, inp, [b] + behindB).k, OwnRule(b));
  }

  lemma Distinguished(x: Kernel, y: Kernel, r: IpRule)
    requires r !in x.rules && r in y.rules
    ensures !SameState(x, y)
  {
    assert r !in multiset(x.rules) && r in multiset(y.rules);
  }

  /** Order independence: from any kernel, every iteration order of the egresses reaches the same state
      exactly when, among those whose rule is not listed yet, none is mistaken for another. */
  lemma {:induction false} OrderIndependentIffNoMistakes(w: World, inp: Inputs, es: seq<Egress>)
    requires NoFailures(inp) && w.ok && EgressesDistinct(es)
    ensures NoMistakes(Missing(w.k.rules, es)) <==> OrderFree(w, inp, es)
  {
    var missing := Missing(w.k.rules, es);
    if NoMistakes(missing) {
      forall p, q | Permuted(p, es) && Permuted(q, es)
        ensures SameState(EnsureAll(w, inp, p).k, EnsureAll(w, inp, q).k)
      {
        OrdersAgree(w, inp, es, p, q);
      }
    } else {
      var a, b :| a in missing && b in missing && Mistaken(OwnRule(a), b.fwmark, b.table);
      MissingCount(w.k.rules, es, a);
      MissingCount(w.k.rules, es, b);
      TwoOrdersDiffer(w, inp, es, a, b);
    }
  }
}
