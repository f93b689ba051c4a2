/** Which upstreams are in use: said by what each configured entry contributes. */
module Upstreams {
  import opened Text
  import opened Config

  /** The entry, without outer white space, parses to the address. */
  predicate Contributes(entry: string, parse: string -> Option<SockAddr>, a: SockAddr) {
    Trim(entry) != "" && parse(Trim(entry)) == Some(a)
  }

  /** Exactly the contributed addresses, each once, in the order of their first contributors. */
  ghost predicate Contributed(us: seq<SockAddr>, entries: seq<string>, parse: string -> Option<SockAddr>) {
    && (forall a :: a in us <==> exists i :: 0 <= i < |entries| && Contributes(entries[i], parse, a))
    && (forall p, q :: 0 <= p < q < |us| ==> EarlierIn(entries, parse, us[p], us[q]))
  }

  /** Some entry contributes a and none up to it contributes b. */
  ghost predicate EarlierIn(entries: seq<string>, parse: string -> Option<SockAddr>, a: SockAddr, b: SockAddr) {
    exists i ::
      && 0 <= i < |entries| && Contributes(entries[i], parse, a)
      && forall j :: 0 <= j <= i ==> !Contributes(entries[j], parse, b)
  }

  lemma {:induction false} ParsedContributed(entries: seq<string>, parse: string -> Option<SockAddr>)
    ensures Contributed(Dedup(Parsed(entries, parse)), entries, parse)
  {
    if entries != [] {
      var init, last := entries[..|entries| - 1], entries[|entries| - 1];
      ParsedContributed(init, parse);
      var before, us := Dedup(Parsed(init, parse)), Dedup(Parsed(entries, parse));
      assert entries == init + [last];
      if Trim(last) != "" && parse(Trim(last)).Some? {
        var a := parse(Trim(last)).value;
        DedupSnoc(Parsed(init, parse), a);
        if a in before { NothingNew(init, last, parse, before, a); } else { OneNew(init, last, parse, before, a); }
      } else {
        NoContribution(init, last, parse, before);
      }
    }
  }

  lemma DedupSnoc<T>(xs: seq<T>, x: T)
    ensures Dedup(xs + [x]) == if x in Dedup(xs) then Dedup(xs) else Dedup(xs) + [x]
  {
    assert (xs + [x])[..|xs|] == xs;
  }

  lemma StillEarlier(init: seq<string>, last: string, parse: string -> Option<SockAddr>, a: SockAddr, b: SockAddr)
    requires EarlierIn(init, parse, a, b)
    ensures EarlierIn(init + [last], parse, a, b)
  {
    var entries := init + [last];
    var i :| 0 <= i < |init| && Contributes(init[i], parse, a)
      && forall j :: 0 <= j <= i ==> !Contributes(init[j], parse, b);
    assert forall j :: 0 <= j <= i ==> entries[j] == init[j];
  }

  lemma ContributorsOf(init: seq<string>, last: string, parse: string -> Option<SockAddr>, a: SockAddr)
    ensures (exists i :: 0 <= i < |init + [last]| && Contributes((init + [last])[i], parse, a)) <==>
      (exists i :: 0 <= i < |init| && Contributes(init[i], parse, a)) || Contributes(last, parse, a)
  {
    var entries := init + [last];
    if i :| 0 <= i < |init| && Contributes(init[i], parse, a) { assert entries[i] == init[i]; }
    assert entries[|init|] == last;
  }

  lemma NoContribution(init: seq<string>, last: string, parse: string -> Option<SockAddr>, us: seq<SockAddr>)
    requires Contributed(us, init, parse) && forall a :: !Contributes(last, parse, a)
    ensures Contributed(us, init + [last], parse)
  {
    forall a ensures a in us <==> exists i :: 0 <= i < |init + [last]| && Contributes((init + [last])[i], parse, a) {
      ContributorsOf(init, last, parse, a);
    }
    forall p, q | 0 <= p < q < |us| ensures EarlierIn(init + [last], parse, us[p], us[q]) {
      StillEarlier(init, last, parse, us[p], us[q]);
    }
  }

  lemma NothingNew(init: seq<string>, last: string, parse: string -> Option<SockAddr>, us: seq<SockAddr>, x: SockAddr)
    requires Contributed(us, init, parse) && Contributes(last, parse, x) && x in us
    ensures Contributed(us, init + [last], parse)
  {
    forall a ensures a in us <==> exists i :: 0 <= i < |init + [last]| && Contributes((init + [last])[i], parse, a) {
      ContributorsOf(init, last, parse, a);
    }
    forall p, q | 0 <= p < q < |us| ensures EarlierIn(init + [last], parse, us[p], us[q]) {
      StillEarlier(init, last, parse, us[p], us[q]);
    }
  }

  lemma OneNew(init: seq<string>, last: string, parse: string -> Option<SockAddr>, before: seq<SockAddr>, x: SockAddr)
    requires Contributed(before, init, parse) && Contributes(last, parse, x) && x !in before
    ensures Contributed(before + [x], init + [last], parse)
  {
    var us := before + [x];
    forall a ensures a in us <==> exists i :: 0 <= i < |init + [last]| && Contributes((init + [last])[i], parse, a) {
      ContributorsOf(init, last, parse, a);
    }
    forall p, q | 0 <= p < q < |us| ensures EarlierIn(init + [last], parse, us[p], us[q]) {
      if q == |before| {
        assert before[p] in before;
        var i :| 0 <= i < |init| && Contributes(init[i], parse, before[p]);
        assert EarlierIn(init, parse, before[p], x);
      }
      StillEarlier(init, last, parse, us[p], us[q]);
    }
  }

  /** The upstreams in use come from the list of upstreams if it is not empty, else from the single
      address. */
  lemma {:induction false} UpstreamsExact(c: InterceptConfig, parse: string -> Option<SockAddr>)
    ensures Contributed(Dedup(Parsed(ConfiguredEntries(c), parse)),
      if c.upstreams != [] then c.upstreams else [c.upstreamAddr], parse)
  {
    ParsedContributed(ConfiguredEntries(c), parse);
    if c.upstreams == [] && Blank(c.upstreamAddr) { assert !exists a :: Contributes(c.upstreamAddr, parse, a); }
  }
}
