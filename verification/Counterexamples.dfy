/** Inputs on which the program falls short of what it is for: marks that clash, a host value with outer
    white space, a policy domain that is no domain, and one name spelled in two ways. */
module Counterexamples {
  import opened Text
  import opened Domain
  import opened Config
  import opened Kernel
  import opened Wire
  import opened Reconcile
  import opened Compile
  import opened Safety
  import opened Order
  import opened DirectEgress
  import opened Dangling
  import opened Faithful
  import opened Proxy
  import opened Handler
  import opened Idempotence
  import Cache

  const LISTEN := "127.0.0.1:5533"

  /** The default settings, with the given egresses and policies. */
  function Example(egresses: seq<Egress>, policies: seq<Policy>): Config {
    Config(
      1, 15, true, false,
      CacheConfig(true, "/var/lib/eve-net/dns-cache.json", 300, 3600, true, SOFT_MODE, false),
      InterceptConfig(true, LISTEN, "1.1.1.1:53", [], 1500, true, true, true),
      "wlo1", egresses, policies)
  }

  function Tunnel(name: string, table: u32, mark: u32): Egress {
    Egress(true, name, EgressKind.Tunnel, None, None, table, mark, 1000)
  }

  function UidPolicy(id: string, uid: u32, egress: string): Policy {
    Policy(id, true, MatchSpec(None, None, Some(uid), None), egress)
  }

  function DomainPolicy(id: string, domain: string, egress: string): Policy {
    Policy(id, true, MatchSpec(None, None, None, Some(domain)), egress)
  }

  /** A text that trimming leaves as it is, and is not blank. */
  predicate Plain(s: string) { s != [] && !IsSpace(s[0]) && !IsSpace(s[|s| - 1]) }

  lemma PlainIsNotBlank(s: string)
    requires Plain(s)
    ensures Trim(s) == s && !Blank(s)
  {}

  lemma ExampleSettings(egresses: seq<Egress>, policies: seq<Policy>, parse: string -> Option<SockAddr>)
    requires parse(LISTEN).Some? && egresses != []
    ensures SettingsOk(Example(egresses, policies), parse)
  {
    PlainIsNotBlank("/var/lib/eve-net/dns-cache.json");
    PlainIsNotBlank(SOFT_MODE);
    PlainIsNotBlank("wlo1");
  }

  lemma TunnelOk(name: string, table: u32, mark: u32)
    requires Plain(name) && table != 0 && mark != 0
    ensures EgressOk(Tunnel(name, table, mark))
  {
    PlainIsNotBlank(name);
  }

  lemma UidPolicyOk(id: string, uid: u32, es: seq<Egress>, e: Egress)
    requires Plain(id) && e in es && e.enabled
    ensures PolicyOk(UidPolicy(id, uid, e.name), Names(es), EnabledNames(es))
  {
    PlainIsNotBlank(id);
  }

  lemma DomainPolicyOk(id: string, domain: string, es: seq<Egress>, e: Egress)
    requires Plain(id) && ValidateKey(domain) != [] && e in es && e.enabled
    ensures PolicyOk(DomainPolicy(id, domain, e.name), Names(es), EnabledNames(es))
  {
    PlainIsNotBlank(id);
  }

  lemma ExampleIsValid(es: seq<Egress>, ps: seq<Policy>, parse: string -> Option<SockAddr>)
    requires parse(LISTEN).Some? && es != [] && EgressesDistinct(es) && PoliciesDistinct(ps)
    requires (forall e :: e in es ==> EgressOk(e)) && forall p :: p in ps ==> PolicyOk(p, Names(es), EnabledNames(es))
    ensures Valid(Example(es, ps), parse)
  {
    ExampleSettings(es, ps, parse);
  }

  // ---------------------------------------------------------------- marks that clash

  /** Mark 0x10 and table 100 begin with mark 0x1 and table 10. */
  function Clashing(): Config {
    Example([Tunnel("amn0", 100, 16), Tunnel("wg0", 10, 1)], [UidPolicy("p", 1000, "wg0")])
  }

  lemma ClashingIsMistaken()
    ensures Mistaken(OwnRule(Tunnel("amn0", 100, 16)), 1, 10)
  {
    assert Hex(16) == Hex(1) + [Digit(0)];
    assert Dec(100) == Dec(10) + [Digit(0)];
    LineListedExact(OwnRule(Tunnel("amn0", 100, 16)), 1, 10);
  }

  lemma {:induction false} ClashingIsValid(parse: string -> Option<SockAddr>)
    requires parse(LISTEN).Some?
    ensures Valid(Clashing(), parse) && !ClashFree(Clashing())
  {
    var es, ps := Clashing().egresses, Clashing().policies;
    TunnelOk("amn0", 100, 16);
    TunnelOk("wg0", 10, 1);
    UidPolicyOk("p", 1000, es, es[1]);
    ExampleIsValid(es, ps, parse);
    ClashingClashes();
  }

  lemma ClashingClashes()
    ensures !ClashFree(Clashing()) && Used(Clashing(), "wg0")
  {
    var c := Clashing();
    ClashingIsMistaken();
    assert c.egresses[0] in c.egresses && c.egresses[1] in c.egresses;
    assert c.policies[0] in c.policies && Installs(c.policies[0]) && c.policies[0].egress == "wg0";
  }

  /** On an empty host, one reconcile of that configuration in which nothing fails dangles a mark, and
      every packet of the policy's user leaves with mark 1 and without a route by it. */
  lemma ClashingDangles(parse: string -> Option<SockAddr>)
    requires parse(LISTEN).Some?
    ensures var c := Clashing();
      var a, e := c.egresses[0], c.egresses[1];
      && InputsOk(c, Witness(a, e))
      && !NoDanglingMark(c, ReconcileOnce(Start(Kernel(NoTable, [], map[])), c, Witness(a, e)).k)
      && !NeverDangles(c, Kernel(NoTable, [], map[])) && !PacketsFollow(c, Kernel(NoTable, [], map[]))
  {
    var c, k := Clashing(), Kernel(NoTable, [], map[]);
    ClashingIsValid(parse);
    ClashingIsMistaken();
    ClashingClashes();
    NothingThere(c, k);
    assert c.egresses[0] in c.egresses && c.egresses[1] in c.egresses;
    OneRunDangles(c, parse, k, c.egresses[0], c.egresses[1]);
    NeverDanglesIffClashFree(c, parse, k);
    PacketsFollowIff(c, parse, k);
  }

  lemma NothingThere(c: Config, k: Kernel)
    requires k.nft.NoTable? && k.rules == []
    ensures Untouched(c, k)
  {}

  lemma ClashingPackets(parse: string -> Option<SockAddr>, pkt: Packet)
    requires parse(LISTEN).Some? && pkt.uid == 1000
    ensures var c := Clashing();
      var a, e, k := c.egresses[0], c.egresses[1], Kernel(NoTable, [], map[]);
      && InputsOk(c, Witness(a, e))
      && var k' := ReconcileOnce(Start(k), c, Witness(a, e)).k;
         MarkOf(k', pkt) == 1 && !RouteFor(k'.rules, k'.routes, pkt, 1).Via?
  {
    var c, k := Clashing(), Kernel(NoTable, [], map[]);
    var a, e := c.egresses[0], c.egresses[1];
    ClashingIsValid(parse);
    ClashingIsMistaken();
    NothingThere(c, k);
    assert a in c.egresses && e in c.egresses;
    WitnessMap(c, a, e);
    var m := HealthyMap(c.egresses, c.autoRefresh, Witness(a, e)).value;
    assert Selects(c.policies[0], m, AnswerAt(c, Witness(a, e), m, None, 0), pkt);
    assert LastSelecting(c, Witness(a, e), m, None, |c.policies|, pkt, 0);
    ClashedPacketIsUnrouted(c, parse, k, a, e, m, 0, pkt);
  }

  /** And on an empty host it depends on the iteration order which of its rules are added. */
  lemma {:induction false} ClashingDependsOnOrder(inp: Inputs)
    requires NoFailures(inp)
    ensures !OrderFree(Start(Kernel(NoTable, [], map[])), inp, Clashing().egresses)
  {
    var es, w := Clashing().egresses, Start(Kernel(NoTable, [], map[]));
    assert es[0] in es && es[1] in es && w.k.rules == [];
    ClashingIsMistaken();
    TwoOrdersDiffer(w, inp, es, es[0], es[1]);
  }

  // ---------------------------------------------------------------- drift that stays

  /** A gateway as the host reports it, with a blank in front. */
  const PADDED := " 192.0.2.1"

  function Uplink(): Egress {
    Egress(true, "wlo1", EgressKind.Direct, Some("198.51.100.1"), Some("192.0.2.9"), 100, 16, 1000)
  }

  function PaddedHost(name: string): Option<RuntimeState> { Some(RuntimeState(Some(PADDED), Some("192.0.2.9"))) }

  /** Refreshing from such a host does not end the drift. */
  lemma {:induction false} RefreshCanFail()
    ensures var plans := PlanRefresh([Uplink()], PaddedHost);
      exists p :: p in PlanRefresh(Refreshed([Uplink()], plans), PaddedHost) && p.drift.IsDrift()
  {
    PaddedIsTrimmed();
    var e := [Uplink()][0];
    assert e in [Uplink()] && Planned(e) && PlanFor(e, PaddedHost).drift.IsDrift();
    RefreshConverges([Uplink()], PaddedHost);
  }

  lemma PaddedIsTrimmed()
    ensures !Settles(PADDED) && Differs(Uplink().gateway, PADDED)
  {
    PlainIsNotBlank("192.0.2.1");
    PlainIsNotBlank("198.51.100.1");
    assert PADDED[1..] == "192.0.2.1";
  }

  // ---------------------------------------------------------------- a domain that is none

  /** Validation looks at a policy's domain only to see that it is there. */
  function Wildcard(): Config {
    Example([Tunnel("wg0", 10, 1)], [DomainPolicy("p", "*.example.com", "wg0")])
  }

  lemma WildcardIsMalformed()
    ensures Trim("*.example.com") == "*.example.com" && ValidateKey("*.example.com") != []
    ensures Normalize("*.example.com") == None
  {
    var s := "*.example.com";
    PlainIsNotBlank(s);
    assert StripDots(s) == s;
    assert LowerUnicode(s)[0] == '*' && !HostChar('*');
  }

  lemma {:induction false} WildcardIsValid(parse: string -> Option<SockAddr>)
    requires parse(LISTEN).Some?
    ensures Valid(Wildcard(), parse) && !WellFormed(Wildcard().policies)
    ensures forall d :: !PolicyDomain(Wildcard(), d)
  {
    var es, ps := Wildcard().egresses, Wildcard().policies;
    WildcardIsMalformed();
    TunnelOk("wg0", 10, 1);
    DomainPolicyOk("p", "*.example.com", es, es[0]);
    ExampleIsValid(es, ps, parse);
    WildcardBelongsToNoName();
  }

  lemma WildcardBelongsToNoName()
    ensures !WellFormed(Wildcard().policies) && forall d :: !PolicyDomain(Wildcard(), d)
  {
    WildcardIsMalformed();
    var ps := Wildcard().policies;
    assert ps[0] in ps && BadDomain(ps[0]);
  }

  /** With it the proxy answers every question with an error and asks no upstream. */
  lemma {:induction false} WildcardBlocksEverything(
    parse: string -> Option<SockAddr>, file: Cache.CacheFile, query: seq<Byte>,
    upstreams: seq<SockAddr>, outcome: Upstreams, write: bool, env: Cache.CallEnv)
    requires parse(LISTEN).Some? && QuestionOf(query).Some?
    ensures Blocked(query, Handle(Wildcard(), file, query, upstreams, outcome, write, env))
  {
    WildcardIsValid(parse);
    OthersPassThrough(Wildcard(), file, query, upstreams, outcome, write, env);
  }

  // ---------------------------------------------------------------- one name in two spellings

  function TwoSpellings(): Config {
    Example([Tunnel("wg0", 10, 1)], [DomainPolicy("p", "k", "wg0"), DomainPolicy("q", [KELVIN], "wg0")])
  }

  lemma TwoSpellingsAreValid(parse: string -> Option<SockAddr>)
    requires parse(LISTEN).Some?
    ensures Valid(TwoSpellings(), parse) && !DomainsDistinct(TwoSpellings().policies)
  {
    var es, ps := TwoSpellings().egresses, TwoSpellings().policies;
    MissedDuplicate();
    TunnelOk("wg0", 10, 1);
    SpellingKeys();
    DomainPolicyOk("p", "k", es, es[0]);
    DomainPolicyOk("q", [KELVIN], es, es[0]);
    ExampleIsValid(es, ps, parse);
    assert EnabledDomain(ps[0]) && EnabledDomain(ps[1]);
  }

  lemma SpellingKeys()
    ensures ValidateKey("k") != [] && ValidateKey([KELVIN]) != []
  {
    PlainIsNotBlank("k");
    PlainIsNotBlank([KELVIN]);
  }

  /** With them the policy search depends on the order of the policies, and reconciling twice can
      change the chain. */
  lemma {:induction false} TwoSpellingsMislead(parse: string -> Option<SockAddr>)
    requires parse(LISTEN).Some?
    ensures !OrderFreeSearch(TwoSpellings().policies) && !Idempotent(TwoSpellings())
  {
    var c := TwoSpellings();
    TwoSpellingsAreValid(parse);
    MissedDuplicate();
    assert c.policies[0] in c.policies && EnabledDomain(c.policies[0]) && !BadDomain(c.policies[0]);
    SearchIsOrderFreeIff(c.policies);
    IdempotentIffRepeatable(c, parse);
  }
}
