/** What validation rejects: the faults a configuration can have, and the proof that it accepts exactly
    the configurations without any. */
module Faults {
  import opened Text
  import opened Domain
  import opened Config

  datatype Fault =
    | NoVersion
    | NoInterval
    | NoTimeToLive
    | NoCachePath
    | NoTimeout
    | BadListenAddress
    | UnknownMode
    | HardModeWithoutInterception
    | HardModeWithoutProxy
    | NoWifiInterface
    | NoEgress
    | UnnamedEgress(i: nat)
    | ZeroTable(i: nat)
    | ZeroMark(i: nat)
    | DirectWithoutGateway(i: nat)
    | SameName(i: nat, j: nat)
    | SameTable(i: nat, j: nat)
    | SameMark(i: nat, j: nat)
    | UnnamedPolicy(i: nat)
    | EmptyMatch(i: nat)
    | EmptyDomain(i: nat)
    | UnknownEgress(i: nat)
    | DisabledEgress(i: nat)
    | SameId(i: nat, j: nat)
    | SameDomain(i: nat, j: nat)

  /** The settings have the fault. */
  ghost predicate SettingFault(c: Config, parse: string -> Option<SockAddr>, f: Fault) {
    var mode := Trim(c.cache.unresolvedMode);
    match f
    case NoVersion => c.version == 0
    case NoInterval => c.intervalSec == 0
    case NoTimeToLive => c.cache.ttl == 0
    case NoCachePath => Trim(c.cache.path) == ""
    case NoTimeout => c.intercept.timeoutMs == 0
    case BadListenAddress => parse(c.intercept.listenAddr).None?
    case UnknownMode =>
      mode != "soft_fail_closed_l3" && mode != "allow_stale" && mode != "hard_fail_closed_dns_required"
    case HardModeWithoutInterception => mode == "hard_fail_closed_dns_required" && !c.cache.interceptionEnabled
    case HardModeWithoutProxy => mode == "hard_fail_closed_dns_required" && !c.intercept.enabled
    case NoWifiInterface => Trim(c.wifiInterface) == ""
    case NoEgress => c.egresses == []
    case _ => false
  }

  /** The egresses have the fault. */
  ghost predicate EgressFault(es: seq<Egress>, f: Fault) {
    match f
    case UnnamedEgress(i) => i < |es| && Trim(es[i].name) == ""
    case ZeroTable(i) => i < |es| && es[i].table == 0
    case ZeroMark(i) => i < |es| && es[i].fwmark == 0
    case DirectWithoutGateway(i) =>
      i < |es| && es[i].kind == Direct && (es[i].gateway.None? || Trim(es[i].gateway.value) == "")
    case SameName(i, j) => i < j < |es| && es[i].name == es[j].name
    case SameTable(i, j) => i < j < |es| && es[i].table == es[j].table
    case SameMark(i, j) => i < j < |es| && es[i].fwmark == es[j].fwmark
    case _ => false
  }

  /** The policies have the fault. Disabled policies need no enabled egress and may share a domain. */
  ghost predicate PolicyFault(ps: seq<Policy>, es: seq<Egress>, f: Fault) {
    match f
    case UnnamedPolicy(i) => i < |ps| && Trim(ps[i].id) == ""
    case EmptyMatch(i) => i < |ps| && ps[i].spec == MatchSpec(None, None, None, None)
    case EmptyDomain(i) => i < |ps| && ps[i].spec.domain.Some? && Bare(ps[i].spec.domain.value) == ""
    case UnknownEgress(i) => i < |ps| && forall e :: e in es ==> e.name != ps[i].egress
    case DisabledEgress(i) => i < |ps| && ps[i].enabled && forall e :: e in es && e.enabled ==> e.name != ps[i].egress
    case SameId(i, j) => i < j < |ps| && ps[i].id == ps[j].id
    case SameDomain(i, j) =>
      && i < j < |ps| && ps[i].enabled && ps[j].enabled && ps[i].spec.domain.Some? && ps[j].spec.domain.Some?
      && SameLetters(Bare(ps[i].spec.domain.value), Bare(ps[j].spec.domain.value))
    case _ => false
  }

  /** The same text up to the case of ASCII letters. */
  ghost predicate SameLetters(a: string, b: string) {
    |a| == |b| && forall i :: 0 <= i < |a| ==> SameLetter(a[i], b[i])
  }

  ghost predicate HasFault(c: Config, parse: string -> Option<SockAddr>, f: Fault) {
    SettingFault(c, parse, f) || EgressFault(c.egresses, f) || PolicyFault(c.policies, c.egresses, f)
  }

  lemma SameKeyExact(a: string, b: string)
    ensures ValidateKey(a) == ValidateKey(b) <==> SameLetters(Bare(a), Bare(b))
  {
    var x, y := Bare(a), Bare(b);
    forall i | 0 <= i < |x| && i < |y| ensures SameLetter(x[i], y[i]) <==> LowerAscii(x)[i] == LowerAscii(y)[i] {
      SameLetterExact(x[i], y[i]);
    }
    if SameLetters(x, y) { assert LowerAscii(x) == LowerAscii(y); }
    if LowerAscii(x) == LowerAscii(y) { assert |x| == |LowerAscii(x)| == |y|; }
  }

  lemma SettingsFaultless(c: Config, parse: string -> Option<SockAddr>)
    ensures SettingsOk(c, parse) <==> forall f :: !SettingFault(c, parse, f)
  {
    if forall f :: !SettingFault(c, parse, f) {
      assert !SettingFault(c, parse, NoVersion) && !SettingFault(c, parse, NoInterval);
      assert !SettingFault(c, parse, NoTimeToLive) && !SettingFault(c, parse, NoCachePath);
      assert !SettingFault(c, parse, NoTimeout) && !SettingFault(c, parse, BadListenAddress);
      assert !SettingFault(c, parse, UnknownMode) && !SettingFault(c, parse, HardModeWithoutInterception);
      assert !SettingFault(c, parse, HardModeWithoutProxy) && !SettingFault(c, parse, NoWifiInterface);
      assert !SettingFault(c, parse, NoEgress);
    }
  }

  lemma EgressFaultless(es: seq<Egress>, i: nat)
    requires i < |es|
    ensures EgressOk(es[i]) <==>
      && !EgressFault(es, UnnamedEgress(i)) && !EgressFault(es, ZeroTable(i)) && !EgressFault(es, ZeroMark(i))
      && !EgressFault(es, DirectWithoutGateway(i))
  {}

  lemma SlotsFaultless(es: seq<Egress>, i: nat, j: nat)
    requires i < j < |es|
    ensures es[i].name != es[j].name && es[i].table != es[j].table && es[i].fwmark != es[j].fwmark <==>
      && !EgressFault(es, SameName(i, j)) && !EgressFault(es, SameTable(i, j)) && !EgressFault(es, SameMark(i, j))
  {}

  /** The fault is one of a single egress. */
  predicate OfOneEgress(f: Fault) { f.UnnamedEgress? || f.ZeroTable? || f.ZeroMark? || f.DirectWithoutGateway? }

  lemma EgressesFaultless(es: seq<Egress>)
    ensures (forall e :: e in es ==> EgressOk(e)) && EgressesDistinct(es) <==> forall f :: !EgressFault(es, f)
  {
    if (forall e :: e in es ==> EgressOk(e)) && EgressesDistinct(es) {
      forall f ensures !EgressFault(es, f) {
        if OfOneEgress(f) && f.i < |es| {
          assert es[f.i] in es;
          EgressFaultless(es, f.i);
        }
      }
    }
    if forall f :: !EgressFault(es, f) {
      forall e | e in es ensures EgressOk(e) {
        var i: nat :| i < |es| && es[i] == e;
        EgressFaultless(es, i);
      }
      forall i: nat, j: nat | i < j < |es|
        ensures es[i].name != es[j].name && es[i].table != es[j].table && es[i].fwmark != es[j].fwmark
      {
        SlotsFaultless(es, i, j);
      }
    }
  }

  lemma PolicyFaultless(ps: seq<Policy>, es: seq<Egress>, i: nat)
    requires i < |ps|
    ensures PolicyOk(ps[i], Names(es), EnabledNames(es)) <==>
      && !PolicyFault(ps, es, UnnamedPolicy(i)) && !PolicyFault(ps, es, EmptyMatch(i))
      && !PolicyFault(ps, es, EmptyDomain(i)) && !PolicyFault(ps, es, UnknownEgress(i))
      && !PolicyFault(ps, es, DisabledEgress(i))
  {
    TargetFaultless(ps, es, i);
    MatchFaultless(ps, es, i);
  }

  lemma TargetFaultless(ps: seq<Policy>, es: seq<Egress>, i: nat)
    requires i < |ps|
    ensures ps[i].egress in Names(es) <==> !PolicyFault(ps, es, UnknownEgress(i))
    ensures (ps[i].enabled ==> ps[i].egress in EnabledNames(es)) <==> !PolicyFault(ps, es, DisabledEgress(i))
  {}

  lemma MatchFaultless(ps: seq<Policy>, es: seq<Egress>, i: nat)
    requires i < |ps|
    ensures !Blank(ps[i].id) <==> !PolicyFault(ps, es, UnnamedPolicy(i))
    ensures HasMatch(ps[i].spec) <==> !PolicyFault(ps, es, EmptyMatch(i))
    ensures (ps[i].spec.domain.Some? ==> KeyOf(ps[i]) != []) <==> !PolicyFault(ps, es, EmptyDomain(i))
  {
    var p := ps[i];
    if p.spec.domain.Some? { assert |KeyOf(p)| == |Bare(p.spec.domain.value)|; }
  }

  lemma PairFaultless(ps: seq<Policy>, es: seq<Egress>, i: nat, j: nat)
    requires i < j < |ps|
    ensures !PolicyFault(ps, es, SameId(i, j)) <==> ps[i].id != ps[j].id
    ensures !PolicyFault(ps, es, SameDomain(i, j)) <==>
      !(EnabledDomain(ps[i]) && EnabledDomain(ps[j]) && KeyOf(ps[i]) == KeyOf(ps[j]))
  {
    if EnabledDomain(ps[i]) && EnabledDomain(ps[j]) {
      SameKeyExact(ps[i].spec.domain.value, ps[j].spec.domain.value);
    }
  }

  lemma PoliciesFaultless(ps: seq<Policy>, es: seq<Egress>)
    ensures (forall p :: p in ps ==> PolicyOk(p, Names(es), EnabledNames(es))) && PoliciesDistinct(ps) <==>
      forall f :: !PolicyFault(ps, es, f)
  {
    if (forall p :: p in ps ==> PolicyOk(p, Names(es), EnabledNames(es))) && PoliciesDistinct(ps) {
      forall f ensures !PolicyFault(ps, es, f) {
        if (f.SameId? || f.SameDomain?) && f.i < f.j < |ps| {
          PairFaultless(ps, es, f.i, f.j);
        } else if (f.UnnamedPolicy? || f.EmptyMatch? || f.EmptyDomain? || f.UnknownEgress? || f.DisabledEgress?)
          && f.i < |ps| {
          assert ps[f.i] in ps;
          PolicyFaultless(ps, es, f.i);
        }
      }
    }
    if forall f :: !PolicyFault(ps, es, f) {
      forall p | p in ps ensures PolicyOk(p, Names(es), EnabledNames(es)) {
        var i: nat :| i < |ps| && ps[i] == p;
        PolicyFaultless(ps, es, i);
      }
      forall i: nat, j: nat | i < j < |ps|
        ensures ps[i].id != ps[j].id
        ensures EnabledDomain(ps[i]) && EnabledDomain(ps[j]) ==> KeyOf(ps[i]) != KeyOf(ps[j])
      {
        PairFaultless(ps, es, i, j);
      }
    }
  }

  /** Validation accepts exactly the configurations without a fault. */
  lemma {:induction false} ValidIffFaultless(c: Config, parse: string -> Option<SockAddr>)
    ensures Valid(c, parse) <==> forall f :: !HasFault(c, parse, f)
  {
    SettingsFaultless(c, parse);
    EgressesFaultless(c.egresses);
    PoliciesFaultless(c.policies, c.egresses);
    if forall f :: !HasFault(c, parse, f) {
      forall f
        ensures !SettingFault(c, parse, f) && !EgressFault(c.egresses, f) && !PolicyFault(c.policies, c.egresses, f)
      {
        assert !HasFault(c, parse, f);
      }
    }
  }
}
