/** What the proxy sends for every query, in the numbers of RFC 1035 and RFC 3596: type 1 is A, type 28
    AAAA, class 1 IN, code 2 SERVFAIL and code 5 REFUSED. */
module Outcomes {
  import opened Text
  import opened Domain
  import opened Config
  import opened Wire
  import opened WireProofs
  import opened Proxy
  import opened Handler
  import opened CacheSystem
  import Cache

  /** The query as a reply with the code: QR and RA set, RD as asked, no records, and all else as it was. */
  ghost predicate ErrorWith(code: nat, query: seq<Byte>, bytes: seq<Byte>) {
    && |bytes| == |query| >= 12 && bytes[..2] == query[..2] && bytes[4..6] == query[4..6] && bytes[12..] == query[12..]
    && bytes[2] == 128 + query[2] % 2 && bytes[3] == 128 + code
    && forall i :: 6 <= i < 12 ==> bytes[i] == 0
  }

  /** The upstreams are asked in order until one replies. */
  ghost predicate UpstreamSays(
    upstreams: seq<SockAddr>, outcome: Upstreams, reply: Option<seq<Byte>>, tried: seq<SockAddr>)
  {
    || (exists i: nat :: FirstReply(upstreams, outcome, i) && reply == outcome(i, upstreams[i])
          && tried == upstreams[..i + 1])
    || (reply.None? && tried == upstreams && forall i :: 0 <= i < |upstreams| ==> outcome(i, upstreams[i]).None?)
  }

  predicate BothFlags(c: Config) { c.intercept.denyUnresolved && c.cache.failClosedUnresolved }

  /** Nothing prevents that addresses are stored, if they are to be. */
  predicate NoObstacle(c: Config, write: bool, env: Cache.CallEnv) {
    !c.intercept.cacheAnswers || !c.cache.enabled || (!env.loadFails && (write ==> !env.saveFails))
  }

  /** An A query for a policy's name: addresses are sent unless they cannot be stored, a reply without
      addresses is sent or refused by the flags, and an unreadable one is a failure. */
  ghost predicate AddressAnswer(
    c: Config, query: seq<Byte>, reply: seq<Byte>, write: bool, env: Cache.CallEnv, bytes: seq<Byte>)
  {
    match ARecords(reply)
    case None => ErrorWith(2, query, bytes)
    case Some(ips) =>
      if ips == [] then if BothFlags(c) then ErrorWith(5, query, bytes) else bytes == reply
      else if NoObstacle(c, write, env) then bytes == reply
      else ErrorWith(2, query, bytes)
  }

  /** The addresses to be stored were stored, or the file is as it was. */
  ghost predicate StoredOrNot(
    c: Config, d: string, reply: seq<Byte>, write: bool, env: Cache.CallEnv, before: Cache.CacheFile,
    after: Cache.CacheFile)
  {
    var ips := ARecords(reply);
    if ips.Some? && ips.value != [] && c.intercept.cacheAnswers && c.cache.enabled && write && !env.loadFails
      && !env.saveFails
    then AnswerStored(c, after, d, reply, env.now)
    else after == before
  }

  /** The search for the name meets a malformed policy domain before one for the name. */
  ghost predicate Broken(c: Config, d: string) {
    exists i: nat :: Decides(c.policies, d, i) && BadDomain(c.policies[i])
  }

  /** What is sent for a question, how the file changes, and who is asked. */
  ghost predicate ServedAs(
    c: Config, q: Question, query: seq<Byte>, upstreams: seq<SockAddr>, outcome: Upstreams, write: bool,
    env: Cache.CallEnv, before: Cache.CacheFile, bytes: seq<Byte>, after: Cache.CacheFile, tried: seq<SockAddr>)
  {
    var forPolicy := PolicyDomain(c, q.domain);
    if Broken(c, q.domain) then ErrorWith(2, query, bytes) && after == before && tried == []
    else if forPolicy && q.qtype == 28 && c.intercept.denyAaaa then
      ErrorWith(5, query, bytes) && after == before && tried == []
    else
      exists reply ::
        && UpstreamSays(upstreams, outcome, reply, tried)
        && ReplyTreated(c, q, query, reply, write, env, before, bytes, after, forPolicy)
  }

  /** What becomes of the first upstream's reply, or of none. */
  ghost predicate ReplyTreated(
    c: Config, q: Question, query: seq<Byte>, reply: Option<seq<Byte>>, write: bool, env: Cache.CallEnv,
    before: Cache.CacheFile, bytes: seq<Byte>, after: Cache.CacheFile, forPolicy: bool)
  {
    match reply
    case None => ErrorWith(if forPolicy && BothFlags(c) then 5 else 2, query, bytes) && after == before
    case Some(r) =>
      if forPolicy && q.qtype == 1 && q.qclass == 1
      then AddressAnswer(c, query, r, write, env, bytes) && StoredOrNot(c, q.domain, r, write, env, before, after)
      else bytes == r && after == before
  }

  /** Every query is served like this; one without a readable question gets code 2, or itself back if it
      has no whole header. */
  lemma {:induction false} EveryQueryServed(
    c: Config, file: Cache.CacheFile, query: seq<Byte>, upstreams: seq<SockAddr>, outcome: Upstreams,
    write: bool, env: Cache.CallEnv)
    ensures var h := Handle(c, file, query, upstreams, outcome, write, env);
      var bytes := Sent(query, h.reply);
      match QuestionOf(query)
      case None =>
        h.file == file && h.tried == [] && if |query| < 12 then bytes == query else ErrorWith(2, query, bytes)
      case Some(q) => ServedAs(c, q, query, upstreams, outcome, write, env, file, bytes, h.file, h.tried)
  {
    if |query| >= 12 { ErrorReplyLayout(query, 2); }
    if QuestionOf(query).Some? { QuestionServed(c, file, query, upstreams, outcome, write, env); }
  }

  lemma ErrorsSent(query: seq<Byte>)
    requires |query| >= 12
    ensures ErrorWith(2, query, Sent(query, Err)) && ErrorWith(5, query, Sent(query, Denied(query)))
  {
    ErrorReplyLayout(query, 2);
    ErrorReplyLayout(query, 5);
  }

  /** How the policy search ends. */
  lemma SearchEnds(c: Config, d: string)
    ensures FindFrom(c.policies, d) == Err <==> Broken(c, d)
    ensures FindFrom(c.policies, d).Ok? ==> (FindFrom(c.policies, d).value.Some? <==> PolicyDomain(c, d))
  {
    FindFromExact(c.policies, d);
    FoundIsFor(c.policies, d);
    if FindFrom(c.policies, d) != Ok(None) {
      var i: nat :| Decides(c.policies, d, i);
      DecidedOnce(c.policies, d, i);
    }
  }

  lemma DecidedOnce(ps: seq<Policy>, d: string, i: nat)
    requires Decides(ps, d, i)
    ensures forall j: nat :: Decides(ps, d, j) ==> j == i
  {
    forall j: nat | Decides(ps, d, j) ensures j == i {}
  }

  lemma UpstreamsAsked(upstreams: seq<SockAddr>, outcome: Upstreams)
    ensures var f := Forward(upstreams, outcome, 0); UpstreamSays(upstreams, outcome, f.reply, f.tried)
  {
    ForwardFrom(upstreams, outcome, 0);
    ForwardPasses(upstreams, outcome);
    if Forward(upstreams, outcome, 0).reply.Some? { var i: nat :| FirstReply(upstreams, outcome, i); }
  }

  lemma QuestionServed(
    c: Config, file: Cache.CacheFile, query: seq<Byte>, upstreams: seq<SockAddr>, outcome: Upstreams,
    write: bool, env: Cache.CallEnv)
    requires QuestionOf(query).Some?
    ensures var h := Handle(c, file, query, upstreams, outcome, write, env);
      var bytes := Sent(query, h.reply);
      ServedAs(c, QuestionOf(query).value, query, upstreams, outcome, write, env, file, bytes, h.file, h.tried)
  {
    var q := QuestionOf(query).value;
    QuestionIsCanonical(query);
    ErrorsSent(query);
    SearchEnds(c, q.domain);
    if !Broken(c, q.domain) && !(PolicyDomain(c, q.domain) && q.qtype == 28 && c.intercept.denyAaaa) {
      ForwardedServed(c, file, query, q, upstreams, outcome, write, env);
    }
  }

  /** A query that is forwarded. */
  lemma ForwardedServed(
    c: Config, file: Cache.CacheFile, query: seq<Byte>, q: Question, upstreams: seq<SockAddr>, outcome: Upstreams,
    write: bool, env: Cache.CallEnv)
    requires |query| >= 12 && QuestionOf(query) == Some(q) && Normalize(q.domain) == Some(q.domain)
    requires FindFrom(c.policies, q.domain).Ok? && !Broken(c, q.domain)
    requires FindFrom(c.policies, q.domain).value.Some? <==> PolicyDomain(c, q.domain)
    requires !(PolicyDomain(c, q.domain) && q.qtype == 28 && c.intercept.denyAaaa)
    ensures var h := Handle(c, file, query, upstreams, outcome, write, env);
      ServedAs(c, q, query, upstreams, outcome, write, env, file, Sent(query, h.reply), h.file, h.tried)
  {
    UpstreamsAsked(upstreams, outcome);
    var f, h := Forward(upstreams, outcome, 0), Handle(c, file, query, upstreams, outcome, write, env);
    HandleForwards(c, file, query, q, upstreams, outcome, write, env);
    ReplyServed(c, file, query, q, f, h, write, env, PolicyDomain(c, q.domain));
  }

  lemma HandleForwards(
    c: Config, file: Cache.CacheFile, query: seq<Byte>, q: Question, upstreams: seq<SockAddr>, outcome: Upstreams,
    write: bool, env: Cache.CallEnv)
    requires QuestionOf(query) == Some(q) && Normalize(q.domain) == Some(q.domain)
    requires FindFrom(c.policies, q.domain).Ok?
    requires FindFrom(c.policies, q.domain).value.Some? <==> PolicyDomain(c, q.domain)
    requires !(PolicyDomain(c, q.domain) && q.qtype == 28 && c.intercept.denyAaaa)
    ensures var h, f := Handle(c, file, query, upstreams, outcome, write, env), Forward(upstreams, outcome, 0);
      IsHandled(c, file, query, q, f, h, write, env, PolicyDomain(c, q.domain))
  {}

  /** What is done with the outcome of forwarding. */
  ghost predicate IsHandled(
    c: Config, file: Cache.CacheFile, query: seq<Byte>, q: Question, f: Forwarded, h: Handled, write: bool,
    env: Cache.CallEnv, forPolicy: bool)
  {
    h == match f.reply
         case None => Handled(if forPolicy && BothFlags(c) then Denied(query) else Err, file, f.tried)
         case Some(r) =>
           if forPolicy && q.qtype == 1 && q.qclass == 1 then Checked(c, file, query, q.domain, f, r, write, env)
           else Handled(Ok(r), file, f.tried)
  }

  lemma ReplyServed(
    c: Config, file: Cache.CacheFile, query: seq<Byte>, q: Question, f: Forwarded, h: Handled, write: bool,
    env: Cache.CallEnv, forPolicy: bool)
    requires |query| >= 12 && Normalize(q.domain) == Some(q.domain)
    requires IsHandled(c, file, query, q, f, h, write, env, forPolicy)
    ensures h.tried == f.tried
    ensures ReplyTreated(c, q, query, f.reply, write, env, file, Sent(query, h.reply), h.file, forPolicy)
  {
    ErrorsSent(query);
    if f.reply.Some? { CheckedServed(c, file, query, q.domain, f, f.reply.value, write, env); }
  }

  lemma CheckedServed(
    c: Config, file: Cache.CacheFile, query: seq<Byte>, d: string, f: Forwarded, reply: seq<Byte>,
    write: bool, env: Cache.CallEnv)
    requires |query| >= 12 && Normalize(d) == Some(d)
    ensures var h := Checked(c, file, query, d, f, reply, write, env);
      && AddressAnswer(c, query, reply, write, env, Sent(query, h.reply))
      && StoredOrNot(c, d, reply, write, env, file, h.file) && h.tried == f.tried
  {
    ErrorsSent(query);
    if ARecords(reply).Some? && ARecords(reply).value != [] && Caching(c, write) && !env.loadFails && !env.saveFails {
      ProxyUpsertExact(c.cache, file, d, ARecords(reply).value, env, d);
      ParsedIsSorted(reply);
    }
  }

  /** So an upstream's addresses for a policy's name reach the client exactly when nothing prevents that
      they are stored, and otherwise the client gets code 2. */
  lemma {:induction false} AddressesSentIff(
    c: Config, file: Cache.CacheFile, query: seq<Byte>, upstreams: seq<SockAddr>, outcome: Upstreams,
    write: bool, env: Cache.CallEnv, d: string, i: nat, reply: seq<Byte>)
    requires QuestionOf(query) == Some(Question(d, 1, 1)) && PolicyDomain(c, d) && !Broken(c, d)
    requires FirstReply(upstreams, outcome, i) && outcome(i, upstreams[i]) == Some(reply)
    requires ARecords(reply).Some? && ARecords(reply).value != []
    ensures var bytes := Sent(query, Handle(c, file, query, upstreams, outcome, write, env).reply);
      && (bytes == reply <==>
            !c.intercept.cacheAnswers || !c.cache.enabled || (!env.loadFails && (write ==> !env.saveFails)))
      && (bytes != reply ==> ErrorWith(2, query, bytes))
  {
    QuestionIsCanonical(query);
    EveryQueryServed(c, file, query, upstreams, outcome, write, env);
    OneReply(upstreams, outcome, i);
    ErrorReplyIsSent(query, 2);
    ErrorReplyLayout(query, 2);
  }

  lemma OneReply(upstreams: seq<SockAddr>, outcome: Upstreams, i: nat)
    requires FirstReply(upstreams, outcome, i)
    ensures forall reply, tried :: UpstreamSays(upstreams, outcome, reply, tried) ==> reply == outcome(i, upstreams[i])
  {
    forall j: nat | FirstReply(upstreams, outcome, j) ensures j == i {}
  }
}
