/** One query through the proxy: `handle_query`, the bytes that are sent, and what they guarantee for
    the names of policies. */
module Handler {
  import opened Text
  import opened Domain
  import opened Config
  import opened Wire
  import opened WireProofs
  import opened Proxy
  import opened CacheSystem
  import Cache

  /** The outcome of one query: the reply or an error, the cache file, and the upstreams tried. */
  datatype Handled = Handled(reply: Result<seq<Byte>>, file: Cache.CacheFile, tried: seq<SockAddr>)

  function Denied(query: seq<Byte>): Result<seq<Byte>> {
    match ErrorReply(query, RCODE_REFUSED)
    case None => Err
    case Some(reply) => Ok(reply)
  }

  /** Both deny flags. */
  predicate FailsClosed(c: Config) { c.intercept.denyUnresolved && c.cache.failClosedUnresolved }

  /** What happens to an upstream's reply to an A question for a policy's name. */
  function Checked(
    c: Config, file: Cache.CacheFile, query: seq<Byte>, domain: string, forwarded: Forwarded, reply: seq<Byte>,
    write: bool, env: Cache.CallEnv): Handled
  {
    match ARecords(reply)
    case None => Handled(Err, file, forwarded.tried)
    case Some(ips) =>
      if ips == [] then Handled(if FailsClosed(c) then Denied(query) else Ok(reply), file, forwarded.tried)
      else if !c.intercept.cacheAnswers then Handled(Ok(reply), file, forwarded.tried)
      else
        var cached := Cache.ProxyUpsert(c.cache, file, domain, ips, write, env);
        Handled(if cached.result.Ok? then Ok(reply) else Err, cached.file, forwarded.tried)
  }

  /** `handle_query`, as a value. */
  function Handle(
    c: Config, file: Cache.CacheFile, query: seq<Byte>, upstreams: seq<SockAddr>, outcome: Upstreams,
    write: bool, env: Cache.CallEnv): Handled
  {
    match QuestionOf(query)
    case None => Handled(Err, file, [])
    case Some(q) =>
      match FindPolicy(c.policies, q.domain)
      case Err => Handled(Err, file, [])
      case Ok(policy) =>
        if policy.Some? && q.qtype == QTYPE_AAAA && c.intercept.denyAaaa then Handled(Denied(query), file, [])
        else
          var forwarded := Forward(upstreams, outcome, 0);
          match forwarded.reply
          case None => Handled(if policy.Some? && FailsClosed(c) then Denied(query) else Err, file, forwarded.tried)
          case Some(reply) =>
            if policy.Some? && q.qtype == QTYPE_A && q.qclass == QCLASS_IN
            then Checked(c, file, query, q.domain, forwarded, reply, write, env)
            else Handled(Ok(reply), file, forwarded.tried)
  }

  /** The bytes sent back: an error becomes a SERVFAIL reply, or the query itself if it is too short
      for one. */
  function Sent(query: seq<Byte>, reply: Result<seq<Byte>>): seq<Byte> {
    match reply
    case Ok(bytes) => bytes
    case Err =>
      match ErrorReply(query, RCODE_SERVFAIL)
      case None => query
      case Some(bytes) => bytes
  }

  method HandleQuery(
    c: Config, store: Cache.CacheStore, query: seq<Byte>, upstreams: seq<SockAddr>, outcome: Upstreams,
    write: bool, env: Cache.CallEnv)
    returns (reply: Result<seq<Byte>>, tried: seq<SockAddr>)
    modifies store
    ensures Handled(reply, store.file, tried) == Handle(c, old(store.file), query, upstreams, outcome, write, env)
  {
    tried := [];
    var question := ParseQuestion(query);
    if question.None? { return Err, []; }
    var q := question.value;
    var found := FindEnabledDomainPolicy(c.policies, q.domain);
    if found.Err? { return Err, []; }
    var isPolicyDomain := found.value.Some?;
    if isPolicyDomain && q.qtype == QTYPE_AAAA && c.intercept.denyAaaa {
      reply := Refuse(query);
      return;
    }
    var forwarded := ForwardQueryWithFailover(upstreams, outcome);
    tried := forwarded.tried;
    if forwarded.reply.None? {
      if isPolicyDomain && c.intercept.denyUnresolved && c.cache.failClosedUnresolved {
        reply := Refuse(query);
        return;
      }
      return Err, tried;
    }
    var response := forwarded.reply.value;
    if isPolicyDomain && q.qtype == QTYPE_A && q.qclass == QCLASS_IN {
      var records := ParseARecords(response);
      if records.None? { return Err, tried; }
      if records.value == [] {
        if c.intercept.denyUnresolved && c.cache.failClosedUnresolved { reply := Refuse(query); return; }
      } else if c.intercept.cacheAnswers {
        var cached := store.UpsertLiveIpsFromProxy(c.cache, q.domain, records.value, write, env);
        if cached.Err? { return Err, tried; }
      }
    }
    return Ok(response), tried;
  }

  method Refuse(query: seq<Byte>) returns (reply: Result<seq<Byte>>)
    ensures reply == Denied(query)
  {
    var response := BuildErrorResponse(query, RCODE_REFUSED);
    match response
    case None => return Err;
    case Some(bytes) => return Ok(bytes);
  }

  /** One turn of the loop of `run_dns_proxy`. */
  method ServeOne(
    c: Config, store: Cache.CacheStore, query: seq<Byte>, upstreams: seq<SockAddr>, outcome: Upstreams,
    write: bool, env: Cache.CallEnv)
    returns (bytes: seq<Byte>)
    modifies store
    ensures var h := Handle(c, old(store.file), query, upstreams, outcome, write, env);
      bytes == Sent(query, h.reply) && store.file == h.file
  {
    var reply, tried := HandleQuery(c, store, query, upstreams, outcome, write, env);
    match reply
    case Ok(response) => return response;
    case Err =>
      var failure := BuildErrorResponse(query, RCODE_SERVFAIL);
      match failure
      case Some(response) => return response;
      case None => return query;
  }

  // ---------------------------------------------------------------- guarantees

  /** A reply that keeps the question and carries an error code and no records. */
  ghost predicate ErrorSent(query: seq<Byte>, bytes: seq<Byte>) {
    ErrorHeader(query, bytes) && SameQuestion(query, bytes)
  }

  ghost predicate ErrorHeader(query: seq<Byte>, bytes: seq<Byte>) {
    && |bytes| == |query| >= 12 && bytes[..2] == query[..2] && bytes[12..] == query[12..]
    && bytes[2] >= 128 && bytes[3] % 16 != 0
    && (forall i :: 6 <= i < 12 ==> bytes[i] == 0)
  }

  predicate SameQuestion(query: seq<Byte>, bytes: seq<Byte>) {
    QuestionOf(bytes) == QuestionOf(query) && (ARecords(bytes).Some? ==> ARecords(bytes).value == [])
  }

  lemma ErrorReplyIsSent(query: seq<Byte>, rcode: u16)
    requires |query| >= 12 && 0 < rcode < 16
    ensures ErrorReply(query, rcode).Some? && ErrorSent(query, ErrorReply(query, rcode).value)
  {
    ErrorHeaderIsSent(query, rcode);
    ErrorReplyParses(query, rcode);
  }

  lemma ErrorHeaderIsSent(query: seq<Byte>, rcode: u16)
    requires |query| >= 12 && 0 < rcode < 16
    ensures ErrorReply(query, rcode).Some? && ErrorHeader(query, ErrorReply(query, rcode).value)
  {
    ErrorReplyLayout(query, rcode);
  }

  /** The bytes are the reply of the first upstream that answered, and its answers can be read. */
  ghost predicate UpstreamReply(upstreams: seq<SockAddr>, outcome: Upstreams, bytes: seq<Byte>) {
    && (exists i: nat :: FirstReply(upstreams, outcome, i) && outcome(i, upstreams[i]) == Some(bytes))
    && ARecords(bytes).Some?
  }

  /** Some enabled policy is for the name. */
  ghost predicate PolicyDomain(c: Config, d: string) { exists p :: p in c.policies && IsFor(p, d) }

  lemma PolicyIsFound(c: Config, d: string)
    requires PolicyDomain(c, d) && Normalize(d) == Some(d)
    ensures var found := FindPolicy(c.policies, d); found.Ok? ==> found.value.Some?
  {
    FindFromExact(c.policies, d);
  }

  lemma QuestionIsCanonical(query: seq<Byte>)
    requires QuestionOf(query).Some?
    ensures |query| >= 12 && Normalize(QuestionOf(query).value.domain) == Some(QuestionOf(query).value.domain)
  {
    var labels := Labels(query, 12);
    NormalizeFixedPoints(JoinDots(labels.value.0));
  }

  /** The announced addresses are stored, to expire a time-to-live from now. */
  ghost predicate AnswerStored(c: Config, file: Cache.CacheFile, d: string, bytes: seq<Byte>, now: u64)
    requires ARecords(bytes).Some?
  {
    var expires := Cache.SatAdd(now, c.cache.ttl);
    Stored(file, d) == Some(Cache.Entry(d, ARecords(bytes).value, now, expires, "dns-proxy", None))
  }

  predicate Caching(c: Config, write: bool) { c.intercept.cacheAnswers && write && c.cache.enabled }

  /** What holds of an upstream's reply that is released for a policy's name. */
  ghost predicate Released(
    c: Config, file: Cache.CacheFile, d: string, upstreams: seq<SockAddr>, outcome: Upstreams, bytes: seq<Byte>,
    write: bool, now: u64)
  {
    && UpstreamReply(upstreams, outcome, bytes)
    && (ARecords(bytes).value == [] ==> !FailsClosed(c))
    && (ARecords(bytes).value != [] && Caching(c, write) ==> AnswerStored(c, file, d, bytes, now))
  }

  /** The proxy fails closed. Whatever the upstreams do, an A query for a policy's name is answered by
      an error reply without records, or by the reply of the first upstream that answered; with both
      deny flags that reply announces an address; and with caching and writing on, exactly the
      announced addresses are stored when it is released. */
  lemma {:induction false} ProxyFailsClosed(
    c: Config, file: Cache.CacheFile, query: seq<Byte>, upstreams: seq<SockAddr>, outcome: Upstreams,
    write: bool, env: Cache.CallEnv, d: string)
    requires QuestionOf(query) == Some(Question(d, 1, 1)) && PolicyDomain(c, d)
    ensures var h := Handle(c, file, query, upstreams, outcome, write, env);
      var bytes := Sent(query, h.reply);
      ErrorSent(query, bytes) || Released(c, h.file, d, upstreams, outcome, bytes, write, env.now)
  {
    QuestionIsCanonical(query);
    ErrorReplyIsSent(query, RCODE_REFUSED);
    ErrorReplyIsSent(query, RCODE_SERVFAIL);
    PolicyQueryOutcomes(c, file, query, upstreams, outcome, write, env, d);
  }

  /** An A query for a policy's name ends in an error, a refusal or a released reply. */
  lemma PolicyQueryOutcomes(
    c: Config, file: Cache.CacheFile, query: seq<Byte>, upstreams: seq<SockAddr>, outcome: Upstreams,
    write: bool, env: Cache.CallEnv, d: string)
    requires QuestionOf(query) == Some(Question(d, 1, 1)) && PolicyDomain(c, d)
    ensures var h := Handle(c, file, query, upstreams, outcome, write, env);
      || h.reply == Err || h.reply == Denied(query)
      || (h.reply.Ok? && Released(c, h.file, d, upstreams, outcome, h.reply.value, write, env.now))
  {
    QuestionIsCanonical(query);
    PolicyIsFound(c, d);
    ForwardFrom(upstreams, outcome, 0);
    var forwarded := Forward(upstreams, outcome, 0);
    if FindPolicy(c.policies, d).Ok? && forwarded.reply.Some? {
      CheckedOutcomes(c, file, query, d, forwarded, forwarded.reply.value, write, env);
    }
  }

  lemma CheckedOutcomes(
    c: Config, file: Cache.CacheFile, query: seq<Byte>, d: string, forwarded: Forwarded, reply: seq<Byte>,
    write: bool, env: Cache.CallEnv)
    requires Normalize(d) == Some(d)
    ensures var h := Checked(c, file, query, d, forwarded, reply, write, env);
      || h.reply == Err || h.reply == Denied(query)
      || (&& h.reply == Ok(reply) && ARecords(reply).Some?
          && (ARecords(reply).value == [] ==> !FailsClosed(c))
          && (ARecords(reply).value != [] && Caching(c, write) ==> AnswerStored(c, h.file, d, reply, env.now)))
  {
    if ARecords(reply).Some? && ARecords(reply).value != [] && Caching(c, write) && !env.loadFails && !env.saveFails {
      ProxyUpsertExact(c.cache, file, d, ARecords(reply).value, env, d);
      ParsedIsSorted(reply);
    }
  }

  /** A reply with addresses that `handle_query` returns is not an error reply, so it was released. */
  lemma {:induction false} AddressesAreReleased(
    c: Config, file: Cache.CacheFile, query: seq<Byte>, upstreams: seq<SockAddr>, outcome: Upstreams,
    write: bool, env: Cache.CallEnv, d: string, bytes: seq<Byte>)
    requires QuestionOf(query) == Some(Question(d, 1, 1)) && PolicyDomain(c, d)
    requires Handle(c, file, query, upstreams, outcome, write, env).reply == Ok(bytes)
    requires ARecords(bytes).Some? && ARecords(bytes).value != []
    ensures var h := Handle(c, file, query, upstreams, outcome, write, env);
      Released(c, h.file, d, upstreams, outcome, bytes, write, env.now)
  {
    QuestionIsCanonical(query);
    ErrorReplyIsSent(query, RCODE_REFUSED);
    PolicyQueryOutcomes(c, file, query, upstreams, outcome, write, env, d);
  }

  /** Parsed address sets are what the cache's own sorting makes of them. */
  lemma ParsedIsSorted(reply: seq<Byte>)
    requires ARecords(reply).Some?
    ensures UniqueSorted(ARecords(reply).value) == ARecords(reply).value
  {
    var pos := QuestionsEnd(reply, 12, ReadU16(reply, 4).value).value;
    var found := Addresses(reply, pos, ReadU16(reply, 6).value).value;
    var ips := ARecords(reply).value;
    UniqueSortedExact(found);
    UniqueSortedExact(ips);
    SortedUnique(UniqueSorted(ips), ips);
  }

  /** Denied AAAA questions for policy names never reach an upstream, and nothing does before the
      question was understood. */
  lemma {:induction false} AaaaNeverForwarded(
    c: Config, file: Cache.CacheFile, query: seq<Byte>, upstreams: seq<SockAddr>, outcome: Upstreams,
    write: bool, env: Cache.CallEnv, d: string, qclass: u16)
    requires QuestionOf(query) == Some(Question(d, 28, qclass)) && PolicyDomain(c, d) && c.intercept.denyAaaa
    ensures var h := Handle(c, file, query, upstreams, outcome, write, env);
      h.tried == [] && h.file == file && ErrorSent(query, Sent(query, h.reply))
  {
    QuestionIsCanonical(query);
    PolicyIsFound(c, d);
    ErrorReplyIsSent(query, RCODE_REFUSED);
    ErrorReplyIsSent(query, RCODE_SERVFAIL);
  }

  /** Names of no policy pass through exactly when no enabled policy domain is malformed. Then the
      first upstream's reply is sent as it is, whatever it says, and an error only if all fail; else
      no upstream is asked and every such name is answered by an error. The cache is left alone. */
  lemma {:induction false} OthersPassThrough(
    c: Config, file: Cache.CacheFile, query: seq<Byte>, upstreams: seq<SockAddr>, outcome: Upstreams,
    write: bool, env: Cache.CallEnv)
    requires QuestionOf(query).Some? && !PolicyDomain(c, QuestionOf(query).value.domain)
    ensures var h := Handle(c, file, query, upstreams, outcome, write, env);
      h.file == file &&
      if WellFormed(c.policies) then PassedThrough(query, upstreams, outcome, h) else Blocked(query, h)
    ensures (exists i: nat :: FirstReply(upstreams, outcome, i)) ==>
      (Handle(c, file, query, upstreams, outcome, write, env).reply.Ok? <==> WellFormed(c.policies))
  {
    QuestionIsCanonical(query);
    HandleOther(c, file, query, upstreams, outcome, write, env);
    var h := Handle(c, file, query, upstreams, outcome, write, env);
    ErrorReplyIsSent(query, RCODE_SERVFAIL);
    if WellFormed(c.policies) { ForwardedPasses(query, upstreams, outcome, h); }
  }

  /** A query for a name of no policy: forwarded, or an error at once. */
  lemma HandleOther(
    c: Config, file: Cache.CacheFile, query: seq<Byte>, upstreams: seq<SockAddr>, outcome: Upstreams,
    write: bool, env: Cache.CallEnv)
    requires QuestionOf(query).Some? && !PolicyDomain(c, QuestionOf(query).value.domain)
    ensures Handle(c, file, query, upstreams, outcome, write, env) ==
      if WellFormed(c.policies) then ForwardedOnly(file, Forward(upstreams, outcome, 0)) else Handled(Err, file, [])
  {
    QuestionIsCanonical(query);
    SearchInVain(c.policies, QuestionOf(query).value.domain);
  }

  function ForwardedOnly(file: Cache.CacheFile, f: Forwarded): Handled {
    Handled(if f.reply.Some? then Ok(f.reply.value) else Err, file, f.tried)
  }

  lemma ForwardedPasses(query: seq<Byte>, upstreams: seq<SockAddr>, outcome: Upstreams, h: Handled)
    requires h == ForwardedOnly(h.file, Forward(upstreams, outcome, 0))
    requires ErrorSent(query, Sent(query, Err))
    ensures PassedThrough(query, upstreams, outcome, h)
  {
    ForwardPasses(upstreams, outcome);
  }

  /** The first upstream's reply unchanged, or an error after asking all. */
  ghost predicate PassedThrough(query: seq<Byte>, upstreams: seq<SockAddr>, outcome: Upstreams, h: Handled) {
    && (forall i: nat :: FirstReply(upstreams, outcome, i) ==>
          h.reply.Ok? && Some(h.reply.value) == outcome(i, upstreams[i]) && h.tried == upstreams[..i + 1])
    && ((forall i :: 0 <= i < |upstreams| ==> outcome(i, upstreams[i]).None?) ==>
          ErrorSent(query, Sent(query, h.reply)) && h.tried == upstreams)
  }

  /** An error without asking any upstream. */
  ghost predicate Blocked(query: seq<Byte>, h: Handled) {
    h.reply.Err? && h.tried == [] && ErrorSent(query, Sent(query, h.reply))
  }

  lemma ForwardPasses(upstreams: seq<SockAddr>, outcome: Upstreams)
    ensures var r := Forward(upstreams, outcome, 0);
      && (forall i: nat :: FirstReply(upstreams, outcome, i) ==>
            r.reply == outcome(i, upstreams[i]) && r.tried == upstreams[..i + 1])
      && ((forall i :: 0 <= i < |upstreams| ==> outcome(i, upstreams[i]).None?) ==>
            r.reply.None? && r.tried == upstreams)
  {
    ForwardFrom(upstreams, outcome, 0);
    assert upstreams[0..] == upstreams;
    assert forall n :: 0 <= n <= |upstreams| ==> upstreams[0..n] == upstreams[..n];
  }

  /** Handling a query changes at most the cached entry of its own name. */
  lemma {:induction false} HandleFrame(
    c: Config, file: Cache.CacheFile, query: seq<Byte>, upstreams: seq<SockAddr>, outcome: Upstreams,
    write: bool, env: Cache.CallEnv, other: string)
    requires QuestionOf(query).Some? ==> QuestionOf(query).value.domain != other
    ensures Stored(Handle(c, file, query, upstreams, outcome, write, env).file, other) == Stored(file, other)
  {
    HandleFile(c, file, query, upstreams, outcome, write, env);
    var h, forwarded := Handle(c, file, query, upstreams, outcome, write, env), Forward(upstreams, outcome, 0);
    if h.file != file {
      QuestionIsCanonical(query);
      CheckedFrame(c, file, query, QuestionOf(query).value.domain, forwarded, forwarded.reply.value, write, env, other);
    }
  }

  /** The cache file changes only by a checked reply. */
  lemma HandleFile(
    c: Config, file: Cache.CacheFile, query: seq<Byte>, upstreams: seq<SockAddr>, outcome: Upstreams,
    write: bool, env: Cache.CallEnv)
    ensures var h, forwarded := Handle(c, file, query, upstreams, outcome, write, env), Forward(upstreams, outcome, 0);
      h.file != file ==>
        && QuestionOf(query).Some? && forwarded.reply.Some?
        && h == Checked(c, file, query, QuestionOf(query).value.domain, forwarded, forwarded.reply.value, write, env)
  {}

  lemma CheckedFrame(
    c: Config, file: Cache.CacheFile, query: seq<Byte>, d: string, forwarded: Forwarded, reply: seq<Byte>,
    write: bool, env: Cache.CallEnv, other: string)
    requires Normalize(d) == Some(d) && d != other
    ensures Stored(Checked(c, file, query, d, forwarded, reply, write, env).file, other) == Stored(file, other)
  {
    var kept := !c.cache.enabled || !write || env.loadFails || env.saveFails;
    if ARecords(reply).Some? && ARecords(reply).value != [] && !kept {
      ProxyUpsertExact(c.cache, file, d, ARecords(reply).value, env, other);
    }
  }

  /** From the wire: a query for any spelling of a policy's name, in upper or lower case, is one to
      which the guarantees above apply. */
  lemma SpellingIsPolicyQuestion(
    c: Config, header: seq<Byte>, spelling: string, p: Policy, qtype: u16, qclass: u16, trailer: seq<Byte>)
    requires p in c.policies && EnabledDomain(p) && Normalize(p.spec.domain.value).Some?
    requires CaseVariant(spelling, Normalize(p.spec.domain.value).value)
    requires |header| == 12 && ReadU16(header, 4) != Some(0)
    ensures forall i :: 0 <= i < |SplitDots(spelling)| ==> WireLabel(SplitDots(spelling)[i])
    ensures var d, query := Normalize(p.spec.domain.value).value,
      header + EncodeLabels(SplitDots(spelling)) + (U16(qtype) + U16(qclass)) + trailer;
      QuestionOf(query) == Some(Question(d, qtype, qclass)) && PolicyDomain(c, d)
  {
    var d := Normalize(p.spec.domain.value).value;
    NormalizeFixedPoints(p.spec.domain.value);
    assert Normalize(d) == Some(d);
    QuestionRoundTrip(header, d, spelling, qtype, qclass, trailer);
    assert IsFor(p, d);
  }
}
