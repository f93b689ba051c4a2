# eve-net: a verified model

eve-net turns a JSON policy into Linux routing state and runs a small DNS proxy whose answers feed it.
This project models that pipeline in Dafny and proves what it is for, from the bytes of a DNS reply to
the device a packet leaves by:

- **the reconciler as a compiler**: nft chain, policy-routing rules and per-table default routes as a
  kernel state; every command one step that may fail; the packet's way through chain, mark, rule, table
  and device equal to the meaning of the policy list;
- **the DNS codec**: cursor loops over RFC 1035 messages and the in-place error reply;
- **the DNS cache**: a sorted list used as a map, in a file that several processes load and save
  without a lock;
- **the proxy**: policy lookup, failover and the fail-closed decisions that connect the codec to the cache.

Each operation exists twice where the program changes state: as a value (`Reconcile.ReconcileOnce`,
`Cache.Resolve`, `Handler.Handle`, ...) and as a method that does it step by step on the program's own
kind of state (`Reconcile.Host`, `Cache.CacheStore`, byte arrays, cursors), proved to end in that value.
The theorems are about the values, so they hold of the methods. What the values are is said a second time,
without them: in the words of the configuration, of the bytes and of the numbers of the standards
(`Compile.FollowsPolicies`, `Routes.DefaultFor`, `Outcomes.ServedAs`, `CacheAnswers.ResolvesTo`,
`Faults.HasFault`, `WireQuestions.AsksFor`, `Domain.HostName`).

Clock readings, resolver and upstream answers, link health, host inspection, hash-map order, the failure
of any single command, listing, load or save, and socket-address parsing are inputs of each call. The
theorems quantify over all of them; where a failure changes the outcome, both outcomes are stated.

## How the files fit together

| file | content |
|---|---|
| `Text.dfy`, `Domain.dfy`, `Config.dfy` | strings, ordered sets, permutations; domain names; the configuration, its validation and its upstream list |
| `Faults.dfy`, `Upstreams.dfy` | what validation rejects; which upstreams are in use |
| `Wire.dfy`, `WireProofs.dfy`, `WireQuestions.dfy` | the codec; its grammar, exactness and round trips; questions and UTF-8 |
| `Cache.dfy`, `CacheAnswers.dfy`, `CacheSystem.dfy`, `CacheRaces.dfy` | cache operations and the list as a map; what each returns and stores, case by case; frames, the shared file under interleaving; what overlapping loads and saves lose and keep |
| `Kernel.dfy`, `DirectEgress.dfy`, `Reconcile.dfy`, `Routes.dfy` | kernel, packets and the textual rule test; drift repair; one reconcile and cleanup; which default route an egress is to have |
| `Compile.dfy`, `Faithful.dfy`, `Safety.dfy`, `Dangling.dfy`, `Progress.dfy`, `Failures.dfy`, `Handover.dfy`, `Order.dfy` | meaning preserved, and over runs exactly when; no dangling mark, exactly when; when a reconcile succeeds, exactly; the order of its commands; iteration order |
| `Repeat.dfy`, `Idempotence.dfy`, `Refresh.dfy`, `Undo.dfy` | doing it again, and exactly when that changes nothing; the two drift repairs; cleanup |
| `Proxy.dfy`, `Handler.dfy`, `Outcomes.dfy`, `Pipeline.dfy` | policy lookup and failover; one query; what is sent for every query; from a released answer to a packet's device |
| `Counterexamples.dfy` | inputs on which the program falls short |

## What turned out to be conditional

The rule test searches `ip rule show` for two substrings, so a rule on mark 0x10 and table 100 hides an
absent rule on mark 0x1 and table 10. `Kernel.LineListedExact` gives the exact condition. From a host on
which nothing of a validated configuration exists yet:

- every packet goes where the policies say after every successful reconcile of every run if and only if no
  such pair concerns an egress that policies use and the rules of the used egresses come before the main
  table's (`Faithful.PacketsFollowIff`);
- no mark dangles after any command of any run if and only if no such pair concerns an egress that policies
  use (`Dangling.NeverDanglesIffClashFree`).

When such a pair does concern one, two reconciles in which nothing fails are enough to leave every packet
that any policy selects without a route by its mark (`Faithful.ClashUnroutesEverySelected`). The iteration
order is irrelevant if and only if no rule still missing is taken for another
(`Order.OrderIndependentIffNoMistakes`). Cleanup, and the rules and routes of a repeated reconcile, need no
such condition. `Counterexamples.ClashingDangles`, `Counterexamples.ClashingPackets` and
`Counterexamples.ClashingDependsOnOrder` show a validated configuration with that pair, the mark it dangles,
the packets it leaves without a route and its dependence on the order.

Validation looks at a policy's domain only to see that it is not blank. With a malformed one, for example
`*.example.com`, in an enabled policy, the proxy answers every question for a name of no policy with an
error and asks no upstream. Such names pass through if and only if no enabled policy domain is malformed
(`Handler.OthersPassThrough`; `Counterexamples.WildcardBlocksEverything`).

A reconcile that cannot read the cache file for a policy skips the policy and still succeeds, so a cached
answer is routed unless the read fails, in which case the policy contributes no rule
(`Pipeline.ReleasedAnswerIsRouted`, `Pipeline.UnreadableCacheSkipsPolicy`).

`Config::validate` lower-cases ASCII only and `normalize_domain` lower-cases Unicode. The only non-ASCII
character whose lower case is pure ASCII is KELVIN SIGN (U+212A, to `k`), so validation misses a
duplicate exactly when KELVIN SIGN stands for `k` in one spelling only (`Domain.DuplicateCheckExact`,
with `Domain.MissedDuplicate` as the smallest case). A validated configuration reconciles idempotently for
all inputs if and only if its cache is off or no two of its enabled policies are for one name
(`Idempotence.IdempotentIffRepeatable`), and the policy search depends on the order of the policies in
exactly the cases `Proxy.SearchIsOrderFreeIff` names; `Counterexamples.TwoSpellingsMislead` is a validated
configuration that fails both.

Drift repair converges exactly when the host's values survive trimming or are blank
(`DirectEgress.RefreshConverges`; `Counterexamples.RefreshCanFail` is a host on which it does not). With the
cache disabled the proxy stores nothing.

A save of the cache file gives every name what its operation makes of the entry stored when it loaded,
whatever other processes saved in between (`CacheRaces.CommitIsDecidedByLoad`). So a save can drop another
name's update (`CacheRaces.UpdateCanBeLost`), and a refresh of a name that fails puts back the addresses it
loaded, over newer ones (`CacheRaces.RefreshCanUndoUpdate`). Failed refreshes keep every entry's addresses,
age and expiry when the calls come one after the other (`CacheSystem.FailuresKeepData`) and when only failed
refreshes overlap (`CacheRaces.InterleavedFailuresKeepData`).

## Model

| member | source | states |
|---|---|---|
| Faithful.PacketsFollowIff | src/runtime.rs:29-127 | from an untouched host, after every run and every successful apply-mode reconcile that follows it, every packet goes where the policies say, if and only if no enabled egress's rule line is mistaken for the rule of an egress policies use and the rules of used egresses come before the main table's |
| Faithful.ClashUnroutesEverySelected | src/routing/iprule.rs:53-60 | for every clashing pair: after a reconcile with only the one up, a reconcile with only the other up leaves every packet that any policy selects with the other's mark and without a route by it |
| Faithful.EverySelectedIsUnrouted | src/routing/iprule.rs:33-79 | whenever one egress is up and no rule on its mark comes before the main table's, that is so of every packet any policy selects |
| Compile.CompilationPreservesMeaning | src/runtime.rs:58-127 | the if half for one reconcile, from any kernel without foreign rules on owned marks: every packet some policy selects gets the mark of the last selecting policy's egress and, unless a foreign rule decides first, leaves by that egress's device, via the gateway and with the source address it is to have; every other packet stays unmarked and, unless a foreign rule is on mark 0, takes no route by a rule on a mark |
| Compile.ReconcileInstalls | src/runtime.rs:58-127 | the chain is exactly the compiled rules, every healthy egress has its default route, the cache file is what the resolutions left; the early return is no exception |
| Compile.ReconcileRoutesAsConfigured | src/routing/iprule.rs:6-31 | after it, every enabled egress that is up has a default route by its own device, via the configured gateway and with the configured source address, left out when blank, or both of the host's where a direct egress's host moved one of them; all other tables are as before |
| Compile.ReconcileRulesAsConfigured | src/routing/iprule.rs:33-79 | and, without clashes, each such egress that policies use has the rule of its priority, mark and table |
| Routes.PreparedDefault | src/runtime.rs:147-195 | the route built for a prepared egress is the one it is to have on the inspected host |
| Routes.HealthyMapFails | src/runtime.rs:129-195 | the healthy map fails exactly when an enabled direct egress is up whose gateway or source address on the host is unknown, or moved while auto-refresh is off |
| Progress.ErrsOnlyForUnusable | src/runtime.rs:58-195 | so a reconcile in which nothing fails errs exactly then |
| Failures.ReconcileOkIff | src/runtime.rs:58-127 | a reconcile of a validated configuration succeeds exactly when table and chain are there or can be added, no such egress is up, and no later command or listing fails |
| Handover.ChainChangesLast | src/runtime.rs:58-109 | after every single command of a reconcile, complete or aborted, the chain is the one from before, or every enabled egress that is up already has the default route it is to have |
| Failures.SetupOkIff | src/routing/nft.rs:5-75 | the two listings may fail, then table and chain are added; only a failed addition is an error |
| Routes.DriftExact | src/direct_egress.rs:42-67 | each kind of drift, by which of the host's values is missing or differs from a non-blank configured one |
| Routes.RefreshedExact | src/direct_egress.rs:101-197 | refreshing replaces both addresses of exactly the enabled direct egresses whose host moved one, by the host's |
| Compile.EarlyReturn | src/runtime.rs:62-66 | flushing because nothing is healthy leaves the chain the full path would |
| Compile.RulesOfMark | src/routing/nft.rs:90-159 | the rules emitted for one policy mark exactly the packets the policy covers, with CIDR preferred to address, a resolved domain replacing both, and uid a conjunct |
| Compile.CompiledMark | src/runtime.rs:75-124 | a mark set gives no verdict, so the mark of a packet is that of the last selecting policy, or 0 |
| Compile.EnsureAllRoutes | src/routing/iprule.rs:6-31 | the route phase gives each table a default by its egress's device, gateway and source address, blank ones left out, and touches no other table |
| Progress.ErrorsComeFromOutside | src/runtime.rs:58-127 | for a validated configuration no command is refused for want of a table, chain or rule, and `append_match` never errs: without a failing attempt a reconcile succeeds exactly when the healthy map can be built |
| Safety.EveryCommandGood | src/runtime.rs:29-56 | for a clash-free configuration and from a kernel where it holds, over any run of reconciles, with any inputs and failures, after every single command each chain mark has its rule and route |
| Safety.ReconcileGood | src/runtime.rs:58-127 | one reconcile of a clash-free configuration keeps that invariant at each command and, if it succeeds, routes every healthy egress that policies use |
| Safety.HealthyMapExact | src/runtime.rs:129-145 | the healthy map holds exactly the egresses that are enabled and, in apply mode, up, each as prepared, with its configured mark, table and priority |
| Safety.DryRunInert | src/exec.rs:19-45 | a dry-run reconcile changes neither kernel nor cache file |
| Dangling.NeverDanglesIffClashFree | src/routing/iprule.rs:33-79 | from an untouched host, no run whatsoever dangles a mark if and only if no enabled egress's rule line is mistaken for the rule of an egress policies use |
| Dangling.OneRunDangles | src/routing/iprule.rs:53-60 | for every clashing configuration, a run in which nothing fails and a mark dangles |
| Dangling.ClashedPacketIsUnrouted | src/routing/iprule.rs:53-60 | in that run, with both egresses up, every packet whose last selecting policy uses the hidden egress leaves with its mark and without a route by it |
| Counterexamples.ClashingIsValid | src/config.rs:284-409 | validation accepts egresses on mark 0x10 and table 100 and on mark 0x1 and table 10, which clash |
| Counterexamples.ClashingDangles | src/routing/iprule.rs:53-60 | one undisturbed reconcile of that configuration on an empty host dangles mark 1, so marks can dangle and packets go astray |
| Counterexamples.ClashingPackets | src/routing/iprule.rs:53-60 | every packet of its policy's user leaves with mark 1 and without a route by it |
| Counterexamples.ClashingDependsOnOrder | src/runtime.rs:68-73 | on an empty host, the iteration order decides which of its rules are added |
| Kernel.LineListedExact | src/routing/iprule.rs:53-60 | a rendered rule contains both substrings exactly when the wanted hex mark and decimal table are string prefixes of its own |
| Kernel.RuleListedExact | src/cleanup.rs:33-35 | the test never misses a present rule, and reports an absent one exactly when some line is mistaken for it |
| Kernel.RouteForOwned | src/routing/iprule.rs:33-79 | a mark whose only rule is its egress's leads to that egress's default route, for packets no foreign rule of the same or a smaller priority number decides |
| Order.OrderIndependentIffNoMistakes | src/runtime.rs:68-73 | from any kernel, every iteration order of the egresses reaches the same state if and only if no missing rule is mistaken for another missing one |
| Order.EnsureAllAdds | src/routing/iprule.rs:33-79 | then exactly the missing rules are added, each once |
| Order.NeverAdded | src/routing/iprule.rs:57-60 | a rule that some other line is taken for is never added |
| Repeat.RoutesAreSettled | src/runtime.rs:58-127 | a second successful reconcile with the same health, answers and clock leaves rules and routes unchanged, in any order, clashes or not |
| Repeat.ReconcileIsIdempotent | src/runtime.rs:58-127 | and the chain too, if the cache is off or no two enabled policies are for one name |
| Idempotence.IdempotentIffRepeatable | src/runtime.rs:58-127 | a validated configuration reconciles idempotently for all inputs at one clock reading if and only if its cache is off or no two enabled policies are for one name |
| Counterexamples.TwoSpellingsMislead | src/config.rs:373-384 | a validated configuration with one name in two spellings, on which the policy search depends on the order and a reconcile repeated at the same time can change the chain |
| Repeat.OrderIsIrrelevant | src/runtime.rs:68-109 | the whole reconcile ends in the same chain, routes and rules for every iteration order, if no rule it adds is mistaken for another |
| Repeat.ResolveAgain | src/dns_cache.rs:51-177 | resolving a name again at the same time gives the same addresses although the first call rewrote the entry |
| Undo.CleanupInvertsReconcile | src/cleanup.rs:6-71 | after any history of complete and aborted reconciles and cleanups, one undisturbed cleanup gives back the initial kernel, rules in their old order |
| Undo.HistoryKeeps | src/cleanup.rs:29-57 | after every single command of such a history the rules and routes of others are untouched and no own rule is there twice |
| Undo.CleanupClears | src/cleanup.rs:6-71 | an undisturbed cleanup leaves no own table, rule or route |
| Refresh.RefreshFirstOrNot | src/runtime.rs:147-195 | a reconcile with auto-refresh equals, command by command, one of the refreshed configuration, which needs no auto-refresh once the host's values settle |
| DirectEgress.RefreshConverges | src/direct_egress.rs:101-197 | refresh then plan reports no drift exactly when every drifting egress's host values survive trimming or are blank |
| Counterexamples.RefreshCanFail | src/direct_egress.rs:42-67 | a host value with a blank in front drifts again after the refresh |
| DirectEgress.RefreshIsRepair | src/direct_egress.rs:169-197 | refreshing the file repairs every enabled direct egress by its own plan and leaves all others alone |
| DirectEgress.RepairSettles | src/direct_egress.rs:42-67 | a repair changes only gateway and source address, and repairing twice is repairing once |
| DirectEgress.RepairsAgree | src/runtime.rs:147-195 | the in-memory repair of a refreshed egress equals that of the stale one |
| DirectEgress.ApplyRefresh | src/direct_egress.rs:169-197 | the nested loops over the array do what all plans do to each entry |
| Reconcile.Host.Reconcile | src/runtime.rs:58-127 | the step-by-step reconcile ends in `ReconcileOnce` of its initial state, trace of kernels and cache file included |
| Reconcile.Host.EnsureTableAndChain | src/routing/nft.rs:5-75 | table and chain are added when listing them fails |
| Reconcile.Host.EnsureRouteTableDefault | src/routing/iprule.rs:6-31 | the table's default route is replaced by the egress's, blank gateway and source omitted |
| Reconcile.Host.EnsureFwmarkRule | src/routing/iprule.rs:33-79 | the rule is added unless listed; a failed listing is an error |
| Reconcile.Host.HealthyEgressMap | src/runtime.rs:129-145 | the loop builds the healthy map or stops at the first unusable direct egress |
| Reconcile.Host.ApplyDirectRuntimeState | src/runtime.rs:147-195 | drift is repaired with auto-refresh, an error without it, and incomplete runtime state is an error |
| Reconcile.Host.AddPolicyRule | src/routing/nft.rs:116-159 | one rule with the match's destination and uid is appended, or an empty match is an error |
| Reconcile.Host.AddResolvedRules | src/runtime.rs:98-109 | one rule per resolved address, stopping at the first failure |
| Reconcile.Host.AddAllPolicies | src/runtime.rs:75-124 | enabled policies in order, unhealthy egresses and unresolved domains skipped |
| Reconcile.Host.CleanUp | src/cleanup.rs:6-17 | the step-by-step cleanup ends in `Cleanup` of its initial state |
| Reconcile.Host.DeleteFwmarkRules | src/cleanup.rs:29-57 | at most one deletion per egress, decided on the list read at the start |
| Reconcile.Host.FlushRouteTables | src/cleanup.rs:59-71 | tables with routes are flushed |
| Pipeline.ReleasedAnswerIsRouted | src/runtime.rs:75-109 | after any prunes, reconciles, resolutions and queries for other names, a successful reconcile before expiry installs a rule with the policy's mark for every class-IN type-A record of the released reply; if the cache cannot be read for the policy, the policy contributes nothing |
| Pipeline.ReleasedAnswerReachesDevice | src/runtime.rs:75-109 | and a packet for such an address that no later policy claims leaves by the policy's egress, or is none of the policy's when the cache cannot be read |
| Pipeline.AnsweredPacketLeavesByEgress | src/runtime.rs:75-109 | the same from a stored answer |
| Pipeline.InterleavedAnswerIsRouted | src/dns_cache.rs:194-216 | the same rules when loads and saves of other processes overlap, once the file and every list loaded and not yet saved carry the answer: through any interleaving of operations on other names, of prunes that keep the name and of its resolutions that fail or find it fresh |
| Pipeline.InterleavedPacketLeavesByEgress | src/runtime.rs:75-109 | and the packet's device after such an interleaving |
| Pipeline.CachedAddressesAreRouted | src/dns_cache.rs:74-86 | fresh cached addresses of a policy's name are all routed, unless the cache cannot be read for the policy |
| Pipeline.AnsweredFromCache | src/runtime.rs:78-84 | while the entry is fresh the policy's answer is exactly its addresses, or none when the cache cannot be read |
| Pipeline.UnreadableCacheSkipsPolicy | src/runtime.rs:78-84 | a failed cache read makes no reconcile fail: the policy contributes nothing and the reconcile succeeds |
| Pipeline.EventsKeepEntry | src/dns_cache.rs:74-86 | a fresh entry survives any sequence of events that are about other names or come before it expires |
| Handler.ProxyFailsClosed | src/dns_proxy.rs:132-172 | an A query for a policy's name is answered by an error reply without records or by the first upstream reply, which with both deny flags announces an address and with caching is stored when released |
| Handler.AddressesAreReleased | src/dns_proxy.rs:158-168 | a returned reply with addresses is the upstream's, and stored with expiry now plus time-to-live, saturating |
| Handler.AaaaNeverForwarded | src/dns_proxy.rs:141-144 | a denied AAAA question never reaches an upstream and gets an error reply |
| Handler.OthersPassThrough | src/dns_proxy.rs:132-171 | if no enabled policy domain is malformed, names of no policy get the first upstream's reply as it is, SERVFAIL if all fail; if one is, they all get SERVFAIL and no upstream is asked; the cache is left alone |
| Counterexamples.WildcardIsValid | src/config.rs:373-384 | validation accepts the malformed domain `*.example.com` in an enabled policy |
| Counterexamples.WildcardBlocksEverything | src/dns_proxy.rs:207-218 | with it the proxy answers every question with an error and asks no upstream |
| Handler.HandleFrame | src/dns_proxy.rs:158-168 | a query changes at most the cached entry of its own name |
| Handler.SpellingIsPolicyQuestion | src/dns_proxy.rs:207-241 | a query for any upper or lower case spelling of a policy's name is one for that policy |
| Handler.HandleQuery | src/dns_proxy.rs:132-172 | the step-by-step handler ends in `Handle`, whose outcome for every query `Outcomes.EveryQueryServed` gives |
| Handler.ServeOne | src/dns_proxy.rs:60-75 | the bytes sent: the reply, else SERVFAIL, else the query itself |
| Outcomes.EveryQueryServed | src/dns_proxy.rs:60-75 | for every query whatever: the bytes sent, the cache file and the upstreams asked, by readable question, policy search, AAAA denial, first upstream reply, its addresses, the flags and the failures, with codes 2 and 5, types 1 and 28 and class 1 as numbers |
| Outcomes.AddressesSentIff | src/dns_proxy.rs:158-171 | a reply with addresses for a policy's name is sent as it is exactly when caching is off, the cache is disabled, or loading and any wanted saving succeed; otherwise code 2 is sent |
| Proxy.SearchIsOrderFreeIff | src/dns_proxy.rs:207-218 | the search is independent of the policy order if and only if domains are well formed and distinct, or all malformed |
| Proxy.ValidatedSearch | src/dns_proxy.rs:207-218 | for a validated configuration with well-formed KELVIN-free domains it finds the one policy of a name in any order |
| Proxy.FindFromExact | src/dns_proxy.rs:207-218 | the search ends at the first enabled policy that is for the name or malformed, with it or with an error, and finds nothing exactly when there is none |
| Proxy.SearchInVain | src/dns_proxy.rs:207-218 | for a name of no policy it finds nothing or errs, exactly as no enabled policy domain is malformed or some is |
| Proxy.FindEnabledDomainPolicy | src/dns_proxy.rs:207-218 | the loop computes `FindPolicy`, malformed domains before the match being an error |
| Proxy.ForwardFrom | src/dns_proxy.rs:174-191 | the first reply wins, nothing is tried after it, and it fails only when all were tried and failed |
| Proxy.FailoverIgnoresDuplicates | README.md:371-378 | failover over the deduplicated list gives the same reply, tries the same upstreams in order but each once, and fails exactly when all fail |
| Proxy.ForwardQueryWithFailover | src/dns_proxy.rs:174-191 | the loop computes `Forward` and the upstreams it tried |
| WireProofs.AnswerParsingExact | src/dns_proxy.rs:243-279 | every laid-out message parses to the strictly sorted set of the dotted quads, four decimal numerals, of its answers of type 1, class 1 and four bytes (sections 3.2.2, 3.2.4 and 4.1.1 to 4.1.4 of RFC 1035) |
| WireProofs.ParsesIffLaidOut | src/dns_proxy.rs:243-279 | answer parsing succeeds exactly on laid-out messages |
| WireProofs.SkipNameExact | src/dns_proxy.rs:322-342 | a name is skipped to p exactly when labels, a pointer, or labels then a pointer are encoded there and end at p |
| WireProofs.DottedQuadInjective | src/dns_proxy.rs:270-273 | different addresses print differently |
| WireProofs.DottedQuadExact | src/dns_proxy.rs:270-273 | an address prints as the decimal numerals of its four bytes in order, with dots between, and nothing else does |
| WireQuestions.QuestionParsingExact | src/dns_proxy.rs:226-241 | on arbitrary bytes: a question is read exactly where, after a header with a question count, uncompressed labels of UTF-8 text stand whose joined text normalizes to its name, followed by its type and class |
| WireQuestions.Utf8Exact | src/dns_proxy.rs:313 | label bytes decode to a text exactly when they are its encoding (section 3 of RFC 3629) |
| WireProofs.QuestionRoundTrip | src/dns_proxy.rs:226-241 | the label encoding of a normalized name with any letters capitalized, with type and class, parses to exactly that question |
| Wire.QnameEndsWhereSkipEnds | src/dns_proxy.rs:296-342 | wherever the name reader succeeds the skipper ends at the same place |
| Wire.SkipName | src/dns_proxy.rs:322-342 | on arbitrary bytes the loop ends further on and inside, or fails |
| Wire.ReadQname | src/dns_proxy.rs:296-320 | the label loop computes `Qname`, every index in range |
| Wire.ParseQuestion | src/dns_proxy.rs:226-241 | short packets, zero questions, bad names and truncation fail, else the question |
| Wire.ParseARecords | src/dns_proxy.rs:243-279 | the two section loops compute `ARecords`, every index in range |
| WireProofs.ErrorReplyLayout | src/dns_proxy.rs:281-294 | length, identifier, QDCOUNT and everything from offset 12 kept; QR, RA and the code set, RD kept; other counts zero |
| WireProofs.ErrorReplyParses | src/dns_proxy.rs:281-294 | the reply asks the same question and announces no addresses |
| WireProofs.ErrorReplyAgain | src/dns_proxy.rs:281-294 | reapplying with another code equals applying only the last |
| Wire.BuildErrorResponse | src/dns_proxy.rs:281-294 | four in-place header writes give `ErrorReply` |
| Wire.WriteU16 | src/dns_proxy.rs:351-359 | two big-endian bytes are overwritten, or nothing out of bounds |
| WireProofs.ErrorReplyFlagWord | src/dns_proxy.rs:286-288 | the reply's flag word is the program's masked 16-bit expression of the query's flag word and the code |
| Wire.LengthMasks | src/dns_proxy.rs:307-329 | the length-byte masks equal the comparisons the cursors make |
| CacheSystem.EveryRunKeepsInv | src/dns_cache.rs:51-306 | over every interleaving of loads and saves the file is strictly sorted without duplicates, each entry is one recorded answer with saturating expiry, and every returned answer is within its fresh or stale bound |
| CacheSystem.StepKeepsInv | src/dns_cache.rs:194-216 | each atomic load-and-compute or save keeps that invariant |
| CacheAnswers.ResolveExact | src/dns_cache.rs:51-177 | what resolving returns in every case: the resolver's sorted addresses, the unexpired entry, the stale entry within its grace, no address, or an error; cache on or off, failed loads and saves included |
| CacheAnswers.StaleServedIff | src/dns_cache.rs:132-177 | after a failed lookup the stored addresses are served if and only if the mode is `allow_stale` or failing closed is off, there are some, and the clock is at most expiry plus grace |
| CacheAnswers.ResolveStores | src/dns_cache.rs:87-177 | and what it stores: the found addresses with their expiry, the old entry with the error noted, or nothing |
| CacheAnswers.ProxyUpsertStores | src/dns_cache.rs:280-306 | a proxy answer is stored exactly as it came, or kept back, or an error is reported |
| CacheAnswers.PrunePolicies | src/dns_cache.rs:218-234 | pruning drops what is stored for names no policy has, enabled or not, and keeps all else; it writes only if there is something to drop, errs exactly if it cannot read or write, and reports the entries before and after |
| CacheAnswers.SnapshotExact | src/dns_cache.rs:236-251 | the snapshot lists what is stored for every policy's name, and fails exactly on an unreadable file or a malformed policy domain |
| CacheSystem.CallsAreLoadThenSave | src/dns_cache.rs:51-130 | the file after a whole call is that of load, plan and save with nothing between |
| CacheRaces.CommitIsDecidedByLoad | src/dns_cache.rs:194-216 | after a save every name, its own included, has what the operation makes of the entry stored at its load: a proxy answer or live answer its addresses, a failed refresh the old entry with the error noted, a prune none, and all other names what they had; whatever was saved in between |
| CacheRaces.FailedRefreshRestores | src/dns_cache.rs:132-177 | in particular the save of a failed refresh gives every name back the addresses, age and expiry it had at the load |
| CacheRaces.FailedRefreshUndoesUpdate | src/dns_cache.rs:132-177 | on one name: a refresh loads, a proxy stores a newer answer, the refresh fails and saves, and the older addresses are back |
| CacheRaces.RefreshCanUndoUpdate | src/dns_cache.rs:280-306 | such a run exists from a missing file |
| CacheRaces.UpdateCanBeLost | src/dns_cache.rs:280-306 | on two names: a run that loses an update |
| CacheRaces.InterleavingsCarry | src/dns_cache.rs:194-216 | an entry that the file and every list loaded and not yet saved carry survives every interleaving of loads and saves of operations that leave it alone |
| CacheRaces.InterleavedFailuresKeepData | src/dns_cache.rs:132-177 | so no interleaving of failed refreshes changes stored addresses, age or expiry |
| CacheSystem.FailuresKeepData | src/dns_cache.rs:132-177 | nor does any sequence of failed resolutions that come one after the other, from any file |
| CacheSystem.ResolveFrame | src/dns_cache.rs:51-130 | resolving leaves other names alone, and its own while fresh |
| CacheSystem.ProxyUpsertExact | src/dns_cache.rs:280-306 | a proxy answer replaces its name's entry, with expiry now plus time-to-live, and nothing else |
| CacheSystem.PruneExact | src/dns_cache.rs:218-234 | pruning removes exactly the unconfigured names |
| CacheSystem.PruneIdempotent | src/dns_cache.rs:218-234 | pruning again removes and writes nothing |
| CacheSystem.PruneKeepsAnswers | src/dns_cache.rs:43-45 | pruning never changes what resolving a configured name returns |
| Cache.FindIsLookup | src/dns_cache.rs:72 | first-match search is map lookup |
| Cache.UpsertIsUpdate | src/dns_cache.rs:268-274 | upsert is map update and creates no duplicates |
| Cache.RetainIsRestriction | src/dns_cache.rs:228 | retain is map restriction |
| Cache.SortIsIdentity | src/dns_cache.rs:194-216 | sorting is a permutation that leaves the map as it is, duplicates or not |
| Cache.SaveLoad | src/dns_cache.rs:194-216 | saving then loading gives the same map |
| Cache.SnapshotAgreesWithFind | src/dns_cache.rs:236-251 | on duplicate-free caches the last-wins snapshot agrees with first-match search |
| Cache.CacheStore.ConfiguredDomainSnapshot | src/dns_cache.rs:236-251 | the two loops compute the last-wins snapshot of all policy names, a malformed one being an error |
| Cache.UpsertEntry | src/dns_cache.rs:268-274 | the first entry of the name is overwritten, or the entry pushed |
| Cache.CacheStore.ResolveWithMode | src/dns_cache.rs:51-130 | result and file are those of `Resolve`, failed loads and saves included |
| Cache.CacheStore.FallbackAfterLiveFailure | src/dns_cache.rs:132-177 | result and file are those of `Fallback` |
| Cache.CacheStore.UpsertLiveIpsFromProxy | src/dns_cache.rs:280-306 | result and file are those of `ProxyUpsert`; empty answers and a disabled cache store nothing |
| Cache.CacheStore.PruneToConfigured | src/dns_cache.rs:218-234 | result and file are those of `Prune` |
| Faults.ValidIffFaultless | src/config.rs:284-409 | a configuration is accepted exactly when it has none of 25 faults, each said in its own terms |
| Config.Validate | src/config.rs:284-409 | the two passes with hash sets accept exactly the `Valid` configurations |
| Config.ValidDomainsDistinct | src/config.rs:364-384 | in a validated configuration with KELVIN-free domains no two enabled policies are for one name |
| Upstreams.UpstreamsExact | src/config.rs:139-164 | exactly the addresses the entries parse to, each once, ordered by first contributor; the entries are the list of upstreams, or the single address if the list is empty |
| Config.EffectiveUpstreams | src/config.rs:149-164 | the loop computes the first occurrences of the parseable entries |
| Config.DedupExact | src/config.rs:149-164 | exactly the given addresses, each once, in order of first occurrence |
| Config.EntriesAccounted | src/config.rs:139-181 | every configured entry is used, reported as malformed, or blank |
| Domain.NormalizeExact | src/dns.rs:23-48 | a name is accepted exactly when its bare text, in either case, has at most 253 letters, digits, hyphens and dots with 1 to 63 characters between dots, and becomes that text with `abc..z` for `ABC..Z` and k for KELVIN SIGN |
| Domain.BareExact | src/dns.rs:24 | the bare text is the name without outer white space and then without trailing dots |
| Domain.SameNameExact | src/dns.rs:24 | two accepted KELVIN-free names are the same exactly when their bare texts differ at most in the case of letters |
| Domain.NormalizeFixedPoints | src/dns.rs:23-48 | normalizing is idempotent and its fixed points are exactly the canonical names |
| Domain.NormalizersAgree | src/config.rs:373-384 | on accepted names the two normalizers agree exactly when the name has no KELVIN SIGN |
| Domain.NormalizersAgreeOnAscii | src/config.rs:373-384 | on accepted ASCII names they agree |
| Domain.DuplicateCheckExact | src/config.rs:373-384 | validation takes two accepted names for the same exactly when they are and have KELVIN SIGN in the same places |
| Domain.MissedDuplicate | src/config.rs:373-384 | a duplicate validation misses |
| Text.TrimExact | src/dns.rs:24 | trimming removes exactly the outer white space |
| Text.StripDotsExact | src/dns.rs:24 | all trailing dots and nothing else go |
| Text.DecValue | src/routing/iprule.rs:55 | a table is printed as its decimal numeral, without leading zeros |
| Text.HexValue | src/routing/iprule.rs:54 | a mark is printed as its hexadecimal numeral, without leading zeros |
| Text.UniqueSortedExact | src/dns_cache.rs:276-278 | the strictly sorted list of exactly the given values |
| Text.LessExact | src/dns_cache.rs:276-278 | in the order of the first differing character, a prefix first |
| Text.SpacesExact | src/dns.rs:24 | white space is the 25 characters of the Unicode property |

## Left out

- Compile.CompilationPreservesMeaning: packets enter the chain with mark 0.
- Progress.ErrorsComeFromOutside: the syntax of `dest_ip`, `dest_cidr`, gateway, source address and interface operands, which validation does not check; a refusal by nft or ip for it counts as a failing attempt.
- Kernel.RouteForOwned: foreign rules are known by whether they decide a packet's route, not by their selectors; rules on masked marks count as foreign.
- Safety.EveryCommandGood: the kernel changes by the program's commands only; it does not drop routes when a link goes down between them.
- Rule rendering: named route tables, rule masks, the local table, conntrack and IPv6 routing; `ip rule show` prints marks in hexadecimal and tables in decimal.
- A failed command is taken to have had no effect; a refused duplicate of an existing rule does not occur, as rules are added only when absent.
- Health probing, `/sys` and host inspection (src/health.rs, src/direct_egress.rs:86-99): inputs of each reconcile, constant during it.
- Startup of the proxy (src/dns_proxy.rs:30-58): the enabled flag, binding the socket, and refusing an empty upstream list.
- JSON text, serde defaults, file permissions and partial file writes: configuration and cache file are typed values and a save is atomic.
- Sockets, timers, process spawning, logging, error messages, CLI, systemd units, scripts and the printing commands (src/status.rs, src/validate.rs, src/wireguard.rs, src/tunnel.rs, src/wifi.rs).
- Reply identifiers and owner names, which the proxy does not check, and query types other than A and AAAA.
- Pipeline.ReleasedAnswerIsRouted: the operations in between are whole calls. With overlapping ones the answer can be lost, as `CacheRaces.CommitIsDecidedByLoad` says; `Pipeline.InterleavedAnswerIsRouted` says when it is not. The reconcile that installs the rules runs without another process saving during it.
- `refresh_domain_policies` (src/dns_cache.rs:179-192): one forced resolution per name, each of which is modelled.
- The run loop stops if the very first reconcile fails (src/runtime.rs:36); `Reconcile.ReconcileMany` goes on, which only adds runs.
- `active_fallback_count` (src/config.rs:183-185): one less than the number of upstreams.
