# netwatch, verified

A Dafny model of netwatch's resolver (`src/dns/`, `src/blocklist.rs`) and of its device
inventory (`src/devices.rs`, `src/db.rs`), with proofs about every interleaving and every run.
`dafny verify dfyconfig.toml` checks the project.

## The resolver

A request is a sequence of atomic sections: decode and protocol checks, blocklist read, cache
lookup, upstream attempts, cache insert, reply. `Resolvers.Resolver` has a method for each, working
on the shared list, cache, counters and query log. `ResolverRuns` lets any number of requests
advance section by section, with list swaps, flushes, sweeps, request timeouts and ending TCP sessions
in between. A section's cache access, counter and log row are taken together; in the source they follow
one another, each under a lock, atomic or channel of its own. `ResolverSafety`, `ResolverOutcomes`,
`ResolverCache` and `ResolverAccounts` prove what clients and operators rely on over any such run.

| file | subject |
|---|---|
| `Messages.dfy`, `Forwarding.dfy` | messages, envelopes, the sinkhole; trying upstreams in turn |
| `AnswerCache.dfy`, `CacheHistory.dfy` | the cache as a mutable class; the cache against a history of inserts, and TTLs |
| `CacheMeaning.dfy` | which replies are kept, what is left of them, and what is shed |
| `ListRules.dfy`, `Blocklist.dfy` | list text to rules; the matcher's maps and its walk up the labels |
| `BlocklistMeaning.dfy`, `BlocklistAccounts.dfy` | what a set of lists blocks; the counts of each list |
| `BlocklistAttribution.dfy` | which list a blocked name is put down to |
| `ListFormats.dfy`, `HostsLines.dfy`, `DomainShape.dfy` | what a line of each format adds to a build; what passes for a domain |
| `ListComments.dfy` | what is left of a line, an Adblock Plus rule included, once its comment is cut |
| `ManualList.dfy`, `ManualRuns.dfy` | the editable lists on disk over any sequence of edits |
| `LiveEdits.dfy` | which of those edits the live list reflects while builds overlap |
| `Resolver.dfy`, `ResolverRuns.dfy` | one request; interleaved requests |
| `ResolverSafety.dfy`, `ResolverOutcomes.dfy` | the promises; which request gets which outcome |
| `ResolverAnswers.dfy` | what a forwarded request is answered with, by what came over the wire |
| `NameSpelling.dfy`, `ResolverNames.dfy` | spellings of one name; questions as spelled, against the list and the cache |
| `ResolverCache.dfy` | what a cached reply is, against the plain history of the cache |
| `ResolverAccounts.dfy` | the counters against the requests, and the ones that no counter has |
| `Acl.dfy`, `AclMeaning.dfy` | who may ask; the same by address ranges and leading bits |
| `Admission.dfy`, `BindRetry.dfy` | the listeners' limits; binding the port |

## The device inventory

`Devices.DeviceStore` has the registry's three maps and the rule that debounces row writes.
`DeviceTable` has the table's release-then-upsert and the joins over it. `Restart` puts the two
together: the registry's writes become rows, and the rows become the next registry, over any number of
restarts. `WriteOrder` is about writes that overtake one another.

| file | subject |
|---|---|
| `Macs.dfy`, `Dhcp.dfy` | canonical hardware addresses; reading DHCP requests |
| `MacSpelling.dfy`, `HostNames.dfy` | addresses as six bytes; which text passes for a host name |
| `Devices.dfy`, `DeviceRuns.dfy` | the registry; what every run of sightings keeps |
| `DeviceHistory.dfy`, `DeviceWrites.dfy` | what is known after a run, by the sightings alone; exactly when a row is written |
| `DeviceTable.dfy` | the table and its joins |
| `Restart.dfy`, `WriteOrder.dfy` | the round trip through restarts; when table and registry agree |

`Text.dfy` and `Wrappers.dfy` hold ASCII text functions, options, results and machine integers.
Instants are nanoseconds of a clock that does not run backwards. Clocks, the network, the file and
the order in which a hash map is walked are parameters.

## Where the code falls short of its promise

Each of these is a lemma, with the exact condition under which the code does meet the promise where
there is one.

- The comments of `src/dns/cache.rs` say that the cache only ever shortens a TTL (12-15) and that an
  entry expires once any record would (60-61). The code takes the lifetime from answers and authorities
  only (156-161), and clamps what is left of a TTL to one second at least (121), so an additional record
  can be served beyond its grant: `AdditionalStaysInGrantIff`, `OverstayingRecordIsServed`.
- Trusting the LAN leaves hosts out when CIDRs narrower than the LAN are all that covers its network
  address: `HostIsServedIff`, `LanIsServedIff`. On an empty rule list the added rule replaces the private
  fallback: `TrustIsMonotoneIff`.
- `0.0.0.0.0` passes for a domain when added and for a hosts prefix when read: `AddTakesEffectIff`,
  `OddPrefixIsLost`. A rule added with a trailing dot survives its removal without one:
  `RemoveTakesEffectIff`, `DottedAddSurvivesRemoval`.
- Comments are cut off before Adblock Plus rules are parsed (`src/blocklist.rs:164`), so `example.com##.ad`,
  which hides an element on one site, blocks the site: `HidingRuleBlocksItsSite`, and exactly when,
  `HidingRuleContributesIff`. The parser's own comment (250-254) promises to skip what cannot be honoured.
- Nothing orders the builds of edits that overlap (`src/api.rs:558-568`), so an older build can replace a newer
  one and a confirmed edit is then missing from the live list: `ConfirmedEditIsLost`, `EveryEditIsLiveIff`.
- A TCP session that reaches its thirty seconds is dropped with the request it waits on
  (`src/dns/mod.rs:942`). That request is in `total` and in no other counter, and has no log row and no
  reply: `WaitingRequestCanBeLost`, `CountersReconcileIff`. It never happens to UDP: `OnlyTcpIsLost`.
- Writes are sent after the registry's lock is released, so when two listeners hear about one device, its row
  can end with a value the registry no longer has: `SwappedSendsDisagree`. It agrees exactly when what arrived
  last says so: `ColumnAgreesIff`.
- A comment (`src/devices.rs:335-336`) says that a name heard for an address must not replace the one a device
  gave itself. It does when it was heard before any device was shown there: `WaitingNameReplacesOwn`. Otherwise
  the device's own name holds: `OwnNameHolds`.
- When an address changes hands, the registry leaves it with the old device too; only the table releases
  it (`TakeoverReleasesRowOnly`), and the old device's next write takes it back there, so that the query
  log and the next start name the wrong device: `StaleWriteTakesBack`, `IndexAndTableDisagree`, and
  exactly when not, `IndexNamesHolderIff`.
- `misses` counts expired entries only, not absent keys (`Cache.Get`), so hits and misses make up the lookups
  exactly when every lookup was for a held key: `LookupsAreCountedIff`.

## Model

| member | source | states |
|---|---|---|
| Forwarding.Forward | src/dns/mod.rs:391-444 | the first upstream in order whose reply is useful wins, a truncated UDP answer being retried over TCP at the same upstream; otherwise the last upstream's error |
| Forwarding.ForwardIsDetermined | src/dns/mod.rs:401-443 | that specification admits one outcome for given upstream behaviour |
| Forwarding.AcceptedRepliesAreGenuine | src/dns/mod.rs:405-423 | an accepted reply answers the question asked and is not a truncated UDP reply |
| ResolverAnswers.FirstGivenIsRelayed | src/dns/mod.rs:335-385 | over any run, a forwarded request is answered for good with the first upstream's answer as it came, whole over UDP or over TCP behind a truncated reply, and with a failure iff no upstream gave one |
| ResolverAnswers.FailureIsLastReason | src/dns/mod.rs:401-443 | the error is that there is no upstream, or why the last one has no answer |
| ResolverAnswers.FailuresAreBare | src/dns/mod.rs:507-531 | over any run a failure, rejection or canary carries no record and claims no authority, with the code of its kind; a sunk reply has one answer at most |
| NameSpelling.CanonicalNameIff | src/dns/mod.rs:235-239 | a question's name is read as d iff it spells d in any letter case with any number of dots behind it |
| NameSpelling.OneNameIff | src/dns/mod.rs:235-239 | two names are one to the resolver iff they differ in case and trailing dots only |
| ResolverNames.SpelledNameDecides | src/dns/mod.rs:235-298 | over any run, a question that spells d is sunk for good iff the list it reads blocks d, and then for that list |
| ResolverNames.OneKeyIff | src/dns/cache.rs:28-49 | two lookups share a key iff their questions are spelled alike but for case and trailing dots, for one type and class, with equal DO and CD bits |
| ResolverNames.ListedDomainIsSunk | src/blocklist.rs:169-183 | from list text to client: once a build with an Adblock Plus rule anchored at d is swapped in, every question for d or a name beneath it, however spelled, is sunk unless the build allows it |
| Resolvers.Resolver.Begin | src/dns/mod.rs:220-272 | undecodable requests go unanswered, non-queries are REFUSED, questionless ones FORMERR, the canary NXDOMAIN; the counters and the log row of each |
| Resolvers.Resolver.Check | src/dns/mod.rs:274-298 | a blocked name is sunk and logged, the root name never looked up |
| Resolvers.Resolver.Look | src/dns/mod.rs:300-333 | a hit is wrapped in this request's envelope; the cache takes a lookup step |
| Resolvers.Resolver.Answer | src/dns/mod.rs:335-385 | the upstream reply or SERVFAIL, the cache taking an insert step only when there is a reply |
| Resolvers.Resolver.Abandon | src/dns/mod.rs:197-217 | SERVFAIL; the timeout counter and nothing else changes, the log included |
| Resolvers.Resolver.Swap | src/main.rs:451-463 | replacing the list touches nothing else |
| Resolvers.Resolver.FlushCache | src/dns/mod.rs:182-186 | flushing empties the cache and touches nothing else |
| ResolverRuns.RunIsSound | src/dns/mod.rs:220-385 | over every interleaving each entry is an accepted upstream reply for that key, and every finished request got what its outcome says |
| ResolverSafety.CacheHoldsMatchingReplies | src/dns/cache.rs:28-49 | an entry under key k is an upstream reply whose question is k, accepted for a request with k's DO and CD bits, never a sinkhole, canary or truncated UDP answer |
| ResolverSafety.SharedCacheIsBounded | src/dns/cache.rs:175-177 | the shared cache never exceeds max_entries, whatever interleaves |
| ResolverSafety.BuiltRepliesWearOwnEnvelope | src/dns/mod.rs:507-525 | every reply the resolver builds, cached ones included, has its own client's id, question, RD and CD bits and OPT, with the largest payload that both sides take |
| ResolverSafety.DoneStaysDone | src/dns/mod.rs:192-218 | a finished request's answer never changes |
| ResolverSafety.BlockedReadIsSunk | src/dns/mod.rs:274-298 | blocking beats caching: a request that reads its name as blocked gets the sinkhole, whatever the cache holds or receives |
| ResolverSafety.ListHoldsUntilSwapped | src/api.rs:558-568 | the list changes at swaps only |
| ResolverSafety.SwappedInBlockTakesEffect | src/api.rs:558-568 | after a swap that blocks a name, every request checked before the next swap is sunk, even if an answer in flight is put back into the cache after the flush |
| ResolverSafety.UnblockedReadIsGenuine | src/dns/mod.rs:300-385 | a request that reads its name as not blocked never gets a stale sinkhole: only an upstream reply, a grounded cached one, or SERVFAIL |
| ResolverAccounts.EveryRequestIsAccountedFor | src/dns/mod.rs:192-385 | over any run total = rejected + blocked + cache hits + forwarded + upstream errors + timeouts + running + lost with a TCP session, each request in one class |
| ResolverAccounts.CountersReconcileIff | src/dns/mod.rs:913-942 | what the counters leave of the total is what is running iff no session was dropped around a waiting request; each such drop adds one for good |
| ResolverAccounts.OnlyTcpIsLost | src/dns/mod.rs:913-942 | a request lost so came over TCP |
| ResolverAccounts.WaitingRequestCanBeLost | src/dns/mod.rs:913-942 | every request that reaches the upstreams has a run in which it is lost, nothing runs and the counters are one short |
| ResolverOutcomes.RequestStaysItsOwn | src/dns/mod.rs:845-855 | a request is answered as the very request that arrived under its id |
| ResolverOutcomes.EarlyOutcomesIff | src/dns/mod.rs:224-272 | over any run exactly the undecodable requests go unanswered, exactly the other non-queries get REFUSED and the questionless queries FORMERR, and exactly the enabled canary gets a bare NXDOMAIN in every blocking mode |
| ResolverOutcomes.LogTellsOutcomes | src/dns/mod.rs:481-504 | over any run the log has exactly one row per blocked, cached, forwarded or failed request, telling its question and outcome, and none for the malformed, rejected and abandoned |
| ResolverOutcomes.SunkRepliesAreNull | src/dns/mod.rs:447-478 | a sunk reply carries null addresses with the blocking TTL only, and carries one exactly for A and AAAA outside NXDOMAIN mode |
| AnswerCache.MinTtl | src/dns/cache.rs:156-166 | the shortest TTL, present iff there are records |
| AnswerCache.Cache.constructor | src/dns/cache.rs:88-97 | empty, with room for one entry at least |
| AnswerCache.Cache.Get | src/dns/cache.rs:105-136 | a live entry aged by whole seconds; an expired one is removed and counted as a miss |
| AnswerCache.Cache.Insert | src/dns/cache.rs:143-199 | stores exactly the cacheable answers, after eviction when full |
| AnswerCache.Cache.Evict | src/dns/cache.rs:203-222 | exactly the expired entries if any, else len/10+1 entries none of which expires after a survivor |
| AnswerCache.Cache.SoonestFirst | src/dns/cache.rs:214-219 | every key once with its expiry, soonest first, whatever order the map yields |
| AnswerCache.Cache.Sweep | src/dns/cache.rs:224-227 | removes exactly the expired entries |
| AnswerCache.Cache.Clear | src/dns/cache.rs:229-231 | removes everything |
| AnswerCache.SortSorts | src/dns/cache.rs:219 | the listing is ordered by expiry and permuted, nothing lost or added |
| AnswerCache.SheddingIsEviction | src/dns/cache.rs:212-221 | taking the head of the sorted listing is the eviction rule, with the exact number removed |
| AnswerCache.EvictionProgresses | src/dns/cache.rs:203-222 | eviction shrinks any non-empty cache and alters no entry |
| CacheHistory.StepKeepsBound | src/dns/cache.rs:175-199 | no step exceeds max_entries |
| CacheHistory.StepOnlyForgets | src/dns/cache.rs:143-231 | a declined insert, another key's insert, a sweep or an eviction changes what a key answers to nothing at most |
| CacheHistory.RunRefinesHistory | src/dns/cache.rs:105-231 | over every run each entry is the latest accepted insert for its key |
| CacheHistory.HitIsLatestInsert | src/dns/cache.rs:105-199 | a hit is the latest accepted insert since the last clear, aged and without OPT, served only before insert time + min(shortest TTL, max_ttl) |
| CacheHistory.RoomyCacheIsExact | src/dns/cache.rs:105-231 | while the cache is never full of live entries the converse holds too: a live latest insert is served |
| CacheHistory.LookupsAreCountedIff | src/dns/cache.rs:105-136 | over a run hits and misses never exceed the lookups, and equal them iff no lookup was for an absent key |
| CacheHistory.ServedTtlsAreGranted | src/dns/cache.rs:112-135 | answers and authorities carry their TTL minus the whole seconds elapsed, at least 1 without the clamp, the cast never truncating, and the client's expiry is within a second of the grant |
| CacheHistory.HitsCountDownExactly | src/dns/cache.rs:105-199 | the same for every hit of every run, against the latest accepted insert |
| CacheHistory.AdditionalKeepsItsGrantIff | src/dns/cache.rs:116-123 | at a given lookup an additional record is within its grant iff it has not outlived its own TTL |
| CacheHistory.AdditionalStaysInGrantIff | src/dns/cache.rs:156-161 | an additional record stays within its grant for as long as the reply is served iff its TTL is no shorter than the reply's lifetime |
| CacheHistory.WithoutOptFilters | src/dns/cache.rs:186-191 | what is kept of a section is exactly its records other than OPT, each as often as it was and in order |
| CacheMeaning.LifetimeMeans | src/dns/cache.rs:143-166 | a reply is kept iff it is NOERROR or NXDOMAIN with some answer or authority, none of TTL zero or below min_ttl; for the least TTL or max_ttl |
| CacheMeaning.LiveMeans | src/dns/cache.rs:105-111 | an entry is live iff no answer or authority of its reply has outlived its TTL, nor max_ttl |
| CacheMeaning.HitIsLeftOfReply | src/dns/cache.rs:105-136 | a hit has the reply's code and authority bit, its answers and authorities counted down exactly, and its additionals but OPT |
| CacheMeaning.InsertDoes | src/dns/cache.rs:143-222 | over any run a reply that is not cacheable changes nothing; any other is there after its insert, and a full cache gives up exactly its expired entries, or else a tenth and one more |
| CacheMeaning.ExpiredAreDropped | src/dns/cache.rs:224-231 | over any run a sweep leaves exactly what has not expired, a lookup drops the expired entry it meets, a clear leaves nothing |
| CacheMeaning.MissingReplyWasShed | src/dns/cache.rs:203-222 | a reply still good and yet not served was shed: at a full cache of live entries, with a tenth and one more, as one of those to expire soonest |
| ResolverCache.RunDrivesCache | src/dns/mod.rs:300-349 | every interleaved run of the resolver drives the cache through a run of its own |
| ResolverCache.CachedReplyIsLatest | src/dns/mod.rs:300-333 | a cached reply is the latest cacheable upstream reply for its key since the last flush, whatever interleaves: its code, authority bit and records, counted down exactly, in the client's own envelope |
| ResolverCache.InsertsAreAccepted | src/dns/mod.rs:337-349 | every insert in that history is an upstream reply accepted for that key |
| ResolverCache.RoomyLookIsExact | src/dns/mod.rs:303-333 | while the cache is never full of live entries, a request is answered from it iff the latest cacheable reply for its key is within its lifetime |
| ResolverCache.GoodReplyIsServedUnlessShed | src/dns/mod.rs:303-333 | whatever the load, a request goes upstream past a reply still good only when that reply was shed to make room |
| ResolverCache.OverstayingRecordIsServed | src/dns/cache.rs:116-123 | every acceptable reply with an additional record shorter-lived than its lifetime has a run in which a client is given that record beyond its grant |
| ResolverCache.AdditionalCanOutliveGrant | src/dns/cache.rs:156-161 | a concrete such run |
| Blocklists.Blocklist.Lookup | src/blocklist.rs:70-100 | the walk returns the list of the exact entry, else of the longest covering wildcard, unless an allow rule covers the name |
| Blocklists.Blocklist.IsAllowed | src/blocklist.rs:102-122 | some allow rule covers the name |
| Blocklists.Blocklist.Intern | src/blocklist.rs:50-65 | the name's first slot, a new one, or the last one past the limit |
| Blocklists.Blocklist.AddBlock | src/blocklist.rs:124-134 | the entry's normal form is claimed unless already claimed |
| Blocklists.Blocklist.AddAllow | src/blocklist.rs:136-146 | the entry's normal form is allowed |
| Blocklists.Blocklist.IngestLine | src/blocklist.rs:162-217 | one line applies exactly the edits its text contributes |
| Blocklists.Blocklist.Ingest | src/blocklist.rs:153-229 | applies every line's edits in order, credits the source with what they added, returns that number |
| Blocklists.EditsOnlyGrow | src/blocklist.rs:124-146 | no edit removes a rule or changes an attribution |
| BlocklistMeaning.WalkIsLabelSuffixes | src/blocklist.rs:84-98 | what the string walk inspects are the label suffixes of the name |
| BlocklistMeaning.BlockedByLabelSuffix | src/blocklist.rs:70-122 | blocked iff no allow rule covers the name and it is an exact entry or a label suffix, itself included, is a wildcard |
| BlocklistMeaning.AttributionIsLongest | src/blocklist.rs:75-98 | attribution is the exact entry's list, else that of the longest matching suffix |
| BlocklistMeaning.RuleCoversItsSubtree | src/blocklist.rs:84-98 | a wildcard covers exactly its domain and what lies beneath it |
| BlocklistMeaning.LookalikeIsCoveredIff | src/blocklist.rs:790-801 | text in front of a rule's domain stays in its subtree iff it ends in a dot, so `notdoubleclick.net` is outside that of `doubleclick.net` |
| BlocklistMeaning.BuiltHasContributedRules | src/blocklist.rs:548-608 | a matcher built from lists has exactly the rules some line contributes |
| BlocklistMeaning.OrderOnlyAffectsAttribution | src/blocklist.rs:153-229 | permuting, regrouping or repeating lines and lists leaves the blocked set unchanged |
| BlocklistMeaning.StoredKeysAreCanonical | src/blocklist.rs:294-325 | every stored key is its own normal form |
| BlocklistMeaning.SingleLabelsAreNeverBlocked | src/blocklist.rs:301-303 | no name of one label is ever blocked |
| BlocklistAccounts.EditsGrowOneShare | src/blocklist.rs:124-134 | edits for a source grow its share by what they add, and no other share |
| BlocklistAccounts.AllowListsOnlyAllow | src/blocklist.rs:176-186 | an allow list contributes allow rules only |
| BlocklistAccounts.IngestKeepsAccounts | src/blocklist.rs:153-229 | every source's count stays the number of keys carrying its id through repeats, inline exceptions and the source limit |
| BlocklistAccounts.AttributionIsConserved | src/blocklist.rs:39-65 | over any ingests the counts equal the shares, sum to len(), and every id indexes the table |
| BlocklistAccounts.FirstClaimKeepsAttribution | src/blocklist.rs:124-134 | the first list to claim an entry, exact or wildcard, keeps it through every later ingest |
| BlocklistAttribution.FirstListIsNamed | src/blocklist.rs:124-134 | a rule is put down to the first list that gives it, for up to 65535 lists |
| BlocklistAttribution.OverflowIsNamedLast | src/blocklist.rs:50-65 | past that, what a new list is the first to give is put down to the last list in the table |
| BlocklistAttribution.BlockedNameIsPutDownTo | src/blocklist.rs:70-100 | a blocked name is put down to the first list that gives the rule for just that name, or else the wildcard of its longest suffix that has one |
| ListFormats.AnchoredRuleAdds | src/blocklist.rs:169-183 | an Adblock Plus rule anchored at d adds to a build exactly the wildcard of d, to block, or in an allow list to allow; an exception adds it to allow in any list |
| ListFormats.AnchoredRuleDecides | src/blocklist.rs:175-182 | so such a rule in a block list blocks d and every name beneath it unless allowed, and an exception in any list lets all of them through |
| ListFormats.SkippedRuleAddsNothing | src/blocklist.rs:248-282 | a rule with a modifier, a path or a star before the separator, or a header, adds nothing |
| HostsLines.HostsLineAdds | src/blocklist.rs:186-206 | a hosts line adds exactly its names but the machine's own |
| HostsLines.OtherFieldsAddNothing | src/blocklist.rs:186-216 | a line of several fields behind anything else adds nothing |
| HostsLines.EntryLineAdds | src/blocklist.rs:207-215 | a domain on its own adds exactly itself, `*.d` exactly its wildcard |
| HostsLines.BlanksAddNothing | src/blocklist.rs:162-167 | blanks around a line change nothing |
| HostsLines.LinesOfText | src/blocklist.rs:162 | every line of a text is read, ended by LF, CRLF or the end of the text |
| DomainShape.ValidDomainIff | src/blocklist.rs:301-319 | what passes for a domain: at most 253 characters, two labels at least, each of 1 to 63 letters, digits, dashes and underscores, and no dotted quad |
| DomainShape.Ipv4LiteralIff | src/blocklist.rs:305-307 | the literals refused are exactly four decimal numbers below 256, without leading zeros, with dots between |
| DomainShape.TokenLineAdds | src/blocklist.rs:207-215 | a line of one token adds the rule it spells, in any letter case and with any number of dots behind it, and nothing if it spells none |
| ListRules.NormalizeIsCanonical | src/blocklist.rs:294-325 | whatever is accepted is canonical |
| ListRules.CanonicalIsFixed | src/blocklist.rs:294-325 | normalising a canonical domain, bare or as a wildcard, changes nothing |
| ListRules.EditsAreCanonical | src/blocklist.rs:162-217 | every rule any text contributes is canonical |
| ListComments.CommentsAreCutFirst | src/blocklist.rs:162-167 | any line contributes exactly what comes before its first comment character does |
| ListComments.HidingRuleContributesIff | src/blocklist.rs:248-266 | a rule `front##back` contributes something iff its unanchored front is an entry by itself, and then that entry |
| ListComments.HidingRuleBlocksItsSite | src/blocklist.rs:248-266 | with such a rule for a domain in any block list, a build blocks the domain unless an allow rule covers it |
| ListComments.ExampleIsBlocked | src/blocklist.rs:164 | `example.com##.ad` contributes a block of `example.com` |
| ManualLists.ManualList.Append | src/blocklist.rs:618-640 | refuses what is no domain, skips duplicates, otherwise appends one line |
| ManualLists.ManualList.Remove | src/blocklist.rs:643-651 | keeps exactly the other lines; an absent file stays absent |
| ManualRuns.FileIsWellKept | src/blocklist.rs:618-651 | after any edits the file is newline-terminated or empty, has no text on two lines, and exactly the texts added and not later removed |
| ManualRuns.FileReadsBackLiveRules | src/blocklist.rs:153-229 | ingesting it yields exactly the live texts' rules, except those that pass for a hosts prefix |
| ManualRuns.PlainRequestsReadBack | src/blocklist.rs:618-651 | for plainly spelled requests it yields exactly the rules added and not later removed |
| ManualRuns.PlainFileNamesRulesOnce | src/blocklist.rs:618-651 | and no rule is in the file twice, under whatever spellings |
| ManualRuns.RuleLineReadsBack | src/blocklist.rs:162-217 | a rule on a line of its own is read back as that rule, unless it passes for a hosts prefix |
| ManualRuns.AddTakesEffectIff | src/blocklist.rs:191-192 | an accepted add takes effect iff its spelling does not pass for a hosts prefix |
| ManualRuns.OddPrefixIsLost | src/blocklist.rs:191-192 | `0.0.0.0.0` is accepted and has no effect |
| ManualRuns.RemoveTakesEffectIff | src/blocklist.rs:643-651 | a removal takes effect iff no other line spells the same rule |
| ManualRuns.DottedAddSurvivesRemoval | src/blocklist.rs:643-651 | a rule added with a trailing dot survives its removal without one |
| LiveEdits.BuildHasStandingRules | src/blocklist.rs:548-608 | a build has the other lists' rules, and of the manual list's exactly those added and not removed when it read the file |
| LiveEdits.EditIsLiveIff | src/api.rs:558-584 | over any interleaving of edits, file reads and swaps, an add of a new rule is in the live list iff the build swapped in last read the file after it |
| LiveEdits.NothingMissingIff | src/api.rs:558-568 | the live list reflects every edit iff there are none or the last swap's build read the file after the last of them |
| LiveEdits.EveryEditIsLiveIff | src/api.rs:558-584 | so when each edit adds a new rule, all are live iff it did |
| LiveEdits.InOrderSuffices | src/api.rs:558-568 | builds swapped in in the order they read the file never lose an edit |
| LiveEdits.ConfirmedEditIsLost | src/api.rs:558-584 | for any two new rules and any other lists, a run in which both adds are confirmed and the second is not live |
| Acls.Acl.Allows | src/dns/acl.rs:60-77 | some rule matches, or the private fallback on an empty list |
| Acls.Acl.TrustSubnet | src/dns/acl.rs:94-106 | the rule list afterwards, and whether a rule was added |
| Acls.TrustWidensBySubnet | src/dns/acl.rs:94-106 | with Private listed the allowed set becomes exactly old plus subnet on true, and is unchanged on false |
| Acls.TrustIsMonotoneIff | src/dns/acl.rs:61-63 | trust never narrows what was allowed iff the list is not empty or its private fallback covers the network address |
| Acls.HostsAreTheInterior | src/netinfo.rs:39-50 | hosts() is the subnet without its first and last address |
| Acls.PrivateSubnetsAreWhole | src/dns/acl.rs:152-173 | a swept subnet lies wholly inside or outside the private and loopback ranges |
| Acls.DefaultRulesServeTheLan | src/dns/acl.rs:94-106 | the default rules serve every host of the detected LAN, whatever its addressing |
| Acls.RuleCoversLanIff | src/dns/acl.rs:135-141 | a rule that covers the network address covers every host iff it is not a CIDR narrower than the LAN |
| Acls.HostIsServedIff | src/dns/acl.rs:94-106 | for every rule list in the private stance, a host of the LAN is served iff it is in a narrower CIDR whenever narrower CIDRs are all that covers the network address |
| Acls.LanIsServedIff | src/dns/acl.rs:94-106 | so the whole LAN is served iff, in that case, the narrower CIDRs reach every host |
| Acls.LoneNarrowCidrLeavesOut | src/dns/acl.rs:96-104 | a single narrower CIDR never does |
| Acls.NarrowCidrOnPublicLanLeavesOut | src/dns/acl.rs:96-104 | so the default rules and any such CIDR leave some host of a LAN on public addresses unserved, once it is trusted |
| Acls.NarrowCidrLeavesOutHappens | src/dns/acl.rs:96-104 | a concrete such LAN |
| AclMeaning.ServedIff | src/dns/acl.rs:60-77 | a client is served iff some rule covers it by range or leading bits, an empty list standing for private |
| AclMeaning.V4InIff | src/dns/acl.rs:135-141 | a CIDR covers an IPv4 address iff their first prefix bits agree |
| AclMeaning.V6InIff | src/dns/acl.rs:143-149 | the same for IPv6 |
| AclMeaning.PrivateIff | src/dns/acl.rs:152-163 | the private IPv4 ranges are 10/8, 172.16/12, 192.168/16, 169.254/16 and 100.64/10 |
| AclMeaning.PrivateIff6 | src/dns/acl.rs:164-173 | the private IPv6 ranges are fc00::/7, fe80::/10 and the mapped private IPv4 ones |
| AclMeaning.TrustedIff | src/dns/acl.rs:94-106 | the detected LAN is added iff Private is listed, or nothing is, and no rule covers its network address; a list written out otherwise stays as it is |
| Admission.Listener.Receive | src/dns/mod.rs:804-903 | denied, turned away when no permit is left, or admitted with one, with the counter of each |
| Admission.Listener.Finish | src/dns/mod.rs:848-867 | an ending task returns its permit |
| Admission.ListenerIsAccountedFor | src/dns/mod.rs:804-869 | over any run each listener's arrivals = denied + shed + finished + running |
| Admission.CountersAreVerdicts | src/dns/mod.rs:118-168 | the shared counters are exactly the denials of all UDP and TCP listeners and what each kind shed |
| Admission.ArrivalsAreAccountedFor | src/dns/mod.rs:804-903 | all arrivals = the three counters + finished + running |
| Admission.LimitIsPerListener | src/dns/mod.rs:816-843 | no listener exceeds its limit, and a permitted arrival is shed iff its own listener is full |
| Admission.DeniedAreOutsiders | src/dns/mod.rs:118-130 | over any run the arrivals from outside the access list, and no others, are counted as denied |
| Admission.ArrivalDoes | src/dns/mod.rs:816-843 | an arrival from outside changes no listener; any other takes a place at its own if that has room, and else is counted as shed for its kind |
| Admission.EndDoes | src/dns/mod.rs:848-867 | an ending task frees one place at its own listener |
| BindRetry.BindWithRetry | src/dns/mod.rs:733-765 | returns the outcome of the final attempt; every earlier one found the address in use before the deadline |
| BindRetry.DelaysAreMonotone | src/dns/mod.rs:738-762 | delays never shrink |
| BindRetry.FirstDecisiveOutcomeIsReturned | src/dns/mod.rs:742-762 | the first success, or the first error other than AddrInUse, is returned at once |
| BindRetry.AtMostElevenAttempts | src/dns/mod.rs:726-765 | the thirty-second window allows at most eleven attempts |
| BindRetry.ElevenAttemptsHappen | src/dns/mod.rs:726-765 | eleven is reached |
| Macs.NormalizeIsIdempotent | src/oui.rs:266-280 | a canonical address is its own canonical form |
| Macs.PairsKeepDigits | src/oui.rs:266-280 | canonical spelling loses no digit |
| MacSpelling.SixBytesNormalize | src/oui.rs:266-280 | text that spells six bytes, in any letter case and whatever stands between, has them in colon form as its canonical form unless all are zero |
| MacSpelling.DigitsAreKept | src/oui.rs:266-267 | the digits of a text are its characters that are hexadecimal digits, each once and in order |
| MacSpelling.OneAddressIff | src/oui.rs:266-280 | two texts stand for one address iff they spell the same six bytes, not all zero |
| MacSpelling.RandomizedIff | src/oui.rs:253-263 | an address is randomized iff the second lowest bit of its first byte is set |
| Dhcp.ParseDhcp | src/devices.rs:675-733 | the indexed scan equals the scan by suffixes on every packet, in bounds and terminating |
| Dhcp.ScanUndoesEncode | src/devices.rs:703-731 | behind encoded options and pads the scan keeps the last host name that decodes; an end mark or a cut-short option leaves the complete prefix's result |
| Dhcp.EveryPacketDecomposes | src/devices.rs:703-731 | any bytes are encoded options and a tail, so that covers every packet |
| Dhcp.DecompositionIsUnique | src/devices.rs:703-731 | only one such reading is possible |
| Dhcp.ClientMacIsTheAddress | src/devices.rs:676-695 | the MAC is the six address bytes unless shorter or all zero |
| Dhcp.PacketReadsBack | src/devices.rs:675-733 | a request with any options, pads and ending reads back as its MAC and last valid option 12 (RFC 2132, sections 2 and 3.14) |
| Dhcp.LastNameIsLast | src/devices.rs:719-727 | later options without a usable name change nothing, earlier ones are overridden |
| MacSpelling.PacketNamesClientIff | src/devices.rs:675-701 | a packet names a client iff it is a whole request with a hardware address of 6 to 16 bytes whose first six are not all zero; without the cookie no name is read |
| MacSpelling.HostNameIsRead | src/devices.rs:703-731 | option 12 behind a pad and before the end mark is read, byte for byte |
| HostNames.SanitizedIff | src/devices.rs:451-467 | text passes as the name n iff it is n in any letter case with blanks around and dots behind, n being 1 to 64 letters, digits, dashes, underscores and dots and no address |
| Devices.DeviceStore.Hydrate | src/devices.rs:171-207 | rows with a usable MAC are loaded in order and counted as written |
| Devices.DeviceStore.TakeWriteSlot | src/devices.rs:70-83 | a write is taken iff a field changed or the heartbeat is due, and recorded |
| Devices.DeviceStore.Observe | src/devices.rs:222-279 | the sighting's registry, write and new-device alert |
| Devices.DeviceStore.ObserveNamed | src/devices.rs:282-315 | a self-given name replaces the old; no alert even for a new MAC |
| Devices.DeviceStore.ObserveNameForIp | src/devices.rs:319-352 | a name found by address fills a gap only, or waits for the MAC |
| Devices.DeviceStore.TouchIsDue | src/devices.rs:361-378 | the read-locked half tells whether a heartbeat is due |
| Devices.DeviceStore.TouchCommit | src/devices.rs:380-404 | the write-locked half checks again |
| DeviceRuns.RunKeepsSound | src/devices.rs:57-404 | after every operation of every run the written fingerprint is the current fields, every indexed address leads to a known device, pending names are for other addresses |
| DeviceRuns.WritesHaveACause | src/devices.rs:70-83 | every change is written, and an unchanged device is written only a heartbeat after its last write |
| DeviceRuns.WriteRateIsBounded | src/devices.rs:57-404 | writes are at most changes plus one per full heartbeat, however touches interleave |
| DeviceRuns.AtMostOneAlert | src/devices.rs:242-278 | over a run at most one new-device alert per MAC, none for one already known |
| DeviceRuns.AlertsAreForNewcomers | src/devices.rs:242-278 | an alert is raised iff observe sees a MAC not in the registry |
| DeviceRuns.TouchIsOneEvent | src/devices.rs:361-404 | whatever happens between a touch's two halves, the whole touch is one event of a run: at its commit if it was found due, else at the look, where it does nothing |
| DeviceRuns.SecondTouchIsIdle | src/devices.rs:380-404 | of two touches that both found the device due, one writes |
| DeviceHistory.KnownIff | src/devices.rs:222-315 | the devices known are exactly those shown at an address or naming themselves, each with its address's maker and kind |
| DeviceHistory.IndexIsLastSighting | src/devices.rs:232-233 | the reverse index leads an address to exactly the last MAC shown there |
| DeviceHistory.DeviceIsWhereLastSeen | src/devices.rs:250-251 | a device is at exactly the last address it was shown at |
| DeviceHistory.WaitsIff | src/devices.rs:231-348 | a name waits at an address iff it is the last heard there and no device has been shown there |
| DeviceHistory.NameAfterIff | src/devices.rs:222-352 | how each event leaves a device's name: its own, the one waiting where it is first shown, one heard for its address while it has none, or as it was |
| DeviceHistory.OwnNameHolds | src/devices.rs:335-339 | a name a device gave itself holds until it gives itself another or is shown first at an address where one waits |
| DeviceHistory.WaitingNameReplacesOwn | src/devices.rs:255-257 | and there it is replaced |
| DeviceHistory.LoadedIsUsable | src/devices.rs:171-207 | the number startup reports is that of the rows with a usable MAC |
| DeviceWrites.TouchDueIff | src/devices.rs:361-378 | a touch finds an address due iff the device last shown there has not been written for a minute |
| DeviceWrites.WritesIff | src/devices.rs:70-83 | a sighting writes the row of a device it speaks of iff it changes what is known or the row is a minute old; a touch iff the row is, changing nothing else |
| DeviceTable.Db.Flush | src/db.rs:331-425 | one transaction applies the operations in order, releasing before each upsert |
| DeviceTable.LogKeepsQueries | src/db.rs:387-398 | the log gets every query event of the operations, each once and in order |
| DeviceTable.FlushKeepsUnique | src/db.rs:344-361 | over any operations at most one row holds each address |
| DeviceTable.HolderIsLastToClaim | src/db.rs:407-419 | from any table, a row holds an address iff its MAC was the last to claim it and has not moved, or held it all along |
| DeviceTable.RowShowsLastReported | src/db.rs:350-361 | from any table, host name, vendor and randomized flag are the last reported, or what they were; none is ever erased |
| DeviceTable.SeenTimesAreFirstAndLast | src/db.rs:352-361 | a row exists iff it did or was written; first_seen is the first timestamp and last_seen the latest |
| DeviceTable.JoinIsOneToOne | src/db.rs:660-703 | the query log's join yields one row per query, naming the holder of its client address |
| DeviceTable.JoinNeverFansOutIff | src/db.rs:344-349 | the join never fans out iff no two rows share an address |
| DeviceTable.ClientCountsAreExact | src/db.rs:739-755 | per-client counts over the join are the clients' own, and sum to the number of queries |
| Restart.HydrationRestoresTable | src/devices.rs:171-207 | loading a table restores each device as its row has it, counts it as written, and gives inverse indexes |
| Restart.TableMirrorsRegistry | src/devices.rs:209-219 | from any table that mirrors the registry, with every write flushed in order, the table has the registry's devices, names and vendors, and no address the registry does not have |
| Restart.RestartAfterDrops | src/db.rs:940-952 | from any good table, whatever the writer dropped or reordered, the table stays good and the next registry starts well: the table's devices, inverse indexes, nothing to write, mirrored again |
| Restart.RestartRoundTrip | src/devices.rs:171-207 | run, flush, reload: every device comes back with its name and vendor, no other appears, and the indexes are inverse |
| Restart.AddressComesBackIff | src/db.rs:940-952 | a device has an address after the restart iff its surviving write was the last to claim it and it has not moved, or its row held it all along |
| Restart.EveryStartIsGood | src/devices.rs:171-207 | over any number of restarts from an empty database, whatever each life lost or reordered, every start is good |
| Restart.EveryRestartRoundTrips | src/devices.rs:171-207 | and every restart after a life whose writes got through in order is a round trip |
| Restart.NoAlertForTheKnown | src/devices.rs:242-278 | a device once in the table raises no new-device alert in any later life |
| Restart.ResightingWritesIff | src/devices.rs:222-279 | a re-sighting writes iff a field changes or a full heartbeat has passed, and never alerts |
| Restart.UnchangedResightingIsFree | src/devices.rs:195-198 | after a restart an unchanged device seen within the heartbeat writes nothing |
| WriteOrder.ColumnAgreesIff | src/devices.rs:267-269 | whatever part of a run's writes arrived, in whatever order, a row agrees with the registry in a column iff the last report that arrived, or else the old value, is the registry's |
| WriteOrder.OwnOrderSuffices | src/devices.rs:267-269 | it is enough that each device's own writes arrive in order |
| WriteOrder.LastWriteSuffices | src/devices.rs:267-269 | it is even enough that a device's last write is its last to arrive, whatever else was lost |
| WriteOrder.SwappedSendsDisagree | src/devices.rs:222-352 | a name heard over mDNS waits at an address, the device names itself over DHCP, the ARP poller sights it there: with the last two writes sent the other way round the row has a name the registry no longer has |
| WriteOrder.HolderIff | src/db.rs:407-419 | after any run a device holds an address in the table iff the registry has it there and its write was the last of all to carry the address |
| WriteOrder.IndexNamesHolderIff | src/devices.rs:232-250 | so the reverse index names the table's holder iff the device it names is still there and no other's write carried the address after its own |
| WriteOrder.TakeoverReleasesRowOnly | src/devices.rs:233-250 | a device newly sighted at an address takes it from the old holder's row while the registry leaves the old holder's address |
| WriteOrder.StaleWriteTakesBack | src/devices.rs:282-315 | the old holder's next write takes the row's address back from the device the index names |
| WriteOrder.IndexAndTableDisagree | src/devices.rs:222-315 | a run that ends so, for any address |

## Left out

- Sockets, what a TCP connection carries, the tokio runtime, HTTP API, dashboard, downloads, alert
  delivery and the command line.
- The wire format: a packet either decodes to a message or does not. Encoding failures, cutting a
  reply to the client's UDP size, the clamp on the payload size advertised upstream, and the library's
  floor of 512 on that size are not part of this model.
- The checks that a UDP exchange makes before the resolver sees a reply (source address, id).
- Counters are unbounded where the source's are 64 bits wide. Locks always succeed.
- Text is ASCII: Unicode white space and case, and the punycode conversion of names, are not modelled.
  UTF-8 decoding of DHCP names and the vendor table are parameters.
- Addresses are numbers; only the IPv4 literal test on text is modelled, since an IPv6 literal fails
  the tests for characters made beside it. ACL and CIDR text is not parsed.
- Masks are arithmetic: clearing the low bits by remainder instead of by a bitwise and.
- SQLite beyond the devices table and the query log: errors and rollback, other tables, WHERE filters
  and LIMIT, the read queries for devices and bypass suspects.
- The resolver does not feed the registry here: touching the client's device and learning names from
  answers, which the source does on logging, are modelled in the registry's own runs.
- ManualLists.ManualList.Append: an edit reads and writes the file in one go here, as `Remove` does. The
  source does so without a lock, so that two edits at once can also overwrite each other in the file.
- LiveEdits.EditIsLiveIff: a build reads the file in one go, and the other lists do not change meanwhile.
- Config validation, list download health, and choosing which files to build from; a build is a
  sequence of lists.
- Devices.DeviceStore.TakeWriteSlot: the fingerprint is the tuple of fields, so hash collisions are not
  modelled, and the write is recorded within the call where the source sends it after unlocking.
- Restart.TableMirrorsRegistry: assumes writes reach the table in the order the registry decided them, as
  do `Restart.RestartRoundTrip` and `Restart.EveryRestartRoundTrips`. `WriteOrder` says exactly what holds
  otherwise, and the lemmas on the table, `Restart.RestartAfterDrops` and `Restart.EveryStartIsGood` need
  no such order.
- WriteOrder.HolderIff: the same order. For writes that arrive in another, `DeviceTable.HolderIsLastToClaim`
  and `Restart.AddressComesBackIff` say who holds an address in terms of what arrived.
- CacheHistory.ServedTtlsAreGranted: answers and authorities only, since it is false of additionals. The
  SOA MINIMUM field is ignored by the source, so section 5 of RFC 2308 is not claimed.
