# A verified model of dns-filter

dns-filter is a filtering DNS forwarder. This project models the parts of it whose behaviour is
hard to see from any single function, and proves what they promise for every input, every run and
every interleaving. `dafny verify dfyconfig.toml` (Dafny 4.11) checks all of it; there are no
assumptions beyond the ones listed here.

The modules follow the program:

| module | what it models |
|---|---|
| `CivilDate`, `Utf8`, `Asn1Time`, `DerWalker` | reading a certificate's expiry: date arithmetic, text validity, ASN.1 times, the DER walker |
| `AcmeFlow` | the ACME order flow with its DNS clean-up, loading from disk, the renewal loop |
| `DnsMessage` | DNS messages, with the wire codec as a parameter |
| `ResolverCache`, `CacheRuns` | the response cache, and every interleaving of concurrent lookups and insertions |
| `UpstreamStrategy`, `DispatchRuns` | failover, random and round-robin dispatch, and every interleaving of concurrent calls |
| `ZoneNames`, `ZoneForwarding` | name normalisation and matching, and the choice of the responsible zone |
| `RequestPipeline` | the six-stage chain and the routing table it refines |
| `ZoneAuthority` | authoritative zones: loading, refreshing, answering |
| `ZoneSearch` | ranked record search over several zones |
| `HotReload`, `RequestRuns` | mutations, reload tokens, table-by-table database reads, the pipeline slot; and requests running their stages meanwhile |
| `ChrootPaths` | lexical path normalisation and confinement to the chroot |
| `ConfigMerge` | merging the user's YAML over the example, and the legacy `address` key |
| `StableSort`, `Basics` | the theory of stable sorting; shared value types |

Objects that the program updates in place (the cache, the round-robin dispatcher, the authority
resolver, the ACME manager, the server around the pipeline slot) are classes whose methods are
proved against specifications on values; loops are loops. Concurrency is modelled by runs: a run is
a sequence of atomic steps, and the theorems hold at every step of every run. Each step of a server
run is the specification of one method of `HotReload.Server`. In a cache run the lookup and the
insertion are those of `ResolverCache.CachedResolver`, and in a dispatch run the choice of a start is
that of `UpstreamStrategy.StrategyResolver`; the other steps of these runs (the clock, a call's begin,
what an upstream replies) belong to no shared object.

What is taken for granted:

- The wire codec is a parameter, and `DnsMessage.Faithful` lists its laws: header fields sit where
  section 4.1.1 of RFC 1035 puts them, decoding undoes encoding, and a message that came off the wire
  can be encoded again after its identifier and TTLs have been rewritten.
- Remote parties (upstream resolvers, the ACME server, the DNS provider, zone sources), the clock and
  random draws are arbitrary: their answers are parameters of the members or events of a run. How the
  resolvers will answer a request is fixed, arbitrarily, when the request arrives; each zone entry and
  the default resolver have a number of their own, so every combination of answers is covered.
- A database step is one SQL statement; the tables are versioned, and what a build makes of the
  versions it read is arbitrary.
- Record equality ignores the TTL, as the DNS library defines it (section 1.1.1 of RFC 2136).
- A mapping's entries and a zone's buckets are unordered; where the order of a hash map reaches the
  output (zone search, eviction), it is an arbitrary order.

Where the code does not do what one might expect, the model follows the code and the proofs say
exactly when the expectation holds:

- A cached NXDOMAIN reply that carries an alias can be served with TTL 0 although its entry is live;
  answers stay positive exactly when none of them lives shorter than the entry.
- A root zone entry configured before a one-byte zone takes that zone's queries; this is the only
  case in which the stage does not choose the most specific zone.
- The round-robin counter wraps; a window of calls across the wrap is fair exactly when the number of
  resolvers divides the counter range or the part of the window before the wrap.
- An operation that fails after a partial write sends no reload token; a settled pipeline matches the
  database exactly when it has caught up with every such write, and any later token lets it do so.
- The reported total of a zone search counts truncated zones; it is the number of matches exactly when
  no zone had more than the limit.
- A resolved path is a fixed point of resolution exactly when its text does not end in whitespace.
- Merging is associative exactly when no leaf in the middle document hides part of the first.
- A name that exists only as a parent of other names has no bucket and gets NXDOMAIN; NXDOMAIN means
  that nothing exists at or below a name exactly when the name has a record of its own, is the apex,
  or has no records below it.
- The day arithmetic subtracts one from an unvalidated day; only day 0 of month 3 makes the unsigned
  intermediate wrap (a build with overflow checks would stop there), and the wrap cancels in the result.

## Model

| member | source | states |
|---|---|---|
| CivilDate.CivilAgreesWithCount | src/frameworks/acme/mod.rs:535-547 | for all years and valid dates the day number equals a year-by-year, month-by-month Gregorian count |
| CivilDate.NextDayIsPlusOne | src/frameworks/acme/mod.rs:535-547 | the next calendar day is always one more, across months, leap years, centuries and eras |
| CivilDate.DifferenceIsDistance | src/frameworks/acme/mod.rs:535-547 | the difference of two day numbers is the number of single-day steps between the dates |
| CivilDate.OrderAgrees | src/frameworks/acme/mod.rs:535-547 | day numbers order valid dates exactly as the calendar does |
| CivilDate.UnsignedIntermediates | src/frameworks/acme/mod.rs:538-546 | for all values the parser can pass, the unsigned day of the year wraps only at day 0 of month 3, the wrap cancels in the signed day of the era, and no result overflows |
| Asn1Time.UtcTimeReadsBack | src/frameworks/acme/mod.rs:498-532 | every printed UTCTime reads back as its Unix time by the counted calendar, and is refused before 1970 |
| Asn1Time.GeneralizedTimeReadsBack | src/frameworks/acme/mod.rs:498-532 | the same for every GeneralizedTime of years 0 to 9999 |
| Asn1Time.UnixSecondsOrders | src/frameworks/acme/mod.rs:520-531 | Unix seconds order valid timestamps exactly as clock and calendar do |
| Asn1Time.ParsedTimesOrder | src/frameworks/acme/mod.rs:498-532 | parsing is strictly increasing, within and across the two time formats, and everything later than a time that parses also parses |
| Utf8.ValidExactlyWhen | src/frameworks/acme/mod.rs:499-499 | the text test accepts exactly the encodings of sequences of Unicode scalar values |
| Asn1Time.AcceptedTimesAreNumerals | src/frameworks/acme/mod.rs:498-518 | whatever is accepted as a time is UTF-8 text of numerals under one of the two tags |
| Asn1Time.PlusIsIgnored | src/frameworks/acme/mod.rs:503-518 | a leading plus sign in a two-character field counts as zero |
| DerWalker.ParseAsn1Length | src/frameworks/acme/mod.rs:479-496 | the length loop reads the big-endian value, refuses truncated or over-long forms, and stays below 2^32 |
| DerWalker.SkipTagAndLength | src/frameworks/acme/mod.rs:464-471 | the position after a header with the expected tag, or nothing; no position overflows a word |
| DerWalker.SkipTlv | src/frameworks/acme/mod.rs:473-477 | the position after a whole TLV, or nothing; no position overflows a word |
| DerWalker.ParseX509NotAfter | src/frameworks/acme/mod.rs:420-462 | on arbitrary bytes the walk indexes only inside its input and returns the parsed notAfter field |
| DerWalker.WalkerReadsPrinted | src/frameworks/acme/mod.rs:420-462 | in every printed certificate, with or without version and in any length form, the walker finds exactly notAfter |
| DerWalker.WalkerReadsOnlyPrinted | src/frameworks/acme/mod.rs:420-462 | whatever bytes the walker accepts are the print of a certificate with that notAfter |
| DerWalker.ExpiryIsPrintedTime | src/frameworks/acme/mod.rs:420-532 | end to end, a certificate's printed notAfter time comes back in Unix seconds |
| AcmeFlow.AcmeManager.ProcessAuthorizations | src/frameworks/acme/mod.rs:241-291 | processing stops at the first failing authorization with every record created so far remembered |
| AcmeFlow.ObtainedExactly | src/frameworks/acme/mod.rs:247-287 | processing passes exactly when every authorization is granted, and creates exactly the records of those with only granted ones before them |
| AcmeFlow.AcmeManager.DeleteRecords | src/frameworks/acme/mod.rs:194-202 | each remembered record gets one delete attempt, in order, whether or not deletions succeed |
| AcmeFlow.AcmeManager.FinishOrder | src/frameworks/acme/mod.rs:206-237 | the certificate is served only after polling, finalizing, fetching, saving and loading all succeeded |
| AcmeFlow.AcmeManager.RunFlow | src/frameworks/acme/mod.rs:173-238 | whatever fails, each record obtained is deleted exactly once before polling or returning, the later steps are taken in order up to the first that fails, and the served certificate changes only on full success |
| AcmeFlow.ServesOnlyOnSuccess | src/frameworks/acme/mod.rs:206-237 | serving the new certificate is the last act of a fully successful run and occurs in no other |
| AcmeFlow.RemainingExceedsExactlyWhen | src/frameworks/acme/mod.rs:396-401 | the remaining lifetime exceeds the window if and only if notAfter lies beyond now plus the window |
| AcmeFlow.PrintedCertificateOutlives | src/frameworks/acme/mod.rs:396-462 | end to end, a printed certificate outlives the window if and only if its printed notAfter time does |
| AcmeFlow.AcmeManager.ObtainOrLoad | src/frameworks/acme/mod.rs:77-107 | a certificate on disk whose notAfter lies beyond now plus the window is served without contacting anyone; otherwise the flow decides |
| AcmeFlow.AcmeManager.RenewalRound | src/frameworks/acme/mod.rs:112-168 | a round leaves the certificate alone if and only if its notAfter lies beyond now plus the window; after every history of rounds the backoff is min(3600 * 2^k, 86400) for k failures since the last good round; a failed round sleeps that long and leaves the served certificate alone |
| AcmeFlow.TrailingFailuresCount | src/frameworks/acme/mod.rs:142-166 | k counts exactly the failed rounds after the last renewal or healthy check, in every history |
| AcmeFlow.BackoffIsCappedExponential | src/frameworks/acme/mod.rs:123-166 | the backoff starts at an hour, doubles per failure, never shrinks, and sits at its cap of a day exactly from the fifth failure on |
| AcmeFlow.InOrderCleansUp | src/frameworks/acme/mod.rs:188-204 | creations, then deletions, then the rest: every record is deleted as often as created, before anything else happens |
| ResolverCache.ClampTtl | src/use_cases/upstream_resolver.rs:93-108 | a clamped lifetime is positive, within the bounds, unchanged when already within them, and absent exactly when it would be zero |
| ResolverCache.MinRecordTtl | src/use_cases/upstream_resolver.rs:267-272 | the smallest TTL of the records, absent exactly when there are none |
| ResolverCache.NegativeTtl | src/use_cases/upstream_resolver.rs:274-285 | the smaller of TTL and MINIMUM of the first SOA, as in section 5 of RFC 2308 |
| ResolverCache.CacheTtl | src/use_cases/upstream_resolver.rs:243-265 | only untruncated, decodable NOERROR or NXDOMAIN replies are cacheable, for a positive time |
| ResolverCache.CachedExactlyWhen | src/use_cases/upstream_resolver.rs:243-285 | a reply is cached for a time if and only if it is intact and that is its clamped good time: the smallest answer TTL, or for a denial the bound of its first SOA |
| ResolverCache.KeysIdentifyQueries | src/use_cases/upstream_resolver.rs:204-211 | two queries share a cache key if and only if they agree outside the two identifier octets |
| ResolverCache.RehydratedScrub | src/use_cases/upstream_resolver.rs:213-241 | what is stored has identifier 0; rehydrated it is the reply under the given identifier, with exactly the whole seconds of its age taken off each TTL, down to zero |
| ResolverCache.CollectKeys | src/use_cases/upstream_resolver.rs:162-168 | every key once, in whatever order the hash map yields |
| ResolverCache.EvictByExpiry | src/use_cases/upstream_resolver.rs:160-174 | half the capacity survives, no survivor expires before an evicted entry, and the removal count never underflows |
| ResolverCache.CachedResolver.Lookup | src/use_cases/upstream_resolver.rs:137-152 | a hit exactly for an unexpired entry, with the whole seconds since it was stored taken off each TTL, by a clock reading after the expiry check |
| ResolverCache.CachedResolver.Insert | src/use_cases/upstream_resolver.rs:156-186 | a cacheable reply is stored after evicting nothing, only expired entries, or the earliest to expire, in that order of preference |
| ResolverCache.InsertedCapacity | src/use_cases/upstream_resolver.rs:156-186 | an insertion leaves at most max(1, capacity) entries |
| ResolverCache.PositiveExactlyWhen | src/use_cases/upstream_resolver.rs:93-108 | answers of a cached reply keep a positive TTL until expiry if and only if each outlasts the reply's good time under the configured bounds |
| ResolverCache.NoErrorStaysPositive | src/use_cases/upstream_resolver.rs:243-259 | without a minimum TTL this holds for every NOERROR reply |
| ResolverCache.NxDomainAliasReachesZero | src/use_cases/upstream_resolver.rs:252-256 | a concrete NXDOMAIN reply, cached for five minutes, whose ten-second alias is served with TTL 0 |
| ResolverCache.ServedTtlIsConservative | src/use_cases/upstream_resolver.rs:143-148 | a served TTL never exceeds what the reply had left since its receipt |
| CacheRuns.RunKeepsInv | src/use_cases/upstream_resolver.rs:136-189 | at every state of every interleaving each entry is what some answered call stored, and capacity holds |
| CacheRuns.CapacityAlways | src/use_cases/upstream_resolver.rs:156-176 | at most max(1, capacity) entries in every reachable state |
| CacheRuns.LiveEntriesDropOnlyUnderPressure | src/use_cases/upstream_resolver.rs:157-176 | an entry is dropped only from a full cache, an unexpired one only if dropping expired ones made no room, and then nothing kept expires earlier |
| CacheRuns.ExpiredEntriesGoFirst | src/use_cases/upstream_resolver.rs:157-159 | an insertion into a full cache leaves no other entry that had expired when its call began |
| CacheRuns.HalfSurvivesPressure | src/use_cases/upstream_resolver.rs:160-175 | when that makes no room, half the capacity survives beside the new entry |
| CacheRuns.LifetimesWithinBounds | src/use_cases/upstream_resolver.rs:80-108 | every stored lifetime in every reachable state is positive and within the configured bounds |
| CacheRuns.HitIsAnEarlierReply | src/use_cases/upstream_resolver.rs:136-189 | in every interleaving a hit is an earlier upstream reply to the same query but for the identifier, unexpired when the call began, with the client's identifier and exactly the whole seconds since then taken off each TTL |
| CacheRuns.RepliesAreUpstreamReplies | src/use_cases/upstream_resolver.rs:136-189 | every call that returns a reply returns its own upstream's unchanged, or an aged earlier upstream reply to the same query |
| CacheRuns.MissIsExplained | src/use_cases/upstream_resolver.rs:137-186 | in every interleaving a query that misses although a reply to it was stored and had not expired was preceded by an insertion that replaced the entry, saw it expired, or was short of room |
| CacheRuns.HitTtlsAreSound | src/use_cases/upstream_resolver.rs:141-149 | in every interleaving no record is served with more time than its reply had left, nor with TTL 0 from a live NOERROR entry without a minimum TTL |
| UpstreamStrategy.StrategyResolver.Resolve | src/use_cases/upstream_resolver.rs:349-393 | each strategy returns the first success of its rotation, which starts at the counter's value, the draw or resolver 0; failover returns the earliest success; the counter moves once per round-robin call |
| UpstreamStrategy.StrategyResolver.ChooseStart | src/use_cases/upstream_resolver.rs:350-384 | where each strategy starts, and the counter's step and wrap |
| UpstreamStrategy.TryFrom | src/use_cases/upstream_resolver.rs:355-380 | the rotation loop stops at the first success and otherwise returns the last error |
| UpstreamStrategy.TryInOrder | src/use_cases/upstream_resolver.rs:382-391 | the failover loop does the same from the first resolver |
| UpstreamStrategy.RotationVisitsOnce | src/use_cases/upstream_resolver.rs:357-359 | a rotation visits every resolver exactly once |
| UpstreamStrategy.DispatchIsSound | src/use_cases/upstream_resolver.rs:349-393 | resolvers are tried one after the other from the start, none twice, and an error means that all failed and is the last one |
| UpstreamStrategy.RoundRobinIsFair | src/use_cases/upstream_resolver.rs:355-355 | k*n consecutive counter values below the wrap start at each of n resolvers exactly k times |
| UpstreamStrategy.FairAcrossWrapExactlyWhen | src/use_cases/upstream_resolver.rs:355-355 | across the wrap a window of counter values is fair if and only if n divides the range or the part before the wrap |
| UpstreamStrategy.WrapCanBeUnfair | src/use_cases/upstream_resolver.rs:355-355 | three resolvers and a window at the wrap for which it is not |
| DispatchRuns.FinishedCall | src/use_cases/upstream_resolver.rs:349-393 | in every interleaving a finished call tried a prefix of its own rotation and reports its first success, or an error after all failed |
| DispatchRuns.RunsAreFair | src/use_cases/upstream_resolver.rs:355-355 | in every interleaving, among any k*n calls that begin consecutively below the wrap each of n resolvers is the start of exactly k |
| DispatchRuns.RunsAcrossWrapAreFairExactlyWhen | src/use_cases/upstream_resolver.rs:355-355 | and across the wrap if and only if n divides the range or the part before the wrap |
| ZoneNames.NormalizeZone | src/use_cases/zone_forwarding.rs:175-186 | a normalised zone is the root, or nonempty without a trailing dot |
| ZoneNames.NormalizeName | src/use_cases/zone_authority.rs:746-752 | the same, and never the root |
| ZoneNames.NormalizeNameExactly | src/use_cases/zone_authority.rs:746-752 | on character codes: blanks at both ends and dots at the end are stripped, ASCII capitals made small, everything else kept, and exactly what leaves nothing is refused |
| ZoneNames.NormalizeZoneExactly | src/use_cases/zone_forwarding.rs:175-186 | the same, with a lone dot accepted as the root |
| ZoneNames.SpellingDoesNotMatter | src/use_cases/zone_forwarding.rs:185-185 | names that differ only in ASCII letter case normalise alike |
| ZoneNames.ByteLenIsUtf8 | src/use_cases/zone_forwarding.rs:155-157 | zones are compared by the length of their UTF-8 encoding |
| ZoneNames.NormalisersAgree | src/use_cases/zone_authority.rs:746-752 | forwarding and authority normalise alike, except that only forwarding accepts the root |
| ZoneNames.SuffixMatchIsLabelSuffix | src/use_cases/zone_forwarding.rs:188-197 | for every pair of strings the suffix test is the label-suffix relation |
| ZoneForwarding.NewEntry | src/use_cases/zone_forwarding.rs:37-52 | an entry is made exactly for a name that normalises, and holds the normalised zone and the configured settings |
| ZoneForwarding.CaseDoesNotMatter | src/use_cases/zone_forwarding.rs:93-98 | neither the letter case of a configured zone nor that of a queried name changes the match |
| ZoneForwarding.BuildStage | src/use_cases/zone_forwarding.rs:81-91 | a stage is the stable longest-first sort of the entries of its kind |
| ZoneForwarding.FirstMatchIsLongest | src/use_cases/zone_forwarding.rs:93-98 | the first match after sorting is the longest match before sorting, the earliest on ties |
| ZoneForwarding.ChosenIsMostSpecific | src/use_cases/zone_forwarding.rs:93-98 | the served zone lies inside every matching zone, except exactly when the other matching zones are all one byte long and configured after a root entry |
| ZoneForwarding.RootCanShadow | src/use_cases/zone_forwarding.rs:155-157 | a root entry before the zone `a` takes the queries for `a` |
| ZoneForwarding.OrderDoesNotMatter | src/use_cases/zone_forwarding.rs:81-98 | with distinct zones and no root tie the choice does not depend on configuration order |
| RequestPipeline.HandleRequest | src/use_cases/request_pipeline.rs:80-88 | the stage loop returns the first response and has asked exactly the resolvers of the stages it ran |
| RequestPipeline.BuildPipeline | src/use_cases/config_bootstrap.rs:407-430 | the six stages in their order, each zone stage with the entries of its kind |
| RequestPipeline.PipelineRefinesRoute | src/use_cases/config_bootstrap.rs:423-429 | the chain of stages equals a routing table stated over the configuration |
| RequestPipeline.PipelineAlwaysAnswers | src/use_cases/request_pipeline.rs:327-342 | every request gets a response |
| RequestPipeline.BlockedNamesAreSinkholed | src/use_cases/request_pipeline.rs:177-222 | with filtering on, a blocked name reaches no resolver but its bypass zone's, and is sinkholed unless that zone answers or fails without fallback |
| RequestPipeline.SinkholeContent | src/use_cases/request_pipeline.rs:344-384 | the sinkhole reply holds exactly the sinkhole addresses for the asked type, TTL 60, under the client's identifier |
| RequestPipeline.ErrorContent | src/use_cases/request_pipeline.rs:406-420 | an error reply carries the code, the query's identifier, questions and recursion flag, and no records |
| RequestPipeline.AnyQueriesAreAnsweredByPolicy | src/use_cases/request_pipeline.rs:288-324 | an ANY query that is not bypassed or blocked is answered by policy without asking any resolver |
| RequestPipeline.DefaultResolverAnswers | src/use_cases/request_pipeline.rs:238-271 | all other queries ask the default resolver once; errors become SERVFAIL, or empty NOERROR for a validated denial |
| RequestPipeline.ResponsibleZoneExactly | src/use_cases/zone_forwarding.rs:81-98 | a stage's zone is a configured entry of its kind that matches, none such is longer, and there is none only if none matches |
| RequestPipeline.ZoneResolverAnswers | src/use_cases/zone_forwarding.rs:105-152 | a query in an ordinary zone asks that zone's resolver: its reply is passed on, its failure is SERVFAIL, or with fallback the default resolver is asked next |
| RequestPipeline.DenialExactlyWhen | src/use_cases/request_pipeline.rs:394-404 | which error texts, under whatever labels, become an empty NOERROR |
| RequestPipeline.ContainsIsSubstring | src/use_cases/request_pipeline.rs:394-404 | the denial test looks for its marks anywhere in the error text |
| RequestPipeline.FixIdSetsId | src/use_cases/zone_forwarding.rs:165-173 | a resolver's reply that parses keeps everything but its identifier |
| RequestPipeline.RepliesCarryClientId | src/use_cases/request_pipeline.rs:262-266 | every reply to a parseable query that parses carries the client's identifier |
| ZoneAuthority.RelativeNamesLieInZone | src/use_cases/zone_authority.rs:727-744 | record names without a trailing dot are filed inside the zone, below the apex |
| ZoneAuthority.FileRecords | src/use_cases/zone_authority.rs:448-461 | the filing loop puts every record in the bucket of its name, in document order, and remembers the first apex SOA |
| ZoneAuthority.LoadSnapshot | src/use_cases/zone_authority.rs:420-483 | loading succeeds exactly for loadable documents; the index holds the document's records and the needed defaults and nothing else, with no empty bucket |
| ZoneAuthority.FilingAddsOne | src/use_cases/zone_authority.rs:460-460 | filing a record adds exactly that record to the whole index |
| ZoneAuthority.LoadedApexIsComplete | src/use_cases/zone_authority.rs:463-476 | every loaded zone has an apex NS, and an SOA that is itself in the apex bucket |
| ZoneAuthority.FiledUnderOwner | src/use_cases/zone_authority.rs:449-452 | each filed record bears the name of its bucket |
| ZoneAuthority.EveryRecordIsFiled | src/use_cases/zone_authority.rs:448-461 | each record of the document is in the bucket of its own key |
| ZoneAuthority.EntriesAreFiledByName | src/use_cases/zone_authority.rs:448-461 | in a loaded zone every entry is in the bucket its name denotes (`@` the apex, a trailing dot a full name, others in the zone), with its data, its TTL or the default, and its full owner name |
| ZoneAuthority.LoadedSoa | src/use_cases/zone_authority.rs:454-476 | the zone's SOA is the document's first apex SOA entry, or else the default one |
| ZoneAuthority.LoadedNs | src/use_cases/zone_authority.rs:484-508 | a zone without an apex NS entry gets one that names `ns1` in the zone |
| ZoneAuthority.FilterAnswers | src/use_cases/zone_authority.rs:308-318 | exactly the records of the asked type with their multiplicities, all of them for ANY |
| ZoneAuthority.AnswersExactly | src/use_cases/zone_authority.rs:132-136 | positive answers are exactly the records of the asked type, or else exactly the aliases |
| ZoneAuthority.AnswersByData | src/use_cases/zone_authority.rs:132-136 | the same, told by what the records hold |
| ZoneAuthority.QuestionCaseDoesNotMatter | src/use_cases/zone_authority.rs:111-112 | the letter case of a question does not matter |
| ZoneAuthority.AddGlue | src/use_cases/zone_authority.rs:350-352 | a candidate is added unless an equal record is already there |
| ZoneAuthority.AddBucketGlue | src/use_cases/zone_authority.rs:343-353 | all address records of a bucket and nothing else are added, without duplicates |
| ZoneAuthority.CollectGlue | src/use_cases/zone_authority.rs:320-357 | glue is exactly the address records indexed at answered NS targets, without duplicates under record equality |
| ZoneAuthority.AuthorityResolver.Resolve | src/use_cases/zone_authority.rs:102-160 | queries that do not decode or name nothing, and replies that do not encode, are protocol errors; every other query gets the encoding of a correct reply |
| ZoneAuthority.AuthorityResolver.Answer | src/use_cases/zone_authority.rs:107-155 | NXDOMAIN exactly when the name has no bucket, REFUSED exactly outside the zone, every negative reply with exactly the SOA |
| ZoneAuthority.AuthorityResolver.Refresh | src/use_cases/zone_authority.rs:372-399 | a refresh installs a document loadable for the configured zone, or keeps the last good snapshot |
| ZoneAuthority.AuthorityResolver.constructor | src/use_cases/zone_authority.rs:74-99 | a resolver starts from a snapshot loaded for its zone |
| ZoneAuthority.RefreshKeepsZone | src/use_cases/zone_authority.rs:359-401 | over every sequence of refreshes the snapshot stays one of the configured zone |
| ZoneAuthority.ForwardedQueriesAreNotRefused | src/use_cases/config_bootstrap.rs:470-480 | after any refreshes, a request the forwarding stage hands to the zone's entry is never answered REFUSED |
| ZoneAuthority.NxDomainMeansNothingBelowExactlyWhen | src/use_cases/zone_authority.rs:132-155 | NXDOMAIN exactly for names without a record in the document; that it also means nothing below holds if and only if the name is the apex, has a record, or has none below it |
| ZoneAuthority.ParentGetsNxDomain | src/use_cases/zone_authority.rs:150-155 | a loaded zone with a record at `a.b` that answers NXDOMAIN for `b` |
| ZoneSearch.SearchZone | src/use_cases/zone_authority.rs:194-231 | a zone returns its best `limit` matches: scores descend, nothing left out scores higher, ties keep their order |
| ZoneSearch.SearchRecords | src/use_cases/zone_registry.rs:57-88 | truncating each zone first does not matter: the result is the best `limit` of all matches, by descending score with ties in order |
| ZoneSearch.MatchesExactly | src/use_cases/zone_authority.rs:209-225 | a hit is a match exactly when a selected zone holds such a record of the asked type at a name with that score |
| ZoneSearch.TruncationIsHarmless | src/use_cases/zone_registry.rs:75-87 | ranking truncated zones and ranking whole zones agree on the first `limit` results |
| ZoneSearch.TotalIsExact | src/use_cases/zone_registry.rs:85-85 | the reported total is the number of matches if and only if no zone exceeded the limit |
| ZoneSearch.TotalCanFallShort | src/use_cases/zone_registry.rs:85-85 | a zone with one match more than the limit, whose total is short by one |
| StableSort.OnlyStableSort | src/use_cases/zone_registry.rs:84-84 | the sort used is the only stable sort |
| HotReload.Server.constructor | src/main.rs:632-648 | start-up installs a pipeline built from the database, with filtering on |
| HotReload.Server.BeginOp | src/use_cases/server_operations.rs:654-660 | an operation begins with nothing written |
| HotReload.Server.WriteSection | src/use_cases/server_operations.rs:686-690 | a repository write makes a new version of one table |
| HotReload.Server.EndWrites | src/use_cases/server_operations.rs:690-727 | an operation that fails part way reports at once and sends no token |
| HotReload.Server.SignalReload | src/main.rs:1113-1119 | a signal adds a token to the channel |
| HotReload.Server.SendToken | src/use_cases/server_operations.rs:207-216 | an operation reports success only once its token is in the four-slot channel |
| HotReload.Server.ReceiveToken | src/main.rs:1121-1122 | receiving a token starts a reload from scratch |
| HotReload.Server.ReadNext | src/use_cases/config_from_db.rs:38-189 | tables are read one after the other, each in the version current at that moment |
| HotReload.Server.FinishReload | src/main.rs:1122-1140 | the slot is swapped only when everything was read and built; an error at any point keeps it |
| HotReload.Server.SetSwitch | src/use_cases/server_operations.rs:124-136 | the toggle changes only the shared switch |
| HotReload.Server.Take | src/interface_adapters/listeners/handler.rs:33-37 | a request takes whatever pipeline is in the slot |
| HotReload.Server.RunNextStage | src/use_cases/request_pipeline.rs:80-88 | one stage of a request runs, and its filter stage reads the switch at that moment |
| HotReload.Server.Reply | src/interface_adapters/listeners/handler.rs:38-41 | a request ends with the response its stages gave |
| HotReload.StepKeepsInv | src/main.rs:1111-1142 | every step of every task keeps the protocol invariant |
| HotReload.SuccessfulWritesAreInstalled | src/main.rs:1120-1142 | once settled, the installed pipeline was built from reads made after every write of every operation that reported success |
| HotReload.SettledMatchesDatabaseExactlyWhen | src/use_cases/server_operations.rs:293-297 | once settled, the pipeline matches the database if and only if no unreported write is newer |
| HotReload.PartialWriteIsNotInstalled | src/use_cases/server_operations.rs:696-725 | a run in which an operation fails after a write and the pipeline stays behind |
| HotReload.SlotChangesOnlyOnInstall | src/main.rs:1137-1140 | the slot changes only when a reload succeeds, over any stretch of any run |
| HotReload.SlotNeverRollsBack | src/main.rs:1120-1142 | over every run no section of the installed pipeline ever gets older |
| HotReload.InstallCoversReceive | src/main.rs:1121-1138 | what a reload installs is no older, in any section, than the database when its token arrived |
| HotReload.InstalledVersionsWereRead | src/use_cases/config_from_db.rs:38-189 | every table of an installed pipeline is in the version of a read made between its token and its installation |
| HotReload.TokensDrain | src/main.rs:1114-1142 | from every reachable state the reload task can settle on its own, and if a token was queued it then runs exactly the database, partial writes included |
| HotReload.SignalIsServed | src/main.rs:1113-1142 | after a reload signal the reload task can by itself reach a settled state that runs exactly the database at the signal |
| RequestRuns.FinishedRequest | src/interface_adapters/listeners/handler.rs:33-41 | in every run a finished request was answered with exactly what the chain built for the slot at its arrival computes, under the switch as last toggled before its filter stage, whatever was reloaded or toggled meanwhile |
| RequestRuns.SwitchDecidesBlocking | src/use_cases/request_pipeline.rs:183-186 | in every run a query for a blocked name is sinkholed without asking anyone if the last toggle before its filter stage was on, and handed on if it was off |
| ChrootPaths.NormalizeLexical | src/use_cases/config_bootstrap.rs:237-251 | the push-and-pop loop computes the normal form |
| ChrootPaths.NormalizedIsClean | src/use_cases/config_bootstrap.rs:237-251 | normal forms have no empty, `.`, `..` or slash-bearing component |
| ChrootPaths.NormalizationLaws | src/use_cases/config_bootstrap.rs:237-251 | `.` is erased, a name followed by `..` is erased, `..` at the root is ignored, and nothing else changes |
| ChrootPaths.ParseChroot | src/use_cases/config_bootstrap.rs:129-141 | an accepted chroot is absolute and clean |
| ChrootPaths.ParseChrootExactly | src/use_cases/config_bootstrap.rs:129-141 | a chroot is refused exactly when blank or relative, and the text of a clean absolute path parses to that path |
| ChrootPaths.AbsoluteAcceptedExactlyWhen | src/use_cases/config_bootstrap.rs:211-235 | blank paths are refused; an absolute path is accepted exactly inside the chroot |
| ChrootPaths.AcceptedStaysInChroot | src/use_cases/config_bootstrap.rs:49-63 | every accepted path, as components and as text, is the chroot joined with its runtime path and has no `.` or `..` |
| ChrootPaths.RelativeAcceptedExactlyWhen | src/use_cases/config_bootstrap.rs:211-235 | a relative path is accepted if and only if it descends again through exactly the chroot components it climbed out of |
| ChrootPaths.RelativeInsideIsAccepted | src/use_cases/config_bootstrap.rs:211-235 | a relative path that never climbs above its start is accepted below the chroot |
| ChrootPaths.ResolutionIsFixedPointExactlyWhen | src/use_cases/config_bootstrap.rs:211-235 | resolving a result again gives the same path if and only if trimming leaves its text alone |
| ChrootPaths.TrailingBlankIsLost | src/use_cases/config_bootstrap.rs:211-235 | a path whose result resolves differently the second time |
| ConfigMerge.DeepMergeInPlace | src/frameworks/config/merger.rs:11-27 | the take-out, merge, put-back loop terminates with the merge of the two documents |
| ConfigMerge.MergeAtPath | src/frameworks/config/merger.rs:11-27 | what a merge holds at every path: the overlay's value merged into the base's, nothing below an overlay leaf, else the base's |
| ConfigMerge.OverlayLeavesWin | src/frameworks/config/merger.rs:24-25 | an overlay leaf always wins |
| ConfigMerge.MergeTwice | src/frameworks/config/merger.rs:11-27 | merging the same overlay again changes nothing |
| ConfigMerge.MergeAssociatesExactlyWhen | src/frameworks/config/merger.rs:11-27 | merging is associative if and only if no leaf in the middle hides part of the first document |
| ConfigMerge.MergeIsNotAssociative | src/frameworks/config/merger.rs:11-27 | three documents for which it is not |
| ConfigMerge.NormalizeListenAddresses | src/frameworks/config/merger.rs:63-97 | the in-place edit of listener sections computes their canonical form |
| ConfigMerge.NormalizeMovesAddress | src/frameworks/config/merger.rs:63-97 | a legacy address becomes a one-element list, a legacy list stays itself, and an address list that was already there wins |
| ConfigMerge.NormalizeKeepsOthers | src/frameworks/config/merger.rs:63-97 | nothing but the two address keys of listener sections changes |
| ConfigMerge.MergedHasNoLegacyKey | src/frameworks/config/merger.rs:36-51 | no listener section of a merged configuration has the legacy key |
| ConfigMerge.UserLegacyAddressWins | src/frameworks/config/merger.rs:43-48 | an address the user gave under the legacy key, as a list, still replaces the example's addresses |

## Left out

- Wire encoding and decoding: library work; the codec is a parameter with stated laws.
- Upstream clients, sockets, TLS, HTTP and MCP listeners, control socket, logging, metrics, privileges: I/O over libraries.
- SQL repositories and `seed.rs`: the database is a set of versioned tables; field copying adds only easy members.
- List filtering: the filter's decision is an arbitrary function of the name.
- Fuzzy scoring and record-type parsing: scores and parsed record data are arbitrary.
- Zone discovery: discovered zones become entries and resolvers of the kinds modelled here.
- `parse_duration` and `parse_interval`: string-to-number conversion; their results are parameters.
- Tagged YAML values: not part of the value type.
- Order of mapping entries: documents are compared without regard to order, as the library does.
- A closed reload channel: it closes only when the server shuts down.
- Shutdown of the renewal task: the loop is modelled round by round.
- Windows path prefixes: paths are Unix paths.
- HotReload.Server.WriteSection: validation and field editing inside an operation are not modelled; an operation is a sequence of table writes that may fail at any point.
- ZoneAuthority.FiledUnderOwner: a key that ends in whitespace (possible for an absolute name with inner whitespace) names its records without that whitespace, as the code does.
