# Verified model of the camel-api core and the record publisher

A Dafny model of the hard parts of this repository: the in-flight claim protocol, URL redaction,
endpoint URIs, record publishing, single-consumption stream bodies, case-insensitive headers, the
composing metrics handle, lookup paths, backoff, and error conversion. `dafny verify dfyconfig.toml`
checks all of it.

## Modules

| file | models |
|---|---|
| `Text.dfy`, `Decimal.dfy`, `Utf8.dfy` | splitting, joining and ordering of byte strings; numerals; UTF-8 boundaries and truncation |
| `InFlight.dfy`, `InFlightObjects.dfy` | the claim protocol as a state machine over atomic steps; the gauge, claim and exchange objects |
| `Redact.dfy`, `RedactMask.dfy`, `RedactStable.dfy`, `RedactNested.dfy` | authority windows, the in-place mask, its stability, nested windows |
| `RedactUrl.dfy`, `RedactErase.dfy`, `RedactQuery.dfy` | the two URL redactors |
| `EndpointUri.dfy`, `PathMask.dfy` | merge, canonical rendering, redacted rendering; the path mask against the string redactor |
| `Completeness.dfy`, `IndexOrder.dfy`, `Publish.dfy`, `PublishRuns.dfy`, `Median.dfy` | the publisher's gate, index order, one publish, all runs, the median test |
| `StreamBody.dfy`, `StreamSharing.dfy` | stream bodies and readers; any number of them on one shared stream |
| `Headers.dfy`, `Metrics.dfy`, `Lookup.dfy`, `Backoff.dfy`, `Errors.dfy` | one component each |

## Conventions

- Text is a sequence of UTF-8 bytes; `Utf8.Valid` says that it is well formed. Rust's slicing and
  `replace_range` panics off a character boundary or out of range are modelled as the outcome `Panic`.
- Floating point is exact real arithmetic with floor; durations are whole milliseconds.
- A `BTreeMap` is the list of its entries. JSON parsing and serialisation, the random number of the
  jitter, the sensitive-key test on a decoded key and the contention of a lock are parameters.
- Counts and lengths stay below 2^64, stated as preconditions where they matter.
- Concurrency is interleaving of atomic steps: the decrement of a gauge and the notification it may
  owe are two steps; a collector holds the stream's lock from taking the stream until it ends.

## Where the code and its documentation differ

1. `redact.rs:20-25` says that an edit never shifts a window still to be processed. A backslash run
   behind a scheme inside an open window opens a nested window with the same end, and then the outer
   end goes stale. `RedactStable.ShiftCondition` gives the exact condition for the claim. What happens
   beyond it varies: for one nested pair `RedactNested.NestedPairOutcome` decides between a panic, the
   right mask, the outer userinfo left in view (`RedactNested.CredentialStaysInView`), and a mask that
   swallows following text. The masking theorems hold for every text under the condition, which
   covers every text without a backslash.
2. `in_flight.rs:59-60` says that a woken waiter observes the zero. A claim attached between the last
   decrement and its notification refutes it (`InFlight.WokenWithoutZero`). The read after the wake-up
   observes the zero of the release exactly when nothing was attached since it
   (`InFlight.WokenObservesZero`).
3. `endpoint_uri.rs:250-265` masks the userinfo of a path up to the first `@` before the next `/`,
   where the string redactor masks every window up to its last `@`. `PathMask.PathMaskVerdict` says
   for every path when the two agree.
4. `summarize.py:1674-1688` copies the run directory before it builds the index entry, and building
   it raises when a cell has no scenario string. The completeness gate skips such cells, so a
   complete record can leave an unlisted directory (`PublishRuns.BijectionCondition`).
5. `summarize.py:1546-1577` counts cells without names that the gate skips
   (`Completeness.GapsMatchCounts`); on records the gate accepts the two still agree.
6. The attempt number of `backoff.rs:34-40` is cast to a signed 32-bit exponent and limited to 63:
   from attempt 2^31 on the delay falls below the initial one (`Backoff.WrapsBelowInitial`), and
   beyond 63 formula and tracker part unless the cap is reached
   (`Backoff.BeyondLimitAgreesIffCapped`). The jitter of `error_handler.rs:65-75` comes after the cap,
   so a delay can pass the maximum (`Backoff.JitterStaysWithinCap`).
7. `error.rs:616-623` says that the first source hop of a converted error is the original error.
   Whether the derived `source()` shows the shared pointer as a node of its own is decided by the
   derive macro, which is not part of this model: every result in `Errors.dfy` holds for both.

## Model

| member | source | states |
|---|---|---|
| `InFlight.LiveStep` | crates/camel-api/src/in_flight.rs:100-121 | every step of the protocol changes the set of live claims by exactly the claim it mints or releases, and no claim ever has two holders |
| `InFlight.InvStep` | crates/camel-api/src/in_flight.rs:45-70 | count, single holders, releasers and sleeping waiters stay consistent under every action, with the decrement and the notification as separate steps |
| `InFlight.Conservation` | crates/camel-api/src/in_flight.rs:100-121 | over every run of attach, split, carry, take back, plain clone, branch clone and drop, the count is the number of live claims, and no held claim or carrying exchange is ever unable to release (the count cannot go below zero) |
| `InFlight.LastRelease` | crates/camel-api/src/in_flight.rs:49-57 | a step takes the count from positive to zero exactly when it drops the last live claim, and exactly that releaser becomes due to notify |
| `InFlight.WakeupsAreNotLost` | crates/camel-api/src/in_flight.rs:63-70 | in every interleaving, a waiter that registered, read a nonzero count and parked is woken, or a claim is live, or a releaser is between its decrement and its notification |
| `InFlight.SettlesAtQuiescence` | crates/camel-cli/src/commands/test/runner.rs:343-349 | the read that follows registration accepts exactly when no claim is live |
| `InFlight.DrainWakesEveryone` | crates/camel-api/src/in_flight.rs:49-70 | from every reachable state the releases alone terminate within a bound in any order, and when none is left the count is zero and no parked waiter sleeps |
| `InFlight.OnlyLastReleaseWakes` | crates/camel-api/src/in_flight.rs:49-57 | a parked waiter becomes woken only by the notification of a last release |
| `InFlight.ZeroStaysWithoutAttach` | crates/camel-api/src/in_flight.rs:45-57 | from a zero the count is zero throughout a run if and only if the run attaches nothing: split and branch clone need a live claim |
| `InFlight.WokenObservesZero` | crates/camel-api/src/in_flight.rs:59-63 | a last release, its notification that wakes a parked waiter, and the read after the waiter registered again: the read observes the zero of that release if and only if nothing was attached since the release |
| `InFlight.WokenWithoutZero` | crates/camel-api/src/in_flight.rs:59-63 | the documented claim that a woken waiter observes the zero fails: a run in which the waiter is woken while a claim is live; WokenObservesZero has the exact condition |
| `InFlightObjects.InFlightGauge.constructor` | crates/camel-api/src/in_flight.rs:34-42 | a new gauge counts nothing and has no waiters |
| `InFlightObjects.InFlightGauge.Dec` | crates/camel-api/src/in_flight.rs:49-57 | one decrement, followed by waking all registered waiters exactly when the previous count was one |
| `InFlightObjects.InFlightGauge.Total` | crates/camel-api/src/in_flight.rs:59-63 | the count is the number of claims attached and not dropped |
| `InFlightObjects.InFlightGauge.RegisterThenCheck` | crates/camel-cli/src/commands/test/runner.rs:343-349 | register, then read: settles exactly when no claim is live, and parks otherwise |
| `InFlightObjects.InFlightClaim.Attach` | crates/camel-api/src/in_flight.rs:102-108 | the new claim joins the live claims of its gauge and is counted |
| `InFlightObjects.InFlightClaim.Split` | crates/camel-api/src/in_flight.rs:110-114 | a fresh sibling on the same gauge; the original stays live |
| `InFlightObjects.InFlightClaim.Drop` | crates/camel-api/src/in_flight.rs:117-121 | the claim leaves the live claims, and waiters are woken exactly when it was the last one |
| `InFlightObjects.Exchange.Clone` | crates/camel-api/src/exchange.rs:263-280 | a plain copy has the content and no claim |
| `InFlightObjects.Exchange.BranchClone` | crates/camel-api/src/exchange.rs:256-261 | a branch copy has the content and, exactly when the original carries a claim, a fresh sibling of it; waiters are untouched |
| `Utf8.TruncateUtf8Safe` | crates/camel-api/src/redact.rs:141-150 | the loop returns a prefix within the limit that ends on a character boundary, the one `Truncate` specifies |
| `Utf8.Cut` | crates/camel-api/src/redact.rs:145-148 | the cut is a boundary and there is none between it and the limit: the longest aligned prefix |
| `Utf8.TruncateIsValid` | crates/camel-api/src/redact.rs:138-150 | truncating valid UTF-8 gives valid UTF-8 and loses at most three bytes more than asked |
| `Redact.SchemePrefixLen` | crates/camel-api/src/redact.rs:103-120 | the backward scan finds the longest scheme name that ends right before the run, or nothing |
| `Redact.AuthorityWindows` | crates/camel-api/src/redact.rs:56-96 | the run scanner lists, in order, exactly the positions that qualify as window starts, each with the next stop as its end |
| `RedactMask.MaskAuthorityWindows` | crates/camel-api/src/redact.rs:26-39 | the reverse-order in-place edit, with the panics of its slices and replacements made explicit, equals the recursive edit over all window starts |
| `RedactMask.WindowsApartOrShareEnd` | crates/camel-api/src/redact.rs:56-96 | two windows are apart, or the later starts inside the earlier and both end at the same byte |
| `RedactMask.BackslashFreeIsDisjoint` | crates/camel-api/src/redact.rs:56-96 | text without a backslash has pairwise disjoint windows |
| `RedactMask.WindowsStartOnBoundaries` | crates/camel-api/src/redact.rs:56-96 | windows of valid UTF-8 start on character boundaries |
| `RedactMask.EditIsMask` | crates/camel-api/src/redact.rs:26-39 | while no nested window changes length, the reverse-order edit is the left-to-right mask that replaces the bytes before the last `@` of each window by `***` and keeps every other byte |
| `RedactStable.ShiftCondition` | crates/camel-api/src/redact.rs:20-25 | an edit never moves a window still to be processed if and only if every nested window has no `@` or has exactly three bytes before its last `@` |
| `RedactStable.EditsMaskEveryWindow` | crates/camel-api/src/redact.rs:26-39 | for every text under that condition the program ends with the left-to-right mask (sufficient; NestedPairOutcome is exact for one nested pair) |
| `RedactNested.NestedPairOutcome` | crates/camel-api/src/redact.rs:26-39 | the exact outcome for every text with one nested pair of windows, wherever it stands, decided by the length of the nested userinfo, of the host behind it and of the text behind both: panic, the right mask, the outer userinfo left in view, or the mask swallowing the text up to a later `@`; and the right mask if and only if the guard for it holds |
| `RedactNested.CredentialStaysInView` | crates/camel-api/src/redact.rs:33-37 | a concrete input on which the program returns with a credential in view |
| `RedactStable.NestedAtEndPanics` | crates/camel-api/src/redact.rs:33-37 | when both windows run to the end and the nested userinfo is longer than the mask, the program panics |
| `RedactStable.NestedFamilyPanics` | crates/camel-api/src/redact.rs:33-37 | every text that opens `//ab:\` and continues with a userinfo longer than three bytes panics |
| `RedactStable.NestedExamplePanics` | crates/camel-api/src/redact.rs:33-37 | a concrete input on which the no-shift claim fails |
| `RedactStable.MaskedIsStable` | crates/camel-api/src/redact.rs:24-25 | the masked form of any text has no window left whose userinfo is not the mask |
| `RedactUrl.RedactUrl` | crates/camel-api/src/redact.rs:245-273 | the redactor computes `RedactedUrl` |
| `RedactUrl.PushSentinels` | crates/camel-api/src/redact.rs:264-270 | the appended text is the sentinel of each introducer that occurs, the earlier one first |
| `RedactUrl.CappedShape` | crates/camel-api/src/redact.rs:245-273 | the capped text is a truncated base followed by the whole sentinels, within 256 bytes, and valid UTF-8 stays valid |
| `RedactUrl.RedactedFits` | crates/camel-api/src/redact.rs:245-273 | every result is at most 256 bytes, valid UTF-8, a prefix of the masked base and then every sentinel that is due, whole |
| `RedactUrl.RedactionIsIdempotent` | crates/camel-api/src/redact.rs:245-273 | redacting twice is redacting once for every URL whose windows do not shift, hence for every URL without a backslash |
| `RedactUrl.WindowHasAtSign` | crates/camel-api/src/redact.rs:410-414 | true exactly when some window of the text holds an `@` |
| `RedactUrl.RedactUrlFailClosed` | crates/camel-api/src/redact.rs:280-286 | never panics: the marker for texts with an `@` in a window, otherwise the capped text itself |
| `RedactErase.MaskOfErased` | crates/camel-api/src/redact.rs:26-39 | without backslashes the mask does not depend on the userinfo |
| `RedactErase.RedactionHidesUserinfoAndTail` | crates/camel-api/src/redact.rs:245-273 | two backslash-free URLs that agree once userinfo and everything from the first introducer are erased, with introducers in the same order, redact to the same text |
| `RedactQuery.PercentScan` | crates/camel-api/src/redact.rs:158-174 | the scan equals the recursive decoder, for any set of escapes |
| `RedactQuery.RedactUrlWithQueryAllowlist` | crates/camel-api/src/redact.rs:347-399 | mask, rewrite the query, drop the fragment and cap, as `Allowlisted` specifies, with and without a cap |
| `RedactQuery.CapIsInvisibleWhenItFits` | crates/camel-api/src/redact.rs:383-399 | the capped form equals the untruncated one whenever that fits |
| `RedactQuery.CappedFragment` | crates/camel-api/src/redact.rs:383-399 | the capped form fits, keeps the fragment sentinel whole and shows only an aligned prefix of the text before it |
| `RedactQuery.AllowlistFits` | crates/camel-api/src/redact.rs:347-399 | for valid input every result is valid UTF-8 and within the cap when there is one |
| `RedactQuery.RewriteExposesNothing` | crates/camel-api/src/redact.rs:360-377 | a rewritten pair is never credential-shaped after the minimal decode, whatever the pair and the configured keys |
| `RedactQuery.BenignQueryIsKept` | crates/camel-api/src/redact.rs:360-379 | a query none of whose pairs is sensitive or credential-shaped survives byte for byte |
| `RedactQuery.SecretsAreHidden` | crates/camel-api/src/redact.rs:347-399 | two URLs whose masked texts differ only in values of sensitive keys give the same result, capped or not |
| `RedactQuery.AllowlistExposesNothing` | crates/camel-api/src/redact.rs:347-399 | for every URL, key list and cap the result is a fragment-free prefix of the rewritten text and at most the fragment sentinel, and no pair of the query it shows is credential-shaped, even where the cap cuts a pair |
| `EndpointUri.TryFromUriAndParams` | crates/camel-api/src/endpoint_uri.rs:38-90 | the merge with its loops equals `Merge` |
| `EndpointUri.MergeVerdict` | crates/camel-api/src/endpoint_uri.rs:38-90 | exactly which bases and parameters are accepted, and which of the four errors is reported when several apply |
| `EndpointUri.PushPercentEncoded` | crates/camel-api/src/endpoint_uri.rs:205-218 | the loop appends the encoding of the value |
| `EndpointUri.PushPair` | crates/camel-api/src/endpoint_uri.rs:281-294 | appends one pair; raw values go through verbatim, parameter values are encoded after the transform |
| `EndpointUri.RenderPairs` | crates/camel-api/src/endpoint_uri.rs:94-107 | the rendering loop gives scheme, path, and the pairs joined by `&` behind one `?` |
| `EndpointUri.ToCanonicalString` | crates/camel-api/src/endpoint_uri.rs:94-107 | the canonical rendering is `Canonical` |
| `EndpointUri.DecodeEncode` | crates/camel-api/src/endpoint_uri.rs:205-218 | percent-decoding undoes the encoding of every value |
| `EndpointUri.CanonicalRoundTrip` | crates/camel-api/src/endpoint_uri.rs:38-174 | for every accepted base and parameters the canonical text merges again without parameters, renders to itself, and its pairs are the raw pairs verbatim followed by the parameters, whose decoded values are the originals |
| `EndpointUri.CanonicalWithoutParams` | crates/camel-api/src/endpoint_uri.rs:94-107 | without parameters the canonical text is the base, byte for byte |
| `EndpointUri.CanonicalIsInjective` | crates/camel-api/src/endpoint_uri.rs:94-174 | for a fixed base the canonical text determines the parameters |
| `EndpointUri.FirstMatch` | crates/camel-api/src/endpoint_uri.rs:223-232 | the first option that matches by name (or by alias); pattern options never match |
| `EndpointUri.ResolveVerdict` | crates/camel-api/src/endpoint_uri.rs:223-232 | an option is found exactly when a non-pattern option has the key as name or alias, and a name beats every alias |
| `EndpointUri.ShownOrMasked` | crates/camel-api/src/endpoint_uri.rs:237-242 | a pair whose key resolves to a non-secret option, or that has no value, reads as in the canonical text; every other value reads `***` |
| `EndpointUri.ToRedactedString` | crates/camel-api/src/endpoint_uri.rs:118-134 | the redacted rendering is `Redacted` under the metadata of the scheme |
| `EndpointUri.RedactedHidesSecrets` | crates/camel-api/src/endpoint_uri.rs:118-134 | two URIs that agree on scheme, masked path, keys, which pairs have values, and the values of keys resolved to a non-secret option render identically |
| `EndpointUri.RedactedKeepsKeys` | crates/camel-api/src/endpoint_uri.rs:118-134 | the redacted text merges again and has the key sequence of the canonical text |
| `PathMask.FixedMeansClean` | crates/camel-api/src/redact.rs:26-39 | the left-to-right mask leaves a text alone from a position on if and only if every window from there on is already masked |
| `PathMask.PathMaskVerdict` | crates/camel-api/src/endpoint_uri.rs:250-265 | for every path, the endpoint mask is the left-to-right mask of the string redactor if and only if: where it masks something, no backslash stands right behind the slashes, the first `@` comes before the next `?` or `#` and is the only one there, and nothing behind is left to mask; elsewhere, nothing is left to mask at all |
| `PathMask.SecondAtStaysInView` | crates/camel-api/src/endpoint_uri.rs:250-265 | a path with two `@` of which the endpoint leaves a part in view and the redactor does not |
| `PathMask.SecondAtBehindFragment` | crates/camel-api/src/endpoint_uri.rs:250-265 | a path with a second `@` behind `#` on which the two agree |
| `Completeness.PresentShapes` | benchmarks/harness/summarize.py:1446-1474 | an m2 cell counts exactly when it has the documented measured or attempted shape |
| `Completeness.Observe` | benchmarks/harness/summarize.py:1519-1528 | the cell walk indexes exactly the named cells by identity and metric, in order |
| `Completeness.CompletenessGaps` | benchmarks/harness/summarize.py:1500-1543 | the gate returns the gaps in roster order |
| `Completeness.ColdGap` | benchmarks/harness/summarize.py:1530-1534 | an m1 gap is named exactly for roster identities with no named m1 cell |
| `Completeness.WarmGap` | benchmarks/harness/summarize.py:1446-1543 | an m2 gap is named exactly for warm roster identities with no valid named m2 cell and no legacy entry |
| `Completeness.ObserveM2` | benchmarks/harness/summarize.py:1559-1564 | the cell walk of the count indexes exactly the m2 cells by rendered identity, named or not |
| `Completeness.M2PresenceCounts` | benchmarks/harness/summarize.py:1546-1577 | the second walk returns total, measured and attempted over the warm roster |
| `Completeness.GapsMatchCounts` | benchmarks/harness/summarize.py:1500-1577 | the m2 gaps are at least the identities left uncounted, and exactly as many if and only if no warm roster identity without legacy entry and valid named m2 cell has a valid nameless one |
| `Completeness.NamedGapsMatchCounts` | benchmarks/harness/summarize.py:1500-1577 | they are equally many when every m2 cell is named |
| `Completeness.CompleteIsCounted` | benchmarks/harness/summarize.py:1546-1577 | on every record without gaps measured + attempted = total, named or not |
| `Completeness.NamelessExample` | benchmarks/harness/summarize.py:1500-1577 | a record with an m2 gap on which the counts claim that everything is present |
| `IndexOrder.VersionsInNumericOrder` | benchmarks/harness/summarize.py:1379-1399 | runs of one day are ordered by version number whatever its number of digits |
| `IndexOrder.SortedIsPermutation` | benchmarks/harness/summarize.py:1389-1399 | sorting rearranges the entries and nothing else |
| `IndexOrder.SortedIsOrdered` | benchmarks/harness/summarize.py:1389-1399 | entries with distinct run ids come out strictly ordered and distinct |
| `IndexOrder.OrderedIsUnique` | benchmarks/harness/summarize.py:1389-1399 | a strictly ordered index is determined by its set of entries |
| `Publish.Examine` | benchmarks/harness/summarize.py:1604-1644 | accepted exactly for a present, parsed, identified, well-rostered and complete record; exit 1 exactly for gaps, exit 2 otherwise |
| `Publish.ScenariosAreSorted` | benchmarks/harness/summarize.py:1416-1433 | the scenario list of an entry holds each scenario of the cells once, ascending, and nothing else |
| `Publish.ScenariosReadBack` | benchmarks/harness/summarize.py:1425-1431 | when no scenario name holds a comma, splitting the joined text gives the sorted names back |
| `Publish.RecordsDir.PublishRun` | benchmarks/harness/summarize.py:1590-1688 | the method makes exactly the step `Publish` on directories and index, including the exception raised between copy and index |
| `PublishRuns.PublishIsConsistent` | benchmarks/harness/summarize.py:1590-1688 | every publish, stopped or not, keeps directories complete records and the index ordered, duplicate-free and right about existing directories |
| `PublishRuns.RefusalChangesNothing` | benchmarks/harness/summarize.py:1590-1688 | a non-zero exit code leaves directories and index as they were |
| `PublishRuns.PublishedStays` | benchmarks/harness/summarize.py:1590-1688 | published contents never change, and exit 0 means that the given files are stored under their run id |
| `PublishRuns.PublishedEntry` | benchmarks/harness/summarize.py:1590-1688 | after exit 0 the index holds an entry with run id, date, era, commit, scenarios and path of the record that was given |
| `PublishRuns.BijectionCondition` | benchmarks/harness/summarize.py:1674-1688 | one publish keeps index and directories in bijection if and only if it is not a new complete record with a cell that has no scenario string |
| `PublishRuns.UndescribedExample` | benchmarks/harness/summarize.py:1416-1433 | such a record: the copy is made, building the entry raises, the index is not written |
| `PublishRuns.RepublishRepairs` | benchmarks/harness/summarize.py:1646-1673 | publishing again after a stop between copy and index ends in exactly the state and exit the publish would have had |
| `PublishRuns.RepublishReconciles` | benchmarks/harness/summarize.py:1646-1673 | publishing the files of any unlisted directory again lists it, and changes nothing else |
| `PublishRuns.PublishTwice` | benchmarks/harness/summarize.py:1646-1673 | after a success the same publish succeeds and changes nothing |
| `PublishRuns.RunIsConsistent` | benchmarks/harness/summarize.py:1590-1688 | from an empty directory, after any sequence of publishes and stops: unique run ids, strict order, right entries |
| `PublishRuns.RunKeepsPublished` | benchmarks/harness/summarize.py:1590-1688 | a published directory keeps its contents through any sequence |
| `PublishRuns.RunIsInBijection` | benchmarks/harness/summarize.py:1590-1688 | after any sequence of unstopped publishes from an empty directory, index and directories are in bijection if and only if every published record names the scenario of each cell |
| `PublishRuns.IndexIsDetermined` | benchmarks/harness/summarize.py:1389-1399 | two bijective states with the same directories have the same index, in whatever order the runs were published |
| `PublishRuns.IndexDirOrphans` | benchmarks/harness/summarize.py:1691-1709 | reports exactly the directories without entry and the entry paths without directory |
| `PublishRuns.NoOrphansMeansBijection` | benchmarks/harness/summarize.py:1691-1709 | the cross-check finds nothing if and only if index and directories are in bijection |
| `Median.IsolatedByCount` | benchmarks/harness/summarize.py:294-323 | the neighbour test holds exactly for at least three samples with a positive median and n mod 2 samples within a fifth of it |
| `Median.PermutationInvariant` | benchmarks/harness/summarize.py:294-323 | the verdict does not depend on the order of the samples |
| `Median.ScaleInvariant` | benchmarks/harness/summarize.py:294-323 | the verdict does not change under positive scaling |
| `StreamBody.CollectMeaning` | crates/camel-api/src/body.rs:245-256 | collecting yields the concatenation exactly when no chunk fails and the total stays within the limit, otherwise the first failure in stream order |
| `StreamBody.IntoBytes` | crates/camel-api/src/body.rs:215-259 | the result for every kind of body, the chunk loop included; a stream's cell is empty afterwards however the call ends |
| `StreamBody.ReadConserves` | crates/camel-api/src/body.rs:155-156 | whatever a reader delivered, followed by what is still to come, is always the data of the stream; a read never overfills its buffer |
| `StreamBody.StreamAsyncRead.constructor` | crates/camel-api/src/body.rs:298-302 | a new reader holds no stream and is not refused |
| `StreamBody.StreamAsyncRead.PollRead` | crates/camel-api/src/body.rs:121-158 | one poll makes exactly the step `PollReader` on cell and reader |
| `StreamSharing.InvStep` | crates/camel-api/src/body.rs:90-158 | under every action of collectors and readers the stream is in the cell or with exactly one process, and what each process shows is right |
| `StreamSharing.SingleConsumption` | crates/camel-api/src/body.rs:90-97 | over every interleaving, cancellation included, at most one consumer obtains the stream, and exactly one once the cell is empty |
| `StreamSharing.CallsEndRight` | crates/camel-api/src/body.rs:241-257 | a call that ends leaves the cell empty, and collected the whole stream or was refused because another process has it |
| `StreamSharing.ReadersDeliverPrefixes` | crates/camel-api/src/body.rs:121-158 | an active reader is the only owner and has delivered a prefix of the stream's data |
| `StreamSharing.RefusalIsFinal` | crates/camel-api/src/body.rs:127-151 | a reader is refused only when another process has the stream, and further polls change nothing |
| `Headers.RunHeader` | crates/camel-api/src/message.rs:39-41 | after any operations on a new message an exact lookup succeeds if and only if the key is the spelling of the last set of its name, and then finds what a case-insensitive lookup finds |
| `Headers.Message.HeaderIc` | crates/camel-api/src/message.rs:48-59 | walking the map in any order gives the exact entry, else the entry with the least matching name |
| `Headers.LookupIsUnique` | crates/camel-api/src/message.rs:48-59 | the result is unique, hence independent of iteration order |
| `Headers.LookupByName` | crates/camel-api/src/message.rs:48-59 | on a map without case duplicates it is the lookup by lowercase name |
| `Headers.Message.SetHeader` | crates/camel-api/src/message.rs:65-70 | the class of the name is removed and the given spelling inserted |
| `Headers.Message.SetHeaderNormalized` | crates/camel-api/src/message.rs:76-81 | the same with the lowercase spelling |
| `Headers.Message.RemoveHeader` | crates/camel-api/src/message.rs:88-92 | the whole class is removed; the result is the exact entry's value |
| `Headers.SetOnRawMap` | crates/camel-api/src/message.rs:65-70 | on any map: exactly one name is left in the class, every other entry is unchanged, and every spelling finds the new value |
| `Headers.SetKeepsOtherLookups` | crates/camel-api/src/message.rs:65-70 | lookups of other names, on any map, are the same before and after |
| `Headers.RemovalReports` | crates/camel-api/src/message.rs:88-92 | removal reports the value of the class exactly when the exact spelling was stored or nothing matched |
| `Headers.RunByName` | crates/camel-api/src/message.rs:65-92 | after any operations on a new message the headers are case-unique and equal, by lowercase name, to an abstract map put through the same operations |
| `Headers.RunLookup` | crates/camel-api/src/message.rs:48-92 | every case-insensitive lookup then equals the abstract lookup |
| `Metrics.Record` | crates/camel-api/src/metrics.rs:360-371 | the fan-out reaches every leaf of the nested composite in order |
| `Metrics.MetricsHandle.constructor` | crates/camel-api/src/metrics.rs:186-193 | a new handle reaches nobody |
| `Metrics.MetricsHandle.Register` | crates/camel-api/src/metrics.rs:195-220 | one registration step, with the same-pointer check as a loop |
| `Metrics.MetricsHandle.Observe` | crates/camel-api/src/metrics.rs:228-238 | an observation reaches the leaves of the stored collector |
| `Metrics.HandleFlattens` | crates/camel-api/src/metrics.rs:195-220 | after any registrations, of composites too, the membership list is the pointers at first occurrence and the leaves are theirs in that order |
| `Metrics.LeavesOfRegistered` | crates/camel-api/src/metrics.rs:177-220 | for leaf collectors: each one registered is reached exactly once, in first-registration order, and no other |
| `Metrics.RunLogs` | crates/camel-api/src/metrics.rs:177-238 | over every interleaving of registrations and observations the deliveries are exactly one per observation and leaf registered before it |
| `Metrics.NothingBeforeRegistration` | crates/camel-api/src/metrics.rs:186-193 | observations before the first registration reach nobody |
| `Metrics.NoLeafCountsTwice` | crates/camel-api/src/metrics.rs:337-341 | an observation reaches no leaf twice if and only if each registered collector reaches none twice and no two share one |
| `Metrics.CompositeCountsTwice` | crates/camel-api/src/metrics.rs:337-341 | registering a composite beside its own leaf makes the leaf count twice |
| `Lookup.ParseBodySegments` | crates/camel-api/src/exchange_lookup.rs:181-200 | the segment loop: an error at an empty segment, otherwise index or key per segment |
| `Lookup.ParseVerdict` | crates/camel-api/src/exchange_lookup.rs:65-128 | exactly which texts are rejected, and with which of the four errors |
| `Lookup.ParsePrint` | crates/camel-api/src/exchange_lookup.rs:65-128 | parsing undoes printing on every path the parser can produce |
| `Lookup.ImageOfParse` | crates/camel-api/src/exchange_lookup.rs:65-128 | exactly which paths the parser can produce |
| `Lookup.PrintParse` | crates/camel-api/src/exchange_lookup.rs:65-128 | printing undoes parsing on an accepted text if and only if it does not use the `exchangeProperty` alias or an index with a leading `+` |
| `Lookup.LookupBody` | crates/camel-api/src/exchange_lookup.rs:160-179 | the cursor loop walks the path, or finds nothing |
| `Lookup.WalkConcat` | crates/camel-api/src/exchange_lookup.rs:160-179 | walking p followed by q is walking p and then q |
| `Lookup.UnscopedFallsThrough` | crates/camel-api/src/exchange_lookup.rs:137-149 | an unscoped token is the first hit of the one-step body path, the header and the property |
| `Backoff.BackoffState.NextDelay` | crates/camel-api/src/backoff.rs:60-67 | returns the current delay and moves to the next one |
| `Backoff.Replay` | crates/camel-api/src/backoff.rs:52-71 | a tracker put through any sequence of calls returns delays that depend only on the number of calls since the last reset: a reset makes it as good as new |
| `Backoff.Formula` | crates/camel-api/src/backoff.rs:34-40 | up to attempt 63 the formula is the floored power, capped |
| `Backoff.FormulaIsMonotone` | crates/camel-api/src/backoff.rs:34-40 | the formula never falls and never passes the cap below attempt 2^31 |
| `Backoff.StatefulBelowFormula` | crates/camel-api/src/backoff.rs:34-67 | the n-th stateful delay never exceeds the formula |
| `Backoff.StatefulIsMonotone` | crates/camel-api/src/backoff.rs:60-67 | stateful delays never fall and never pass the cap |
| `Backoff.WholeAgrees` | crates/camel-api/src/backoff.rs:34-67 | for whole multipliers the two are equal up to attempt 63 |
| `Backoff.BeyondLimitAgreesIffCapped` | crates/camel-api/src/backoff.rs:34-67 | beyond attempt 63 they are equal if and only if nothing grows or the cap is reached by attempt 63 |
| `Backoff.StandsStillCondition` | crates/camel-api/src/backoff.rs:60-67 | the tracker stands still for ever if and only if one step gains less than a millisecond, or it starts at the cap |
| `Backoff.TrackerMayStandStill` | crates/camel-api/src/backoff.rs:60-67 | such a tracker, while the formula grows |
| `Backoff.WrapsBelowInitial` | crates/camel-api/src/backoff.rs:34-40 | with a multiplier above one the delay is at least the initial one if and only if the attempt is below 2^31 |
| `Backoff.SupervisionAgrees` | crates/camel-api/src/supervision.rs:30-40 | supervision is the formula, one attempt later, and matches its documented formula up to exponent 63 |
| `Backoff.SupervisionIsStateful` | crates/camel-api/src/supervision.rs:30-40 | for whole multipliers it waits as long as the tracker, up to exponent 63 |
| `Backoff.RedeliveryAgrees` | crates/camel-api/src/error_handler.rs:65-75 | without jitter the redelivery delay is the formula up to attempt 63 |
| `Backoff.RedeliveryIsStateful` | crates/camel-api/src/error_handler.rs:65-75 | for whole multipliers it is the stateful delay at every attempt below 2^31 |
| `Backoff.JitterIsBounded` | crates/camel-api/src/error_handler.rs:59-75 | for every factor and random number the delay is non-negative and within the factor's share of the capped delay, rounding down aside |
| `Backoff.JitterWithinCap` | crates/camel-api/src/error_handler.rs:65-75 | with a given random number the delay stays within the maximum if and only if the moved delay is less than a millisecond above it |
| `Backoff.JitterStaysWithinCap` | crates/camel-api/src/error_handler.rs:65-75 | whatever random number is drawn, the delay stays within the maximum if and only if the capped delay and its whole share of jitter exceed it by at most a millisecond |
| `Backoff.JitterAtTheCap` | crates/camel-api/src/error_handler.rs:65-75 | once the cap is reached, that is if and only if maximum times factor is at most one |
| `Backoff.JitterMayPassTheCap` | crates/camel-api/src/error_handler.rs:65-75 | a delay above the maximum: jitter is applied after the cap |
| `Errors.ChainIsHops` | crates/camel-api/src/error.rs:591-603 | the chain of an error holds exactly what repeated source hops reach |
| `Errors.SourceChainContainsElapsed` | crates/camel-api/src/error.rs:591-603 | the cursor loop finds a timeout exactly when one is in the chain |
| `Errors.ConvertBox` | crates/camel-api/src/error.rs:680-699 | the conversion is `FromBox` |
| `Errors.ConversionKeepsChain` | crates/camel-api/src/error.rs:250-256 | a native error is unchanged; a foreign one keeps its whole chain, at most two hops behind the new root |
| `Errors.TimeoutMessage` | crates/camel-api/src/error.rs:680-699 | the timeout message is given exactly when some hop of the foreign error is a timeout |
| `Errors.StackIsNative` | crates/camel-api/src/layer.rs:130-166 | behind any stack of layers every error is native |
| `Errors.PassedUnchanged` | crates/camel-api/src/layer.rs:130-166 | an outcome that every layer passes on leaves unchanged at any depth |
| `Errors.RaisedOnce` | crates/camel-api/src/layer.rs:130-166 | the error of the outermost failing layer is converted exactly once, whatever is above and below, and stays in the chain |
| `Errors.StackOutcome` | crates/camel-api/src/layer.rs:130-166 | without enclosing layers the outcome is the base or one converted error, of the first layer that fails |
| `Errors.TimeoutSurvives` | crates/camel-api/src/layer.rs:130-166 | through any stack of passing and enclosing layers a timeout is in the chain afterwards if and only if it was before |

## Left out

- Memory ordering, the tokio, tower and arc-swap internals, and wall-clock deadlines: atomic steps and an abstract notification are taken as given.
- Backoff.FormulaIsMonotone: stops at attempt 2^31, because the formula is not monotone there; `Backoff.WrapsBelowInitial` says what happens instead.
- Backoff.StatefulBelowFormula: assumes the initial delay is at most the maximum, because the tracker returns the initial delay uncapped; rounding of `f64` and the truncation of the capped value to 64 bits are not modelled.
- Backoff.Formula: multipliers below one are excluded, as the documentation of the configuration demands; negative and infinite products do not arise then.
- Median.IsolatedByCount: real arithmetic, so the rounding of the relative gaps in `f64` is not modelled.
- RedactStable.EditsMaskEveryWindow: a sufficient condition; for one nested pair `RedactNested.NestedPairOutcome` is exact. With more nested pairs whose lengths change, each edit moves the end of the next outer window again, and the outcome has no description shorter than that chain of edits.
- RedactUrl.RedactionIsIdempotent: assumes that no window shifts, because the program may panic or mask misplaced bytes otherwise.
- RedactErase.RedactionHidesUserinfoAndTail: texts without a backslash only; with one, erasing the userinfo can close a window whose credential gate it opened.
- RedactQuery.RedactUrlWithQueryAllowlist: the lossy UTF-8 conversion, lowercasing and substring search on a decoded key are one parameter; lossy conversion never creates an ASCII byte, so the credential-shape test is modelled on the bytes.
- Idempotence of the query-allowlist redactor: rewriting a pair can remove a `/` that ended a window, so it does not hold in general.
- EndpointUri.CanonicalRoundTrip: parameters are any list of entries; that the map yields them in ascending key order is not needed by the proof.
- Publish.RecordsDir.PublishRun: run ids are plain path components, copying a directory is atomic, the identity fields other than `era` are strings, and a malformed `index.json` is not modelled; the index is only ever written by the publisher.
- IndexOrder.VersionsInNumericOrder: digits are ASCII, where the regular expression also accepts other Unicode digits.
- Completeness.CompletenessGaps: cells are JSON objects and the roster is a list of strings, which the publisher has validated before; a gap is a pair of identity and metric rather than the joined text.
- StreamBody.StreamAsyncRead.PollRead: the chunk-to-bytes adapter is a library; it is modelled as filling the buffer from the current chunk and fetching the next one when that is empty.
- Metrics.Record: one method stands for the dozen observation methods, which fan out alike.
- Errors.RaisedOnce: readiness errors take the same conversion and are not a separate operation.
- Records checking beyond the index cross-check, report formatting, subprocess calls and the other scripts: plumbing around simple comparisons.
- `redact_host`, the `From` conversions of single variants, error classification and cloning: short matches that would only add easy members.
- `body_converter.rs`, `from_body.rs`, `aggregator.rs`, `health.rs`, `platform.rs`, configuration structs and trait-only files: they rest on libraries or hold no logic of their own.
