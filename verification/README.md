# ToolHive Registry Server: verified models

A Dafny 4.11 model of the stateful cores of the ToolHive Registry Server and proofs of what they guarantee over whole
runs. `dafny verify dfyconfig.toml` checks everything.

| file | component |
|---|---|
| `SyncManager.dfy` | one source: the decision to sync (`ShouldSync`) and the sync (`PerformSync`) |
| `SyncProtocol.dfy` | every run of one source under any number of coordinators: claims, publications, status writes, kills |
| `Scheduler.dfy` | which of several sources a tick works on |
| `Filtering.dfy` | name, tag and registry filters |
| `QuotaFs.dfy` | the quota file system used for Git clones |
| `MetricsCache.dfy` | the TTL cache with stale fallback in front of the metrics query |
| `Keyset.dfy` | keyset pagination of plugins: the query and its cursor |
| `Deduplication.dfy` | the deduplicating filter: one source per name, and which one |
| `Listing.dfy` | the streaming reader: what one request, and a client that follows the cursors, gets |
| `Limits.dfy`, `LostRows.dfy` | for which tables the limit makes no difference; tables on which the reader fails |
| `Versions.dfy` | SemVer precedence, publishable versions, the latest version of a listing |
| `Cursor.dfy` | page cursors over base64, server names |
| `PublicPath.dfy` | paths that bypass authentication |
| `Upstream.dfy`, `Gauge.dfy`, `ImageRef.dfy`, `Interval.dfy` | upstream pagination, the in-flight gauge, image references, intervals |
| `Common.dfy`, `Text.dfy`, `GoInt.dfy` | filtering of sequences, Go's string helpers, int64 arithmetic |

## What the proofs say

**Sync.** A run is any sequence of source changes, reconfigurations, clock advances, coordinator ticks, syncs, status
writes and losses (a kill, or a status write that fails), with any number of coordinators. In every run two claims of a
source with no status written between them are more than an hour apart, and at most one sync is alive throughout exactly
when no tick overtakes one: finds a sync older than an hour, the row eligible, and a failed fetch or data or a filter other
than recorded. So it is while no sync outlasts the hour. A skipped source is published correctly under the documented status contract. The shipped coordinator does not keep
that contract: `performRegistrySync` leaves `LastAppliedFilterHash` and `LastAttempt` empty and the upsert overwrites the
whole row, so no run ever detects a filter change, although `SyncStatus` and `isFilterChanged` promise it. The model has
both policies; for the shipped one the exact condition under which a skip, and a whole round, is right is proved, with a
run that shows the failure. Two more failing runs show why the assumptions are needed (a sync lost after publishing, a sync
slower than an hour), and the exact conditions for a skip and for a round are also proved over every run, lost and slow
syncs included. A source whose sync was lost stays "syncing" for as long as it serves the recorded data.

**Scheduling.** A due source waits for at most the sources ordered before it, whether those succeed or fail, as long as they
and the source itself are wanted. A due source that is up to date is skipped without a new `ended_at`, so with `LIMIT 1` no
source behind it is ever picked. `ServedIff` says exactly when a due source is served: its turn comes, and it and every
source due before it by then are wanted.

**Status.** Every status write stamps the end, so a failing source backs off like any other: after a status write a source is
claimed again exactly one interval later, and then only if its fetch fails or shows something else than was published.

**Quota.** Through handles that still name their own file the charged size covers the files and stays within the quota in
every run; the exact slack of a write and a truncate through any handle is proved, with a renamed file that escapes.
Sums are int64 sums: a truncate whose sum wraps around passes the check, and exactly those do.

**Listing.** Following the cursor puts every (name, version) on exactly one page with its highest-priority row. The
streaming reader reads such pages as batches, drops the rows the client may not see and deduplicates the rest. A full batch
that ends inside a key makes the next one skip the rest of that key, so a visible row behind a hidden one of a
higher-priority source can be lost: `RowNeverReturned`. All visible rows are read exactly when no full batch ends in front
of one of its last key. What is promised is the deduplicated list of all visible rows; a request returns its rows up to
the next cursor, and a client that follows the cursors receives exactly that list, if and only if at every request none of
its rows is lost that way, the cursor's name is not picked up by another source (each request deduplicates from scratch), and
the answer does not end between two rows of one key and position. Where whoever may see a row may see the higher-priority
rows of its key, clients receive that list with every limit exactly when it is steady: it shows every key once and, behind
each of its rows but the last, the next visible row of that row's name comes from the same source. They receive the rows of
the first source that carries each name ("the first source in the list wins") exactly when, besides, that source carries
the name's smallest version.

**Versions.** With unparsable versions compared as texts, `IsNewerVersion` is a strict weak order on a listing, and the scan for
the highest version is right on every part of it, exactly when no unparsable text stands between two parsable ones that
do not go up in precedence.

**Assumptions.** Hashes are ideal: equal digests mean equal input. `Store` is one transaction (as its serializable
transaction is) and a claim is atomic (the row lock is held while `ShouldSync` fetches). Clocks do not go back. Glob
matching is any function of pattern and name with three answers. The clock, the source's replies, query outcomes and the
underlying file system's answers are parameters. Strings hold one char per byte.

## Model

| member | source | states |
|---|---|---|
| SyncManager.IsDataChanged | internal/sync/detectors.go:19-47 | a failed fetch counts as changed and yields no result; otherwise the fetched result is returned and "changed" means no stored hash or a different one |
| SyncManager.ShouldSync | internal/sync/manager.go:200-274 | the reason follows the decision table; a prefetched result comes back exactly when a sync follows a fetch that worked, only a failed change check syncs without one, and the source is asked once exactly when it is consulted |
| SyncManager.DecideRule | internal/sync/manager.go:79-81 | whether a sync runs: the source was consulted and the fetch failed, or showed other data, or the recorded filter differs |
| SyncManager.OrphanRecovers | internal/sync/manager.go:285-294 | past the hour a stale "syncing" row syncs if and only if the fetch failed, the data or none was recorded differently, or the recorded filter differs |
| SyncManager.InProgressIff | internal/sync/manager.go:276-294 | a sync counts as running for exactly 3600 s from its recorded start |
| SyncManager.ReasonIff | internal/sync/manager.go:200-274 | when each of the reasons is given, by phase, trigger, recorded hashes and the fetch |
| SyncManager.FetchResult.constructor | internal/sources/types.go:50-67 | counts are the lengths of the registry's lists |
| SyncManager.Manager.ApplyFilteringIfConfigured | internal/sync/manager.go:434-472 | overwrites registry and counts in place with the filtered ones |
| SyncManager.Manager.PerformSync | internal/sync/manager.go:344-492 | success publishes the filtered fetch with its unfiltered hash and the published counts; any failure leaves the published data untouched and names its cause; the source is asked only without a prefetched result |
| SyncManager.Manager.Round | internal/sync/coordinator/coordinator.go:198-227 | decision and sync together: a consulted source that answers is fetched once, one that fails twice; published exactly when the decision syncs, the fetch worked and the store worked |
| SyncProtocol.MutualExclusionIff | internal/sync/manager.go:276-294 | at every point of a run at most one sync is alive if and only if no tick of it finds one older than an hour together with an eligible row, a schedule that parses, and a failed fetch or data or a filter other than recorded |
| SyncProtocol.MutualExclusion | internal/sync/manager.go:276-294 | so in every run without a sync longer than an hour at most one sync is alive, and it is the one the row announces |
| SyncProtocol.ClaimsAnHourApart | internal/sync/state/db.go:541-614 | in every run of any number of coordinators two claims without a status written between them are more than an hour apart |
| SyncProtocol.RecordedStep | internal/sync/coordinator/coordinator.go:230-332 | every step keeps: the row's hash describes the published data, except between a publication and its status write |
| SyncProtocol.RecordedRun | internal/sync/coordinator/coordinator.go:230-332 | that invariant over every prompt run that loses no published sync |
| SyncProtocol.SkipSoundDocumented | internal/status/types.go:52-57 | under the documented contract a fetch followed by "no sync" finds the published data equal to the filtered fetch, whatever source and filter did before |
| SyncProtocol.SkipSoundShippedIff | internal/sync/coordinator/coordinator.go:248-304 | under the shipped status writes the published data is filtered by the filter of the last publication; it is right for the current filter if and only if both decide every fetched entry alike |
| SyncProtocol.SkipSoundIff | internal/sync/coordinator/coordinator.go:198-332 | in every run, lost and slow syncs included, under either policy: a skip after the recorded publication is right if and only if both filters decide alike, after another one if and only if the two filtered registries coincide |
| SyncProtocol.FilterChangeNeverSeen | internal/sync/manager.go:318-339 | in no run of the shipped coordinator is a filter change detected |
| SyncProtocol.FilterChangeIsMissed | internal/sync/state/db.go:352-387 | a run in which an excluded server stays published and the due tick skips |
| SyncProtocol.TornSyncIsMissed | internal/sync/coordinator/coordinator.go:245-258 | a run in which a sync lost after publishing leaves newer data published that the tick skips, under either policy |
| SyncProtocol.SlowSyncIsOvertaken | internal/sync/manager.go:96 | a run with a sync older than an hour in which two syncs of one source are alive |
| SyncProtocol.RoundConvergesIff | internal/sync/coordinator/coordinator.go:198-227 | after every run, under either policy, one undisturbed round that consults the source publishes it as the current filter wants if and only if data or filter differ from the recorded, or the last publication already is what is wanted |
| SyncProtocol.RoundConvergesDocumented | internal/sync/coordinator/coordinator.go:198-227 | after any prompt, untorn run one undisturbed round that consults the source publishes it as the current filter wants, syncing or skipping |
| SyncProtocol.RoundConvergesShippedIff | internal/sync/coordinator/coordinator.go:198-227 | the shipped round does so if and only if the data differs from the recorded or the filter's decisions did not change |
| SyncProtocol.SuccessIsQuiet | internal/sync/coordinator/coordinator.go:301-308 | a successful status write leaves a complete row that vouches for the source and the filter just synced |
| SyncProtocol.QuietWhileUnchanged | internal/sync/manager.go:254-264 | such a source is never claimed or published again in any run that changes neither the source nor the configuration |
| SyncProtocol.EveryReportStampsTheEnd | internal/sync/coordinator/coordinator.go:274-308 | a status write stamps the end time of a sync that worked and of one that failed, under either policy |
| SyncProtocol.NextClaimIff | internal/sync/state/db.go:541-614 | after a status write, whatever source, configuration and clock do, the source is claimed again if and only if one interval of its schedule has passed since the write and the fetch fails or shows other data than was published; without a schedule never |
| SyncProtocol.RescheduledClaimIff | internal/sync/state/db.go:541-614 | a new schedule counts at once, from the last end on |
| SyncProtocol.FailureBacksOff | internal/sync/coordinator/coordinator.go:276-282 | under either policy a failed source is claimed by no tick before its interval has passed |
| SyncProtocol.LateFetch | internal/sync/manager.go:371-431 | a sync claimed on a failed fetch publishes what the source serves when asked again, or nothing |
| SyncProtocol.EarlyFetch | internal/sync/manager.go:371-431 | one with a prefetched result publishes that under the filter of its claim, whatever has changed since |
| SyncProtocol.FailureClearsTheHash | internal/sync/coordinator/coordinator.go:283-288 | a failed sync's status write leaves a failed row without a hash, its end stamped and the published data untouched |
| SyncProtocol.FailureIsRetried | internal/sync/manager.go:297-315 | after that, whatever the source, the configuration and the clock do, a tick claims the row exactly when it is eligible and its schedule parses |
| SyncProtocol.WedgedUntilSourceChanges | internal/sync/manager.go:254-264 | a lost claim on unchanged data stays "syncing" through every run without a source change, reconfigurations included |
| SyncProtocol.WedgedIsReached | internal/sync/coordinator/coordinator.go:245-258 | a run, with no slow sync, that ends in such a claim |
| Scheduler.PickBelow | database/queries/sync.sql:135-157 | the picked source is due and comes before every other due one by (ended_at, nulls first; name); none is picked only when none is due |
| Scheduler.PickIff | database/queries/sync.sql:135-157 | exactly when a source is picked: never ended or its interval past, and first by end time with nulls first, then by name |
| Scheduler.RestsForItsInterval | database/queries/sync.sql:152-154 | a source that ended is worked on in no round that starts within its interval, and in none without one |
| Scheduler.ServedInTurn | internal/sync/coordinator/coordinator.go:274-282 | a due source is served within as many rounds as sources stand before it, plus one, if it and those found due before it are wanted, failing ones notwithstanding |
| Scheduler.ServedIff | internal/sync/state/db.go:541-614 | where every round wants the same sources, a due source is served if and only if its turn comes within the rounds and it and every source due before it by then are wanted |
| Scheduler.EveryWaitingSourceServedIff | internal/sync/state/db.go:541-614 | within as many rounds as sources, none turning due, every due and wanted source is served if and only if no due source before one is up to date |
| Scheduler.UpToDateSourceStarvesOthers | internal/sync/state/db.go:555-614 | a due, up-to-date source keeps every source behind it unserved, for any number of rounds |
| Filtering.NameRule | internal/filtering/name_filter.go:54-88 | included if and only if no exclude pattern matches or is invalid and, if there are include patterns, one matches before any invalid one |
| Filtering.NameOrderIrrelevant | internal/filtering/name_filter.go:54-88 | with the name excluded, no include pattern invalid or none matching, only the sets of patterns matter |
| Filtering.NameOrderIrrelevantIff | internal/filtering/name_filter.go:54-88 | all ways to write the same pattern sets decide a name alike if and only if that condition holds |
| Filtering.ExtractTags | internal/registry/tags.go:6-35 | whatever order the maps yield, exactly the declared string tags are extracted |
| Filtering.TagShouldInclude | internal/filtering/tag_filter.go:30-60 | no tag is excluded and, if there is an include list, one is included |
| Filtering.ApplyFilters | internal/filtering/filter_service.go:56-177 | metadata kept, entries filtered by the declarative rule; included plus excluded is the number of servers |
| Filtering.FilterArtifacts | internal/filtering/filter_service.go:125-163 | skills and plugins filtered by "namespace/name" in order; counters add up |
| Filtering.FilteredServers | internal/filtering/filter_service.go:97-123 | the kept servers are a subsequence with exactly the occurrences whose name passes the patterns and whose declared tags pass the lists |
| Filtering.FilteredArtifacts | internal/filtering/filter_service.go:125-163 | the kept skills and plugins are subsequences with exactly the occurrences whose "namespace/name" passes the patterns |
| Filtering.DeclaredAt | internal/registry/tags.go:6-35 | a tag counts in the array "tags" of an object inside an object of the metadata, and nowhere else |
| Filtering.FilterIdempotent | internal/filtering/filter_service.go:56-177 | filtering twice is filtering once |
| Filtering.ExcludesOnlyShrink | internal/filtering/filter_service.go:83-92 | adding name or tag excludes, valid or not, equals filtering the already filtered registry |
| Filtering.SameDataIffSameDecisions | internal/filtering/filter_service.go:56-211 | two filters publish the same data if and only if they decide every entry alike |
| QuotaFs.QuotaConserved | internal/git/fs.go:180-221 | through handles that name their own file every run keeps: named files <= charged size <= quota |
| QuotaFs.QuotaConservedFromEmpty | internal/git/fs.go:16-25 | the same from an empty file system, and the charged size is never negative |
| QuotaFs.TruncateCoveredIff | internal/git/fs.go:180-193 | a truncate through any handle keeps the files covered if and only if the named file is no larger than the own file plus the slack |
| QuotaFs.WriteCoveredIff | internal/git/fs.go:201-221 | the same for a write, at any offset, past the end included |
| QuotaFs.TruncateRefusedIff | internal/git/fs.go:186-189 | refused if and only if the sum exceeds the quota and fits in an int64 |
| QuotaFs.WriteRefusedIff | internal/git/fs.go:201-221 | a write is refused if and only if its growth past the named file's size takes the charge above the quota, in int64 arithmetic; overwriting in place never is |
| QuotaFs.WriteEffect | internal/git/fs.go:201-221 | a write that fits charges its growth even if the underlying write fails; if it works the own file reaches the write's end and the handle stands there |
| QuotaFs.TwoWritesAreOne | internal/git/fs.go:201-221 | writing in two calls is writing in one: same charge, file and position |
| QuotaFs.OnlyResizingCharges | internal/git/fs.go:44-139 | no call but write and truncate moves the charge: what is removed, renamed over or emptied stays paid for |
| QuotaFs.RemoveEffect | internal/git/fs.go:101-105 | removing takes exactly this name away |
| QuotaFs.RenameEffect | internal/git/fs.go:108-110 | renaming moves the file to its new name, takes the name from any other file, and leaves all other names |
| QuotaFs.OpenEffect | internal/git/fs.go:79-88 | opening finds the one file of the name or makes an empty one, keeps or empties it, and stands at its start or end |
| QuotaFs.NamesStayDistinct | internal/git/fs.go:44-139 | in every run no two files have the same name |
| QuotaFs.MisnamedReached | internal/git/fs.go:44-51 | create, rename away, create again: two handles carry the same name |
| QuotaFs.MisnamedHandleEscapes | internal/git/fs.go:223-230 | two handles under one name after a rename: both files at the quota, one of them charged |
| QuotaFs.CountStep | internal/git/fs.go:44-51 | only creating calls move the counter, one each; they are refused exactly when it reaches the maximum |
| QuotaFs.FileCountBound | internal/git/fs.go:64-88 | over any run at most maxFiles - 1 - current creating calls pass and no more files than that are added |
| QuotaFs.FileCountBoundFromEmpty | internal/git/fs.go:44-139 | from empty at most maxFiles - 1 calls pass and at most that many files exist |
| QuotaFs.RefusalIsFinal | internal/git/fs.go:44-139 | after the first refusal for the count every later creating call is refused |
| QuotaFs.LimitedFs.constructor | internal/git/fs.go:18-25 | starts empty |
| QuotaFs.LimitedFs.Create | internal/git/fs.go:44-51 | counts, then creates or empties the file; the state the run theorems speak about |
| QuotaFs.LimitedFs.OpenFile | internal/git/fs.go:79-88 | counts only when creating |
| QuotaFs.LimitedFs.TempFile | internal/git/fs.go:132-139 | counts, then makes a new file |
| QuotaFs.LimitedFs.MkdirAll | internal/git/fs.go:64-71 | counts one, however many segments |
| QuotaFs.LimitedFs.Symlink | internal/git/fs.go:123-129 | counts one |
| QuotaFs.LimitedFs.Write | internal/git/fs.go:201-221 | charges the growth past the size found under the handle's name before writing |
| QuotaFs.LimitedFs.Truncate | internal/git/fs.go:180-193 | charges or refunds the difference before truncating |
| QuotaFs.LimitedFs.Seek | internal/git/fs.go:175-177 | moves the offset only |
| QuotaFs.LimitedFs.Remove | internal/git/fs.go:101-105 | unlinks without refund |
| QuotaFs.LimitedFs.Rename | internal/git/fs.go:108-110 | renames over an existing file without refund |
| MetricsCache.QueriesIff | internal/telemetry/metrics.go:123-165 | a call queries if and only if none did before, or the last query succeeded and started 30 s ago or more, or it failed and finished 5 s ago or more |
| MetricsCache.QueryRateBound | internal/telemetry/metrics.go:123-165 | any query starts at least 30 s after an earlier successful one started and at least 5 s after an earlier failed one finished |
| MetricsCache.RefreshIsLive | internal/telemetry/metrics.go:127-133 | a query within the 20 s timeout leaves an entry live for 10 s more; live at all if and only if the query took less than the TTL |
| MetricsCache.EveryAnswer | internal/telemetry/metrics.go:134-165 | after the first success every call answers with the latest successful counts; before it with the latest query's error |
| MetricsCache.DegradedIffLastQueryFailed | internal/telemetry/metrics.go:171-202 | degraded if and only if the last query failed |
| MetricsCache.LogAlternates | internal/telemetry/metrics.go:171-202 | warnings and recoveries alternate, a warning first; an odd number means degraded |
| MetricsCache.WarningTellsStale | internal/telemetry/metrics.go:180-182 | the warning's stale flag says whether a query had succeeded before |
| MetricsCache.CachingReader.constructor | internal/telemetry/metrics.go:112-119 | starts with the zero entry |
| MetricsCache.CachingReader.NoteDegraded | internal/telemetry/metrics.go:171-183 | one log line on the transition only |
| MetricsCache.CachingReader.NoteRecovered | internal/telemetry/metrics.go:196-202 | one log line on the transition only |
| MetricsCache.CachingReader.RegistryMetricCounts | internal/telemetry/metrics.go:123-165 | reply, new entry and log lines of one call, as the run theorems fold them |
| Versions.StrictWeakOrderIff | internal/versions/compare.go:8-18 | IsNewerVersion is a strict weak order on a listing if and only if every two parsable versions with an unparsable text between them go up in precedence |
| Versions.TiedIff | internal/versions/compare.go:8-18 | neither version is newer if and only if they parse to the same version or are the same text; never are both |
| Text.StrLessMeaning | internal/versions/compare.go:12-15 | the text order: a proper prefix is smaller, otherwise the first differing byte decides |
| Versions.PrecedesIsSection11 | internal/versions/compare.go:17 | precedence is section 11 of SemVer 2.0.0: the numbers in order, a prerelease below its release, then the first differing identifier or the shorter list |
| Versions.PublishableIsOrderable | internal/versions/publishable.go:13-41 | a publishable version never falls back to string comparison |
| Versions.PublishableIff | internal/versions/publishable.go:13-41 | publishable are exactly the texts of up to 255 bytes that print a version, prereleases included, with or without a leading "v" |
| Versions.ParseOfPrint | internal/versions/publishable.go:39 | every printed version parses back, strictly and leniently |
| Versions.ReadNumbers | internal/versions/compare.go:9-10 | one to three numbers read as that release, missing ones as zero |
| Versions.MetadataIgnored | internal/versions/compare.go:9-17 | valid build metadata changes nothing about a version's reading, invalid metadata makes it unreadable |
| Versions.PublishableOrderly | internal/versions/publishable.go:18-22 | a listing of publishable versions meets that condition |
| Versions.FindHighestVersion | internal/service/db/impl_common.go:107-122 | the loop is the scan and, on listings that meet the condition, no listed version is newer than its result |
| Versions.HighestIsNewestIff | internal/service/db/impl_common.go:107-122 | the scan ends at a newest version in every arrangement of every part of a listing if and only if the listing meets the condition |
| Versions.NewestUnique | internal/service/db/impl_common.go:107-122 | newest versions of the same listing in any order have equal precedence |
| Versions.MixedListingCycles | internal/versions/compare.go:12-15 | an unparsable version between two whose string order reverses their precedence: every listed version has a newer one |
| Versions.MixedListingExists | internal/versions/compare.go:12-15 | such a listing exists |
| Versions.PublishableTiesAreSpellings | internal/versions/publishable.go:29-41 | publishable versions tie if and only if they are the same text up to the leading "v" |
| Cursor.Base64RoundTrip | internal/service/cursor.go:25-42 | decoding inverts encoding on every byte string (section 4 of RFC 4648) |
| Cursor.Rfc4648Vectors | internal/service/cursor.go:42 | the standard alphabet and padding on vectors of section 10 of RFC 4648 |
| Cursor.DecodableIff | internal/service/cursor.go:25 | line breaks aside exactly the whole groups of the alphabet decode, with padding in the last one or two places only |
| Cursor.DecodeCursorIff | internal/service/cursor.go:20-36 | no cursor is the first page; any other gives a pair if and only if it decodes to two texts around one comma |
| Cursor.ServerNameIff | internal/validators/server_name.go:44-102 | accepted are, white space aside, exactly the names of 3 to 200 characters in two parts around one slash that match the patterns |
| Cursor.CursorRoundTrip | internal/service/cursor.go:20-43 | decodes to the same pair, or to an error when a part holds a comma; never empty |
| Cursor.ValidateIdempotent | internal/validators/server_name.go:44-102 | an accepted name is accepted again, unchanged |
| Cursor.ValidNameChars | internal/validators/server_name.go:15-21 | an accepted name is bytes without a comma |
| Cursor.PublishableChars | internal/versions/publishable.go:32-41 | a publishable version holds only letters, digits, hyphens and dots |
| Cursor.AcceptedEntriesRoundTrip | internal/service/cursor.go:10-15 | every accepted name with every publishable version round-trips |
| Keyset.EveryKeyOnExactlyOnePage | internal/db/sqlc/plugins.sql.go:515-557 | following the cursor puts every key on exactly one page, with its first row |
| Keyset.FirstIsTopPriority | internal/db/sqlc/plugins.sql.go:555-556 | that first row has the lowest position of its key |
| Keyset.RestAfterPage | internal/db/sqlc/plugins.sql.go:551-556 | the next page starts behind the page and its last key |
| Listing.Absorb | internal/service/db/impl_plugins.go:772-790 | one batch through the visibility and the deduplicating filter |
| Deduplication.KeptIsDedup | internal/service/db/impl_mcp.go:1006-1027 | the filter keeps exactly the rows whose position is that of the first row of their name |
| Listing.NothingLostIff | internal/service/db/impl_plugins.go:792-798 | reading in batches shows every visible row if and only if no full batch ends inside a key with a visible row behind it |
| Listing.ListingCompleteIff | internal/service/db/impl_plugins.go:766-799 | the deduplicated rows of the batches are the deduplicated visible rows of the table if and only if no batch loses a row that deduplication keeps |
| Listing.StreamRows | internal/service/db/impl_plugins.go:755-809 | a request answers as if it had read all batches, with a next cursor exactly when there are more rows; it returns exactly the rows of the deduplicated visible table up to its next cursor if and only if it is undisturbed |
| Listing.RequestIff | internal/service/db/impl_plugins.go:755-809 | the same for a request from any later cursor, against the listing from the start: none of its rows lost at a batch end, no other source for the cursor's name, no end inside a key |
| Listing.ReceivedIff | internal/service/db/impl_plugins.go:801-806 | a client that follows the cursors to the end receives exactly the deduplicated visible table if and only if every request is undisturbed |
| LostRows.RowNeverReturned | internal/service/db/impl_plugins.go:772-798 | a table in which a visible row behind a hidden one of its key is returned with limit 2 and by no request with limit 1 |
| LostRows.RowLostOnResuming | internal/service/db/impl_plugins.go:792-806 | a table that the first request reads completely and the second does not, with no name changing its source |
| LostRows.SourceSwitches | internal/service/db/impl_plugins.go:762-763 | a table of visible rows in which limit 2 lists both versions of the first source and limit 1 shows the name from another source and drops a version of the first |
| Deduplication.FirstSourceWinsIff | internal/service/db/impl_mcp.go:1006-1027 | deduplicating one sorted list keeps the rows of the first source of every name if and only if that source carries the name's smallest version |
| Limits.FirstSourceReceivedIff | README.md:117 | with every limit a client receives exactly the rows of the first source of each name if and only if that source carries the name's smallest version and the listing is steady |
| Deduplication.FirstSourceCanLose | internal/service/db/impl_plugins.go:811-814 | a lower-priority source with a smaller version takes the name over |
| Listing.ResumeIff | internal/service/db/impl_plugins.go:801-806 | what a request from a later cursor would list is the rest of the deduplicated visible table if and only if its batches lose no row of that rest and the cursor's name is not picked up by another source |
| Listing.ResumeAgreesIff | internal/service/db/impl_plugins.go:801-806 | where the first request's batches lose nothing, that is also exactly when the second request continues the first one's listing |
| Limits.EveryLimitIff | internal/service/db/impl_plugins.go:755-809 | where a visible row's higher-priority duplicates are visible, a client that follows the cursors receives the deduplicated visible table with every limit if and only if that listing is steady |
| Limits.EveryLimit | internal/service/db/impl_plugins.go:755-809 | whatever is hidden, every limit is right if the listing is steady and no row of it from the table's third on has a row of its key before it |
| Limits.PageSizeIrrelevantIff | internal/service/db/impl_plugins.go:766-799 | one unbounded read from the start, in batches of any size, would list the deduplicated visible table if and only if no row of it from the third on has a row of its key before it, visible or hidden |
| Limits.TopSourceListed | internal/service/db/impl_plugins.go:811-814 | where the top source leads and a visible row's higher-priority duplicates are visible, one unbounded read would list exactly the highest-priority rows |
| PublicPath.SegmentsOfPath | internal/auth/config.go:41-47 | a path of steps up and then names is matched by its names below the root, and with the steps elsewhere |
| PublicPath.ParentSegments | internal/auth/config.go:41-42 | a final ".." takes the last name away, stops at the root, and leads upward from an unrooted path |
| PublicPath.PlainPathPublicIff | internal/auth/config.go:33-74 | a request for plain names is public under a path of plain names if and only if that path's names begin its own |
| PublicPath.EncodedIff | internal/auth/config.go:34-39 | refused are exactly the paths with "%2f" or "%2e" somewhere, in either case |
| PublicPath.PublicIffSegmentPrefix | internal/auth/config.go:33-74 | public if and only if no encoded separator occurs and some public path's cleaned segments begin the request's, rooted or not |
| PublicPath.PrefixIffSegmentPrefix | internal/auth/config.go:61-71 | on cleaned paths "equal or followed by a slash" is segment prefix |
| PublicPath.PublicMonotone | internal/auth/config.go:49-72 | a longer list of public paths only makes more paths public |
| PublicPath.RootedSegmentsHaveNoTraversal | internal/auth/config.go:41-47 | what a rooted path is matched by holds no "..", "." or empty segment |
| PublicPath.DetourIsInvisible | internal/auth/config.go:41-42 | inserting steps that cancel changes neither segments nor decision |
| PublicPath.CommonDetours | internal/auth/config.go:41-42 | "//", "/./" and "/x/../" are such steps |
| Upstream.FetchAllServers | internal/sources/api_upstream.go:128-189 | at most 1000 requests; succeeds if and only if the listing ends within them and fits 100000 servers, then with all pages in order; otherwise nothing |
| Upstream.CursorFollows | internal/sources/api_upstream.go:146-185 | the first request goes without a cursor, each later one with the cursor of the reply before |
| Upstream.ServersOfReply | internal/sources/api_upstream.go:174-177 | each reply's servers stand right after those of the replies before it |
| Gauge.GaugeReadsInFlight | internal/telemetry/middleware.go:130-155 | in every interleaving each series reads its requests in flight plus its aborted ones |
| Gauge.GaugeExact | internal/telemetry/middleware.go:139-155 | without aborts each series reads exactly its requests in flight |
| Gauge.MethodsKeptApart | internal/telemetry/middleware.go:199-223 | known methods are labelled by their own text, case-sensitively; exactly the unknown ones share one label |
| Gauge.SchemeRule | internal/telemetry/middleware.go:232-249 | the first entry of the header, case and white space aside, decides if it is http or https; otherwise the connection does |
| Gauge.AtMostTwentySeries | internal/telemetry/middleware.go:199-249 | at most twenty series for any methods and headers |
| ImageRef.ImageRoundTrip | internal/kubernetes/types.go:469-481 | a printed reference gives back its tag, or nothing, with port, digest, both or neither |
| ImageRef.UntaggedReadsAs | internal/kubernetes/types.go:475-478 | an untagged reference reads as untagged if and only if nothing but a slash-followed or trailing colon is in it |
| ImageRef.ResolvedIsPublishable | internal/kubernetes/types.go:420-445 | the resolved version is publishable for every annotation map and image |
| ImageRef.TagIsTheVersion | internal/kubernetes/types.go:426-429 | an unannotated entry takes its image's publishable tag |
| ImageRef.AnnotationIsTheVersion | internal/kubernetes/types.go:420-424 | a publishable annotation, white space aside, is the version whatever the image |
| ImageRef.FallbackVersion | internal/kubernetes/types.go:426-445 | any other annotation is ignored; without a publishable tag the version is 1.0.0 |
| Interval.Interval.Scan | internal/db/pgtypes/interval.go:40-60 | NULL clears; otherwise the wrapped total in nanoseconds, for every split into months, days and microseconds |
| Interval.Interval.Value | internal/db/pgtypes/interval.go:86-102 | whole microseconds toward zero, NULL when invalid |
| Interval.Interval.RoundTrip | internal/db/pgtypes/interval.go:40-102 | a duration comes back without its sub-microsecond part |
| Interval.RoundTripLoss | internal/db/pgtypes/interval.go:86-102 | the loss is under a microsecond, toward zero, nothing exactly on whole microseconds, and happens once; no overflow |
| Interval.ScannedUnits | internal/db/pgtypes/interval.go:54-58 | a microsecond is 1000 ns, a day 24 hours, a month thirty days, as long as the sum fits |
| Interval.ScannedAlikeIff | internal/db/pgtypes/interval.go:54-58 | two stored intervals, however split, scan to the same duration if and only if their totals differ by a multiple of 2^61 microseconds; the duration is the total if and only if that is at most 9223372036854775 microseconds either way |
| Interval.MicrosExact | internal/db/pgtypes/interval.go:54-58 | however often the int64 sum wraps, it ends at the wrapped total |

## Left out

- HTTP handlers, routing, CLI, migrations, token validation, the Kubernetes controller: plumbing around the modelled cores.
- Sync attempt counts, messages, metrics and spans: written, never read by the decisions.
- The writer's SQL: `Store` is one atomic replacement of the source's data.
- SKIP LOCKED between coordinators in the scheduler: a locked row would be skipped by the others for the time of one claim.
- Scheduler.ServedIff: one set of wanted sources for all rounds; with sets that change from round to round ServedInTurn gives one direction.
- Limits.EveryLimitIff: assumes that whoever sees a row sees the higher-priority rows of its key; for any other filter Listing.ReceivedIff is exact limit by limit and Limits.EveryLimit is sufficient.
- A schedule's own text: a stored schedule is absent, unparsable or an interval.
- The semver library's 64-bit limit: a number of 2^64 or more is read as a number here and rejected there.
- Unicode white space and upper case beyond ASCII in trimming and lower-casing.
- Database collation: texts are ordered bytewise; rows of equal (name, version, position) keep one order.
- Errors of the visibility filter in the listing: the filter is any predicate on rows.
- Directories, symbolic link targets and modes in the quota file system: a directory or link only counts as one file.
- Interval text and byte input of Scan: the pgtype parser is not part of this model.
- QuotaFs.QuotaConserved: assumes that truncates of the underlying file system work and that sums fit in an int64; the lemmas for one call say what happens otherwise.
- getPluginVersion, listServers and listSources queries: their cursors are not modelled; the first compares its parts separately.
- fmt reasons and log texts other than the cache's transitions.
