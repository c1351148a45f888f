# Verification of the feed's core

A Dafny model of the security feed's hard parts, with proofs over all inputs and all runs:

- **The archive.** One abstract table, and the two stores as adapters over it. SQLite orders ISO text, filters tags with
  LIKE over printed JSON and hides samples with a separate count; PostgreSQL uses `timestamptz`, JSONB containment and a
  predicate. They are proved to be interchangeable (`IsoTime`, `Like`, `JsonText`, `Models`, `Archive`, `SqliteStore`,
  `PostgresStore`, `Adapters`).
- **The state of a source.** Conditional requests, the COALESCE upsert, the stored payload, the minimum interval and the
  retry (`SourceFetch`, `Coherence`, `Cadence`), and what a whole refresh makes of the outcomes (`FetchAll`).
- **The migration runners.** Any number of them, with crashes at any point (`Migrate`, `MigrateRun`), and the startup
  check against what they leave (`MigrateCheck`).
- **Limiters and schedulers.** The request limiter, the NVD start slots, the single-flight refresh, the life of an alert
  (`RateLimit`, `NvdStagger`, `Pipeline`, `Alerts`).
- **Merging and selection.** `_dedupe`, the NVD paging, the OSV cap and enrichment (`Dedupe`, `DedupeRun`, `NvdPaging`,
  `Osv`; the objects they update are in `LiveItems`).

Code that changes state is a class or a method proved against a function; the theorems are lemmas about that function.
Times are integer microseconds since the start of year 1, in the limiters real numbers of seconds. The network, the
store's failures, the clock and the order of events are inputs. Every theorem over runs that needs a clock that does not
run backwards says so in its `requires`. `dafny verify dfyconfig.toml` checks the project.

## Where the code and its description differ

The model follows the code.

- `app/ratelimit.py:9-11` describes a fixed window with up to twice the burst at a boundary. The code is a sliding
  window, and the burst is impossible (`RateLimit.NeverMoreThanMax`).
- `app/fetcher.py:825-838` retries after a transport failure. For a source with a positive minimum interval the failed
  attempt's own state write makes the source not due, so the retry answers SKIPPED, no second request is sent and the
  error is in no list (`Cadence.RetryIsExact`). A full outage of such sources shows as nothing (`FetchAll.OutageIsSilent`).
- `app/fetcher.py:449-456` cites NVD's limit of 5 requests in 30 seconds. Starts 2 seconds apart allow 16 in a closed
  interval of 30 seconds (`NvdStagger.SixteenInThirtySeconds`); the limit is kept by the staggers of more than 6 seconds
  and by no others (`NvdStagger.NvdLimitIsExact`).
- The COALESCE of `set_source_state` keeps an old validator beside a new payload when an upstream stops sending it, and
  a later 304 then returns the items of the wrong body. This happens exactly when a representation drops the validator
  that decides the next request (`Coherence.DropIsDecisive`); `RunsAreCoherent` asks that none does.
- The startup check of `app/postgres_store.py:160-180` compares texts. It tells whether anything is pending exactly when
  the API's last version is the last to occur for the first time in its list and the greatest text of all versions
  (`MigrateCheck.StartupCheckCondition`). So it refuses a database that is ahead of the API, and `10_a.sql` beside
  `1_z.sql` for ever (`MigrateCheck.UnequalLengthsNeverPass`);
  distinct versions of one length meet the condition for the newest list (`Migrate.EqualLengthsAscend`).
- `migration_files` takes two files with one version. The second fails on the key and is rolled back; from then on its
  version counts as applied, so it is never run, nothing is pending and the startup check passes
  (`MigrateCheck.RepeatedVersionIsSkipped`, `MigrateCheck.SecondFileIsSkipped`). All files can be run exactly when no
  two share a version (`MigrateCheck.EveryFileCanRun`).
- The adapters differ on a tag filter for the separator `, `, on tags and queries that differ only in case, and on tags
  with quotes, backslashes or characters that JSON escapes (`Adapters.AgreementIsExact`, `Adapters.TagAgreementIsExact`,
  `Adapters.SeparatorTagDiffers`); and PostgreSQL refuses U+0000 in any text, which SQLite stores (`Adapters.RunOnBoth`).
- A page of NVD dates that mixes naive and aware values raises a TypeError (`NvdPaging.MixedDatesFail`; any comparison
  sort is taken to meet a mixed pair).
- An empty severity or patch status reads back from a payload as "unknown" (`Models.PayloadRoundTrip`).
- An item that one channel took waits again when a later channel refuses it or the marking fails
  (`Alerts.RepeatIsExact`), and its first channel is posted to again when it is picked again.

## Model

| member | source | states |
|---|---|---|
| `IsoTime.WallOrder` | app/models.py:38-47 | the calendar from year 1 to 9999 loses nothing: date and time fields compare exactly as the microseconds they stand for |
| `IsoTime.ZonesShiftInstant` | app/models.py:38-47 | the same wall clock further east is an earlier moment by the difference, and a naive one is meant as UTC |
| `IsoTime.IsoOrder` | app/sqlite_store.py:105-108 | for all UTC datetimes the order of the ISO text is the order of time, and equal text is the same moment, although the fraction is printed only when it is not zero |
| `IsoTime.StampOrder` | app/sqlite_store.py:111-112 | the stored `last_seen` and marker times compare as text exactly as the clock readings they print |
| `IsoTime.ParseOfIso` | app/models.py:109-111 | text written by `isoformat` reads back as the same datetime |
| `IsoTime.EnsureAware` | app/models.py:38-47 | the result is the same moment in UTC, and there is one exactly when that moment lies in the years 1 to 9999 |
| `IsoTime.EnsureAwareOfUtc` | app/models.py:38-47 | converting a UTC value changes nothing |
| `Like.EscapeLikeIsOnePass` | app/sqlite_store.py:115-122 | the three replacements made one after the other, backslash first, escape each character once |
| `Like.FoldCharIsExact` | app/sqlite_store.py:326-337 | two characters fold alike exactly when they are one character or one ASCII letter in both cases |
| `Like.EscapedSearchIsContainment` | app/sqlite_store.py:326-337 | for all q and s, the pattern `%` + escaped q + `%` matches s if and only if q occurs in s up to ASCII case |
| `JsonText.LoadsOfDumps` | app/sqlite_store.py:141 | a printed list of any strings, with every escape and surrogate pair, reads back unchanged |
| `JsonText.TagPatternIsMembership` | app/sqlite_store.py:234-236 | for every stored list and every query without quotes and backslashes: exactly when the LIKE over the printed list matches; it is membership up to ASCII case but for the separator query and what follows the last quote of a stored tag |
| `Models.TagListSorted` | app/models.py:54-56 | for any order of known tags without repetition, the list is sorted by priority, then by text |
| `Models.TagListMembers` | app/models.py:77 | the sorted list has exactly the tags of the set |
| `Models.ItemTagsSorted` | app/models.py:54-77 | the tag list of every item, in the order the program has: sorted by priority and then by text, exactly the tags of the item, none twice |
| `Models.PayloadRoundTrip` | app/models.py:75-133 | a payload item reads back as the item with its date in UTC if and only if severity and patch status are not empty |
| `Models.DictOfMeaning` | app/models.py:75-103 | every entry of the dictionary is its own field of the item, and the date the same moment |
| `Ordering.SortDescPermutes` | app/fetcher.py:867 | the sort keeps exactly the elements, with their multiplicity |
| `Ordering.SortDescSorts` | app/fetcher.py:867 | the sorted list descends in the key |
| `Ordering.SortDescStable` | app/fetcher.py:867 | elements of one key keep their order, as `reverse=True` does |
| `Ordering.DistinctPrefix` | app/osv.py:89 | `dict.fromkeys` of a beginning is a beginning of `dict.fromkeys` of the whole |
| `Archive.UpsertAllMeaning` | app/sqlite_store.py:151-184 | a batch leaves the last item of each id, seen now, with the first-seen time of the row it replaces or now, and every other row as it was |
| `Archive.StepKeepsFirstSeen` | app/sqlite_store.py:151-184 | while a row stays its first-seen time never changes; a row leaves exactly in a prune that finds it no sample and seen before the cutoff |
| `Archive.RowsAreOrdered` | app/sqlite_store.py:151-184 | over every run from empty tables under a clock that does not run backwards, each row was first seen no later than last, and last no later than now |
| `Archive.MarkAllMeaning` | app/sqlite_store.py:311-319 | markers are added for exactly the given ids, and an existing marker keeps its time |
| `Archive.AnswerExists` | app/sqlite_store.py:242-244 | the reading of ORDER BY with LIMIT used here always has an answer |
| `SqliteStore.ImageOfPrune` | app/sqlite_store.py:412-416 | deleting by text comparison deletes exactly the rows seen before the cutoff in time |
| `SqliteStore.BindItems` | app/sqlite_store.py:128-150 | binding fails exactly when one date cannot be converted, and otherwise gives the items in UTC |
| `SqliteStore.RowOfMeaning` | app/sqlite_store.py:128-150 | every text column is its own field of the item, in the form that reads back |
| `SqliteStore.Store.UpsertItems` | app/sqlite_store.py:125-186 | the text table stays the image of the abstract archive after the batch; a date that cannot be converted leaves it untouched |
| `SqliteStore.Store.PruneItems` | app/sqlite_store.py:407-422 | both deletes by text are the abstract deletes by time, and the count returned is how many rows went |
| `SqliteStore.Store.MarkAlerted` | app/sqlite_store.py:311-319 | INSERT OR IGNORE over the text table is the abstract marking; the rows are untouched |
| `PostgresStore.RowOfMeaning` | app/postgres_store.py:271-339 | every typed column is its own field of the item, with lists, date and times unchanged |
| `PostgresStore.StorableIsExact` | app/postgres_store.py:271-299 | an item can be stored if and only if none of its texts has U+0000 |
| `PostgresStore.Store.UpsertItems` | app/postgres_store.py:271-339 | the typed table stays the image of the abstract archive after the batch; a date that cannot be converted and a text with U+0000 each roll it back whole, with their own errors |
| `PostgresStore.Store.Execute` | app/postgres_store.py:300-339 | the transaction goes through exactly when every text can be stored, and then writes the abstract batch |
| `PostgresStore.Store.PruneItems` | app/postgres_store.py:242-253 | both deletes are the abstract ones, and the count returned is how many rows went |
| `PostgresStore.Store.MarkAlerted` | app/postgres_store.py:475-484 | ON CONFLICT DO NOTHING is the abstract marking, refused whole when an id has U+0000; the rows are untouched |
| `Adapters.ReadSqliteRow` | app/sqlite_store.py:189-219 | what SQLite reads back from the row it wrote is the item as shown to callers |
| `Adapters.ReadPostgresRow` | app/postgres_store.py:342-370 | what PostgreSQL reads back from the row it wrote is that same shown item |
| `Adapters.SameAhead` | app/sqlite_store.py:242 | text order with NULLs last, 0/1 flags and text times orders any two rows as the timestamptz order with NULLS LAST does |
| `Adapters.SqliteAnswers` | app/sqlite_store.py:222-247 | the answers of query and search, in terms of the stored items and their moments: as many found rows as the limit allows, newest first with undated last, urgent first on one date, then last seen first, and before all that are left out |
| `Adapters.PostgresAnswers` | app/postgres_store.py:378-414 | the same of the other adapter |
| `Adapters.NewestComeFirst` | app/sqlite_store.py:242 | on both adapters a returned row is not older than a later one or one left out, never undated before a dated one, and at one date not calm before an urgent one nor seen earlier |
| `Adapters.EmptyFiltersFindAll` | app/sqlite_store.py:234-239 | an absent or empty filter hides nothing |
| `Adapters.TagFilterExact` | app/sqlite_store.py:234-236 | for a query without quotes and backslashes: the quoted tag shows in the printed list exactly when the tag is there, if and only if the condition on the tags holds |
| `Adapters.LowerCaseTagsAreClear` | app/sqlite_store.py:234-236 | lower-case tags without quotes and a lower-case query other than the separator meet that condition |
| `Adapters.SearchIsContainment` | app/sqlite_store.py:333-336 | on both adapters, with case folded for ASCII only, a text matches exactly the rows that have it literally in title, summary, source or the CVE list as that adapter prints it |
| `Adapters.SelectionIsContainment` | app/sqlite_store.py:222-247 | all clauses of both queries in terms of the stored item: visibility, severity, tag and text |
| `Adapters.AdaptersAgree` | app/postgres_store.py:378-414 | for every archive, text, tag, severity and limit, with text matched up to ASCII case, the two adapters may give exactly the same answers in the same order up to ties, when every visible row is found by both or by neither |
| `Adapters.AdaptersAgreeOnUrgent` | app/postgres_store.py:461-472 | the unalerted urgent items of both adapters are the same answers, on every archive |
| `Adapters.AgreementIsExact` | app/postgres_store.py:378-392 | for every text and tag, with text matched up to ASCII case: they agree on all severities and limits if and only if every visible row is found by both or by neither, in terms of containment in its texts and printed lists |
| `Adapters.TagAgreementIsExact` | app/postgres_store.py:378-392 | for a tag without quotes and backslashes, if and only if every visible row meets the condition on its tags |
| `Adapters.SeparatorTagDiffers` | app/sqlite_store.py:234-236 | a witness: on the tag `, ` the adapters differ wherever a visible row has two tags and not that one |
| `Adapters.PlainRowsAreClear` | app/postgres_store.py:395-414 | the condition holds of a row with a clear tag and CVE ids in printable ASCII |
| `Adapters.RunOnBoth` | app/postgres_store.py:242-339 | any sequence of upserts, prunes and marks reports the same on both adapters if and only if PostgreSQL can store all its texts, and then leaves both tables images of one archive |
| `SourceFetch.StateTable.SetSourceState` | app/sqlite_store.py:368-404 | the fetch time and the error are always replaced; tag, date, ok time and payload keep the old value when none is given; no other row changes |
| `SourceFetch.StateTable.FetchSourceOnce` | app/fetcher.py:784-822 | one attempt leaves the row and returns the outcome of the attempt as the theorems speak of it, touches no other source, and when due ends as the network answered: a source without validators with what it fetched |
| `SourceFetch.AttemptOutcomes` | app/fetcher.py:784-822 | how a due attempt ends: the fetched items of a source without validators, or the transport or status failure |
| `SourceFetch.RecordMeaning` | app/fetcher.py:808-821 | a recorded failure stores an error and keeps the last success; a recorded success clears the error and stores its time |
| `SourceFetch.StateTable.FetchSource` | app/fetcher.py:825-838 | the loop over attempts retries exactly after a transport failure |
| `SourceFetch.ToDicts` | app/fetcher.py:145-166 | a payload is made of each item in order, or there is an item whose date cannot be converted |
| `Coherence.PayloadReadsBack` | app/fetcher.py:179-188 | stored items read back as the items of the answer they came from |
| `Coherence.FullFetchIsFirst` | app/fetcher.py:376-382 | a full fetch is the first `max_items` of the rendered items, in order |
| `Coherence.FreshWriteDescribes` | app/sqlite_store.py:379-404 | after a 200 the stored state describes the new body if and only if the COALESCE keeps no older validator that then decides the next request |
| `Coherence.NotModifiedMeansSameBody` | app/fetcher.py:368-376 | a 304 means the upstream still holds the body the payload came from |
| `Coherence.StoredAnswerIsFull` | app/fetcher.py:368-376 | a 304 answered from the store gives the items a full fetch would give, and keeps the state coherent |
| `Coherence.RunsAreCoherent` | app/fetcher.py:364-420 | over every run of 200, 304, failed and unsaved steps against an upstream whose validators identify bodies and are never dropped, each answer is the one of a full fetch, and the state ends describing one representation |
| `Coherence.UsualUpstreams` | app/fetcher.py:169-176 | an upstream that always tags, or never tags and always dates, never drops a validator |
| `Coherence.StaleIsExact` | app/sqlite_store.py:379-404 | after any sequence of fetched representations, exactly when the stored state describes the last of them, in terms of the validators they sent |
| `Coherence.DropGivesStaleItems` | app/sqlite_store.py:387-394 | whenever a representation drops the validator of the one before, a third fetch returns the items of the wrong body |
| `Coherence.DropIsDecisive` | app/sqlite_store.py:387-394 | for two representations with different items: whatever comes third is answered as a full fetch if and only if the second drops nothing |
| `Coherence.DroppedTagGivesStaleItems` | app/sqlite_store.py:387-394 | an example: an upstream that once omits its tag |
| `Cadence.RequestsAreSpaced` | app/fetcher.py:191-202 | over every run, a request after a recorded one is sent no earlier than the minimum interval, unless its own due check could not read the state, and then it always is |
| `Cadence.RecordIsExact` | app/fetcher.py:784-822 | an attempt is recorded if and only if it sent a request, its write landed and the body it was given could be read |
| `Cadence.RetryIsExact` | app/fetcher.py:825-838 | when the retry after a transport failure really sends a second request, if and only if; otherwise it reports SKIPPED |
| `Cadence.OnlyTransportIsRetried` | app/fetcher.py:825-838 | whatever else the first attempt ends with is the result |
| `Cadence.IntervalDropsTheError` | app/fetcher.py:784-838 | with a working store, a positive interval and a retry within a second of the failure's record, the retry is never sent and the error is lost |
| `FetchAll.FetchAll` | app/fetcher.py:870-902 | the loop collects items, errors and skipped sources, and returns the merged list of the live items and, where allowed, the samples |
| `FetchAll.LiveMembers` | app/fetcher.py:880-892 | the live items are those of every source that answered with items |
| `FetchAll.FeedIds` | app/fetcher.py:893-902 | an id is in the feed if and only if it is live, or a sample's while no source was skipped and fewer than four items are live |
| `FetchAll.SamplesMeanEverySourceWasAsked` | app/fetcher.py:893-901 | a sample in the feed means no source was skipped and fewer than four items are live |
| `FetchAll.ReportIsExact` | app/fetcher.py:825-838 | a source ends as failed if and only if an attempt failed for good: outside transport, or in transport with a retry sent that failed too |
| `FetchAll.ErrorsAreExact` | app/fetcher.py:882-891 | the errors of a refresh name exactly the sources that failed for good |
| `FetchAll.OutageIsSilent` | app/fetcher.py:882-901 | when every source has an interval and fails in transport over a working store, with retries within a second, the refresh reports no error, no item and no sample |
| `Migrate.MigrationFiles` | app/migrate.py:48-59 | whatever `isdigit` takes for a digit: the list is refused exactly when it is empty or some name has no numeric version; otherwise it has, in name order, what stands in each name before the first underscore or the suffix |
| `Migrate.VersionIsBeforeFirstUnderscore` | app/migrate.py:55 | for all v without an underscore, `v_rest.sql` and `v.sql` have the version v |
| `Migrate.EqualLengthsAscend` | app/migrate.py:48-59 | distinct versions of one length come out ascending |
| `Migrate.StepKeeps` | app/migrate.py:132-184 | every move of every runner keeps the invariant, and commits are never undone |
| `Migrate.RunsKeep` | app/migrate.py:132-184 | so does every interleaving of moves |
| `Migrate.MigrationsAreSafe` | app/migrate.py:117-184 | over every interleaving with crashes anywhere and for every list: the recorded versions are a beginning of the versions in order of first occurrence, each once; one runner works at a time; and a runner that returned reported its own commits and left nothing pending |
| `Migrate.EffectIsExact` | app/migrate.py:164-175 | no file's effect is committed twice, and it is committed if and only if its version is recorded and no earlier file has that version |
| `Migrate.LaterRunnersFindNothing` | app/migrate.py:132-184 | after one runner has returned, a later one with no longer list returns the empty list and changes nothing |
| `MigrateCheck.StartupCheckIsExact` | app/postgres_store.py:160-180 | the version comparison passes if and only if nothing of the API's list is pending and nothing beyond it is applied |
| `MigrateCheck.StartupCheckIsSound` | app/postgres_store.py:160-180 | for the newest list, over all runs, the comparison passes if and only if nothing is pending |
| `MigrateCheck.StartupCheckCondition` | app/postgres_store.py:160-180 | for any list: over all runs the check of an API is "nothing of its list is pending" if and only if its last version is the last of its list to occur for the first time and the greatest text of all versions there are |
| `MigrateCheck.StrictCheckCondition` | app/postgres_store.py:160-180 | for any list: over all runs it is "exactly its versions are recorded" if and only if moreover the version that comes next is greater |
| `MigrateCheck.EveryPrefixIsReached` | app/migrate.py:132-184 | every beginning of the versions, in order of first occurrence, is what some runs leave |
| `MigrateCheck.EveryFileCanRun` | app/migrate.py:48-59 | some runs commit the effects of all files if and only if no two files share a version |
| `MigrateCheck.RepeatedVersionIsSkipped` | app/migrate.py:164-175 | a file with the version of an earlier one never commits in any run, while some runs leave nothing pending and the lock free |
| `MigrateCheck.SecondFileIsSkipped` | app/postgres_store.py:160-180 | for two files with the version "1" the startup check then passes |
| `MigrateCheck.UnequalLengthsNeverPass` | app/migrate.py:62-64 | a list on which the condition fails: everything is applied and the check still refuses |
| `MigrateRun.Database.ApplyPending` | app/migrate.py:132-184 | the method is a run of the protocol; it succeeds exactly when the lock is free, no pending file is broken and none repeats a version, and then commits and returns exactly the pending versions in order; on failure it has committed those before |
| `MigrateRun.Database.Acquire` | app/migrate.py:132-155 | the lock is taken exactly when it is free, and the tracking table exists from then on; otherwise nothing changes |
| `MigrateRun.Database.ApplyFiles` | app/migrate.py:164-178 | the loop commits exactly the pending versions in order, or those before the first file that is broken or repeats a version |
| `MigrateRun.Database.ApplyFile` | app/migrate.py:164-175 | one pass of the loop commits one file whole or leaves the database as it was, with the lock released |
| `RateLimit.RateLimiter.Check` | app/ratelimit.py:37-54 | accepts exactly when fewer than the maximum accepted hits of the key lie in the window before now, as a log that forgets nothing would, and bounds the map |
| `RateLimit.RateLimiter.Trim` | app/ratelimit.py:40-50 | after pruning and popping, what is left of the key is exactly its hits in the window |
| `RateLimit.RateLimiter.PopExpired` | app/ratelimit.py:47-49 | popping keeps the end of the log of the key and stops at the first hit in the window |
| `RateLimit.RateLimiter.Prune` | app/ratelimit.py:56-60 | pruning drops only keys without a hit in the window, so every deque still answers for the log |
| `RateLimit.Answers` | app/ratelimit.py:37-54 | every call of every ordered sequence is answered by the rule over the log of the calls before it |
| `RateLimit.NeverMoreThanMax` | app/ratelimit.py:9-11 | at most the maximum is accepted in any span of one window, wherever it ends: stronger than a fixed window |
| `RateLimit.AllowsIsExact` | app/ratelimit.py:47-54 | the rule without counting: accepted exactly when fewer than the maximum were accepted before, or the one that many back has left the window |
| `RateLimit.KeysAreSeparate` | app/ratelimit.py:37-54 | the answers for a key are those it would get with no other key calling |
| `RateLimit.PrunedMapIsSmall` | app/ratelimit.py:56-60 | after a prune the map holds no more keys than are active in the window |
| `NvdStagger.Stagger.Reserve` | app/fetcher.py:462-481 | each caller gets the next start of the sequence for its event loop, and sleeps until it |
| `NvdStagger.StartsInTime` | app/fetcher.py:462-481 | no start precedes its caller's clock, and it equals that clock exactly when the slot is free |
| `NvdStagger.StartIsEarliest` | app/fetcher.py:462-481 | a start is its caller's clock or one stagger after the start before |
| `NvdStagger.StartsAreSpaced` | app/fetcher.py:462-481 | the i-th and j-th starts are at least j - i staggers apart, whatever the clocks show |
| `NvdStagger.IntervalBound` | app/fetcher.py:449-481 | an interval of length L holds at most floor(L / stagger) + 1 starts |
| `NvdStagger.BurstIsEvenlySpaced` | app/fetcher.py:462-481 | callers that arrive together start exactly one stagger apart |
| `NvdStagger.BudgetIsExact` | app/fetcher.py:449-481 | at most n starts lie in any interval of this length, whatever the clocks, if and only if n staggers are longer than it |
| `NvdStagger.SixteenInThirtySeconds` | app/fetcher.py:449-456 | the stagger of 2 seconds allows 16 starts in 30 seconds and no more; a burst of 16 callers makes them |
| `NvdStagger.NvdLimitIsExact` | app/fetcher.py:449-456 | 5 requests in 30 seconds are kept to by the staggers of more than 6 seconds and no others |
| `Pipeline.SingleFlight` | app/pipeline.py:52-78 | over every run, an unfinished refresh is the one in `_REFRESH_TASK`, so at most one runs |
| `Pipeline.ScheduleIsExact` | app/pipeline.py:68-78 | a schedule starts a task if and only if none runs, whatever handles finished tasks left and whichever callbacks are late |
| `Pipeline.RunningTaskKeepsHandle` | app/pipeline.py:57-65 | from its start to its end a task keeps the handle: no late callback clears it and no other task starts |
| `Pipeline.GetFeedIsExact` | app/pipeline.py:187-196 | `get_feed` starts a refresh if and only if none runs and every refresh that reached the cache did so more than the TTL ago |
| `Pipeline.RefreshesAreSpaced` | app/pipeline.py:187-196 | after a refresh reached the cache, no `get_feed` starts another before the TTL has passed |
| `Pipeline.QuietWithinTtl` | app/pipeline.py:187-196 | in terms of the events: after a refresh has set the cache, no `get_feed` within the TTL starts another |
| `Pipeline.StartedTask` | app/pipeline.py:68-78 | a new task is the last, held by the handle, begun now, and the others are untouched |
| `Pipeline.TaskEvents` | app/pipeline.py:57-65 | what setting the cache, ending and the callback do to a task, the cache and the handle, and to nothing else |
| `Pipeline.FeedPipeline.ScheduleRefresh` | app/pipeline.py:68-78 | the method makes the transition of the protocol, and says truly whether it started a task |
| `Pipeline.FeedPipeline.OnRefreshDone` | app/pipeline.py:57-65 | the callback makes the transition of the protocol |
| `Pipeline.FeedPipeline.GetFeed` | app/pipeline.py:187-196 | answers at once from the cache as it was and makes the transition of the protocol |
| `Pipeline.FeedPipeline.RunSteps` | app/pipeline.py:137-184 | all five steps are tried and reported whatever became of the others; only a cancellation ends the sequence, with exactly the steps before it reported |
| `Pipeline.FeedPipeline.RefreshFeed` | app/pipeline.py:137-184 | from the fetched items on, a refresh sets both times of the cache to now, drops the last report and reports its own steps |
| `Alerts.PicksOfTables` | app/sqlite_store.py:290-308 | on both adapters the picked items are the newest urgent, unmarked and visible ones |
| `Alerts.Deliver` | app/alerts.py:118-129 | an item is delivered exactly when no configured channel refuses, and channels after a refusal are not tried |
| `Alerts.ChannelsInOrder` | app/alerts.py:119-126 | Discord before Slack before e-mail, each exactly when it is configured |
| `Alerts.SendUrgentAlerts` | app/alerts.py:105-135 | returns the delivered ids in order, and marks exactly those unless the marking fails |
| `Alerts.SendUrgentAlertsOnPostgres` | app/alerts.py:105-135 | the same over PostgreSQL, where the marking fails whole on an id it refuses |
| `Alerts.DeliverAll` | app/alerts.py:113-129 | the loop returns the picked ids no configured channel refuses, in order, and makes the posts of each |
| `Alerts.DeliveredMembers` | app/alerts.py:115-129 | the alerted ids are exactly the picked ones no configured channel refuses |
| `Alerts.AlertsAreApart` | app/alerts.py:105-135 | over every interleaving of writes, prunes, selections and recordings by any number of replicas: after a marker has been inserted, the item is selected again, or its marker inserted again, only more than the retention later, and never without a retention |
| `Alerts.MarkerLossIsExact` | app/sqlite_store.py:417-421 | a marker goes if and only if a prune with a retention finds it older than the cutoff and its row gone or going |
| `Alerts.RecordTakes` | app/alerts.py:105-135 | recording takes from the waiting items exactly what the replica has delivered; selecting takes nothing |
| `Alerts.QueueDrains` | app/alerts.py:105-135 | when every channel accepts and nothing comes between, the queue shrinks by ten or to nothing |
| `Alerts.RepeatIsExact` | app/alerts.py:118-131 | a picked item that some channel took waits again if and only if the first configured channel takes it, and some channel refuses it or the marking fails |
| `Alerts.FirstChannelIsPosted` | app/alerts.py:118-129 | whenever an item is picked it is posted to the first configured channel |
| `Alerts.PruneIsExact` | app/pipeline.py:106-118 | a refresh prunes if and only if there is a retention and no prune has succeeded within a day; a failed prune does not count |
| `Alerts.PrunesAreSpaced` | app/pipeline.py:106-118 | two successful prunes are at least a day apart, even under a clock that jumps back |
| `Alerts.Retention.Prune` | app/pipeline.py:106-118 | the prune makes the abstract transition with the cutoff, moves the throttle only on success, and fails when the cutoff precedes the first datetime |
| `Alerts.Retention.PruneOnPostgres` | app/pipeline.py:106-118 | the same over PostgreSQL |
| `Dedupe.MergeIsUnion` | app/fetcher.py:853-866 | the merged item has the union of tags, the ordered union of CVEs, the highest severity rank, urgent if any is, and all else from the first item of the id |
| `Dedupe.MergeIgnoresOrder` | app/fetcher.py:853-866 | tags, CVEs as a set, severity rank and urgency depend only on which items there are |
| `Dedupe.DedupedList` | app/fetcher.py:867 | distinct ids, exactly those of the input; sorted; ties in the order of first occurrence |
| `Dedupe.DedupedIsNewestFirst` | app/fetcher.py:845-850 | by the moments of publication: a later item is never newer, an undated item never before a dated one, nor a calm one before an urgent one of the same date |
| `Dedupe.DedupeTwice` | app/fetcher.py:853-867 | a second pass changes nothing |
| `LiveItems.SeverityOrder` | app/fetcher.py:129 | critical ranks above high, medium, low, and every other text below them alike |
| `DedupeRun.MergeInto` | app/fetcher.py:861-866 | the in-place statements make the merge of the two values, also when both are one object |
| `DedupeRun.CollectInPlace` | app/fetcher.py:854-866 | the loop leaves in the dictionary, for each id, one object that holds the merge of the id, and changes no other object |
| `DedupeRun.DedupeItems` | app/fetcher.py:853-867 | the in-place algorithm returns the merged list of the values it was given, newest first, and fails exactly when a merged date cannot be converted |
| `NvdPaging.FetchNvd` | app/fetcher.py:548-576 | one or two requests; on an ascending dated listing the number of items and the dates of sorting everything and taking the newest; and failure exactly on mixed dates |
| `NvdPaging.PagingIsTop` | app/fetcher.py:548-576 | for an ascending dated listing, the dates returned are those of sorting everything and taking the newest, one page or two |
| `NvdPaging.NoneNewerOmitted` | app/fetcher.py:548-576 | what is returned and what is omitted make up the listing; by the moments of publication nothing omitted is newer than anything kept, and the kept come newest first |
| `NvdPaging.GoodListingMeaning` | app/fetcher.py:548-576 | the ascending listing the paging relies on, in terms of moments |
| `NvdPaging.MixedDatesFail` | app/fetcher.py:548-576 | for every listing, paging fails if and only if the page it is left with has one entry with a naive date and one with an aware date or none |
| `Osv.RequestedCves` | app/osv.py:86-123 | the nested loops, the second deduplication and the cap request the first distinct CVEs of the prioritized items; a date that cannot be converted fails the sort |
| `Osv.CapRespectsPriority` | app/osv.py:115-123 | a CVE is requested only together with every CVE of any item ranked above all its carriers by urgency, severity and moment of publication |
| `Osv.RequestedMembers` | app/osv.py:86-91 | only CVEs of items are requested, each once, within a positive cap; one is left out only when the cap is used up |
| `Osv.EnrichTwice` | app/osv.py:132-145 | applying the same answers twice is applying them once |
| `Osv.EnrichSeverity` | app/osv.py:140-142 | a known severity never changes, an unknown one only to a known one; summary, CVEs and id stay |
| `Osv.EnrichRates` | app/osv.py:140-142 | an unknown severity becomes the first known one among the answers, in the order of the item's CVEs |
| `Osv.EnrichHolds` | app/osv.py:132-145 | after enrichment the item holds all that the answer of each of its CVEs says |
| `Osv.EnrichAddsOnly` | app/osv.py:138-145 | packages, versions, a summary and the patch tag come only from answers about the item's own CVEs, and no other field changes |
| `Osv.ApplyInPlace` | app/osv.py:136-145 | the in-place statements make the application of one answer |
| `Osv.EnrichInPlace` | app/osv.py:132-145 | the loop over the CVEs of an item, in place, gives the enriched value |
| `Osv.EnrichItems` | app/osv.py:131-146 | every object of the list ends enriched once, even when it is in the list twice |
| `Osv.EnrichWithOsv` | app/osv.py:112-146 | requested answers, and only those, reach the items that carry the CVE; when a date cannot be converted every item stays as it was |

## Left out

- RunsAreCoherent: is stated for one refresher; for an upstream whose validators identify bodies, that is, one entity tag is one body, and without a tag a later body has a later date; and for one that never drops a deciding validator, which `DropIsDecisive` shows to be needed.
- FetchAll: starts from the answers of the sources; that they are asked concurrently is not modelled.
- ApplyPending: has nobody else moving meanwhile; the interleavings are in `Migrate`, of which it is shown to be a run.
- MixedDatesFail: which pairs a sort compares is not modelled; any comparison sort is assumed to meet a mixed pair.
- The SQL engines, connection pools, TLS, roles and row security: statements and transactions are atomic, and SQLite's two reads of one query have no write between them.
- HTTP, feedparser, server-sent events, webhooks and SMTP: their answers are inputs.
- OpenSearch and `search.py`: calls to an unseen service that is never told about pruned rows.
- Keyword tags, severity and patch-status heuristics, HTML stripping, CVE patterns, CVSS scores and the rendered age: flat branching.
- SHA-1 ids are opaque strings; the sample items are an input.
- `stats`, `seed_if_empty`, EPSS and KEV enrichment, `parse_osv` and the OSV cache: they would only add easy members.
- JSON other than the printed form of a list of strings, and ISO spellings other than those `isoformat` prints.
- TagAgreementIsExact: tags with a quote or a backslash are decided by `AgreementIsExact`, in terms of the printed list.
- Collations: versions are compared as texts by code point.
- SQLite's limit on the length of a LIKE pattern, which an unbounded search parameter can exceed.
- Case folding beyond ASCII in ILIKE, and a negative LIMIT.
- U+0000 in a query parameter, which PostgreSQL refuses, and in stored text under SQLite's LIKE, which reads up to it.
- Scores and limiter times are real numbers, not floating point; an HTTP date is its count of seconds.
- Clocks that jump back, and two refreshers of one source.
