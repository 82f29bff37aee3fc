# A verified model of HStream's C++ support layer and Kafka schema generator

This project models five components of HStream in Dafny and proves their central
properties for all inputs, all runs and all interleavings.

* **The admin query table** answers SQLite from a cluster of nodes. It pushes `node_id`
  constraints down to the choice of nodes, merges the nodes' ragged tables, caches the
  merge under the constraints used, builds equality indexes lazily and gives up on
  pushdown after too many fetches. SQLite filters again afterwards, so every answer must
  filter to what a scan of all nodes filters to.
  Modules: `Tables`, `NodeSelection`, `Pushdown`, `Indexing`, `AdminCache`, `AdminTable`,
  with `CacheAge` for the age of cached data and `NameNormalizer`, `JsonTable`,
  `ParallelParse` and `NodeAnswers` for the nodes' answers.
* **The stats holder** counts per thread and folds exiting threads into a map of dead
  threads. `StatsMachine` is a machine of interleaved steps at the granularity of single
  counter reads; `StatsLaws`, `StatsTotals`, `StatsAggregate`, `StatsMax` and
  `StatsProgress` prove its laws over all runs. `StatsCore`, `Tally` and `TimeSeries` hold
  the sequential loops.
* **The Kafka schema generator** turns versioned schemas into Haskell record types shared
  between versions, one total type per message and converters both ways. Its output is
  modelled by what it denotes. Modules: `SchemaTypes`, `SchemaSharing`, `SchemaTrees`,
  `SchemaParse`, `SchemaDefaults`, `SchemaConverters`, `GeneratedDefaults`,
  `SchemaVersions`.
* **The fatal signal handler** unmaps the block caches: `SegmentSweep`, and `Decimal` for
  its digit printing.
* **The Kafka TCP session**: `KafkaSession`.

## How the model reads the source

* A row is the map of its non-null cells; an absent column reads as null. Equality
  constraints compare text, range constraints on `node_id` compare integers, and every
  other comparison is an arbitrary function (`Sql.other`). `folly::to<int>` is an arbitrary
  partial function that reads back decimal numbers below 2^31 (`Sql.Lawful`).
* `ServerNode::id` is an unsigned 32-bit integer and is compared as a signed one. That makes
  pushdown wrong for a node with rows and an id of 2^31 or more: `node_id >= 0` drops it.
  `PushdownSoundIff` proves that this is the only obstacle.
* A node is its id and its parsed answer; a failed or unparsable answer is the table without
  columns. The nodes' tables are rectangular, which `ParsedClusterValidIff` characterises by
  their headers; otherwise the row check of `aggregate` fails (`RowCheckPassesIff`).
  `TableData::numRows` is not part of the repository; it is taken to be the height of some
  column. A query context starts without used constraints, and `getCommandToSend` ignores
  the context, as in all tables of the repository.
* The iteration order of hash containers is arbitrary: loops pick any remaining element, and
  the recorded order of used constraints and the column an index is looked up for are left
  open. `std::sort` may leave ties in any order.
* Each cache entry remembers, for specification only, the cluster it was fetched from, so
  the cluster may change during a run. `setCacheTTL` is documented as clearing the cache
  (AdminCommandTable.h:66-67) but the code only stores the new value; the model follows
  the code.
* `MAX_FETCHES` is 5, and filtering stays allowed while the counter is at most 5, although
  the header (AdminCommandTable.h:152-153) speaks of giving up from 5 fetches on. One query
  can therefore contact the cluster seven times, which `FetchBoundAttained` exhibits.
* Counters are mathematical integers. A stat is combined by SUM or MAX, and the aggregate
  starts at zero. The time-series addition is an arbitrary function, so its laws do not
  depend on how floating-point sums round. In strict mode a thread's destructor runs under
  the thread-list mutex; the model has the mode as a parameter, and both races the source
  comments on are runs of the non-strict machine.
* An aggregate pass copies a map's entries first and reads each counter later, because the
  copy is of shared pointers, although its comment (Stats.h:289-292) calls it deep. Sources
  may be visited in any order.
* A Kafka callback may depend on all earlier requests of its session. A length prefix that
  is negative makes the vector allocation throw, which ends the session.
* Compact and nullable wrappers are the identity on values. A default is modelled in three
  steps: the Haskell text that `get_field_default` prints, what the text denotes at the
  field's type in the total type, and what the schema means. The types are those of
  hstream-kafka/protocol/Kafka/Protocol/Encoding/Types.hs:129-165, where nullable strings and
  bytes are a `Maybe`, and arrays, records and the compact nullable types are newtypes around
  one. `Undefined` is text that is no expression of the type.
* A schema's default is zero, false, empty or, for a nullable string, null (the rule of
  kafka_gen.py:477-480) when none is given. It survives for integers and booleans always; for
  error codes, API keys and doubles if it is explicit (`get_field_default` has no case for
  them, as it tests for "float"); for strings, bytes and arrays that are neither nullable
  strings or bytes nor compact arrays if it is not explicit (an explicit text is printed
  without quotes); for nullable strings and bytes if it is "null"; never for records, compact
  arrays and compact nullable types. `DefaultHoldsIff` proves that this is exact, and
  `DefaultIsLost` shows a field of the repository for which it fails once versions 10 and 11
  are both generated; API_VERSION_PATCHES now stops at version 6. `GeneratedDefault` is about
  fields whose record name no other field of the message has (`OnlyField`).
* A struct's name and version are assumed to determine its type across all messages, and
  an array of structs to list its sub-fields (`FieldDeclared`), as every schema of the
  repository does; `BareReferenceResolvesIff` covers one that does not. Messages have
  distinct names. `AppendUniqueIff` shows what happens when a struct is redeclared with another type.
* A cache entry charged zero bytes is recorded with the page it starts in although it
  touches none, and the end of an entry that reaches into the last page of the address space
  wraps; `SegmentExactIff` and `ClaimedIsTouchedIff` give the exact conditions. A call whose
  end lies below its start is kept as such: its length is what size_t subtraction gives.

## Model

| member | source | states |
|---|---|---|
| `Tables.Aggregate` | common/hstream/cbits/query/tables/AdminCommandTable.cpp:128-169 | merging rectangular tables gives the union of their columns, each the sources' cells in turn with nulls where a source lacks it; the rows are the sources' rows end to end |
| `Tables.CopyColumns` | common/hstream/cbits/query/tables/AdminCommandTable.cpp:139-158 | for every iteration order, copying stops at the row check exactly when some column differs in height from the non-empty one before it; otherwise every column of the source is placed behind the rows so far, filled up with nulls |
| `Tables.LevelIff` | common/hstream/cbits/query/tables/AdminCommandTable.cpp:144-145 | on a table without empty columns the row check passes, whatever the iteration order, if and only if the table is rectangular |
| `Tables.PadColumns` | common/hstream/cbits/query/tables/AdminCommandTable.cpp:162-166 | columns the last sources lacked are filled up with nulls |
| `Tables.MergeRect` | common/hstream/cbits/query/tables/AdminCommandTable.cpp:132-160 | the merge is rectangular with the summed row count |
| `Tables.MergeRows` | common/hstream/cbits/query/tables/AdminCommandTable.cpp:137-168 | each source's rows appear as one contiguous block, in order |
| `NodeSelection.FilterMerge` | common/hstream/cbits/query/tables/AdminCommandTable.cpp:128-169 | for any rectangular tables, filtering the rows of the merge gives the filtered rows of each table, end to end |
| `NodeSelection.MatchNode` | common/hstream/cbits/query/tables/AdminCommandTable.cpp:507-518 | a node is skipped exactly when a constraint rejects it; the used constraints do not depend on the node; the pass throws exactly when an expression is no integer |
| `NodeSelection.KeepNodes` | common/hstream/cbits/query/tables/AdminCommandTable.cpp:504-524 | the loop over the nodes throws exactly when there is a node and an expression is no integer, and otherwise keeps the nodes no constraint rejects, in order |
| `NodeSelection.RecordUsed` | common/hstream/cbits/query/tables/AdminCommandTable.cpp:526-530 | the recorded key holds exactly the used constraints, in any order, and is empty when none was used |
| `NodeSelection.SelectNodes` | common/hstream/cbits/query/tables/AdminCommandTable.cpp:496-533 | throws exactly when there is a node, filtering is allowed and some `node_id` expression is no integer; otherwise records exactly the constraints with an expression and a comparison operator, and returns the nodes satisfying them in order |
| `Pushdown.SkippedNodeHasNoAnswer` | common/hstream/cbits/query/tables/AdminCommandTable.cpp:94-126 | a node with an id below 2^31 (or without rows) that a used constraint rejects has no row the query keeps |
| `Pushdown.PushdownPreserves` | common/hstream/cbits/query/tables/AdminCommandTable.cpp:496-533 | when every node with rows has an id below 2^31, merging only the selected nodes and filtering equals merging all nodes and filtering: same rows, same order |
| `Pushdown.PushdownSoundIff` | common/hstream/cbits/query/tables/AdminCommandTable.cpp:511-512 | pushdown is sound for all queries if and only if every node with rows has an id below 2^31 |
| `Pushdown.LostRows` | common/hstream/cbits/query/tables/AdminCommandTable.h:77-87 | with a larger id, selecting for `node_id >= 0` loses rows |
| `Pushdown.MatchIsExact` | common/hstream/cbits/query/tables/AdminCommandTable.cpp:94-126 | a usable constraint lets through every node whose rows pass it and, for range constraints, no other; for equality, the nodes whose id is the number |
| `Pushdown.RangesHold` | common/hstream/cbits/query/tables/AdminCommandTable.cpp:102-123 | the comparisons with a node id are less, at most, greater, at least and equal text |
| `Pushdown.ContactedNodeAnswers` | common/hstream/cbits/query/tables/AdminCommandTable.cpp:505-523 | every row of a contacted node passes the range constraints of the key, and its id is the number of every equality in it |
| `Indexing.BuildIndex` | common/hstream/cbits/query/tables/AdminCommandTable.cpp:196-226 | the index maps each value of the column to its row positions and has no key for null |
| `Indexing.PositionsExact` | common/hstream/cbits/query/tables/AdminCommandTable.h:113-118 | the positions of a value are exactly the rows holding it, ascending |
| `Indexing.Gather` | common/hstream/cbits/query/tables/AdminCommandTable.cpp:76-84 | the result has every column, with the cells at the index's positions |
| `Indexing.IndexPreserves` | common/hstream/cbits/query/tables/AdminCommandTable.cpp:69-84 | filtering the rows an equality index yields equals filtering all rows |
| `Indexing.FirstEq` | common/hstream/cbits/query/tables/AdminCommandTable.cpp:233-240 | finds the first equality constraint of the column, and none exactly when there is none |
| `AdminCache.AnswerFilters` | common/hstream/cbits/query/tables/AdminCommandTable.cpp:41-84 | serving an entry with or without an index, hit or miss, loses no row the query keeps |
| `AdminCache.FetchedOk` | common/hstream/cbits/query/tables/AdminCommandTable.cpp:585-653 | a fetched entry holds exactly the rows of the nodes satisfying its key, with no index yet |
| `AdminCache.NextInv` | common/hstream/cbits/query/tables/AdminCommandTable.cpp:33-85 | every step keeps every entry faithful to its key and every index exact |
| `AdminCache.EntryPresent` | common/hstream/cbits/query/tables/AdminCommandTable.cpp:36-39 | after a refill the entry for the final used constraints is present, fetched from this cluster unless it was cached |
| `AdminCache.GetDataAnswers` | common/hstream/cbits/query/tables/AdminCommandTable.cpp:33-85 | when every node with rows has an id below 2^31, one call's answer filters to the scan of all nodes of the cluster its entry was fetched from |
| `AdminCache.NextFetchInv` | common/hstream/cbits/query/tables/AdminCommandTable.cpp:548-583 | the fetch counter grows by at most one per step, and once filtering is given up only the unfiltered entry can still be fetched, once |
| `AdminTable.RunAnswers` | common/hstream/cbits/query/tables/AdminCommandTable.cpp:33-85 | in every run over clusters whose ids are below 2^31 where there are rows, every answer filters to the scan of a cluster the table has looked at |
| `AdminTable.FixedClusterAnswers` | common/hstream/cbits/query/tables/AdminCommandTable.cpp:535-656 | with fixed node tables and ids below 2^31 where there are rows, every answer of every run filters to the scan of all nodes, whichever of cache, index, pushdown or full fetch produced it |
| `AdminTable.FetchBound` | common/hstream/cbits/query/tables/AdminCommandTable.cpp:87-92 | between two `newQuery` calls at most MAX_FETCHES + 2, that is seven, calls contact the cluster |
| `AdminTable.FetchesAreCounted` | common/hstream/cbits/query/tables/AdminCommandTable.cpp:548-655 | within one query the fetch counter grows by exactly the number of calls whose node selection succeeds with a key that is not cached |
| `AdminTable.FetchBoundAttained` | common/hstream/cbits/query/tables/AdminCommandTable.h:146-158 | a run in which MAX_FETCHES + 2 calls of one query contact the cluster exists |
| `CacheAge.EntryIsFetched` | common/hstream/cbits/query/tables/AdminCommandTable.cpp:651-655 | in every run a cached entry was fetched by an earlier call that contacted the cluster, carries the time of that call, and has been cached, unchanged but for indexes, ever since |
| `CacheAge.EvictedIff` | common/hstream/cbits/query/tables/AdminCommandTable.cpp:171-184 | in every run an entry survives a new query, unchanged, if and only if the time of the call that fetched it is valid under the TTL in force |
| `CacheAge.NothingAppears` | common/hstream/cbits/query/tables/AdminCommandTable.cpp:171-184 | a new query adds nothing to the cache |
| `CacheAge.TtlIsLastSet` | common/hstream/cbits/query/tables/AdminCommandTable.cpp:186-188 | the TTL in force is the one set last, zero before any |
| `CacheAge.ServedDataIsFresh` | common/hstream/cbits/query/tables/AdminCommandTable.cpp:33-39 | in every run an answer comes from data fetched since the last new query, or valid then under the TTL in force |
| `CacheAge.CallKeepsEntries` | common/hstream/cbits/query/tables/AdminCommandTable.cpp:548-655 | a call keeps every cached entry and adds at most the one it asks for, fetched then and there |
| `CacheAge.IndexIsUsed` | common/hstream/cbits/query/tables/AdminCommandTable.cpp:41-84 | a query whose equalities compare known columns with values is answered through an index: every row of the answer has the value in that column, and the index is in the entry afterwards |
| `CacheAge.IndexesStay` | common/hstream/cbits/query/tables/AdminCommandTable.cpp:57-62 | a call keeps every index that was built |
| `AdminTable.AdminCommandTable.NewQuery` | common/hstream/cbits/query/tables/AdminCommandTable.cpp:171-184 | keeps an entry, unchanged, exactly when its creation time is valid under the TTL, resets the fetch counter and changes nothing else |
| `AdminTable.AdminCommandTable.Evict` | common/hstream/cbits/query/tables/AdminCommandTable.cpp:174-181 | the eviction loop keeps exactly the valid entries |
| `AdminTable.AdminCommandTable.SetCacheTtl` | common/hstream/cbits/query/tables/AdminCommandTable.cpp:186-188 | stores the TTL and leaves cache, counter and flag alone |
| `AdminTable.AdminCommandTable.EnableServerSideFiltering` | common/hstream/cbits/query/tables/AdminCommandTable.h:70-72 | stores the flag and leaves cache, counter and TTL alone |
| `AdminTable.AdminCommandTable.AddNodeIds` | common/hstream/cbits/query/tables/AdminCommandTable.cpp:616-622 | every answer with columns gets its node's id in every row |
| `AdminTable.AdminCommandTable.RefillCache` | common/hstream/cbits/query/tables/AdminCommandTable.cpp:535-656 | reuses a cached entry or fetches and stores one, counting the fetch; throws without changing anything |
| `AdminTable.AdminCommandTable.FindIndexable` | common/hstream/cbits/query/tables/AdminCommandTable.cpp:228-243 | yields a column with an equality constraint, or none exactly when there is none |
| `AdminTable.AdminCommandTable.ServeFrom` | common/hstream/cbits/query/tables/AdminCommandTable.cpp:41-84 | answers from the entry, building the index at most once, and changes nothing else |
| `AdminTable.AdminCommandTable.GetData` | common/hstream/cbits/query/tables/AdminCommandTable.cpp:33-85 | performs one step of the machine; when every node with rows has an id below 2^31, the answer filters to the scan of all nodes of the cluster its entry was fetched from, which is the present one unless the entry was cached |
| `NameNormalizer.NormalizeIsNormalForm` | common/hstream/cbits/query/tables/AdminCommandTable.cpp:251-280 | normalising joins the lower-cased alphanumeric words of a name with single underscores |
| `NameNormalizer.NormalizeIsNormal` | common/hstream/cbits/query/tables/AdminCommandTable.cpp:251-280 | the result has only lower-case letters, digits and single inner underscores, or is "_"; only the empty name becomes empty |
| `NameNormalizer.NormalizeFixes` | common/hstream/cbits/query/tables/AdminCommandTable.cpp:251-280 | a name is unchanged if and only if it is in that shape |
| `NameNormalizer.NormalizeIdempotent` | common/hstream/cbits/query/tables/AdminCommandTable.cpp:251-280 | normalising twice is normalising once |
| `NameNormalizer.LettersAreLowered` | common/hstream/cbits/query/tables/AdminCommandTable.cpp:252-264 | a name of letters and digits keeps its length and digits, and its letters become lower case |
| `NameNormalizer.OthersSeparate` | common/hstream/cbits/query/tables/AdminCommandTable.cpp:252-264 | any other character between two words becomes one underscore |
| `JsonTable.ParseHeaders` | common/hstream/cbits/query/tables/AdminCommandTable.cpp:318-346 | succeeds exactly on an array of strings and lays out which header feeds which known column |
| `JsonTable.ParseRow` | common/hstream/cbits/query/tables/AdminCommandTable.cpp:348-388 | succeeds exactly on a row of the header's width whose known cells are strings or null, and appends each to its column |
| `JsonTable.ParseRows` | common/hstream/cbits/query/tables/AdminCommandTable.cpp:390-402 | succeeds exactly when every row is well-formed, and then every known column holds its cells row by row |
| `JsonTable.ParseTable` | common/hstream/cbits/query/tables/AdminCommandTable.cpp:390-444 | succeeds exactly on well-formed tables; every known column holds the cells under its headers, row by row |
| `JsonTable.ParsesIff` | common/hstream/cbits/query/tables/AdminCommandTable.cpp:318-402 | the parser succeeds if and only if the headers are an array of strings and the rows an array of arrays of the same length with strings or nulls under every header whose normal form is a known column |
| `JsonTable.HeaderFeeds` | common/hstream/cbits/query/tables/AdminCommandTable.cpp:325-343 | a header feeds the known column that is its normal form, and no other |
| `JsonTable.ColumnUnderItsHeader` | common/hstream/cbits/query/tables/AdminCommandTable.cpp:348-388 | a column with one header has one value per row, the cell under that header |
| `JsonTable.CellsUnderHeader` | common/hstream/cbits/query/tables/AdminCommandTable.cpp:367-378 | in a column with one header a null stays null and a string is preprocessed for the type of its column |
| `JsonTable.DistinctHeadersRectangular` | common/hstream/cbits/query/tables/AdminCommandTable.cpp:318-402 | with distinct known headers the parsed table is rectangular |
| `JsonTable.RectangularIff` | common/hstream/cbits/query/tables/AdminCommandTable.cpp:318-402 | a parsed table is rectangular if and only if it has no rows or its known columns are fed by equally many headers |
| `NodeAnswers.ParsedClusterValidIff` | common/hstream/cbits/query/tables/AdminCommandTable.cpp:132-160 | all the nodes' parsed tables are rectangular if and only if in every answer with rows the known columns are fed by equally many headers |
| `NodeAnswers.RowCheckPassesIff` | common/hstream/cbits/query/tables/AdminCommandTable.cpp:139-145 | merging a node's answer, its node id added, passes the row check in every iteration order if that holds of it, and fails it in every iteration order if not |
| `NodeAnswers.RepeatedHeaderFails` | common/hstream/cbits/query/tables/AdminCommandTable.cpp:318-346 | headers a, a, b with one row fail the row check in every iteration order |
| `NodeAnswers.DistinctHeadersValid` | common/hstream/cbits/query/tables/AdminCommandTable.cpp:318-346 | distinct known headers in every answer are enough |
| `ParallelParse.Spawn` | common/hstream/cbits/query/tables/AdminCommandTable.cpp:478-487 | at most 32 non-empty chunks lie end to end over all answers |
| `ParallelParse.OwnerExists` | common/hstream/cbits/query/tables/AdminCommandTable.cpp:463-487 | every answer belongs to exactly one thread |
| `ParallelParse.InterleavingIsSequential` | common/hstream/cbits/query/tables/AdminCommandTable.cpp:459-494 | every interleaving of the threads leaves failed answers alone with an empty table, gives every parsable answer its table, and marks every other one as failed for its reason |
| `StatsCore.AggregateCompoundStats` | common/stats/cbits/stats/Stats.cpp:254-268 | aggregating one map into another combines the counters of every key, new keys starting from zero, in any order |
| `StatsCore.AggregatedContribution` | common/stats/cbits/stats/Stats.cpp:9-26 | a map's contribution to later aggregates combines like its counters |
| `StatsCore.ContributionOf` | common/stats/cbits/stats/Stats.cpp:9-22 | a contribution is the counter itself, except that a negative MAX counter counts as zero |
| `StatsCore.AddedContribution` | common/stats/cbits/stats/Stats.h:467-486 | adding leaves every other counter alone, raises a SUM counter by the amount added and never lowers a counter when the amount is not negative |
| `Tally.AggregateHolder` | common/stats/cbits/stats/Stats.cpp:337-351 | an undisturbed aggregate has exactly the keys of the maps; a SUM counter is the sum of their counters, a MAX counter the largest of them, or zero if none is positive |
| `Tally.FoldMove` | common/stats/cbits/stats/Stats.h:441-445 | moving a thread's contribution to the dead threads' map changes no aggregate |
| `Tally.FoldIsCombined` | common/stats/cbits/stats/Stats.cpp:9-22 | combining contributions is adding them up for SUM, and taking the largest, or zero, for MAX |
| `StatsLaws.RunSafe` | common/stats/cbits/stats/Stats.h:408-446 | in strict mode, over every interleaving, a set owner pointer means a live holder and freed memory is never touched |
| `StatsLaws.RaceOnDestruction` | common/stats/cbits/stats/Stats.h:413-419 | without strict mode an exiting thread can fold into a destroyed holder |
| `StatsLaws.SafeIffStrict` | common/stats/cbits/stats/Stats.h:399-431 | freed memory is never touched in any run if and only if the mode is strict |
| `StatsTotals.ThreadChangeKeepsTotal` | common/stats/cbits/stats/Stats.h:426-455 | in strict mode a thread start or exit changes no SUM or MAX aggregate: each thread is counted once, live or dead |
| `StatsTotals.ExitEndContribs` | common/stats/cbits/stats/Stats.h:441-445 | an exit moves exactly the thread's contribution to the dead threads' map |
| `StatsTotals.RunTotal` | common/stats/cbits/stats/Stats.h:441-486 | in strict mode, over every interleaving that does not set or clear it, a SUM counter of a live holder grows by exactly what was added to it |
| `StatsTotals.ClearedTotal` | common/stats/cbits/stats/Stats.h:786-805 | when an erase or reset pass is through, a SUM counter it clears holds exactly what was added behind it while it ran, if nobody sets the counter meanwhile |
| `StatsTotals.ClearRun` | common/stats/cbits/stats/Stats.cpp:369-375 | throughout such a pass the visited maps hold, of a cleared SUM counter, only what was added after their visit |
| `StatsAggregate.AggregateBounds` | common/stats/cbits/stats/Stats.cpp:337-351 | each counter an aggregate returns lies between the true value when it began and when it ended, for any interleaving in which threads count on it only by adding non-negative amounts |
| `StatsAggregate.CopyBounded` | common/stats/cbits/stats/Stats.h:289-300 | taking over the entries of one map, without the counters of keys it lacks, keeps the aggregate in progress within those bounds |
| `StatsAggregate.AggregateExact` | common/stats/cbits/stats/Stats.cpp:337-351 | an aggregate during which nobody counts on a counter returns its true value |
| `StatsMax.TotalIsCombined` | common/stats/cbits/stats/Stats.cpp:337-351 | the true value of a counter is the sum of the counters of the dead threads and the threads not yet folded in, or for MAX the largest of them, or zero |
| `StatsMax.PassIsCombined` | common/stats/cbits/stats/Stats.cpp:337-351 | a pass during which nobody counts on a counter returns that sum or maximum, of the counters when it began |
| `StatsProgress.CountingNeverWaits` | common/stats/cbits/stats/Stats.h:467-507 | a listed thread can add and set whoever holds the mutex, and its counter then holds the result |
| `StatsProgress.FreeLockIsTaken` | common/stats/cbits/stats/Stats.h:397-455 | with the mutex free and the holder alive, threads can start and exit and every pass can begin |
| `StatsProgress.AggregateCompletes` | common/stats/cbits/stats/Stats.cpp:337-351 | from every such state an aggregate pass can be taken, undisturbed, to its end |
| `StatsProgress.LockIsReleased` | common/stats/cbits/stats/Stats.h:397-455 | in strict mode, from every reachable state, the mutex can be released |
| `StatsAggregate.SumSinceStart` | common/stats/cbits/stats/Stats.cpp:254-268 | an aggregate during which nobody counts on a SUM counter that was never set or cleared returns the sum of everything ever added to it, over any thread starts and exits |
| `StatsAggregate.TotalSinceClear` | common/stats/cbits/stats/Stats.h:786-805 | after an erase or reset, and if it is not set or cleared again, a SUM counter is what was added behind that pass and after it |
| `StatsAggregate.SumSinceClear` | common/stats/cbits/stats/Stats.h:786-805 | an aggregate then taken while nobody counts on the counter returns exactly that |
| `StatsAggregate.RaceOnAggregate` | common/stats/cbits/stats/Stats.h:420-424 | without strict mode an aggregate can miss a thread that is neither listed nor folded |
| `TimeSeries.TimeSeriesGet` | common/stats/cbits/stats/Stats.h:561-634 | succeeds exactly when some map has the key's series, and adds each such map's rates to the buffer |
| `TimeSeries.TimeSeriesGetAll` | common/stats/cbits/stats/Stats.h:636-714 | has exactly the keys with a series, each with its rates added up from zero |
| `TimeSeries.RatesAddUp` | common/stats/cbits/stats/Stats.h:561-634 | value i of the result is value i of the buffer with the rates of the maps that have the series added one by one in visiting order, for any addition |
| `TimeSeries.SingleIsSum` | common/stats/cbits/stats/Stats.h:561-634 | with integers it is the buffer value plus the sum of those rates |
| `TimeSeries.AllAreSums` | common/stats/cbits/stats/Stats.h:636-714 | with integers every value of get-all is that sum |
| `TimeSeries.SingleMatchesAll` | common/stats/cbits/stats/Stats.h:561-714 | with a zeroed buffer the single-key query succeeds exactly when get-all has the key, with the same values, for any addition |
| `SchemaSharing.TypeTable.AppendHsDatas` | script/kafka_gen.py:311-333 | the loop with its mutated field list computes the declarative append |
| `SchemaSharing.AppendSound` | script/kafka_gen.py:311-333 | unless a name and version is redeclared with another type, appending keeps every alias one hop from an own type of the same name, keeps what all names stand for, and the new name stands for what was declared |
| `SchemaSharing.AppendUniqueIff` | script/kafka_gen.py:316-333 | no name and version is emitted twice if and only if it is not redeclared with another type, or only its flexibility differs and nothing before it can be reused |
| `SchemaSharing.ResolvedAt` | script/kafka_gen.py:319-331 | every entry resolves in at most one hop to an own type of its name |
| `SchemaTrees.ExpandInjective` | script/kafka_gen.py:552-559 | field lists whose references expand to equal types are equal |
| `SchemaTrees.SharingIsMaximal` | script/kafka_gen.py:311-333 | two versions share a definition if and only if their types written out in full are equal |
| `SchemaParse.ParseFieldInto` | script/kafka_gen.py:441-577 | the recursive parser with its mutable tables computes the declarative parse, failures included |
| `SchemaParse.ParseFieldsInto` | script/kafka_gen.py:533-541 | sub-fields are parsed in order and those absent in the version are dropped |
| `SchemaParse.ParseMessageInto` | script/kafka_gen.py:632-644 | the version loop, empty ranges and failures included, computes the declarative parse of a message |
| `SchemaParse.ParseFieldSound` | script/kafka_gen.py:441-577 | for consistently declared structs, parsing fails exactly when the unshared reading fails, and otherwise expanding the shared names gives back the unshared type |
| `SchemaParse.AppendDeclared` | script/kafka_gen.py:542-550 | appending a parsed struct keeps every entry's expansion equal to its declared type |
| `SchemaParse.GeneratorSound` | script/kafka_gen.py:580-644 | for messages with distinct names and consistently declared structs that parse, every version expands to its unshared type, a name and version is generated if and only if it is a version of a message, and nothing is emitted twice |
| `SchemaParse.BareReferenceResolvesIff` | script/kafka_gen.py:527-550 | an array of structs without sub-fields is accepted and declares nothing; the converter it calls exists if and only if the struct already has an entry for the version |
| `SchemaVersions.FieldInVersionIff` | script/kafka_gen.py:368-373 | the record of a generated version has a field if and only if the version is at least the minimum and at most the maximum, if any, of its versions, and not so of its tagged versions |
| `SchemaVersions.TaggedFieldsIff` | script/kafka_gen.py:271-280 | the record ends in the tagged fields if and only if the version is within the flexible versions of its message, and has them nowhere else |
| `SchemaVersions.FieldTypeInVersion` | script/kafka_gen.py:49-82 | a field of a generated version is compact exactly in flexible versions and nullable exactly in its nullable ones |
| `SchemaVersions.FieldInfoInVersion` | script/kafka_gen.py:441-577 | a record field carries the schema field's type, documentation and default, null for a nullable string without one |
| `SchemaVersions.RejectedIff` | script/kafka_gen.py:461-495 | a field is rejected if and only if it has no versions, is tagged where it is absent, has tagged versions in an inflexible version, or has no known type |
| `SchemaVersions.KnownTypes` | script/kafka_gen.py:50-82 | the known types, records only where nullable and not flexible |
| `SchemaVersions.RecordName` | script/kafka_gen.py:340-343 | a record field is called what the schema field is, with a small first letter, and records are called record bytes |
| `SchemaVersions.KaTypeIs` | script/kafka_gen.py:505-523 | arrays are arrays, 16-bit error codes and API keys are told by their names, other fields have the type the schema gives |
| `SchemaConverters.CollectTotalFields` | script/kafka_gen.py:718-742 | the total type's fields are collected over all own versions |
| `SchemaConverters.TotalFieldIsFirst` | script/kafka_gen.py:732-742 | each total field is that of the first version having the name |
| `SchemaConverters.TotalFieldsInOrder` | script/kafka_gen.py:732-742 | the total type lists its fields in the order in which the versions introduce them |
| `SchemaConverters.ConvertersAreEmitted` | script/kafka_gen.py:661-673 | every converter a converter calls is emitted, and converts the type the field refers to |
| `SchemaConverters.RoundTrip` | script/kafka_gen.py:676-709 | converting a value of a version to the total type and back is the identity, at any nesting depth and for aliased versions |
| `SchemaConverters.PresentFieldsAreConverted` | script/kafka_gen.py:661-709 | converting to the total type copies scalars and arrays of scalars and converts arrays of structs element by element with the converter of the struct |
| `SchemaConverters.TotalFieldsAreConverted` | script/kafka_gen.py:661-690 | converting back takes every field of the version from the total field of its name in the same way |
| `SchemaConverters.MissingTaggedFields` | script/kafka_gen.py:706-707 | an inflexible version gets empty tagged fields in a total type that has them |
| `SchemaConverters.AbsentFieldsGetDefaults` | script/kafka_gen.py:692-709 | a field the version lacks gets the text default of the first version that has it, which is the default the schema means, at the field's total type, if and only if the default survives |
| `SchemaDefaults.IntDefaultMeaning` | script/kafka_gen.py:89-93 | the text emitted for an integer default denotes the schema's integer, decimal, negative or hexadecimal, also where the generator does not take the type for an integer type |
| `SchemaDefaults.IntText` | script/kafka_gen.py:89-98 | on an integer type the text is the default in parentheses if negative, in decimal digits if hexadecimal, and as it stands otherwise |
| `SchemaDefaults.HexReadsBack` | script/kafka_gen.py:90-91 | hexadecimal digits are read as the number they were printed from |
| `SchemaDefaults.Widths` | script/kafka_gen.py:50-65 | the integer types hold 8, 16, 32 and 64 bits |
| `SchemaDefaults.IsNegativeIff` | script/kafka_gen.py:92-93 | the test that puts a default in parentheses holds exactly of the negative integers |
| `SchemaDefaults.DefaultHoldsIff` | script/kafka_gen.py:85-112 | for every field type and every default that means something there, the emitted text denotes that meaning if and only if the default survives; it denotes nothing if and only if the default neither survives nor is misread |
| `GeneratedDefaults.TotalFieldOf` | script/kafka_gen.py:732-742 | in every generated message the total field of a schema field is what the field becomes in the first version that has it |
| `GeneratedDefaults.MessagesAscend` | script/kafka_gen.py:632-644 | the versions of every message stand in the table in ascending order |
| `GeneratedDefaults.GeneratedDefault` | script/kafka_gen.py:692-709 | for every message, version, value and schema field that the version lacks and another generated version has, the total value holds the default the schema means if and only if it survives, and no value if and only if it neither survives nor is misread |
| `GeneratedDefaults.GeneratedStructDefault` | script/kafka_gen.py:692-709 | for structs at any depth: a total field is what a sub-field that some message declares for the struct becomes in a generated version, and a version that lacks it gets the default the schema means by that sub-field if and only if it survives, and no value if and only if it neither survives nor is misread |
| `GeneratedDefaults.DefaultIsLost` | hstream-kafka/message/FetchRequest.json:111 | with versions 10 and 11 generated, the rack id of a version 10 request has no value, although its schema default is the empty string |
| `SchemaConverters.GeneratedRoundTrip` | script/kafka_gen.py:712-786 | for such messages every value of every generated version survives the trip through the total type |
| `SegmentSweep.SegmentIsTouchedPages` | common/base/cbits/fatalsignal.cpp:62-64 | the recorded segment of a non-empty entry holds exactly the pages it touches if and only if rounding up its end does not wrap |
| `SegmentSweep.SegmentExactIff` | common/base/cbits/fatalsignal.cpp:62-64 | for every entry, the segment holds exactly the touched pages if and only if the entry is non-empty and its rounded end does not wrap, or it is empty and starts on a page boundary or wraps |
| `SegmentSweep.SegmentMap.UnmapCallback` | common/base/cbits/fatalsignal.cpp:58-66 | records the aligned segment, its end possibly wrapped, while there is room |
| `SegmentSweep.MergeSorted` | common/base/cbits/fatalsignal.cpp:153-170 | for sorted segments, wrapped ends included: the calls ascend with gaps between them and cover exactly the segments' pages, a call with a wrapped end is for one segment alone, a segment with a wrapped end is called for or starts in or right behind an interval, and the counters are the number of calls and of their pages |
| `SegmentSweep.SegmentMap.Sweep` | common/base/cbits/fatalsignal.cpp:148-170 | the same for segments in any order; the page counter is the number of distinct pages covered plus the lengths of calls with a wrapped end |
| `SegmentSweep.SegmentMap.UnmapAll` | common/base/cbits/fatalsignal.cpp:128-170 | for any entries: the calls cover exactly the pages the recorded entries touch plus the page of each empty entry off a page boundary, and for entries whose end wraps what their wrapped segments hold; if none wraps, no call does and the pages are counted exactly |
| `SegmentSweep.ClaimedIsTouchedIff` | common/base/cbits/fatalsignal.cpp:58-66 | exactly the touched pages are covered if and only if no entry with a charge wraps and every empty entry off a page boundary that does not wrap lies in a page that some entry touches |
| `SegmentSweep.PageCountIsExact` | common/base/cbits/fatalsignal.cpp:157-160 | the summed lengths of separate calls are the number of distinct pages they cover plus the lengths of the wrapped ones |
| `SegmentSweep.SweepIsDetermined` | common/base/cbits/fatalsignal.cpp:148-170 | non-empty separate intervals are determined by the pages they cover, so the order the sort leaves ties in does not show |
| `Decimal.PrintUnsigned` | common/base/cbits/fatalsignal.cpp:72-90 | prints the decimal digits of any size_t, within the buffer |
| `Decimal.ValueOfDigits` | common/base/cbits/fatalsignal.cpp:79-88 | the printed digits read back as the number |
| `KafkaSession.WriteBE` | hstream-kafka/cbits/hs_kafka_server.cpp:21-26 | fills the buffer with the encoding of the value |
| `KafkaSession.BigEndian` | hstream-kafka/cbits/hs_kafka_server.cpp:21-30 | the first byte carries the highest bits |
| `KafkaSession.ReadWrite` | hstream-kafka/cbits/hs_kafka_server.cpp:21-30 | reading what was written gives every int32 back |
| `KafkaSession.WriteRead` | hstream-kafka/cbits/hs_kafka_server.cpp:21-30 | writing what was read gives every four bytes back |
| `KafkaSession.FrameReadsBackIff` | hstream-kafka/cbits/hs_kafka_server.cpp:191-194 | a framed message is read back if and only if its size is below 2^31 |
| `KafkaSession.StreamReadsBack` | hstream-kafka/cbits/hs_kafka_server.cpp:160-174 | a stream of framed messages is read back message by message |
| `KafkaSession.HandleSession` | hstream-kafka/cbits/hs_kafka_server.cpp:154-212 | serves the complete requests in order until an answer has no data, the socket is closed, or no complete request is left; what that means for the bytes is stated by the rows below |
| `KafkaSession.SplitInput` | hstream-kafka/cbits/hs_kafka_server.cpp:160-174 | every input is a number of complete frames followed by fewer than four bytes, a negative length, or fewer bytes than the length announces |
| `KafkaSession.ReadIsFrame` | hstream-kafka/cbits/hs_kafka_server.cpp:169-174 | only a complete frame with a message below 2^31 bytes is read as a request, and it is that message |
| `KafkaSession.AllAnswered` | hstream-kafka/cbits/hs_kafka_server.cpp:154-212 | for such an input, if every message is answered with data, the output is those answers framed in order and nothing for the rest, and the session ends quietly when fewer than four bytes are left, with an exception otherwise |
| `KafkaSession.StoppedAt` | hstream-kafka/cbits/hs_kafka_server.cpp:183-206 | if an answer has no data or the socket is closed, the answers before it are the whole output and the session ends there |
| `KafkaSession.ClientReadsAnswers` | hstream-kafka/cbits/hs_kafka_server.cpp:154-212 | when every request and answer is below 2^31 bytes and every answer has data, a client that frames its requests reads back exactly one answer per request, in order |

## Left out

- gRPC, asio sockets, folly futures and the LogDevice client: foreign code; sending requests is "one answer per node, in order".
- The LogDevice FFI wrappers, consistent hashing, histograms and time-series buckets: thin calls over, or parts of, libraries that are not part of this model.
- JSON lexing and the search for the headers and rows sections (AdminCommandTable.cpp:404-438): the parser starts from the two sections.
- `preprocessColumn` and `entry_with_ttl`: a function of a cell and a predicate on creation time, time and TTL.
- Logging, timing and the per-query metadata of contacted and failed nodes.
- SUBTRACT and ASSIGN as aggregation modes, the six separate families of per-key stats that are aggregated (one is modelled, for any list of stats) and reading a single aggregated counter.
- 64-bit wrap-around of stat counters: the SUM laws are about mathematical integers.
- The number of maps an erase reports having changed.
- Haskell text, documentation wrapping and file writing of the schema generator, version range syntax, API version tables, services and header versions.
- `kaArrayToCompact`, and whether a field present in a version has the same compact or nullable wrapper there and in the total type: wrappers are the identity on values that are copied.
- A message and a struct that share a name: the model keeps one rename table per list where the source has one for both.
- Sub-fields of a field that is not an array: such a field is a scalar of unknown type, on which the generator raises in the versions that have it.
- ExplicitText: takes an integer default with surrounding blanks, a plus sign, underscores or non-ASCII digits for one that Python's `int` rejects; the schema meaning of such a default is left open.
- Denotes: reads literals only; a text default that is some other Haskell expression in scope, or a string literal with escapes, counts as no expression. Decimal defaults with an exponent and defaults that are JSON numbers are not modelled.
- MergeSorted: the page counter is a mathematical integer; as a size_t it could wrap only after thousands of calls whose own end has wrapped.
- Signal delivery, mmap and stack traces around the segment sweep.
- The round-robin pool of I/O contexts, the connection listener and the store health check: a counter that starts over at the pool size, a loop that starts one session per connection, and a count of nodes reported unhealthy that is compared with a limit.
- Stream processing, SQL, gossip, the Kafka group logic and the rest of the Haskell engine.
