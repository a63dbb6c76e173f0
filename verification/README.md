# A verified model of the sharding proxy

The proxy speaks the MySQL protocol to clients, splits one logical table over many physical ones, and sends every
statement to the tables that matter. This project models the parts where that can go wrong: planning, merging,
the runtime pieces under it, the wire format, and the shard functions. Each part is one Dafny module per component,
and `dafny verify dfyconfig.toml` checks them all.

## What is modelled

- **Routing and rewriting** (`Rules`, `Routing`, `Semantics`, `Plans`, `RangeRoutes`). A WHERE tree is an `Expr`;
  conditions on other columns are opaque three-valued atoms. `Handle` is the planner's walk: it narrows the route at
  comparisons, IN and BETWEEN on the sharding column, merges at AND and OR, and splits IN lists by table. `Restore` is
  the text sent to one table. The main result, `ShardedSelectIsSelect`, says that the rewritten statements on the
  routed tables return exactly the rows the original selects from the whole logical table.
- **Writes** (`Dml`, `SingleTable`, `UniqueKeys`). INSERT, UPDATE and DELETE plans run against a store of physical
  tables; REPLACE, IGNORE, ON DUPLICATE KEY UPDATE and UPDATE meet stored rows through the backend's collision
  relation, and a table may refuse them. Every run keeps every row in the table its key maps to. Where collisions stay
  within a table, no two stored rows collide after any run, and the proxy follows one table through a run exactly when
  no UPDATE of the run is refused by some tables and carried out by others (`RunRefinesIff`); where they do not, it
  does not (`RefinesIffLocal`).
- **Result merging** (`OrderLimit`, `GroupMerge`, `HelperColumns`). LIMIT pushdown under any order of the backends,
  grouped aggregates, and the in-place removal of helper columns.
- **Whole queries** (`QueryAnswers`, `GroupedQueries`). The planned statements, run in any order on the store that
  such a run of writes left, sorted and cut by the backends and merged by the proxy, give an answer that one server
  holding the one table may give (`QueryAfterRun`); grouped by the backends and merged, they give its groups
  (`GroupedQueryAfterRun`).
- **Runtime** (`ResourcePool`, `TimeWheel`, `Balancer`, `Sequence`). The connection pool is a state machine whose
  steps are the single channel and counter operations of any number of goroutines; the time wheel refines a map of
  deadlines; the balancer and the sequence allocator are small classes with laws over whole runs.
- **Wire format** (`Packets`, `Decimal`, `Encoding`, `BinaryRows`). Packet splitting, length-encoded values, text and
  binary rows of the MySQL Client/Server Protocol ("MySQL Packets", "Length-Encoded Integer", "Binary Protocol
  Resultset").
- **Shard functions and prepared statements** (`ShardTables`, `SegmentTable`, `Ring`, `Splice`, `SpliceMeaning`).
- `Lists`, `Options` and `Arithmetic` hold what several modules share.

Code that updates fields or loops is modelled by classes and methods, proved against specification functions; pure
code is functions and lemmas.

## What did not hold

Sixteen promises turned out false of the code. For each a lemma gives a concrete case, and another the exact condition
under which it holds.

- A list left empty by an OR is not harmless: table 0 of `id = 0 OR id IN (1)` is sent `IN ()` (`EmptyInListExample`);
  the statement is accepted exactly when every IN list reaches the table (`RestoredWritableIff`).
- NOT BETWEEN with bounds reversed across tables leaves tables out: `NOT BETWEEN 25 AND 5` over three tables of ten
  keys (`ReversedBoundsExample`, `NotBetweenSoundIff`).
- A `mod` rule covers every key only if the table count divides 2^63, because the least 64-bit integer has no absolute
  value: with three tables it gets index -2 (`ModLeastKey`, `ModRuleValidIff`).
- A `range` rule is in order only for a positive row limit whose last bound does not overflow; two tables of 2^62 rows
  leave the second without keys (`LastRangeWraps`, `RangeRuleValidIff`).
- An INSERT whose keys are expressions is not narrowed at all, so it may land anywhere (`ComputedKeyExample`,
  `InsertLandsRightIff`).
- Unique keys are not enforced across tables: two REPLACEs with one name leave two rows where one table has one
  (`ParityReplaceDiverges`). The proxy refines one table over all runs without a partly refused UPDATE exactly when
  colliding rows share a table (`RefinesIffLocal`), as they do for a unique key that has the sharding column among its
  columns (`KeyedUniqueIsLocal`).
- An UPDATE of a unique column is not all or nothing: one table refuses `SET name = 7`, another carries it out, and
  one server would refuse it (`PartialUpdateDiverges`). It does what it does to one table exactly when no table
  refuses it or those that accept it are not changed by it (`UpdateRefinesIff`).
- ORDER BY with LIMIT follows the bytes, not the backends' collation: of 'b' and 'C' a server that ignores case
  answers 'b' and the proxy 'C' (`CollationExample`). Pushdown is exact exactly when the proxy's comparison refines
  the backends' order (`PushdownExactIff`).
- GROUP BY over texts can merge groups: NULL and the text 'NULL' end in one row (`NullTextMerged`,
  `MapKeyCollisions`). It cannot exactly when the alphabet does not spell NULL and, beyond one column, has no "+"
  (`UnambiguousIff`).
- GROUP BY over texts can also split groups: 'a' and 'A' under a collation that ignores case (`CaseGroupsExample`).
  There is one row per group, with the group's aggregates, over every store of n shards exactly when n is at most 1 or
  the collation tells apart all keys the columns can hold (`MergeExactIff`).
- An aggregate without GROUP BY needs a routed table: `SELECT COUNT(*) ... WHERE id = 0 AND id = 1` returns no row
  where one server returns 0 (`EmptyRouteExample`). It returns one server's row over every store exactly when the
  route is not empty (`AggregateQueryIff`).
- A query routed to no table panics if a GROUP BY or ORDER BY helper column is left, as in `SELECT id ... ORDER BY
  name` (`HelperLeftExample`); it is answered exactly when every item is a selected column (`EmptyRoute`).
- The pool panics when a drain to zero meets a running sweep (`UnstoppedSweepPanics`), or when two resizes overlap
  (`OverlappingResizePanics`), as they can because `Close` does not hold its lock while it drains the pool. No
  schedule panics exactly when both caller obligations are kept (`SafeIffDisciplined`).
- A call for a statistic slave rewinds the cursor of the ordinary slaves: with queue [0, 1] the calls slave,
  statistic, slave select slave 0 twice (`StatisticCallRewinds`). Every window has the weighted shares exactly when
  the statistic queue has at most one entry (`FairWindowsIff`).
- A negative TypeTiny loses its sign in a binary row: -1 comes back as 255 (`NegativeTinyExample`,
  `BinaryRowRoundTripIff`).
- The placeholder scan honours neither a backslash before a quote, nor quoted names, nor comments
  (`EscapedQuoteMiscounts`, `NameMiscounts`, `CommentRefused`). It sees a reader's quotes exactly when no literal
  escapes its own quote and no quoted name or comment holds one (`CalcAgreesIff`); splicing keeps the meaning for all
  arguments exactly when it finds exactly the placeholders (`SpliceKeepsMeaningIff`).

## Model

| member | source | states |
|---|---|---|
| `Lists.InterList` | proxy/plan/util.go:116-137 | the merge loop returns the function `Inter` of both lists |
| `Lists.InterIsIntersection` | proxy/plan/util.go:116-137 | for increasing lists the result is increasing and holds exactly the common members |
| `Lists.UnionList` | proxy/plan/util.go:140-172 | the merge loop with its appended tail returns `Union` of both lists |
| `Lists.UnionIsUnion` | proxy/plan/util.go:140-172 | for increasing lists the result is increasing and holds exactly the members of either |
| `Lists.MakeList` | proxy/plan/util.go:32-41 | the increasing list of all tables from start up to, not including, end |
| `Rules.ScanFinds` | proxy/router/shard.go:190-198 | the scan over ordered ranges finds an index exactly when that range contains the key |
| `Routing.GetPatternInRouteResult` | proxy/plan/decorator_pattern_in_expr.go:105-149 | a global table is sent the whole list everywhere; otherwise the loop that fills the value map and sorts the indexes computes the split function, and fails on the same lists |
| `Routing.SplitIsPartition` | proxy/plan/decorator_pattern_in_expr.go:105-202 | a table is routed exactly when some literal maps to it, and gets exactly those literals, in list order |
| `Semantics.FindMonotone` | proxy/router/shard.go:190-198 | over ordered ranges a larger key never has a smaller table |
| `Semantics.CompareLeafSound` | proxy/plan/plan_select.go:829-879 | a row satisfying column-operator-value sits in a table of the computed route |
| `Semantics.InverseFlips` | proxy/plan/plan_select.go:881-894 | the flipped operator gives value-operator-column the truth of column-operator-value, NULLs included |
| `Semantics.NotBetweenSoundIff` | proxy/plan/decorator_between_expr.go:129-176 | the NOT BETWEEN route reaches every table with a matching key if and only if the bounds are ordered by table, or reversed by one table whose first key is not the bound |
| `Semantics.HandleShape` | proxy/plan/plan_select.go:620-1003 | every route is increasing and stays within the rule's tables |
| `Semantics.SplitInExact` | proxy/plan/decorator_pattern_in_expr.go:105-202 | on a row of table i the i-th part of a split IN list has the truth of the whole list |
| `Semantics.RouteSound` | proxy/plan/plan_select.go:620-1003 | for every AND, OR, parenthesis, comparison, IN and BETWEEN tree with gap-free NOT BETWEEN bounds, a row on which the condition is true sits in a routed table |
| `Semantics.RestoreExact` | proxy/plan/decorator_pattern_in_expr.go:175-202 | on rows of table i the condition restored for i evaluates as the original |
| `Semantics.ShardedSelectIsSelect` | proxy/plan/plan_select.go:411-425 | over every store with rows placed by key, and gap-free NOT BETWEEN bounds, the restored statements on exactly the routed tables return exactly the rows, with multiplicity, that the original selects from the logical table |
| `Semantics.RestoredWritableIff` | proxy/plan/decorator_pattern_in_expr.go:30-47 | a restored condition has no empty IN list if and only if every IN list on the key has a value of that table |
| `Semantics.ConjunctionsReach` | proxy/plan/decorator_pattern_in_expr.go:30-47 | without OR no routed table is ever sent an empty IN list |
| `Semantics.EmptyInListExample` | proxy/plan/decorator_pattern_in_expr.go:30-47 | a condition with OR whose restored form in a routed table has an empty IN list |
| `Plans.RouteResult.constructor` | proxy/plan/route_result.go:33-39 | a new route has the given tables and its cursor at the start |
| `Plans.RouteResult.Inter` | proxy/plan/route_result.go:54-57 | the tables become the intersection with the other list, and the cursor stays |
| `Plans.RouteResult.Union` | proxy/plan/route_result.go:60-62 | the tables become the union with the other list, and the cursor stays |
| `Plans.RouteResult.Next` | proxy/plan/route_result.go:78-82 | returns the table at the cursor and advances it by one |
| `Plans.RouteResult.Reset` | proxy/plan/route_result.go:90-92 | the cursor is back at the start |
| `Plans.GenerateShardingSQLs` | proxy/plan/plan.go:499-529 | every slice and database holds exactly the statements due to it, no entry is empty, and the cursor is reset |
| `Plans.OneStatementPerTable` | proxy/plan/plan.go:499-529 | a statement is filed under a slice and database if and only if its table is routed, lives there, and the text is the one restored for it; each table has one |
| `RangeRoutes.CompareRouteExact` | proxy/plan/plan_select.go:829-879 | for `<`, `<=` and `>=` a table is routed if and only if it can hold a matching 64-bit key |
| `RangeRoutes.GreaterRouteExactIff` | proxy/plan/plan_select.go:829-879 | for `>` a routed table can hold a matching 64-bit key if and only if it is not the bound's own table with the bound as its last key |
| `RangeRoutes.BetweenRouteExact` | proxy/plan/decorator_between_expr.go:129-176 | for ordered bounds a table is routed if and only if it can hold a 64-bit key between them |
| `RangeRoutes.ReversedBoundsExample` | proxy/plan/decorator_between_expr.go:129-176 | a valid rule of three ranges and an accepted NOT BETWEEN whose route misses a table with matching keys |
| `Dml.ShardingColumnIndex` | proxy/plan/plan_insert.go:172-199 | the last column named like the sharding column, or -1 exactly when none is |
| `Dml.NarrowRoute` | proxy/plan/plan_insert.go:210-255 | the value loop leaves the narrowed route in the plan's result, and fails on the same rows |
| `Dml.NarrowExact` | proxy/plan/plan_insert.go:210-255 | narrowing by literal keys keeps a table if and only if every key maps to it |
| `Dml.InsertSingleTarget` | proxy/plan/plan_insert.go:60-101 | an accepted insert with literal keys has exactly one target table, shared by all its rows |
| `Dml.AssignKeepsKey` | proxy/plan/plan_update.go:164-178 | an accepted assignment list never changes a row's key |
| `Dml.RunPlaced` | proxy/plan/plan_insert.go:210-274 | over every run of inserts with literal keys, updates and deletes, accepted or rejected, whatever rows collide, every stored row stays in the table its key maps to |
| `Dml.InsertLandsRightIff` | proxy/plan/plan_insert.go:210-255 | an accepted insert puts every row where routing looks for it, whatever its expressions compute, if and only if every key is a literal |
| `Dml.ComputedKeyExample` | proxy/plan/plan_insert.go:210-255 | an insert with one computed key over two tables is sent to both, and so lands wrong whatever the key is |
| `SingleTable.UpdateRefinesIff` | proxy/plan/plan_update.go:69-100 | when collisions stay within a table, an accepted UPDATE changes the sub-tables together as it changes one table if and only if no table refuses it or those that accept it are not changed by it |
| `SingleTable.StepRefinesIff` | proxy/plan/plan_update.go:69-100 | then a statement, with REPLACE, IGNORE and ON DUPLICATE meeting stored rows, changes the sub-tables together as it changes one table if and only if it is not an UPDATE refused in part |
| `SingleTable.RunRefinesIff` | proxy/plan/plan.go:172-222 | then after every statement of a run the sub-tables together hold the rows of the one table if and only if no UPDATE of the run is refused in part |
| `SingleTable.RunRefines` | proxy/plan/plan.go:172-222 | then after such a run the sub-tables together hold the rows one table would hold |
| `SingleTable.SelectAfterRun` | proxy/plan/plan_select.go:151-217 | then a SELECT through the proxy after such a run returns the rows the one table would return |
| `UniqueKeys.RefinesIffLocal` | proxy/plan/plan_insert.go:60-101 | the proxy refines one table, over all runs from collision-free stores without an UPDATE refused in part, if and only if rows collide only within a table |
| `UniqueKeys.UniqueAcrossTables` | proxy/plan/plan_insert.go:60-101 | with such collisions, over every run, refused in part or not, no two stored rows of any tables collide |
| `UniqueKeys.KeyedUniqueIsLocal` | proxy/plan/plan_insert.go:210-255 | a unique key with the sharding column among its columns collides within one table only |
| `UniqueKeys.KeepsUniqueColumns` | proxy/plan/plan_update.go:164-178 | assignments to columns outside a unique key change no collision |
| `UniqueKeys.KeptUniform` | proxy/plan/plan_update.go:69-100 | a run whose UPDATEs change no collision has none refused in part |
| `UniqueKeys.PartialUpdateDiverges` | proxy/plan/plan_update.go:69-100 | an UPDATE that one table refuses and the other carries out, where one table would refuse it |
| `UniqueKeys.ParityReplaceDiverges` | proxy/plan/plan_insert.go:210-255 | two REPLACEs that collide on another column leave a row in each of two tables where one table keeps the second row |
| `QueryAnswers.QueryAnswered` | proxy/plan/plan_select.go:151-217 | WHERE, ORDER BY and LIMIT: running every filed statement once in any order, sorting and cutting on the backends, concatenating, sorting and cutting gives an answer one server holding the logical table may give |
| `QueryAnswers.QueryAfterRun` | proxy/plan/plan_select.go:151-217 | the same after any run of writes without an UPDATE refused in part, against the one table that ran them |
| `QueryAnswers.OrderByTotal` | mysql/resultset_sort.go:79-150 | ORDER BY over any columns and directions is a total preorder on stored rows |
| `GroupedQueries.GroupedQueryAnswered` | proxy/plan/merge_result.go:464-508 | WHERE and GROUP BY: running every filed statement once in any order, grouping on the backends and merging gives one row per group of what the condition selects from the logical table, with the group's aggregates, when one statement ran or the collation tells keys apart |
| `GroupedQueries.GroupedQueryAfterRun` | proxy/plan/merge_result.go:464-508 | the same after any run of writes without an UPDATE refused in part, against the one table that ran them |
| `GroupedQueries.ExecuteIn` | proxy/plan/plan_select.go:62-87 | no statement gives no row; otherwise the answers merged into one |
| `GroupedQueries.AggregateQueryIff` | proxy/plan/plan_select.go:62-87 | WHERE with aggregates and no GROUP BY returns one server's row over every store if and only if some table is routed |
| `GroupedQueries.EmptyRouteExample` | proxy/plan/plan_select.go:62-87 | a COUNT under a contradiction over two tables has no row where one server answers 0 |
| `ShardTables.ParseHashRuleSliceInfos` | proxy/router/rule.go:466-482 | accepted exactly for as many locations as slices; for non-negative locations tables are numbered consecutively, and table j is in slice i exactly when i's cumulative bounds contain j |
| `ShardTables.SliceUnique` | proxy/router/rule.go:466-482 | no table lies within the bounds of two slices |
| `ShardTables.HashRuleValid` | proxy/router/shard.go:171-175 | the hash shard sends every 64-bit key, negative ones included, to a table of the rule that has a slice |
| `ShardTables.ModRuleValidIff` | proxy/router/shard.go:181-184 | the mod shard does so for every 64-bit key if and only if the table count divides 2^63 |
| `ShardTables.ModLeastKey` | proxy/router/shard.go:181-184 | with three tables the least 64-bit key gets index -2 |
| `ShardTables.ParseNumSharding` | proxy/router/numkey.go:55-69 | one range of the row limit per table, consecutive from zero, with 64-bit products |
| `ShardTables.ScanIsDivision` | proxy/router/shard.go:190-198 | the scan is the quotient by the row limit inside the configured span and fails outside, except that a span ending at the greatest key also takes that key |
| `ShardTables.RangeRuleValidIff` | proxy/router/numkey.go:46-69 | a parsed range rule is in order and sends every key it accepts to a table that has a slice if and only if the row limit is positive and the last bound does not overflow |
| `ShardTables.LastRangeWraps` | proxy/router/numkey.go:55-69 | two tables of 2^62 rows: the last bound wraps and the second table finds no key |
| `SegmentTable.Init` | proxy/router/shard_mycat.go:77-127 | for any integers: refused exactly when the lists disagree, the counts do not add up to the shard count, or the lengths not to 1024; a panic exactly for a negative count, or a partition with slots outside the table; otherwise slot j has shard i if and only if i is the last whose cumulative bounds contain j |
| `SegmentTable.MaskedSlot` | proxy/router/shard_mycat.go:144-147 | masking the 64-bit two's complement pattern with ten ones is the remainder by 1024, for every key, negative ones included |
| `SegmentTable.LongRuleValid` | proxy/router/shard_mycat.go:144-147 | every key lands in a table of the rule that has a slice, the one its masked slot names |
| `Ring.MurmurHashShard.GenerateBucketMap` | proxy/router/shard_mycat.go:369-385 | the nested loops build the ring in which a later shard overwrites a shared point |
| `Ring.BucketOwner` | proxy/router/shard_mycat.go:369-385 | a point of the ring belongs to the last shard that has it, and a value is no point exactly when no shard has it |
| `Ring.RingMonotone` | proxy/router/shard_mycat.go:320-332 | for any hash function, bucket count and collisions, adding a shard leaves a key where it was or moves it to the new shard |
| `Ring.RingGrowth` | proxy/router/shard_mycat.go:320-332 | any growth moves keys only to added shards |
| `OrderLimit.RowOrder` | mysql/resultset_sort.go:79-150 | rows compare as a total preorder for every list of sort keys and directions, NULL first |
| `OrderLimit.CmpBytesIsDictionary` | mysql/resultset_sort.go:103-150 | texts compare equal exactly when they are equal, and below exactly at the first smaller byte or the shorter of a common prefix |
| `OrderLimit.MergeMultiResultSet` | proxy/plan/merge_result.go:397-410 | the rows of every shard, one shard after the other |
| `OrderLimit.SortRows` | mysql/resultset_sort.go:175-179 | a sorted permutation of the rows |
| `OrderLimit.TopRows` | proxy/plan/decorator_limit.go:25-50 | the first n rows of sorting the shards' rows cut at n are the first n rows of some sort of all rows |
| `OrderLimit.AnswersAgree` | proxy/plan/merge_result.go:358-394 | any two answers of one server differ among ties only |
| `OrderLimit.LimitPushdownExact` | proxy/plan/decorator_limit.go:25-50 | for any number of shards, any total preorder and any ties, cutting each shard at offset + count, sorting and slicing gives exactly the window of some sort of all rows |
| `OrderLimit.PushdownExactIff` | mysql/resultset_sort.go:103-150 | against backends with an order of their own it does so for every store and every outcome of the sorts if and only if the proxy's comparison refines that order |
| `OrderLimit.CollationExample` | mysql/resultset_sort.go:110-118 | names b and C with LIMIT 1 under a collation that ignores case: the proxy answers C, which no such server may |
| `OrderLimit.MergeSelectResult` | proxy/plan/merge_result.go:358-394 | the result is the cut of some sort of the concatenated answers; where the comparison refines the backends' order it is an answer of one server |
| `GroupMerge.MapKeyInjective` | proxy/plan/merge_result.go:653-710 | two key tuples with the same map key are equal, when no text spells NULL and, beyond one column, none holds the separator; every tuple of nullable integers qualifies |
| `GroupMerge.UnambiguousIff` | proxy/plan/merge_result.go:653-710 | no two different tuples of n nullable texts over an alphabet share a map key if and only if n is 0, or the alphabet does not spell NULL and n is 1 or it has no separator |
| `GroupMerge.MapKeyCollisions` | proxy/plan/merge_result.go:653-670 | two text tuples share a map key, and so do NULL and the text NULL |
| `GroupMerge.AggConcat` | proxy/plan/merge_result.go:146-337 | merging the aggregates of two parts gives the aggregate of both together: COUNT of all non-NULL cells, texts included; SUM, MAX and MIN of numbers, NULL only when both have no value |
| `GroupMerge.AggPerm` | proxy/plan/merge_result.go:146-337 | an aggregate does not depend on the order of the rows |
| `GroupMerge.MergeInto` | proxy/plan/merge_result.go:485-493 | the mergers, run in any order, combine exactly the aggregated cells and leave the others |
| `GroupMerge.BuildSelectGroupByResult` | proxy/plan/merge_result.go:464-508 | a map key has a row if and only if some row is filed under it, and it is the merge of those rows in arrival order |
| `GroupMerge.BuildSelectOnlyResult` | proxy/plan/merge_result.go:510-540 | the merge of all rows, or a nil row when there is none |
| `GroupMerge.GroupedMergeExact` | proxy/plan/merge_result.go:464-556 | for nullable integer and clean text keys under a collation that tells them apart, and any arrival order, the result has one row per group of the whole table and no other, with the group's key and the aggregates over the whole group |
| `GroupMerge.NullTextMerged` | proxy/plan/merge_result.go:653-670 | a NULL name and the name NULL end in one result row with the count of both |
| `GroupMerge.OneShardExact` | proxy/plan/merge_result.go:464-508 | with one shard, under any collation of the backend, the result has one row per group with the group's aggregates |
| `GroupMerge.MergeExactIff` | proxy/plan/merge_result.go:464-508 | against backends that group under a collation, the merge has one row per group of the whole table with the group's aggregates, over every store of n shards, if and only if n is at most 1 or the collation tells apart all keys the columns can hold |
| `GroupMerge.CaseGroupsExample` | proxy/plan/merge_result.go:464-508 | shards with the names a and A under a collation that ignores case end in two result rows of one each, which are not the groups of the table |
| `GroupMerge.UngroupedMergeExact` | proxy/plan/merge_result.go:510-540 | without GROUP BY, merging one row per shard gives the aggregates of the whole table, empty shards included |
| `HelperColumns.SelectPlan.HandleGroupBy` | proxy/plan/plan_select.go:219-237 | the helpers are appended and each index points at its helper |
| `HelperColumns.SelectPlan.HandleOrderBy` | proxy/plan/plan_select.go:239-259 | the helpers are appended and each index points at its helper |
| `HelperColumns.SurvivorPlace` | proxy/plan/plan_select.go:272-288 | a helper that stays is found behind exactly the earlier helpers that stay |
| `HelperColumns.SelectPlan.RemoveRedundant` | proxy/plan/plan_select.go:272-304 | after the in-place deletions of one list the helpers that repeat no selected field are left in order, and every index is the right one |
| `HelperColumns.SelectPlan.HandleExtraFieldList` | proxy/plan/plan_select.go:261-305 | the selected fields are unchanged, every GROUP BY and ORDER BY index points at the item's own helper or at a selected field that carries its name, and no helper is left if and only if every item is a selected column |
| `HelperColumns.SelectPlan.NewEmptyResultset` | proxy/plan/plan.go:554-582 | the headers of the empty result are the fields, or a panic when a helper is left |
| `HelperColumns.HelperLeftExample` | proxy/plan/plan.go:554-582 | selecting one column and ordering by another leaves a helper |
| `HelperColumns.EmptyRoute` | proxy/plan/plan_select.go:62-74 | a statement routed to no table has an empty result with the selected fields if and only if every GROUP BY and ORDER BY item is a selected column |
| `ResourcePool.TokensFit` | util/resource_pool.go:84-267 | tokens in the channel and in hands never exceed the channel's room |
| `ResourcePool.SenderHasRoom` | util/resource_pool.go:205-223 | whoever holds a token finds the channel open and with room |
| `ResourcePool.StepPreserves` | util/resource_pool.go:84-267 | every step of Get, Put, sweep and resize keeps the balance of tokens, counters and the pending resize |
| `ResourcePool.RunSafe` | util/resource_pool.go:84-267 | under every interleaving of any number of goroutines, with factory failures, sweeps and one resize at a time, the balance holds and nothing panics |
| `ResourcePool.QuiescentStatistics` | util/resource_pool.go:301-320 | with no operation under way, available is the channel's length and capacity less in-use, and active counts the live resources in the channel and checked out |
| `ResourcePool.CheckedOutExclusive` | util/resource_pool.go:158-223 | a checked-out resource is in no other goroutine's hands and not in the channel |
| `ResourcePool.UnstoppedSweepPanics` | util/resource_pool.go:110-150 | a schedule with one resize at a time, in which the timer is not stopped before the drain to zero, panics |
| `ResourcePool.OverlappingResizePanics` | backend/connection_pool.go:99-109 | a schedule that stops the timer first, in which Close meets a resize in progress, panics |
| `ResourcePool.SafeIffDisciplined` | util/resource_pool.go:84-267 | no schedule of any pool and any number of goroutines panics if and only if resizes are serialised and the timer is stopped before a drain to zero |
| `TimeWheel.DelayEncoded` | util/time_wheel.go:138-150 | bucket index and round count together encode the number of ticks of the delay |
| `TimeWheel.Wheel.constructor` | util/time_wheel.go:47-71 | a new wheel has no deadline |
| `TimeWheel.Wheel.Add` | util/time_wheel.go:127-136 | the deadline map gains the key with delay / tick ticks to wait, in place of any earlier entry, and the key is in one bucket only |
| `TimeWheel.Wheel.Remove` | util/time_wheel.go:162-168 | the deadline map loses the key |
| `TimeWheel.Wheel.HandleTick` | util/time_wheel.go:100-116 | exactly the keys with nothing left to wait fire and leave, all others wait one tick less |
| `TimeWheel.Wheel.Start` | util/time_wheel.go:79-93 | any order of events fires, tick by tick, what the deadline map fires |
| `TimeWheel.FiresExactlyOnce` | util/time_wheel.go:100-168 | a key fires on exactly tick number delay / tick + 1 after its add and on no other, unless added again or removed |
| `Balancer.Gcd` | backend/balancer.go:25-52 | for positive weights the countdown ends at the greatest common divisor |
| `Balancer.Slice.InitBalancer` | backend/balancer.go:55-82 | whatever is drawn, the queue is a permutation of every slave repeated weight / gcd times, so every entry is a slave, and the cursor is at its start |
| `Balancer.Slice.InitStatisticSlaveBalancer` | backend/balancer.go:85-112 | the same for the statistic slaves, and the ordinary queue is untouched |
| `Balancer.ExpandedCount` | backend/balancer.go:65-70 | the queue holds slave i exactly weight / gcd times, and nothing else |
| `Balancer.Slice.GetNextSlave` | backend/balancer.go:115-135 | the slave at the cursor, which moves on around the queue; no slave for an empty queue or an index beyond the pools |
| `Balancer.Slice.GetNextStatisticSlave` | backend/balancer.go:138-158 | the statistic slave at its own cursor, which moves on; with more than one entry the cursor of the ordinary slaves is overwritten |
| `Balancer.Slice.Serve` | backend/balancer.go:115-158 | any calls of both kinds select what the two cursors prescribe |
| `Balancer.Undisturbed` | backend/balancer.go:115-158 | while no statistic call moves the cursor the ordinary calls walk the queue round and round |
| `Balancer.Slice.ServeTurn` | backend/balancer.go:55-158 | from an initialised queue, any such calls with as many ordinary ones as the queue is long select slave i exactly weight / gcd times |
| `Balancer.SteadyShare` | backend/balancer.go:115-135 | any such window selects slave i exactly weight / gcd times |
| `Balancer.FairWindowsIff` | backend/balancer.go:138-158 | with two slaves or more, every window after any calls has those shares if and only if the statistic queue has at most one entry |
| `Balancer.StatisticCallRewinds` | backend/balancer.go:138-158 | with queue [0, 1] and two statistic slaves, the calls slave, statistic, slave select slave 0 twice |
| `Sequence.MySQLSequence.GetSeqFromDB` | proxy/sequence/mysql.go:72-104 | a grant becomes the batch; a failure leaves it as it was |
| `Sequence.MySQLSequence.NextSeq` | proxy/sequence/mysql.go:54-65 | the next number of the batch, or the first of a new one when it is spent |
| `Sequence.NumbersUnique` | proxy/sequence/mysql.go:54-104 | over every interleaving of any number of proxies with disjoint non-empty grants, no number is returned twice, each lies in a grant of its proxy, and every granted number has been returned by its proxy or is still in its batch |
| `Sequence.FirstOfGrantIff` | proxy/sequence/mysql.go:72-104 | the first number after a refill lies in the grant if and only if the grant is not empty |
| `Packets.Conn.WritePacket` | mysql/conn.go:384-439 | the loop writes exactly the framed payload, the trailing empty packet included, and counts one sequence number per packet |
| `Packets.SequenceCounts` | mysql/conn.go:384-439 | a payload of n bytes moves the counter by n / maximum + 1, modulo 256 |
| `Packets.Conn.ReadHeaderFrom` | mysql/conn.go:168-197 | fails exactly on a short stream or a wrong sequence number, and otherwise consumes four bytes |
| `Packets.Conn.ReadOnePacket` | mysql/conn.go:311-328 | one packet off the stream, or an error, as the format says |
| `Packets.Conn.ReadPacket` | mysql/conn.go:333-364 | one payload off the stream, reassembled, or an error, as the format says |
| `Packets.Conn.ReadEphemeralPacket` | mysql/conn.go:206-259 | the same payload, stream and counter as ReadPacket |
| `Packets.TakeFramed` | mysql/conn.go:311-439 | for every payload length, reading what was written returns the payload, leaves exactly the bytes after it, and ends at the writer's sequence number |
| `Packets.ConversationRoundTrip` | mysql/conn.go:311-439 | any series of payloads comes back one by one, with nothing left |
| `Packets.Header` | mysql/conn.go:398-403 | four bytes that hold the length, low byte first, and then the sequence number |
| `Decimal.ParseInverse` | mysql/result.go:73-80 | reading a formatted integer gives the integer, signed or unsigned |
| `Encoding.LenEncInt` | mysql/encoding.go:56-118 | has the announced size, the prefix byte that announces it, and never starts with the NULL mark |
| `Encoding.LenEncIntRoundTrip` | mysql/encoding.go:307-348 | a written length reads back from any place in a row, and never as NULL |
| `Encoding.LenEncStringRoundTrip` | mysql/encoding.go:377-387 | a string of any length reads back from any place in a row, and the next position follows it |
| `Encoding.GenerateRowData` | proxy/plan/merge_result.go:625-650 | the cells of the row one after the other, or an error for a row of another width |
| `Encoding.ParseText` | mysql/result.go:53-97 | the values read column by column, or an error at the first that fails |
| `Encoding.TextRowRoundTrip` | proxy/plan/merge_result.go:625-650 | parsing a regenerated row gives its NULLs, signed and unsigned integers and strings, for any width |
| `BinaryRows.WithNullExact` | mysql/result.go:566-571 | marking a column NULL marks that column and no other |
| `BinaryRows.BinaryCellRoundTrip` | mysql/encoding.go:473-592 | a value in its column's range reads back from any place in a row, but for a negative TypeTiny, which comes back 256 larger |
| `BinaryRows.BuildBinaryRow` | mysql/result.go:550-586 | succeeds exactly when every value has an encoding; then a zero byte, a bitmap that marks exactly the NULLs at offset two, and the cells |
| `BinaryRows.StorableEncodes` | mysql/encoding.go:473-592 | values in range always have an encoding |
| `BinaryRows.ParseBinary` | mysql/result.go:100-271 | the columns read one after the other, NULLs by the bitmap, or an error |
| `BinaryRows.BinaryRowRoundTripIff` | mysql/result.go:100-271 | a built row parses back to its values, for any column count and NULL pattern, if and only if no TypeTiny value is negative |
| `BinaryRows.NegativeTinyExample` | mysql/result.go:100-271 | a signed TypeTiny -1 parses back as 255 |
| `Splice.CalcParams` | proxy/server/executor_stmt.go:45-74 | fails exactly when a quote is left open, and otherwise gives the placeholders' offsets |
| `Splice.OffsetsExact` | proxy/server/executor_stmt.go:45-74 | the offsets are exactly the question marks outside quotes, each once and in order |
| `Splice.EscapeSQL` | proxy/server/executor_stmt.go:76-85 | every backslash and apostrophe gets a backslash before it |
| `Splice.GetRewriteSQL` | proxy/server/executor_stmt.go:112-131 | splicing in place with a running offset gives the template with every placeholder replaced by its rendered argument |
| `SpliceMeaning.ReadRendered` | util/util.go:59-68 | outside quoted parts and comments a rendered argument is read as exactly that argument, and reading is outside them again |
| `SpliceMeaning.StaysOpen` | proxy/server/executor_stmt.go:76-85 | inside a quoted argument no quote but the last closes it |
| `SpliceMeaning.CalcAgreesIff` | proxy/server/executor_stmt.go:45-74 | the scan sees the quotes a reader of escapes, quoted names and comments sees, after every prefix, if and only if no literal escapes its own quote and no quoted name or comment holds one |
| `SpliceMeaning.EscapedQuoteMiscounts` | proxy/server/executor_stmt.go:45-74 | an accepted statement whose one counted placeholder lies inside a literal |
| `SpliceMeaning.NameMiscounts` | proxy/server/executor_stmt.go:45-74 | an accepted statement whose one counted placeholder lies inside a quoted name |
| `SpliceMeaning.CommentRefused` | proxy/server/executor_stmt.go:45-74 | a comment with an apostrophe is taken for an open quote |
| `SpliceMeaning.SpliceKeepsMeaning` | proxy/server/executor_stmt.go:112-131 | reading the spliced statement gives the template's tokens with every placeholder read as its argument and everything else unchanged |
| `SpliceMeaning.SamePlaceholdersWhere` | proxy/server/executor_stmt.go:45-74 | without such quotes, and without question marks in quoted names and comments, the scan finds exactly the placeholders |
| `SpliceMeaning.SpliceKeepsMeaningIff` | proxy/server/executor_stmt.go:112-131 | it does so for all arguments if and only if the scan finds exactly the placeholders |

## Left out

- Joins, subqueries, ON conditions, HAVING, DISTINCT, DATABASE() hints and global tables: the planner pushes these down or broadcasts them without narrowing; single-table WHERE is where routes are computed.
- LIMIT with UPDATE, DELETE or GROUP BY: it is pushed down unchanged, so no exactness holds.
- SQL parsing and the printing of statements: these belong to an external parser; `Restore` is the condition a table is sent, not its text.
- Date shards: they depend on the clock's time zone, and their first-key test is always true, so `<` routing is not sound for them.
- String sharding keys: keys and literals are integers or NULL, so equal values always have equal tables.
- A NULL sharding key in a statement ends the original with a panic; the model rejects the statement.
- `IN ()` evaluates to false in the model; MySQL refuses it, which is what the Writable lemmas are about.
- Unique keys are checked when a statement ends; InnoDB checks row by row, so it may also refuse an UPDATE that only swaps values.
- Global sequence columns in INSERT, and the limits on which inserts are accepted beyond sharding column, values and ON DUPLICATE.
- QueryAnswers.QueryAnswered: the stored rows hold integers and NULL; ORDER BY or LIMIT together with GROUP BY is not modelled.
- OrderLimit.LimitPushdownExact: offset + count is unbounded and a count of 2^63 or more is not mistaken for no limit.
- OrderLimit.SortRows: sorts by insertion; the library sort is only known to return some sorted permutation.
- Floating point in aggregates and cells: numbers are exact, and overflow of COUNT and SUM is not modelled; MAX and MIN are over integers only, since texts would need the backend's collation.
- MergeExecResult's status, warning and insert-id fields: additions and bitwise or of one call.
- ResourcePool.RunSafe: waiting times, context deadlines, JSON statistics and idle-time arithmetic are left out; any received resource may be idle-expired or not.
- TimeWheel.Wheel.Add: the delay is whole seconds already; the sub-second truncation and the two request channels are not modelled.
- Balancer.Slice.InitBalancer: weights are positive and at least one is given, as the original divides by their gcd.
- Sequence.NumbersUnique: 64-bit overflow and a reply whose numbers do not parse are left out.
- Encoding.ReadLenEncString: a length of 2^63 or more ends the original with a panic on a negative slice bound; the model returns an error. Short binary rows likewise.
- Float, decimal, date and time columns in rows: they go through library formatting.
- Splice: a doubled quote is two adjacent literals to the modelled reader, not an escaped quote, and the text of an executable comment is a comment to it; unquoted arguments are printed numbers and NULL.
- ShardTables.ParseHashRuleSliceInfos: negative locations are not modelled.
- Weights in the consistent-hash ring: the ring is built before any weight is read, so every shard has weight 1.
- Authentication, TLS, configuration sources, administration servers, logging and SQL fingerprints.
