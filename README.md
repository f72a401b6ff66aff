# graphite-data HBase backend, modelled in Dafny

`graphitedata/hbase/hbasedb.py` stores Graphite time series in two HBase
tables.

- The **namespace table** (`<prefix>META`) has a `CTR` row whose counter hands out archive ids. It also holds one row per metric and per branch of the dotted metric tree:
  - a metric's row `m_<path>` holds its info record as JSON in `cf:INFO`;
  - `ROOT` and every branch row hold one link column `cf:c_<segment>` per child, valued with the child's row key.
- The **data table** (`<prefix>DATA`) holds every archive of every metric as a ring of slots:
  - a row key packs `(archiveId, slot)` as two big-endian unsigned 32-bit integers;
  - the `cf:d` cell packs `(timestamp, value)`.

The model covers:

- the slot codec and the ring arithmetic;
- the write path:
  - `update_many` splits the points among the archives by age;
  - `__archive_update_many` aligns the points and writes their slots;
  - `__propagate` rolls them up into a coarser archive;
- the read path: `__archive_fetch` and `fetch`;
- the metadata operations: `create`, `info`, `exists` and `setAggregationMethod`;
- discovery: `find_nodes`, `_find_paths`, `match_entries` and `_deduplicate`;
- the namespace table as a tree (module `Tree`): the invariants `create` and `setAggregationMethod` keep, that discovery never raises under them, that in a table whose every created name is plain (`CanonicalLinks`) a created metric is found by every query whose patterns select its segments, provided no row above it holds an info record, and that it is never found otherwise; and that a `_` in one created name can hide another metric;
- the discovery test of `graphitedata/test.py` (module `FindScenario`): four metrics created in an empty table, then found by `*`, `*.*.*`, `*.branch2.*` and `*.branch{3,5}.*`.

The storage object is a class, `HbaseDB.HbaseTSDB`, whose fields are the two tables as maps and the counter. Its methods update those fields in loops. Each method is proved equal to a specification function:

- `Partition.Plan` and `WritePath.UpdateMany` for the write path;
- `ReadPath.ArchiveFetch` and `ReadPath.Fetch` for the read path;
- `Namespace.Created` and `Namespace.FindPaths` for creation and discovery.

The properties the code promises, or fails to keep, are proved about those functions.

The model keeps the code's behaviour, including where it departs from what its comments intend:

- **Rollups stop early.** `__propagate` returns nothing, so the cascade always stops after the first coarser archive (`WritePath.ArchiveUpdateFrame`).
- **Rollups are all-or-nothing.** The known-data ratio is an integer division under Python 2, so for a threshold with 0 <= xff < 1 a rollup needs every finer slot of the interval known. A threshold of None or a negative one always rolls up, even when no finer value is known; None is what `setAggregationMethod` stores by default (`WritePath.ExceedsMeaning`).
- **The earliest duplicate wins.** Pending points are reversed before the dict keeps the last value per aligned timestamp, so the earliest point wins (`WritePath.EarliestPointWins`).
- **A wrapped read loses its first scan.** `__archive_fetch` builds a fresh output list for each scanned range, so when the window wraps round the ring the first scan's values are lost (`ReadPath.WrapKeepsOnlyUpperSlots`).
- **Reads are off by one.** Every value lands one position early, and the value at the window's start lands in the last position through negative indexing (`ReadPath.ReturnSlotRange`, `ReadPath.FetchAt`).
- **`fetch` never returns None for a future start.** That branch cannot be reached, because the earlier interval check already raises (`ReadPath.FetchWindowFacts`).
- **Discovery can fail midway.** It raises IndexError when a link leads to a missing row before the last pattern. It names a node by the second `_`-separated field of its row key, which truncates names containing `_`. The IndexError cannot happen in a table built only by `create` (of names whose first segment is not empty) and `setAggregationMethod`, because every link there names an existing row (`Tree.FindNoError`). When, in addition, every created name is plain (no empty segment, no `_`, so that `CanonicalLinks` holds), a created metric is found by every query whose patterns select its segments, provided no row above it holds an info record (`Tree.FiledFound`).
- **A metric below another metric is never found.** While patterns remain, `_find_paths` does not descend into a row holding `cf:INFO` (`graphitedata/hbase/hbasedb.py`, lines 348-352; `Namespace.Visit`). After `create("a", …)` and `create("a.b", …)`, in either order, row `m_a` holds an info record, so no query yields `a.b` (`Tree.BuriedNotFound`).
- **A `_` in one name can hide another metric.** `_find_paths` reads a link column `cf:c_<name>` under the second `_`-separated field only (`graphitedata/hbase/hbasedb.py`, lines 333-337), so after `create("x.z", …)` and `create("x_y", …)` the ROOT links `cf:c_x` (to `m_x`) and `cf:c_x_y` (to `m_x_y`) are both read under `x`, and the later one overwrites the earlier in `subnodes`. The model reads columns in ascending order, so `m_x_y` wins; it holds an info record and is skipped while a pattern remains, and `find_nodes("x.z")` yields nothing although every link resolves (`Tree.UnderscoreShadows`). Python leaves the order of a row's columns to the dictionary, and whichever column comes last wins there.
- **`setAggregationMethod` overwrites the threshold.** It stores the threshold even when it is None. The comment above it (`graphitedata/hbase/hbasedb.py`, line 100) says that None leaves the stored threshold unchanged; the code at line 104 writes None over it, and the model follows the code.
- **An empty archive list raises on the way in.** `update_many` raises StopIteration from `archives.next()` (line 163), and `fetch` raises UnboundLocalError, because its loop variable `archive` is never bound (lines 306-309). The model names these errors `StopIteration` and `UnboundLocal("archive")`.

The one correction the model makes is to `__propagate`, described under "## Findings". As written, `__propagate` raises TypeError, so `update_many` raises right after writing the slots of the first batch committed to an archive that has a coarser one. The write path the storage object performs is the corrected one; the code as written is modelled beside it (`WritePath.UpdateManyAsWrittenRaises`).

Design notes:

- The comments on `create` and `setAggregationMethod` (`graphitedata/hbase/hbasedb.py`, lines 99 and 112) call `xFilesFactor` the fraction of data points that must have known values. The test at line 233 divides two integers, which Python 2 truncates, and the model follows the code (`WritePath.ThresholdExample`: 3 known values out of 4 do not pass a threshold of 0.5).
- Python 2 leaves dict and set iteration order unspecified. The model fixes it as first-insertion order (`Base.Dedup`, `Base.DictItems`).
- `_find_paths` iterates a row's columns as a Python dict, in hash order. The model chooses ascending name order (`Text.SortedSet`). Two things depend on that choice: which child a repeated name keeps, and the first-insertion order of the child names. The second fixes the order in which a brace pattern's matches, and so its nodes, are yielded; a plain pattern's matches are sorted and do not depend on it.

## Model

| member | source | states |
|---|---|---|
| Codec.UnpackPackU32 | graphitedata/hbase/hbasedb.py:40-41 | unpacking a big-endian 32-bit field restores the integer packed into it |
| Codec.PackUnpackU32 | graphitedata/hbase/hbasedb.py:40-41 | every 4 bytes are the packing of exactly one unsigned integer |
| Codec.UnpackPackKey | graphitedata/hbase/hbasedb.py:40 | a packed data-table row key `>LL` decodes back to its archive id and slot |
| Codec.PackUnpackKey | graphitedata/hbase/hbasedb.py:40 | every 8-byte row key is the packing of exactly one (archive id, slot) pair |
| Codec.UnpackPackValue | graphitedata/hbase/hbasedb.py:41 | a packed `>Ld` cell decodes back to its timestamp and its 8 value bytes |
| Codec.PackUnpackValue | graphitedata/hbase/hbasedb.py:41 | every 12-byte cell is the packing of exactly one (timestamp, value) record |
| Codec.BytesLessU32 | graphitedata/hbase/hbasedb.py:40 | HBase's unsigned byte order on packed 32-bit fields is the integer order |
| Codec.PackKeyOrder | graphitedata/hbase/hbasedb.py:259-262 | packed keys sort exactly as (archive id, slot) pairs sort lexicographically |
| Codec.ScanRangeIsSlotRange | graphitedata/hbase/hbasedb.py:259-262 | a scan from pack(id, lo) up to pack(id, hi) covers exactly the keys of archive id with lo <= slot < hi |
| Ring.Align | graphitedata/hbase/hbasedb.py:193 | `t - t % step` is a multiple of the step at most t and within one step of it, and non-negative for non-negative t |
| Ring.AlignUnique | graphitedata/hbase/hbasedb.py:193 | the aligned timestamp is the only multiple of the step in (t - step, t] |
| Ring.AlignIdempotent | graphitedata/hbase/hbasedb.py:246-247 | aligning an aligned timestamp changes nothing |
| Ring.SlotOf | graphitedata/hbase/hbasedb.py:198 | the slot of a timestamp lies in [0, points) |
| Ring.SlotOfAlign | graphitedata/hbase/hbasedb.py:198 | a timestamp and its aligned form share a slot |
| Ring.SlotPeriodic | graphitedata/hbase/hbasedb.py:198 | timestamps a whole ring (step * points seconds) apart share a slot, so a newer write overwrites an older one |
| Ring.DistinctSlotsWithinRing | graphitedata/hbase/hbasedb.py:198 | two aligned timestamps less than a whole ring apart never share a slot |
| Schema.CreatedArchives | graphitedata/hbase/hbasedb.py:119-126 | create's archive records: one per (secondsPerPoint, points) pair in order, ids counter+1, counter+2, ..., retention = secondsPerPoint * points |
| Schema.MaxRetention | graphitedata/hbase/hbasedb.py:129 | maxRetention is an upper bound of every archive's retention and is attained by one |
| Schema.CreatedInfoFacts | graphitedata/hbase/hbasedb.py:119-136 | a created metric's archive ids are distinct, increasing and in (counter, counter + n], and maxRetention is the largest retention |
| Schema.CreatedInfoWellFormed | graphitedata/hbase/hbasedb.py:119-136 | an accepted archive list gives an info record whose archives have positive steps and ids and slots that fit the key fields |
| Base.Dedup | graphitedata/hbase/hbasedb.py:410-415 | the de-duplicated list holds the same elements, each once |
| Base.DedupPrefix | graphitedata/hbase/hbasedb.py:410-415 | de-duplicating a prefix gives a prefix of the result: the output is produced incrementally in input order |
| Base.DedupFirstOccurrence | graphitedata/hbase/hbasedb.py:410-415 | an element appears at the position fixed by its first occurrence |
| Base.PyIndex | graphitedata/hbase/hbasedb.py:273 | a Python list index is valid exactly in [-len, len), and a negative one counts from the end |
| Base.LastValue | graphitedata/hbase/hbasedb.py:195 | a dict built from pairs has a value for exactly the keys that occur |
| Base.LastValueIsLast | graphitedata/hbase/hbasedb.py:195 | the value a dict keeps for a key is that of the last pair with that key |
| Base.DictItems | graphitedata/hbase/hbasedb.py:195 | `dict(pairs).items()` has each key of the pairs exactly once |
| Base.ReverseReverse | graphitedata/hbase/hbasedb.py:171 | reversing twice restores the list |
| Text.Find | graphitedata/hbase/hbasedb.py:392 | `str.find` gives the first index of the character, or -1 exactly when it is absent |
| Text.Split | graphitedata/hbase/hbasedb.py:139 | `str.split` gives at least one part and no part contains the separator |
| Text.JoinSplit | graphitedata/hbase/hbasedb.py:139 | joining the parts of a split with the separator gives the string back |
| Text.SplitJoin | graphitedata/hbase/hbasedb.py:139 | splitting a join of separator-free parts gives the parts back |
| Text.JoinFree | graphitedata/hbase/hbasedb.py:139-150 | a join contains a non-separator character only if a part does |
| Text.RemoveChar | graphitedata/hbase/hbasedb.py:318 | removing backslashes keeps every other character and drops all backslashes |
| Text.StrLeTotal | graphitedata/hbase/hbasedb.py:406 | byte-string order is total |
| Text.StrLeAntisymmetric | graphitedata/hbase/hbasedb.py:406 | byte-string order is antisymmetric |
| Text.StrLeTransitive | graphitedata/hbase/hbasedb.py:406 | byte-string order is transitive |
| Text.Sort | graphitedata/hbase/hbasedb.py:406 | `list.sort()` returns a sorted permutation of its input |
| Text.Insert | graphitedata/hbase/hbasedb.py:406 | inserting into a sorted list keeps it sorted and adds exactly one element |
| Text.SortedSet | graphitedata/hbase/hbasedb.py:334 | a row's column names as HBase lists them: the same names |
| Text.SortedSetSorted | graphitedata/hbase/hbasedb.py:334 | that listing holds every column once, in ascending order |
| Text.SortSet | graphitedata/hbase/hbasedb.py:334 | the loop listing a row's columns produces that ascending listing |
| Glob.LiteralMatchesOnlyItself | graphitedata/hbase/hbasedb.py:405 | a pattern without `*` or `?` matches exactly itself |
| Glob.StarMatchesAll | graphitedata/hbase/hbasedb.py:405 | `*` matches every name |
| Glob.Filter | graphitedata/hbase/hbasedb.py:405 | `fnmatch.filter` keeps exactly the entries the pattern matches |
| Glob.FilterEach | graphitedata/hbase/hbasedb.py:399-400 | the extended list holds exactly the entries some variant matches |
| Glob.Variants | graphitedata/hbase/hbasedb.py:395-396 | a brace group expands into at least one variant |
| Glob.MatchEntries | graphitedata/hbase/hbasedb.py:389-407 | `match_entries` only returns entries it was given |
| Glob.MatchEntriesWithBraces | graphitedata/hbase/hbasedb.py:394-402 | with a brace group the result is the union of the per-variant matches, each name once |
| Glob.MatchEntriesFirstSeenOrder | graphitedata/hbase/hbasedb.py:399-402 | with a brace group, names come in the order they are first matched, variant by variant |
| Glob.MatchEntriesPlain | graphitedata/hbase/hbasedb.py:404-407 | without a brace group the result is the matching entries, sorted, as a permutation of the filter's output |
| Glob.MatchEntriesSelects | graphitedata/hbase/hbasedb.py:389-407 | in both cases a name is returned exactly when it is an entry the pattern selects |
| Glob.MatchesAnyLiterals | graphitedata/hbase/hbasedb.py:399-400 | literal variants match exactly the names listed among them |
| Glob.BraceLiteralMatch | graphitedata/hbase/hbasedb.py:394-402 | `{a,b}` with literal alternatives selects exactly the entries among the expanded names |
| Glob.PlainMatchExample | graphitedata/hbase/hbasedb.py:404-407 | `f*` over ["foobar", "bar", "foo"] gives ["foo", "foobar"] |
| Glob.PlainFilterExample | graphitedata/hbase/hbasedb.py:405 | `fnmatch.filter` keeps input order: ["foobar", "foo"] |
| Glob.PlainSortExample | graphitedata/hbase/hbasedb.py:406 | sorting puts a proper prefix first |
| Glob.Deduplicate | graphitedata/hbase/hbasedb.py:410-415 | the loop with its `yielded` set yields the first-occurrence de-duplication |
| Glob.CollectMatches | graphitedata/hbase/hbasedb.py:389-407 | the imperative `match_entries` returns the specified matches |
| Glob.ExtendMatches | graphitedata/hbase/hbasedb.py:399-400 | the extend loop produces every variant's matches in turn |
| Partition.Advance | graphitedata/hbase/hbasedb.py:169-178 | the inner loop never moves back to an earlier archive |
| Partition.Walk | graphitedata/hbase/hbasedb.py:166-183 | the outer loop ends at an archive or past the last one |
| Partition.FlushFacts | graphitedata/hbase/hbasedb.py:170-173 | committing the pending points (reversed) loses none and keeps batches in increasing archive order |
| Partition.AdvanceFacts | graphitedata/hbase/hbasedb.py:169-178 | skipping archives stops at one whose retention covers the age with everything consumed accounted for, or runs out with all pending points committed and the last archive too short |
| Partition.AdvanceStops | graphitedata/hbase/hbasedb.py:169-178 | when the inner loop stops at an archive, its retention covers the age and the invariant holds |
| Partition.AdvanceRunsOut | graphitedata/hbase/hbasedb.py:174-178 | when it runs out of archives, nothing is pending, everything consumed was committed, and even the last archive is too short |
| Partition.AppendPoint | graphitedata/hbase/hbasedb.py:183 | appending a point that fits the current archive keeps the invariant |
| Partition.WalkFacts | graphitedata/hbase/hbasedb.py:166-183 | the loop either consumes every point with the invariant kept, or stops at the first point older than the last archive's retention, having committed exactly the points before it |
| Partition.PlanFacts | graphitedata/hbase/hbasedb.py:159-187 | update_many's batches go to strictly increasing archives, none is empty, every point fits its archive's retention, and the committed points are a prefix of the input cut at the first point no archive covers |
| WritePath.AlignedItemsFacts | graphitedata/hbase/hbasedb.py:193-195 | a batch's items have distinct timestamps, each a multiple of the step fitting 32 bits, and every point's aligned timestamp is among them |
| WritePath.AlignedItemsLast | graphitedata/hbase/hbasedb.py:195 | each written value is that of the last point in the batch aligning to its timestamp |
| WritePath.EarliestPointWins | graphitedata/hbase/hbasedb.py:171-172 | because pending points are reversed first, the value written for a timestamp is that of the earliest input point aligning to it |
| WritePath.WriteSlotsUntouched | graphitedata/hbase/hbasedb.py:197-203 | a key no item is written to keeps its record or stays absent |
| WritePath.WriteSlotsLast | graphitedata/hbase/hbasedb.py:197-203 | a written key holds the last item written to it, whatever it held before |
| WritePath.Known | graphitedata/hbase/hbasedb.py:232 | the known values are exactly the non-None entries, no more of them than entries |
| WritePath.ExceedsMeaning | graphitedata/hbase/hbasedb.py:233 | the Python 2 test passes exactly when xff is None or negative, or every slot is known and xff < 1 |
| WritePath.ThresholdExample | graphitedata/hbase/hbasedb.py:233 | 3 or 2 known out of 4 fail a threshold of 0.5, 4 out of 4 pass |
| WritePath.IntervalWindowNonEmpty | graphitedata/hbase/hbasedb.py:227-230 | the aligned window of a coarser interval covers at least one finer slot |
| WritePath.IntervalFetchNonEmpty | graphitedata/hbase/hbasedb.py:230 | the finer archive's read over a coarser interval succeeds with at least one position |
| WritePath.IntervalData | graphitedata/hbase/hbasedb.py:230 | the finer data of an interval is never empty, so the ratio never divides by zero |
| WritePath.IntervalDataIsFetch | graphitedata/hbase/hbasedb.py:230 | that data is the finer archive's read over the interval, and the read succeeds |
| WritePath.PropagateEffect | graphitedata/hbase/hbasedb.py:222-239 | a rollup changes only the coarser archive's slot of the interval, and only when the test passes, storing the interval start and the aggregate of the known values |
| WritePath.PropagateAsWrittenRaises | graphitedata/hbase/hbasedb.py:230-235 | as written, every `__propagate` call raises TypeError, and the record has no `numPoints` key |
| WritePath.Coarser | graphitedata/hbase/hbasedb.py:207 | `lowerArchives` is exactly the archives with a strictly larger step |
| WritePath.CoarserFirst | graphitedata/hbase/hbasedb.py:207-209 | the first coarser archive is the first archive, in list order, with a strictly larger step |
| WritePath.IntervalsFit | graphitedata/hbase/hbasedb.py:210-212 | every rollup interval is a multiple of the coarser step and fits 32 bits |
| WritePath.PropagateAllFrame | graphitedata/hbase/hbasedb.py:214-216 | the rollup loop changes no key outside the coarser archive |
| WritePath.ArchiveUpdateFrame | graphitedata/hbase/hbasedb.py:189-220 | one `__archive_update_many` changes only keys of its own archive and of the first coarser one: the cascade stops there |
| WritePath.ApplyBatchesNext | graphitedata/hbase/hbasedb.py:172 | committing one more batch runs its `__archive_update_many` after the earlier ones |
| WritePath.PropagateAllAsWrittenRaises | graphitedata/hbase/hbasedb.py:214-216 | as written, the rollup loop changes nothing and raises TypeError exactly when there is an interval |
| WritePath.CoarserNonEmpty | graphitedata/hbase/hbasedb.py:207-209 | `lowerArchives` is non-empty exactly when some archive has a larger step |
| WritePath.IntervalsNonEmpty | graphitedata/hbase/hbasedb.py:193-212 | a batch has rollup intervals exactly when it holds a point |
| WritePath.ArchiveUpdateAsWrittenRaises | graphitedata/hbase/hbasedb.py:189-220 | as written, `__archive_update_many` writes its slots and then raises TypeError exactly when its archive has a coarser one and the batch holds a point; otherwise it equals the corrected one |
| WritePath.RaisingIndex | graphitedata/hbase/hbasedb.py:166-187 | the first committed batch that raises as written, or -1 exactly when none does |
| WritePath.ApplyBatchesAsWrittenRaises | graphitedata/hbase/hbasedb.py:166-187 | as written, the commits equal the corrected ones when no batch raises; otherwise the batches before the first raising one are applied, its slots are written, and TypeError ends the call |
| WritePath.UpdateManyAsWrittenRaises | graphitedata/hbase/hbasedb.py:159-187 | `update_many` as written: the corrected result when no committed batch reaches an archive with a coarser one, and otherwise the table left by the first such batch's slot writes, with TypeError |
| ReadPath.ScanSlotsContents | graphitedata/hbase/hbasedb.py:262 | a scan returns a record exactly when it is stored in one of the scanned slots |
| ReadPath.Batch | graphitedata/hbase/hbasedb.py:267 | `scannerGetList(id, 100000)` returns the whole scan when it has at most 100000 rows |
| ReadPath.Ranges | graphitedata/hbase/hbasedb.py:252-255 | one slot range, or two when the window wraps round the ring, each within [0, points] |
| ReadPath.Place | graphitedata/hbase/hbasedb.py:267-273 | filling keeps the list's length, and the only error is IndexError |
| ReadPath.PlaceHit | graphitedata/hbase/hbasedb.py:271-273 | a position holds the value of the last in-window row mapped to it |
| ReadPath.PlaceMiss | graphitedata/hbase/hbasedb.py:271-273 | a position no in-window row maps to keeps its initial None |
| ReadPath.PlaceOk | graphitedata/hbase/hbasedb.py:271-273 | filling never raises when every in-window row has a valid index |
| ReadPath.PlaceErrSticks | graphitedata/hbase/hbasedb.py:273 | once a row raises IndexError, the whole read raises |
| ReadPath.ReturnSlotRange | graphitedata/hbase/hbasedb.py:264-272 | an in-window record's index lies in [-1, numSlots - 1], and the record at the window's start gets -1 |
| ReadPath.FetchOk | graphitedata/hbase/hbasedb.py:243-275 | a read over a non-empty aligned window succeeds with (end - start) / step positions |
| ReadPath.FetchIsLastFill | graphitedata/hbase/hbasedb.py:258-275 | a successful read returns the list filled by the last scan alone |
| ReadPath.FetchAt | graphitedata/hbase/hbasedb.py:243-275 | position by position, the read holds the value of the last in-window record of the last scan mapped there, or None when there is none |
| ReadPath.WrapKeepsOnlyUpperSlots | graphitedata/hbase/hbasedb.py:252-275 | when the window wraps, every value returned comes from a slot in [startSlot, points) |
| ReadPath.LastHit | graphitedata/hbase/hbasedb.py:267-273 | when some row maps to a position, there is a last such row |
| ReadPath.ChooseArchive | graphitedata/hbase/hbasedb.py:305-308 | the loop variable left after the `break` indexes an archive of the list |
| ReadPath.ChooseArchiveFirstCovering | graphitedata/hbase/hbasedb.py:305-308 | the archive read is the first, in list order, whose retention covers the age of the start, or the last archive |
| ReadPath.ChooseArchiveIs | graphitedata/hbase/hbasedb.py:305-308 | those two facts determine the archive |
| ReadPath.FetchWindowFacts | graphitedata/hbase/hbasedb.py:288-308 | fetch raises exactly when the start is after the clamped end, never answers None, and otherwise reads from max(start, now - maxRetention) to min(until, now) from the first covering archive |
| ReadPath.FetchArchiveCovers | graphitedata/hbase/hbasedb.py:301-308 | when maxRetention is some archive's retention, as create records it, the archive read covers the whole window |
| Namespace.Links | graphitedata/hbase/hbasedb.py:139-150 | the link loop makes one pass per path segment |
| Namespace.PriorIsJoin | graphitedata/hbase/hbasedb.py:140-150 | `priorParts` after i segments is the first i segments joined with dots |
| Namespace.LinkAtFacts | graphitedata/hbase/hbasedb.py:143-150 | segment i links from ROOT (i = 0) or from `m_` + the path before it, to `m_` + the path through it |
| Namespace.MetricLinks | graphitedata/hbase/hbasedb.py:139-155 | the links of a metric chain ROOT to the metric's own row, one segment at a time |
| Namespace.EnsureLinksExtends | graphitedata/hbase/hbasedb.py:153-155 | the link loop never overwrites a cell or an info record |
| Namespace.EnsureLinksPresent | graphitedata/hbase/hbasedb.py:153-155 | after the loop every parent has the link column of its segment |
| Namespace.EnsureLinksNoop | graphitedata/hbase/hbasedb.py:153-155 | with every link already present, the loop writes nothing |
| Namespace.EnsureLinksIdempotent | graphitedata/hbase/hbasedb.py:139-155 | linking the same path again changes nothing |
| Namespace.EnsureLinksNew | graphitedata/hbase/hbasedb.py:153-155 | every cell the loop adds is the link of one of its segments, valued with that segment's child row key |
| Namespace.CreatedFacts | graphitedata/hbase/hbasedb.py:131-155 | after create the metric's row holds the new info, every other row keeps its info and cells, and every segment is linked from its parent |
| Namespace.SecondFieldOfPrefixed | graphitedata/hbase/hbasedb.py:336 | a name without `_` survives popping the `cf:c_` or `m_` prefix |
| Namespace.SecondFieldOfLinkColumn | graphitedata/hbase/hbasedb.py:335-336 | every `cf:c_` column has a second `_`-field, so building `subnodes` never raises |
| Namespace.ThenAssociative | graphitedata/hbase/hbasedb.py:351-352 | chaining generators is associative |
| Namespace.MatchingNames | graphitedata/hbase/hbasedb.py:333-339 | the children visited are exactly the row's link names the pattern selects |
| Namespace.LeavesSound | graphitedata/hbase/hbasedb.py:356-367 | each node yielded at the last level reports the row of one of the matched names |
| Namespace.FindSound | graphitedata/hbase/hbasedb.py:323-367 | every node discovery yields reports a row the patterns reach through branch rows, named by its second field, a leaf exactly when it has info |
| Namespace.DescendSound | graphitedata/hbase/hbasedb.py:342-352 | every node found below a level comes from a branch child the pattern matched |
| Namespace.LeavesComplete | graphitedata/hbase/hbasedb.py:356-367 | a last level that raises nothing yields a node for every existing matched row |
| Namespace.FindComplete | graphitedata/hbase/hbasedb.py:323-367 | a search that raises nothing yields a node for every row the patterns reach |
| Namespace.DescendComplete | graphitedata/hbase/hbasedb.py:342-352 | a descent that raises nothing yields a node for every row reached through a matched branch child |
| HbaseDB.CreatedInfosWellFormed | graphitedata/hbase/hbasedb.py:131-155 | `create` keeps every info record in the table well formed |
| Tree.LinkChildKey | graphitedata/hbase/hbasedb.py:141-155 | each link of a path goes from ROOT or a path row to the child key derived from its parent and its segment |
| Tree.LinkChain | graphitedata/hbase/hbasedb.py:141-155 | along a path, each link's child row is the next link's parent row |
| Tree.RowExistsKept | graphitedata/hbase/hbasedb.py:131-155 | a row that exists still exists after `create` |
| Tree.CreatedCell | graphitedata/hbase/hbasedb.py:131-155 | a link cell after `create` is an old cell with its old value, or the link of a segment of the new path |
| Tree.CreatedChildExists | graphitedata/hbase/hbasedb.py:139-155 | after `create`, the child row of every link of the path exists |
| Tree.CreatedLinksResolve | graphitedata/hbase/hbasedb.py:131-155 | `create` keeps every link cell naming an existing path row |
| Tree.CreatedCanonical | graphitedata/hbase/hbasedb.py:131-155 | `create` of a plain metric keeps every link cell on ROOT or a path row, named without `_` or `.`, valued with the derived child key |
| Tree.SetInfoKeepsTree | graphitedata/hbase/hbasedb.py:101-108 | rewriting an info cell keeps both invariants |
| Tree.EmptyTree | graphitedata/hbase/hbasedb.py:53-69 | the empty table satisfies both invariants |
| Tree.LinkPairsFrom | graphitedata/hbase/hbasedb.py:333-336 | every pair of `subnodes` comes from a link column, named by its second field and valued with its cell |
| Tree.LinkPairsHas | graphitedata/hbase/hbasedb.py:333-336 | every link column contributes its pair to `subnodes` |
| Tree.LookupLinkCell | graphitedata/hbase/hbasedb.py:333-343 | `subnodes[name]` is the cell of a link column whose second field is the name |
| Tree.LookupResolves | graphitedata/hbase/hbasedb.py:342-359 | when links resolve, every listed child is an existing path row |
| Tree.LookupCanonical | graphitedata/hbase/hbasedb.py:342-359 | when links are canonical, the child listed under a name is the key derived from the row and the name, and the name is non-empty and free of `_` and `.` |
| Tree.LinkedName | graphitedata/hbase/hbasedb.py:333-336 | a link column whose name has no `_` lists that name among the children |
| Tree.FindNoError | graphitedata/hbase/hbasedb.py:323-367 | when links resolve, `_find_paths` raises nothing from any row with any patterns |
| Tree.DescendNoError | graphitedata/hbase/hbasedb.py:342-352 | the loop over branch children raises nothing when every matched child exists |
| Tree.LeavesNoError | graphitedata/hbase/hbasedb.py:356-367 | the last-level loop raises nothing when every matched child exists |
| Tree.LinkMatched | graphitedata/hbase/hbasedb.py:333-346 | a present link whose segment the pattern selects is a matched child of an existing row |
| Tree.ChainReaches | graphitedata/hbase/hbasedb.py:323-367 | a chain of matched children through rows without info is reached by its patterns |
| Tree.PathRowsLink | graphitedata/hbase/hbasedb.py:140-150 | the rows of a path are ROOT and the children of its links, each link joining two consecutive rows |
| Tree.PathRowPrefix | graphitedata/hbase/hbasedb.py:140-150 | the row after segment j is `m_` and the path through segment j |
| Tree.LastPrefix | graphitedata/hbase/hbasedb.py:139-150 | the path through the last segment is the metric itself |
| Tree.PathStepMatched | graphitedata/hbase/hbasedb.py:333-346 | a present link whose segment the pattern selects joins two consecutive path rows |
| Tree.LinkedPathReaches | graphitedata/hbase/hbasedb.py:323-367 | a plain metric linked segment by segment, with no info above it, is reached from ROOT by patterns selecting its segments |
| Tree.PrefixAbove | graphitedata/hbase/hbasedb.py:139-150 | a proper prefix of a metric has a shorter row key |
| Tree.CreatedFiled | graphitedata/hbase/hbasedb.py:131-155 | `create` of a plain metric with no info above it leaves it linked, existing and with no info above |
| Tree.FiledKept | graphitedata/hbase/hbasedb.py:131-155 | such a metric stays so when a metric with a name at least as long is created |
| Tree.FiledTop | graphitedata/hbase/hbasedb.py:139-155 | the first segment of such a metric is itself a linked, existing branch row |
| Tree.CreatedReaches | graphitedata/hbase/hbasedb.py:114-155 | `create` of a plain metric with no info above it makes it reachable from ROOT by every selection of its segments |
| Tree.FiledFound | graphitedata/hbase/hbasedb.py:316-367 | `find_nodes` over a table keeping both invariants yields a node named by the metric's path for every query selecting its segments, provided no row above the metric holds an info record |
| Tree.LinkStep | graphitedata/hbase/hbasedb.py:333-346 | under `CanonicalLinks`, a matched child of ROOT or of a path row is that path extended by one name without `_` or `.` |
| Tree.ReachedPath | graphitedata/hbase/hbasedb.py:323-352 | under `CanonicalLinks`, a row the patterns reach is a path of one plain name per pattern, entered through rows without info |
| Tree.FoundNodeFacts | graphitedata/hbase/hbasedb.py:316-367 | under `CanonicalLinks`, every node `find_nodes` yields reports the row `m_` + its path, the path is a plain metric, and no row above it holds an info record |
| Tree.BuriedNotFound | graphitedata/hbase/hbasedb.py:342-352 | a metric with an info record on a row above it is never yielded, whatever the query |
| Tree.FindNodesNoError | graphitedata/hbase/hbasedb.py:316-367 | under `LinksResolve`, `find_nodes` raises nothing for any query |
| Text.StrLePrefix | graphitedata/hbase/hbasedb.py:333 | a string sorts before every extension of it |
| Tree.ShadowSegments | graphitedata/hbase/hbasedb.py:139 | `x.z` splits into `x` and `z`, and `x_y` is one segment |
| Tree.ShadowTable | graphitedata/hbase/hbasedb.py:131-155 | after `create("x.z")` and `create("x_y")`, ROOT holds exactly the links `cf:c_x` to `m_x` and `cf:c_x_y` to `m_x_y`, and `m_x_y` holds the second info record |
| Tree.ColumnsSorted | graphitedata/hbase/hbasedb.py:333 | `cf:c_x` is read before `cf:c_x_y` |
| Tree.ColumnNames | graphitedata/hbase/hbasedb.py:335-336 | both columns are read under the name `x` |
| Tree.RootPairs | graphitedata/hbase/hbasedb.py:333-337 | that ROOT gives the pairs (`x`, `m_x`) and then (`x`, `m_x_y`) |
| Tree.MatchLiteral | graphitedata/hbase/hbasedb.py:389-405 | a pattern without wildcards or braces matches itself among the names it alone makes up |
| Tree.ShadowMatching | graphitedata/hbase/hbasedb.py:333-339 | with a name read twice, `x` is matched once and leads to the later row |
| Tree.SkipInfoChild | graphitedata/hbase/hbasedb.py:342-352 | while a pattern remains, a single matched child holding info yields nothing and raises nothing |
| Tree.ShadowFind | graphitedata/hbase/hbasedb.py:316-352 | a two-pattern query whose first pattern leads only to a row with info yields nothing and raises nothing |
| Tree.ShadowQuery | graphitedata/hbase/hbasedb.py:318-321 | the query `x.z` splits into the metric's segments |
| Tree.TwoCreated | graphitedata/hbase/hbasedb.py:131-155 | two creates on an empty table leave every link resolving and the first metric's info record in place |
| Tree.ShadowNotCanonical | graphitedata/hbase/hbasedb.py:335-336 | a ROOT link named `x_y` breaks `CanonicalLinks` |
| Tree.UnderscoreShadows | graphitedata/hbase/hbasedb.py:316-352 | after `create("x.z")` and `create("x_y")` every link resolves and `x.z` keeps its info, yet `find_nodes("x.z")` yields nothing |
| FindScenario.SplitThree | graphitedata/hbase/hbasedb.py:139 | a dotted name of three segments splits into them |
| FindScenario.SplitQuery | graphitedata/hbase/hbasedb.py:318-321 | a query of three plain patterns reaches `_find_paths` as those patterns |
| FindScenario.PlainThree | graphitedata/hbase/hbasedb.py:139 | a metric of three plain segments is plain |
| FindScenario.StarSelects | graphitedata/hbase/hbasedb.py:404-405 | `*` selects every name |
| FindScenario.LiteralSelects | graphitedata/hbase/hbasedb.py:404-405 | a pattern without wildcards or braces selects itself |
| FindScenario.BraceGroupParts | graphitedata/hbase/hbasedb.py:392-396 | a pattern with one brace group expands into the text before it, each alternative and the text after it |
| FindScenario.BraceGroupTwo | graphitedata/hbase/hbasedb.py:392-396 | a group of two alternatives expands into two patterns |
| FindScenario.BranchVariants | graphitedata/hbase/hbasedb.py:392-396 | `branch{3,5}` expands into `branch3` and `branch5` |
| FindScenario.BraceSelects | graphitedata/hbase/hbasedb.py:392-402 | `branch{3,5}` selects `branch3` and `branch5` |
| FindScenario.NoInfoAbove | graphitedata/hbase/hbasedb.py:131-137 | rows shorter than every info row hold no info |
| FindScenario.CreatedInfoKeys | graphitedata/hbase/hbasedb.py:131-137 | `create` writes its info record on the metric's own row only |
| FindScenario.CreatedKeepsFiled | graphitedata/hbase/hbasedb.py:131-155 | metrics already linked stay linked under a `create` of a metric as long as each |
| FindScenario.CreateStep | graphitedata/test.py:12-38 | one `create` of the test keeps both invariants and leaves the new and the earlier metrics linked |
| FindScenario.ScenarioTable | graphitedata/test.py:12-38 | after the test's four `create` calls both invariants hold and all four metrics are linked |
| FindScenario.FoundThree | graphitedata/hbase/hbasedb.py:316-367 | a linked metric of three segments is found by a query of three patterns selecting them |
| FindScenario.QueryStar | graphitedata/test.py:49 | `*` reaches `_find_paths` as one pattern |
| FindScenario.QueryAll | graphitedata/test.py:50 | `*.*.*` reaches `_find_paths` as three stars |
| FindScenario.QueryTwo | graphitedata/test.py:52 | `*.branch2.*` reaches `_find_paths` as its three patterns |
| FindScenario.QueryThreeFive | graphitedata/test.py:53 | `*.branch{3,5}.*` reaches `_find_paths` as its three patterns |
| FindScenario.FoundByStar | graphitedata/hbase/hbasedb.py:316-367 | a linked one-segment name is found by `*` |
| FindScenario.FindTopBranches | graphitedata/test.py:49 | `*` finds `branch1` and `branch2` |
| FindScenario.FindAllMetrics | graphitedata/test.py:50-51 | `*.*.*` finds all four metrics |
| FindScenario.FindBranch2 | graphitedata/test.py:52 | `*.branch2.*` finds the two metrics under `branch1.branch2` |
| FindScenario.FindBranches3And5 | graphitedata/test.py:53 | `*.branch{3,5}.*` finds `branch1.branch3.metric4` and `branch2.branch5.metric1` |
| FindScenario.TestCreateNodes | graphitedata/test.py:11-53 | after the four `create` calls on an empty table, every node the test asserts is among those `find_nodes` yields for its query, and none of the four searches raises |
| HbaseDB.HbaseTSDB.constructor | graphitedata/hbase/hbasedb.py:53-69 | a fresh installation: both tables empty and the counter incremented once; the empty namespace table satisfies both tree invariants |
| HbaseDB.HbaseTSDB.MetricInfo | graphitedata/hbase/hbasedb.py:91-97 | info returns the metric's record exactly when its row has `cf:INFO`, and raises "No metric" otherwise |
| HbaseDB.HbaseTSDB.SetAggregationMethod | graphitedata/hbase/hbasedb.py:101-108 | overwrites the method and the threshold (even with None), keeps the archives and every other row, raises for an unknown metric, and keeps both tree invariants |
| HbaseDB.HbaseTSDB.Create | graphitedata/hbase/hbasedb.py:114-155 | advances the counter by one per archive and leaves the table as `Namespace.Created` describes; an empty list raises before writing; links keep resolving when the first segment is not empty, and stay canonical for a plain metric |
| HbaseDB.HbaseTSDB.AllocateArchives | graphitedata/hbase/hbasedb.py:119-126 | one counter increment per archive, the records being `Schema.CreatedArchives` |
| HbaseDB.HbaseTSDB.LinkPath | graphitedata/hbase/hbasedb.py:139-155 | the link loop leaves the table as `Namespace.EnsureLinks` over the path's links |
| HbaseDB.HbaseTSDB.LinkSegment | graphitedata/hbase/hbasedb.py:143-155 | one pass adds the segment's link if absent and extends `priorParts` |
| HbaseDB.HbaseTSDB.Exists | graphitedata/hbase/hbasedb.py:278-279 | true exactly when the metric's row has a cell |
| HbaseDB.HbaseTSDB.UpdateMany | graphitedata/hbase/hbasedb.py:159-187 | raises for an unknown metric or one without archives, and otherwise leaves the data table as the planned batches applied in order, with the corrected `__propagate` |
| HbaseDB.HbaseTSDB.WalkPoints | graphitedata/hbase/hbasedb.py:166-183 | the loop ends in the state `Partition.Walk` describes, having committed its batches in order |
| HbaseDB.HbaseTSDB.SkipArchives | graphitedata/hbase/hbasedb.py:169-178 | the inner loop ends in the state `Partition.Advance` describes, having committed what it flushed |
| HbaseDB.HbaseTSDB.CommitPending | graphitedata/hbase/hbasedb.py:170-173 | the pending points are written reversed as one batch |
| HbaseDB.HbaseTSDB.ArchiveUpdateMany | graphitedata/hbase/hbasedb.py:189-220 | the data table after the slot writes and the first coarser archive's rollups, with the corrected `__propagate` |
| HbaseDB.HbaseTSDB.WriteAligned | graphitedata/hbase/hbasedb.py:197-203 | the slot writes in order, each overwriting its slot |
| HbaseDB.HbaseTSDB.PropagateIntervals | graphitedata/hbase/hbasedb.py:214-216 | one corrected rollup per unique interval, in order |
| HbaseDB.HbaseTSDB.Propagate | graphitedata/hbase/hbasedb.py:222-239 | one rollup as `WritePath.PropagateEffect` describes |
| HbaseDB.HbaseTSDB.ArchiveFetch | graphitedata/hbase/hbasedb.py:243-275 | the read loop over the ranges returns the specified read |
| HbaseDB.HbaseTSDB.ScanRange | graphitedata/hbase/hbasedb.py:259-274 | one range: a fresh list filled from the first 100000 rows of the scan |
| HbaseDB.HbaseTSDB.PlaceRows | graphitedata/hbase/hbasedb.py:265-273 | the row loop over a fresh `[None] * numSlots` list |
| HbaseDB.HbaseTSDB.Fetch | graphitedata/hbase/hbasedb.py:288-309 | fetch at time `now` returns the specified window's read |
| HbaseDB.HbaseTSDB.SelectArchive | graphitedata/hbase/hbasedb.py:305-308 | the archive loop stops at the first covering archive, or the last one |
| HbaseDB.HbaseTSDB.FindNodes | graphitedata/hbase/hbasedb.py:316-321 | discovery from ROOT over the cleaned pattern's dot-separated parts |
| HbaseDB.HbaseTSDB.FindPaths | graphitedata/hbase/hbasedb.py:323-367 | the recursive generator yields the specified nodes and error |
| HbaseDB.HbaseTSDB.ChildLinks | graphitedata/hbase/hbasedb.py:333-337 | the `subnodes` loop inserts the (name, row key) pair of each link column, in column order |
| HbaseDB.HbaseTSDB.DescendAll | graphitedata/hbase/hbasedb.py:343-352 | the loop over matched children while patterns remain |
| HbaseDB.HbaseTSDB.VisitChild | graphitedata/hbase/hbasedb.py:344-352 | a missing child row raises IndexError, a leaf child is skipped, a branch child is searched with the rest |
| HbaseDB.HbaseTSDB.LeavesAll | graphitedata/hbase/hbasedb.py:357-367 | the last-level loop: a missing row is skipped, a row with `cf:INFO` is a leaf, any other a branch |

## Left out

- Thrift and HBase I/O are not modelled. The two tables are maps, the counter is an integer, and the scanner's open/close calls are not modelled.
- JSON encoding of the info record is not modelled; the record is held as a value.
- Python floats are not modelled. A value is the 8 bytes `struct.pack(">d", v)` produces, and `util.aggregate` is a function supplied when the object is built.
- The clock (`time.time()`) is a parameter `now`.
- Float timestamps are not modelled; timestamps are integers, and a `Point` timestamp fits the `>L` field that `struct.pack` demands.
- The `print` statements and `HbaseLeafNode` are not modelled. `HbaseLeafNode` only forwards to `fetch` with the stored info. `get_intervals` is a `pass`. `NewHbaseTSDB` only parses a host string.
- Concurrency between writers is not modelled, nor the atomicity of `atomicIncrement`.
- fnmatch character classes `[...]` are not modelled; `[` is matched literally.
- Python 2 leaves dict and set iteration order unspecified. The model fixes it as first-insertion order. A row's columns are listed in ascending name order.
- Generators are modelled as finished lists with the exception that ends them. A consumer that stops early is not modelled.
- HbaseDB.HbaseTSDB.Create: requires `ValidArchiveList`, because ids and slot counts must fit the 32-bit key fields and steps must be positive. Python accepts any list and fails later, in `struct.pack` or a division.
- HbaseDB.HbaseTSDB.UpdateMany: requires `Valid()`, meaning every stored info record has positive steps and ids that fit the key fields, as `create` writes them. A hand-written record that breaks this is not modelled.
- HbaseDB.HbaseTSDB.Fetch: requires the info record's archives to be well formed, as `create` writes them.
- HbaseDB.HbaseTSDB.ArchiveFetch: requires a well-formed archive. A step of 0 would raise ZeroDivisionError in Python.
- HbaseDB.HbaseTSDB.Propagate: models the evidently intended call, described under "## Findings". The code as written raises and is modelled by `WritePath.PropagateAsWritten`.
- HbaseDB.HbaseTSDB.UpdateMany: models `update_many` with the corrected `__propagate`. As written, the call raises TypeError right after the slot writes of the first batch committed to an archive that has a coarser one, and no later batch is written (`WritePath.UpdateManyAsWrittenRaises`).
- HbaseDB.HbaseTSDB.ArchiveUpdateMany: models `__archive_update_many` with the corrected `__propagate`. As written, it writes its slots and then raises TypeError whenever its archive has a coarser one and the batch holds a point (`WritePath.ArchiveUpdateAsWrittenRaises`).
- HbaseDB.HbaseTSDB.PropagateIntervals: models the rollup loop with the corrected `__propagate`. As written, the loop raises TypeError at its first interval and changes nothing (`WritePath.PropagateAllAsWrittenRaises`).
- FindScenario.TestCreateNodes: states that every asserted node is found, as the test checks; it does not state that nothing else is found. The info records are left arbitrary, since discovery does not read them.
- FindScenario.TestCreateNodes: the rest of `testCreateNodes` (printing an info record, one `update_many` and a fetch through the found leaf) is not stated as one scenario; its steps are the operations modelled above.
- Tree.CreatedLinksResolve: holds only for names whose first segment is not empty. For a name such as `.a`, `create` links ROOT to `m_` and to `m_a`, rows it never writes, so a later search through them raises IndexError.
- Tree.CreatedCanonical: a metric with an empty segment or a `_` in a segment breaks `CanonicalLinks`; `create` accepts such names, and beyond the example of `Tree.UnderscoreShadows` the model does not state what discovery then finds.

## Findings

| source | as written | input that shows it | evidently intended | confidence | as-written member | corrected member |
|---|---|---|---|---|---|---|
| graphitedata/hbase/hbasedb.py:230-235 | `__propagate` passes `higher['archiveId']`, an integer, to `__archive_fetch`, whose first line subscripts it. It then computes the slot from `lower['numPoints']`, a key archive records do not have. | Any metric created with archives (60, 1440) and (300, 2016), then one `update_many` with a recent point: the batch for the 60-second archive calls `__propagate`, which raises TypeError. | Read the finer archive's record, compute the slot with `lower['points']`, and store the rollup in the coarser archive's slot. | high, not executed | WritePath.PropagateAsWrittenRaises | WritePath.PropagateEffect |
