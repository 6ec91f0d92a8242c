# pg_cuvs: verified models of its algorithmic cores

pg_cuvs is a PostgreSQL extension that serves vector search from a GPU daemon.  This project
models the parts of it that compute something intricate on their own, apart from PostgreSQL, the
GPU and the network, and proves what those parts are for.  `dafny verify dfyconfig.toml` checks
all of it.

| files | what they model |
|---|---|
| `HalfFloat`, `PowersOfTwo` | the hand-written float32 to float16 conversion, against exact rounding |
| `HnswPages`, `HnswLinks`, `HnswExport` | writing a neighbour graph as pgvector HNSW pages, against reading it back |
| `TopK`, `Slack`, `Remerge`, `ScanMerge` | merging pending rows into a search result and filtering deleted ones |
| `Sidecars`, `SidecarRuns` | the append-only .delta and .tombstone files under writers that may stop anywhere |
| `DropList` | the list of index drops that waits for its transaction |
| `Bytes`, `Codec`, `Crc32` | little-endian integers, streams that run out of room, table-driven CRC-32 |
| `VectorsFile`, `ShardsFile` | the .vectors and .shards sidecar formats |
| `Histogram` | the log2 latency histogram and its percentiles |
| `RefIndex` | the CPU reference index: search, extension, compaction, adjacency |
| `GroundTruth` | the benchmark's chunked exact nearest neighbours |
| `Json`, `Manifest`, `Base64Url` | the snapshot manifest's printer and parser, and the JWT encoding |
| `BuildCorpus`, `FdRecv` | the build payload's handle and the descriptor receiver |

Code that updates state is a class or a method with loops, proved against a function; the
properties are lemmas about that function, or the method's own contract where they are about one
call.  Distances are real numbers behind an unspecified function, so only their order matters.
`qsort` and `numpy.argpartition` are any algorithm that meets their contract.

What the models take as given:

- A process that is killed, and one whose system call fails, keeps what it had written; the page
  cache survives.  The 32-byte sidecar header is written as one.  Appends exclude each other by
  the file lock.
- A page gives items consecutive offsets from 1 and has room for 8160 bytes of aligned items and
  four-byte line pointers.
- Subtransaction ids grow within a transaction, and callbacks arrive properly nested.
- The kernel gives new descriptors and mappings numbers not in use, and installs descriptors only
  with a message that has at least one byte.

Where the code and its own text differ, the code is modelled:

- the comment on the .vectors header says 36 bytes; the struct is padded to 40, and 40 are written;
- the comment in the link pass says each upper level's candidates are a strict subset of those
  below; a level may lose none of them;
- the comment on the neighbour slots places level 0 at (level+1)*m; its 2m slots start at level*m;
- `cuvs.delta_search = cpu` is described as ignoring the daemon's delta cache, but the backend
  merges the delta even when the daemon's answer already has it.

Where a promise holds only under a condition, the condition is proved:

- a .delta file past 10^9 rows is refused by its reader although its appends were acknowledged,
  which `cuvs.max_delta_rows` values above 10^9 allow (`SidecarRuns.CapAboveTheLimit`);
- a scan can lose a live row when more distinct rows are dead than its slack: in a filtered query
  when tombstones are added after the slack was computed (`ScanMerge.RacingTombstoneStarves`), in
  an index scan also without any race, once they number more than k (`ScanMerge.CappedSlackStarves`);
  for a given answer the exact condition is `ScanMerge.EnoughFetched`;
- `cuvs.delta_search` is exact on every base only where the pending rows are merged once
  (`ScanMerge.ModeExactly`): set to cpu, an index scan can return a pending row twice
  (`ScanMerge.SecondMergeRepeats`), set to gpu it can miss one (`ScanMerge.GpuModeMisses`);
- a detached segment is lost when the caller's buffer is not longer than its name
  (`BuildCorpus.ToldTheName`);
- a percentile is no upper bound from 2^31 microseconds on (`Histogram.ReportBounds`);
- a manifest with a quote in a string does not come back (`Manifest.RoundTrip`);
- the benchmark's ground truth raises for k = 0 on a corpus that is not empty
  (`GroundTruth.BruteForceGt`).

## Model

| member | source | states |
|---|---|---|
| HalfFloat.FloatToHalf | src/hnsw_export.c:264-301 | for every 32-bit pattern the result keeps the sign, is a NaN exactly for a NaN, is infinity exactly from 65520 up, and otherwise is the binary16 nearest to the exact value with ties to even, subnormals and carries into the exponent included (`ConvertsTo`, section 4.3.1 of IEEE 754-2019) |
| HalfFloat.FieldsReassemble | src/hnsw_export.c:264-301 | sign, exponent and significand are the bit fields of the two interchange formats (section 3.4 of IEEE 754-2019) |
| HalfFloat.Scales | src/hnsw_export.c:264-301 | the exact magnitudes those two specifications use agree on zero, one and the largest half, 65504, and each has its own smallest subnormal |
| HalfFloat.Binades | src/hnsw_export.c:264-301 | adding one to the exponent doubles the magnitude in both formats |
| HalfFloat.ConversionMonotone | src/hnsw_export.c:264-301 | of two floats that are no NaN the smaller never converts to the larger half |
| HalfFloat.RoundingMonotone | src/hnsw_export.c:264-301 | round-to-nearest-even of magnitudes is monotone |
| HalfFloat.ExactRounds | src/hnsw_export.c:264-301 | a magnitude a half can hold rounds to that half, and to no other |
| HalfFloat.WidenedHalfReturns | src/hnsw_export.c:264-301 | any float equal in value to a half converts to exactly that half with the sign of the float |
| HalfFloat.WidenExact | src/hnsw_export.c:264-301 | every finite half, subnormals included, has a float32 of the same value, so the previous row covers all of them |
| HnswPages.PairsFit | src/hnsw_export.c:178-245 | as many element/neighbour pairs as the size computation allows fit into the 8160 usable bytes with their line pointers |
| HnswPages.PairsPerPageExactly | src/hnsw_export.c:178-223 | the count is the largest whose pairs, each item aligned and charged twice a line pointer, fit into 8160 bytes |
| HnswPages.NeighTupleSizeMonotone | src/hnsw_export.c:190-196 | a lower level never needs a larger neighbour tuple, so checking the top level covers every element |
| HnswPages.PointerRoundTrip | src/hnsw_export.c:407-413 | splitting a block number into two halves and joining them gives the block number back |
| HnswPages.TidRoundTrip | src/hnsw_export.c:422-433 | block and offset of a heap TID come back from its stored pointer |
| HnswPages.VarlenaSize | src/hnsw_export.c:575-583 | the stored length word shifted right by two is the size of the vector with its header |
| HnswPages.NeighborSlots | src/hnsw_export.c:599-662 | the slot array is one run per level from the top down: the links of level lc start at (level-lc)*m, in-range links become the pointers of their elements, and everything else is the invalid pointer |
| HnswPages.StorePayload | src/hnsw_export.c:588-597 | the stored vector is the floats, or for half-precision columns the correctly rounded half of each |
| HnswPages.MakeElementTuple | src/hnsw_export.c:555-597 | the element tuple has its kind, the element's level, its heap TID, nine invalid further TIDs, the pointer to its neighbour tuple, zero in the unused fields, the varlena length word and its vector |
| HnswPages.Page.AddItem | src/hnsw_export.c:664-690 | the trusted page: the next offset if the aligned item and its line pointer still fit, else 0 and no change |
| HnswPages.WritePair | src/hnsw_export.c:542-690 | on any page the status and what was added are those of the inserts and offset checks in order; on a page the layout pass foresaw both items land at their assigned offsets, the element tuple first |
| HnswPages.FillPage | src/hnsw_export.c:742-793 | a page of up to k pairs holds them in order at offsets 1, 2, 3, ... |
| HnswPages.WriteElemPagesPacked | src/hnsw_export.c:742-793 | pages are appended in block order, no page overflows, every element of the graph is stored at the block and offsets of its descriptor, and no error branch is taken |
| HnswPages.WriteElemPages | src/hnsw_export.c:697-737 | the same for one pair on each page |
| HnswPages.PointerResolves | src/hnsw_export.c:407-413 | following the pointer of element j reaches exactly the tuple of element j, and no other element has that pointer |
| HnswPages.NeighborsReached | src/hnsw_export.c:542-690 | an element tuple's neighbour pointer resolves to the neighbour tuple of the same element |
| HnswLinks.HeuristicSelectNeighbors | src/hnsw_export.c:1538-1570 | the output array holds the greedy selection of the candidates and its count, whatever it held before |
| HnswLinks.SelectionIsGreedy | src/hnsw_export.c:1538-1570 | the selection is greedy: a candidate is picked exactly when fewer than m are picked before it and no earlier pick is strictly closer to it than the query is |
| HnswLinks.GreedyUnique | src/hnsw_export.c:1538-1570 | that condition has one solution |
| HnswLinks.GreedyMeans | src/hnsw_export.c:1538-1570 | at most m picks in candidate order, no earlier pick closer to a later one than the query is, and every candidate examined but skipped is dominated by an earlier pick |
| HnswLinks.CompactToLevel | src/hnsw_export.c:1843-1853 | the in-place filter leaves the candidates of level at least l, in order, at the front of the buffer |
| HnswLinks.LevelsNest | src/hnsw_export.c:1843-1853 | filtering the survivors of a lower level gives what filtering all candidates gives: the sets shrink with the level |
| HnswLinks.UpperLinks | src/hnsw_export.c:1801-1868 | every upper level's links are the greedy selection among the in-range candidates of that level, although one buffer is compacted level after level |
| HnswLinks.LinksReachLevel | src/hnsw_export.c:1801-1868 | a link at upper level l is in range, comes from the adjacency row and targets an element of level at least l |
| HnswLinks.UnlinkedIsDominated | src/hnsw_export.c:1538-1868 | for every row, level and m: an entry that names an element of that level is linked, unless m others are or some link is strictly closer to it than element i is; and no link is closer to a later link than element i is |
| HnswLinks.InRangeAt | src/hnsw_export.c:1823-1828 | every entry of the row that names an element is a candidate, in row order |
| HnswLinks.AtLevelAt | src/hnsw_export.c:1849-1852 | every candidate of level at least l survives the filter, in order |
| HnswExport.LevelZeroSlots | src/hnsw_export.c:1746-1751 | the level-0 degree is the largest even number up to the graph degree and to 64, or 2 below that |
| HnswExport.AssignLevels | src/hnsw_export.c:1762-1779 | levels are capped at 16 and zero without hierarchy; the entry is the first element of the highest level |
| HnswExport.BuildLinks | src/hnsw_export.c:1785-1868 | every descriptor carries its level, TID and the links of each of its levels, which `HnswExport.LevelZeroDecodes` and `HnswLinks.UnlinkedIsDominated` state in terms of the adjacency rows |
| HnswExport.LayOut | src/hnsw_export.c:1900-1910 | element i is given block i/k+1 and offsets 2(i mod k)+1 and +2; links and levels are untouched |
| HnswExport.WriteRelation | src/hnsw_export.c:1912-2003 | metapage and element pages are complete, every metapage field included, and no write fails |
| HnswExport.Export | src/hnsw_export.c:1746-2003 | for every size, dimension, element width, degree and level assignment the export refuses exactly a column without a dimension and a graph of which one pair at its highest level does not fit on a page, leaving the relation alone, and completes in every other case; its internal-error branches are never taken |
| HnswExport.SlotReads | src/hnsw_export.c:542-690 | slot s of level lc of element i, found the way a reader finds it, is the pointer of link s of that level |
| HnswExport.LinkDecodes | src/hnsw_export.c:542-2003 | the written pages decode to the graph at every level: each in-range link's slot is that element's pointer, which resolves to exactly that element, with its TID and vector and a level of at least lc; every other slot is invalid |
| HnswExport.LevelZeroDecodes | src/hnsw_export.c:1787-1802 | level 0 of an export is the adjacency: slot s of element i is the pointer of element adj[i][s], resolving to its tuple, TID and vector, if row i has such an entry and it is below n, and the invalid pointer otherwise |
| HnswExport.EntryDecodes | src/hnsw_export.c:1945-1968 | the metapage's entry pointer resolves to an element of the highest level |
| ScanMerge.TidInFilter | src/pg_cuvs.c:3403-3416 | the binary search finds a TID exactly when the sorted list has it |
| ScanMerge.GatherCandidates | src/pg_cuvs.c:3421-3489 | the candidates are the base hits and the admitted delta rows at their own distances |
| ScanMerge.RowIsCandidate | src/pg_cuvs.c:3421-3489 | every pending row on the whitelist, or any without one, is a candidate at its own distance, in row order |
| ScanMerge.CandidateIsRow | src/pg_cuvs.c:3421-3489 | nothing else is |
| ScanMerge.MergeDelta | src/pg_cuvs.c:3309-3515 | the arrays end with the nearest k of base and delta, whichever sorted permutation the sort produced; without delta rows they are untouched |
| ScanMerge.ApplyTombstones | src/pg_cuvs.c:3519-3583 | the in-place filter keeps, in order, exactly the hits without a committed and visible tombstone |
| ScanMerge.SurvivorsHaveNoTombstone | src/pg_cuvs.c:3556-3583 | a hit is kept if and only if no record of its TID carries a deletion the snapshot sees |
| ScanMerge.FetchCount | src/pg_cuvs.c:1708-1723 | a filtered query asks for k and one more for each counted tombstone, and fails exactly when that exceeds the largest int |
| ScanMerge.TombstonesWithinSlack | src/pg_cuvs.c:3519-3583 | with one row of slack for each tombstone record, filtering the nearest k+t and cutting to k gives the nearest k of the live rows |
| ScanMerge.MergeAndFilter | src/pg_cuvs.c:6228-6240 | merging where the mode says so and filtering the dead rows: in auto mode, whether the daemon merged or not, what is fetched is the nearest of base and delta; so it is in cpu mode after a daemon that has not merged, in gpu mode after one that has, and in any mode when none is admitted; whenever it is, the first k rows left are exactly the nearest k live ones if and only if the filter dropped no more than the slack or no live row was left out; and it drops no more than there are distinct dead rows |
| ScanMerge.FilteredKnn | src/pg_cuvs.c:6183-6300 | the same for a query with a whitelist, auto mode included, with the counted tombstones as slack; without a whitelist the daemon's answer is passed on |
| ScanMerge.ScanCount | src/pg_cuvs.c:3706-3716 | an index scan asks for k and one more for each counted tombstone, but for at most k more |
| ScanMerge.IndexScan | src/pg_cuvs.c:3706-3870 | the same for the first call of an index scan, auto mode included, with the capped slack |
| TopK.FilterExactly | src/pg_cuvs.c:3519-3589 | filtering the nearest n and cutting to k is exact if and only if the filter drops at most n-k rows or leaves none of the rows it keeps outside the n |
| Slack.SlackIsTight | src/pg_cuvs.c:3519-3589 | with more rows to drop than slack some pool of distinct rows loses a kept one |
| ScanMerge.SlackExactly | src/pg_cuvs.c:1708-1723 | a slack makes the scan exact on every corpus if and only if it is at least the number of distinct rows with a committed and visible tombstone |
| ScanMerge.RacingTombstoneStarves | src/pg_cuvs.c:6183-6300 | so a filtered query is exact on every corpus if and only if no more distinct rows are dead, when the tombstones are read, than tombstones were counted |
| ScanMerge.CappedSlackStarves | src/pg_cuvs.c:3706-3716 | and an index scan if and only if the dead rows also number at most k: its capped slack loses a live row of some corpus without any race |
| ScanMerge.MergedExactly | src/pg_cuvs.c:3852-3867 | in auto mode, in cpu mode after a daemon that has not merged, in gpu mode after one that has, or with nothing to merge, the result of the merge step is the nearest of base and delta |
| ScanMerge.ModeExactly | src/pg_cuvs.c:3852-3867 | for two rows or more, a delta mode and a daemon that has merged or not are exact on every base, answer and tie-breaking if and only if they are one of those pairs or nothing is pending |
| ScanMerge.SecondMergeRepeats | src/pg_cuvs.c:3859-3867 | in cpu mode, after a daemon that has merged, an index scan's merge is exact under every tie-breaking if and only if nothing is pending, or the answer is full and no pending row in it is as near as its last row but one |
| ScanMerge.GpuModeMisses | src/pg_cuvs.c:3859-3867 | in gpu mode, after a daemon that has not merged, it is exact if and only if nothing is pending, or the answer is full and no pending row is nearer than a row in it |
| Remerge.RemergeExactly | src/pg_cuvs.c:3859-3867 | the condition for merging a second time, over all answers, bases and pending rows |
| Remerge.UnmergedExactly | src/pg_cuvs.c:3859-3867 | the condition for not merging at all |
| ScanMerge.Emit | src/pg_cuvs.c:6284-6300 | the caller gets the first k rows but for those with the all-zero TID |
| TopK.SortedPrefixIsTopK | src/pg_cuvs.c:3490-3515 | cutting any sorted permutation of a pool, stable or not, gives its nearest k |
| TopK.TopKMeans | src/pg_cuvs.c:3490-3515 | nearest k in plain comparisons: min(k, n) rows of the pool, ascending under L2 and cosine and descending for inner products, and none left out strictly nearer |
| TopK.MergeTopK | src/pg_cuvs.c:3421-3515 | merging a pool into the nearest k of another and cutting to k loses nothing |
| TopK.FilterTopK | src/pg_cuvs.c:3519-3583 | over-fetching by the number of rows a filter removes makes filtering after the cut exact |
| TopK.DistancesDetermined | src/pg_cuvs.c:3490-3515 | two nearest-k answers over one pool have the same distances at every rank |
| Sidecars.Sidecar.PWriteAll | src/pg_cuvs.c:1727-1745 | short writes are continued until everything is written; a writer that stops leaves the prefix it managed |
| Sidecars.Sidecar.DeltaAppend | src/pg_cuvs.c:4176-4249 | for any file content and any stopping point, the bytes left behind and the success report are those of `Attempt` |
| Sidecars.Sidecar.TombstoneAppend | src/pg_cuvs.c:4326-4380 | the same for the 16-byte tombstone records |
| Sidecars.WrittenTwice | src/pg_cuvs.c:4223-4229 | the TID and the vector written one after the other are the record written at once |
| SidecarRuns.Refines | src/pg_cuvs.c:4176-4380 | one append on the bytes is one append on a log of rows with a torn tail, whatever the stopping point: a record only reaches the log with the header write |
| SidecarRuns.RunRefines | src/pg_cuvs.c:4176-4380 | after any sequence of appends under the lock the file encodes exactly the rows whose header write happened, in lock order |
| SidecarRuns.ValidatesLog | src/cuvs_util.c:654-719 | validation accepts exactly the logs of its own kind with no torn tail and at most 10^9 rows |
| SidecarRuns.DeltaValidates | src/cuvs_util.c:654-675 | any file, however it came about, is a valid delta if and only if it is a header of a positive dimension and at most 10^9 rows, in the writer's layout, and exactly that many records |
| SidecarRuns.TombstoneValidates | src/cuvs_util.c:708-719 | the same for tombstones, but for the padding at the end of the header |
| SidecarRuns.HeaderIsTheFirstLoggers | src/pg_cuvs.c:4203-4217 | the header of any file with logged records counts them and carries the dimension, metric and base CRC of the writer that logged the first |
| Sidecars.FileStarts | src/cuvs_util.c:643-706 | the headers start with DELT or TOMB and version 1 |
| SidecarRuns.ValidFileHoldsTheLog | src/cuvs_util.c:654-719 | a file that validates has the logged records, all of them, in lock order, sliced at the offsets a reader uses |
| SidecarRuns.AckedIsLogged | src/pg_cuvs.c:4176-4249 | an acknowledged record is in the log at the place the lock order gives it; a logged record without acknowledgement is one whose writer stopped after the header write and before the end of the flush |
| SidecarRuns.AckedSurvives | src/pg_cuvs.c:4176-4249 | every acknowledged record is in any file that validates, at the place the lock order gives it |
| SidecarRuns.NeverAheadByMore | src/pg_cuvs.c:4176-4249 | once a header exists the file is at least its rows long and at most one record longer |
| SidecarRuns.WriterResumes | src/pg_cuvs.c:4176-4249 | after any such run the next append that is not stopped and not at its cap succeeds, and the file validates again |
| SidecarRuns.AckHeals | src/pg_cuvs.c:4176-4249 | after an acknowledged append the file validates if and only if it has at most 10^9 rows |
| SidecarRuns.CapBoundsTheLog | src/pg_cuvs.c:4219-4220 | an append only goes ahead below its cap, so caps up to 10^9 keep the file valid |
| SidecarRuns.CapAboveTheLimit | src/pg_cuvs.c:4219-4220 | with `cuvs.max_delta_rows` above 10^9 a file at the limit acknowledges one more record and no longer validates |
| SidecarRuns.OnlyAStopTears | src/pg_cuvs.c:4203-4233 | a file with bytes but no logged record has had a first writer that stopped inside its record |
| SidecarRuns.FailsClosed | src/pg_cuvs.c:4210-4217 | after a writer that stopped before the first header, the file never changes and nothing is logged |
| SidecarRuns.FailsClosedLater | src/pg_cuvs.c:4210-4217 | and every later append reports failure, and no reader accepts the file |
| DropList.Backend.ObjectAccess | src/pg_cuvs.c:257-289 | a whole-object drop of an index of the cagra or of the flat access method is appended with the current subtransaction; tables, other access methods, missing entries, column drops and other accesses change nothing |
| DropList.Backend.XactCallback | src/pg_cuvs.c:291-323 | a commit notifies every pending drop in list order; commit, abort and prepare empty the list; other events change nothing |
| DropList.Backend.SubXactCallback | src/pg_cuvs.c:330-360 | the loops that delete and re-tag in place remove exactly the aborted subtransaction's drops, or give the committed one's to its parent |
| DropList.StepRefines | src/pg_cuvs.c:249-360 | one begin, drop, release or rollback keeps the flat list equal to the stack's frames, bottom to top |
| DropList.ListIsTheStack | src/pg_cuvs.c:249-360 | so it is at every point of every transaction |
| DropList.TreeRuns | src/pg_cuvs.c:330-360 | running a transaction tree adds its surviving drops to the frame it runs in and leaves the other frames alone |
| DropList.NotifiesSurvivors | src/pg_cuvs.c:291-360 | a committed transaction notifies exactly the drops outside its aborted branches, in order; an aborted or prepared one notifies none |
| DropList.PlayTransaction | src/pg_cuvs.c:249-360 | the callbacks themselves, driven through any transaction tree over indexes of either access method, do that and leave the list empty |
| Crc32.Table.Ensure | src/cuvs_util.c:188-205 | every entry of the table is eight steps of the shift register from its index |
| Crc32.Table.Feed | src/cuvs_util.c:213-222 | one table step of the stream is the bit-serial register fed the eight bits of the byte |
| Crc32.Table.StreamUpdate | src/cuvs_util.c:213-222 | a chunk leaves the register the bit-serial CRC leaves (section 3.2.9 of IEEE 802.3) |
| Crc32.Table.Checksum | src/cuvs_util.c:229-234 | the one-call form is the CRC-32 of the message |
| Crc32.StreamChunks | src/cuvs_util.c:206-228 | streaming any chunking of a message gives the CRC of the whole |
| Crc32.SerialConcat | src/cuvs_util.c:213-222 | the register after two chunks is the register after their concatenation |
| Crc32.SerialInjective | src/cuvs_util.c:213-222 | a fixed message maps different registers to different registers |
| Crc32.FourBytes | src/cuvs_util.c:213-222 | four bytes act as thirty-two steps of the register xor one word |
| Crc32.WindowDetected | src/cuvs_util.c:188-234 | two messages of one length that differ only inside four consecutive bytes never share a CRC |
| Crc32.CheckValue | src/cuvs_util.c:188-234 | the CRC of the ASCII digits 1 to 9 is 0xCBF43926, the published check value of this CRC |
| Bytes.WordDoubles | src/cuvs_util.c:213-222 | a byte enters the register as its own number |
| VectorsFile.Write | src/cuvs_util.c:304-331 | the stream gets header and matrix, or the prefix that fits and a failure |
| VectorsFile.SumParts | src/cuvs_util.c:342-357 | the CRC accumulated over the partitions is the CRC of their bytes end to end (`VectorsFile.PartInFile`), empty partitions included |
| VectorsFile.WriteMulti | src/cuvs_util.c:333-376 | the partitioned writer puts down header and bytes of the partitions end to end, or the prefix that fits and a failure |
| VectorsFile.PartInFile | src/cuvs_util.c:363-373 | byte j of a partition with rows is in the file right after the header and the bytes of the partitions before it |
| VectorsFile.SplitWritesTheMatrix | src/cuvs_util.c:328-376 | however a matrix is split by rows, empty partitions included, the partitioned writer's file is the contiguous writer's |
| VectorsFile.FileStarts | src/cuvs_util.c:312-313 | the header starts with VECS and version 1 |
| VectorsFile.ReadFile | src/cuvs_util.c:378-421 | the reader computes `Parse` |
| VectorsFile.ReadBack | src/cuvs_util.c:304-421 | reading back gives the matrix and the header if and only if 0 < n <= 10^9 and 0 < dim <= 65535 |
| VectorsFile.AcceptedExactly | src/cuvs_util.c:378-421 | any file is accepted if and only if it starts with the header of its own fields, those in range, with the CRC of its body, and holds the whole body |
| ShardsFile.Write | src/cuvs_util.c:490-513 | the stream gets header and records, or the prefix that fits and a failure |
| ShardsFile.CheckRecords | src/cuvs_util.c:553-574 | the record loop accepts exactly records that are in order, contiguous from 0, positive, of one dimension and metric and sum to n; its running sum stays a 64-bit value |
| ShardsFile.ReadFile | src/cuvs_util.c:515-585 | the reader computes `Parse` |
| ShardsFile.ReadBack | src/cuvs_util.c:490-585 | a written manifest is accepted, header and records intact, if and only if it is coherent |
| ShardsFile.Tiles | src/cuvs_util.c:547-574 | in every accepted manifest each position of [0, n) and nothing else belongs to a shard, and to one only |
| ShardsFile.CoherentExactly | src/cuvs_util.c:547-574 | coherent without sums: 1 to 256 records, numbered in order, of the header's dimension and metric, 1 to 10^9 rows each, the first at 0 and each ending where the next begins, the last at n |
| ShardsFile.AcceptedRecord | src/cuvs_util.c:515-585 | record i of every accepted manifest has shard id i, the header's dimension and metric, a zero reserved word, 1 to 10^9 rows and its place in the row of shards |
| ShardsFile.AcceptedWasWritten | src/cuvs_util.c:515-585 | whatever file is accepted starts with exactly the bytes the writer puts down for what was read |
| ShardsFile.FileStarts | src/cuvs_util.c:498-499 | the header starts with SHRS and version 1 |
| ShardsFile.BodyByteDetected | src/cuvs_util.c:540-545 | no accepted manifest is still accepted after one byte of its records is replaced |
| Histogram.BucketIndex | src/cuvs_util.c:129-140 | the bucket is the number of binary digits, at most 31 |
| Histogram.EdgeBounds | src/cuvs_util.c:144-152 | the edge of a sample's bucket is 0 for 0, above the sample and at most twice it below 2^31, and 2^31 from there on |
| Histogram.RecordKeeps | src/cuvs_util.c:129-140 | counting one more sample in its bucket keeps the buckets a histogram of the samples |
| Histogram.Percentile | src/cuvs_util.c:154-182 | under any rounding of the product that is monotone and exact on integers up to 2^53, the report is the edge of the bucket a rank falls in, and that rank is 1 for quantiles up to 0, the total from 1 on, q times the total when that is a positive integer, and otherwise 1 or a number above q times the total less one and at most one more than it; the loop never runs off the end |
| Histogram.RoundedRank | src/cuvs_util.c:166-170 | that rounding moves the cut product at most one up |
| Histogram.RankedBucket | src/cuvs_util.c:171-180 | the bucket a rank falls in is the bucket of the sample of that rank in sorted order |
| Histogram.ReportBounds | src/cuvs_util.c:129-182 | for any samples in any order and any quantile, the report R for the sample s of such a rank in sorted order has R = 0 for s = 0 and s < R <= 2s otherwise, if and only if s is below 2^31, and is 2^31 from there on |
| RefIndex.ShimTopk | src/cuvs_wrapper_shim_cpu.c:126-154 | the results are the rows not excluded (`RefIndex.AdmittedRows`, `RefIndex.MarkedIsExcluded`), sorted by distance and then id, cut to k, and padded with id -1 at the far end of the metric (`RefIndex.AnswerInOrder`) |
| RefIndex.OrderedUnique | src/cuvs_wrapper_shim_cpu.c:97-124 | the comparators are total on distinct ids, so any sorted permutation is the same sequence |
| RefIndex.AnswerIsTopK | src/cuvs_wrapper_shim_cpu.c:126-154 | the hits in an answer are the nearest k of the rows not excluded |
| RefIndex.AdmittedRows | src/cuvs_wrapper_shim_cpu.c:134-142 | the candidates are exactly the rows not excluded, each under its own number at its own distance to the query |
| RefIndex.AnswerInOrder | src/cuvs_wrapper_shim_cpu.c:101-154 | no slot of an answer, padding included, is strictly nearer than an earlier one, equal distances are in row order, and the padded slots are those with id -1 |
| RefIndex.PaddingIsFarthest | src/cuvs_wrapper_shim_cpu.c:147-152 | the padding is farther than every finite distance of its metric |
| RefIndex.OneBit | src/cuvs_wrapper_shim_cpu.c:136-138 | a one-word bitset holding the number 2^b stands for row b and no other |
| RefIndex.MarkedIsExcluded | src/cuvs_wrapper_shim_cpu.c:136-138 | or-ing 2^(i mod 32) into word i/32 excludes row i and no other row besides; rows from the bit count on are never excluded |
| RefIndex.MarkedIsKept | src/cuvs_wrapper_shim_cpu.c:383-390 | the same for the rows a compaction keeps |
| RefIndex.EveryKeptRow | src/cuvs_wrapper_shim_cpu.c:383-390 | every row whose keep bit is set is kept |
| RefIndex.SearchFiltered | src/cuvs_wrapper_shim_cpu.c:288-303 | the status and the results of every call, and untouched results on an error |
| RefIndex.BuildMulti | src/cuvs_wrapper_shim_cpu.c:238-263 | the corpus is the parts end to end; no index when memory runs out |
| RefIndex.PartInCorpus | src/cuvs_wrapper_shim_cpu.c:250-258 | row j of part p comes right after the rows of the parts before it |
| RefIndex.Extend | src/cuvs_wrapper_shim_cpu.c:355-372 | the new rows follow the old ones; a failed extend leaves the index as it was |
| RefIndex.Compact | src/cuvs_wrapper_shim_cpu.c:375-397 | a new index of exactly the kept rows, in order |
| RefIndex.CompactThenSearch | src/cuvs_wrapper_shim_cpu.c:126-397 | searching the compacted index and mapping ids back is the filtered search of the original, padded tail included, for every metric and k, when the bitsets agree on every row |
| RefIndex.CompactAndSearch | src/cuvs_wrapper_shim_cpu.c:126-397 | the same of the three calls themselves, on their result arrays |
| RefIndex.ComplementAgrees | src/cuvs_wrapper_shim_cpu.c:126-397 | bitsets that span the corpus and are word-wise complements agree on every row |
| RefIndex.AdjacencyRow | src/cuvs_wrapper_shim_cpu.c:459-487 | for more than one row the padding loop never runs; a lone row is padded with itself |
| RefIndex.ExtractAdjacency | src/cuvs_wrapper_shim_cpu.c:459-487 | every stored row is the start of the sorted other rows |
| RefIndex.AdjacencyRowIsNearest | src/cuvs_wrapper_shim_cpu.c:459-487 | a stored row is min(32, n-1) distinct rows other than the node itself, nearest first, and no row left out is nearer |
| GroundTruth.ArgPartition | bench/issue_162_halfvec_recall.py:36-56 | the selected positions are distinct and in range and hold the nearest of the array; on an empty axis the call raises |
| GroundTruth.AbsorbChunk | bench/issue_162_halfvec_recall.py:36-56 | partitioning the running best with a chunk gives the nearest of everything seen so far, and raises exactly for k = 0 |
| GroundTruth.BruteForceGt | bench/issue_162_halfvec_recall.py:36-56 | raises exactly for chunks of no rows and for k = 0 on a corpus that is not empty; otherwise, for every corpus, k and chunk size, min(k, n) distinct in-range ids whose distances are the smallest of the corpus in order |
| GroundTruth.GroundTruthMeans | bench/issue_162_halfvec_recall.py:36-56 | ground truth in terms of the distances alone: min(k, n) distinct rows in ascending distance, none left out strictly nearer |
| GroundTruth.ChunkSizeIrrelevant | bench/issue_162_halfvec_recall.py:36-56 | two runs with different chunk sizes have the same distance at every rank |
| Json.StrstrIsFirst | src/cuvs_objstore.c:208-210 | the search finds the first match, and none if there is none |
| Json.JsonGetStr | src/cuvs_objstore.c:202-219 | the copying loop yields the text before the next quote, cut to the buffer, and fails on a missing quote or a cut |
| Json.JsonGetNumber | src/cuvs_objstore.c:221-253 | the number behind the first match of the key |
| Json.JsonFindObj | src/cuvs_objstore.c:255-266 | the text behind the opening brace of the first match of the key |
| Json.BlanksPassed | src/cuvs_objstore.c:210 | spaces, tabs and line ends in front of a value are passed over, and nothing else is |
| Json.Conversions | src/cuvs_objstore.c:221-253 | a signed field is cut off at the ends of 64 bits; an unsigned one is the value modulo 2^32, or all ones when its digits exceed 64 bits |
| Json.SkipQuoted | src/cuvs_objstore.c:202-266 | a quoted string is never taken for a key unless it is the key with a colon behind it |
| Manifest.Lookup | src/cuvs_objstore.c:202-266 | in a printed document a key's first match is the first entry with that key, values that spell keys included |
| Manifest.BlockLocated | src/cuvs_objstore.c:869-891 | the repeated sha256 and size_bytes keys found behind an artifact's brace are that artifact's own |
| Manifest.FromJson | src/cuvs_objstore.c:838-893 | the sequence of extractions computes `Parse` |
| Manifest.NumeralReads | src/cuvs_objstore.c:230-251 | white space, a sign or none and a decimal numeral are read as that number |
| Manifest.PrintedForm | src/cuvs_objstore.c:778-836 | the printed document line by line: its keys, their order, the spacing, and which two artifacts it has |
| Manifest.ParsePrint | src/cuvs_objstore.c:778-893 | a manifest in its shape and without quotes comes back from its printed form |
| Manifest.RoundTrip | src/cuvs_objstore.c:778-893 | for every manifest the struct can hold, parsing undoes printing if and only if no string holds a quote and the fields outside the shape are zero |
| Manifest.ParsedIsPlain | src/cuvs_objstore.c:838-893 | whatever text is parsed, the result holds no quotes, fits the struct and has one shape |
| Manifest.ParsedIsStored | src/cuvs_objstore.c:838-893 | what is parsed from a C string is a manifest the struct can hold |
| Manifest.PrintFits | src/cuvs_objstore.c:778-836 | every manifest the struct can hold prints, as a C string, into the 4096-byte buffer without being cut |
| Base64Url.FirstPass | src/cuvs_objstore.c:125-136 | the first pass writes one quartet for each group, with placeholders where bytes are missing |
| Base64Url.SecondPass | src/cuvs_objstore.c:137-142 | the in-place pass leaves the text without its placeholders, and a terminator |
| Base64Url.SqueezedKeeps | src/cuvs_objstore.c:137-142 | only placeholders are dropped and nothing is added |
| Base64Url.Encode | src/cuvs_objstore.c:118-143 | the buffer ends with the encoding and a terminator |
| Base64Url.EncodingIsBase64Url | src/cuvs_objstore.c:118-143 | the encoder's output is the one string the strict decoder of section 5 of RFC 4648 maps to the input, and has ceil(4n/3) characters |
| BuildCorpus.Corpus.Open | src/cuvs_build_corpus.c:157-202 | everything new in the process belongs to the handle, a failed open leaves nothing, and all other objects keep their bytes; memfd is tried first unless it was refused before, a named segment only without one, and the heap is last |
| BuildCorpus.Corpus.Resize | src/cuvs_build_corpus.c:204-237 | on success the new size is mapped with the old bytes first; on failure the handle still owns its object and a prefix of the old bytes; nobody else's resources change |
| BuildCorpus.Corpus.Close | src/cuvs_build_corpus.c:239-259 | exactly the handle's descriptor, mapping and name are released, each once |
| BuildCorpus.Corpus.Detach | src/cuvs_build_corpus.c:261-292 | a named segment stays linked, with its bytes, and its name is copied as far as it fits; every other case is a close |
| BuildCorpus.Session | src/cuvs_build_corpus.c:86-292 | over every sequence of operations and failures the process ends with the descriptors, mappings and object contents it began with, its names still linked to their objects, and exactly the segments handed off, each once and with the bytes it had |
| BuildCorpus.ToldTheName | src/cuvs_build_corpus.c:268-272 | the caller was told the name of the segment it was handed if and only if its buffer is longer than the name |
| BuildCorpus.FullBufferSuffices | src/cuvs_build_corpus.c:268-272 | a buffer of the handle's own 64 bytes always is |
| FdRecv.Process.KeepFirst | src/cuvs_build_corpus.c:408-431 | of all installed descriptors the first stays open and the others are closed once |
| FdRecv.Receive | src/cuvs_build_corpus.c:381-464 | the call succeeds if and only if a message with bytes and no truncated control data comes first, interruptions aside, and at least len >= 1 bytes get through; then the payload is the first len of them and at most one descriptor, the first of the message, is new in the process; otherwise none is |
| FdRecv.DeliveredExactly | src/cuvs_build_corpus.c:381-464 | the same of the specification the loops are proved against, with the received bytes end to end |

## Left out

- The daemon, the CUDA wrapper, sockets, shared-memory search plumbing, curl and OpenSSL: library and network code.
- Planner hooks, custom scans, options, catalog and permission checks, the cost model: thin code over PostgreSQL.
- Float rounding inside distance sums, and distances that are NaN.
- The HNSW import through hnswlib, and random level generation: levels are arbitrary values.
- Failed memory allocations, except in `RefIndex.Extend` and `RefIndex.BuildMulti`.
- Reading a sidecar while an append is under way: the merge takes the lock shared, so it sees the file between appends.
- The readers' further gates on a sidecar, its base generation and the session's own row cap, and the error a scan raises when one fails.
- Sidecars.Sidecar.DeltaAppend: file offsets are unbounded integers; `off_t` does not wrap for the dimensions a vector column can have.
- Sidecars.Sidecar.WriteHeader: the 32 bytes are one step; a header torn in the middle is not modelled.
- VectorsFile.Write: float32 words are their bytes.
- VectorsFile.WriteMulti: the row total is unbounded; the C code's is a 64-bit sum.
- Histogram.Percentile: fewer than 2^53 samples, which 32 counters of 32 bits always hold; a NaN quantile is not modelled.
- Histogram.ReportBounds: counters do not wrap at 2^32.
- ScanMerge.IndexScan: `base` is the rows the daemon's search considers; how near an approximate search comes to the whole corpus is the daemon's affair.
- RefIndex.BuildMulti: the caller's total is the sum of the parts.
- RefIndex.Extend: rows are vectors in a sequence; reallocation of the float buffer is not modelled.
- RefIndex.AdjacencyRow: at most 2^32 rows, as ids are cast to 32 bits.
- DropList.Backend.XactCallback: a notification that fails is reported and forgotten; the report and the chained hooks are not part of this model.
- GroundTruth.BruteForceGt: one query row of the matrices; the distance expansion and its clipping are part of the given distances.
- HnswPages.Page.AddItem: a trusted object; PageAddItem itself is PostgreSQL's.
- HnswExport.Export: fewer than 2^31 elements, as TID files are capped at 10^9 and the C code casts ids to `int`; write-ahead logging, locks and buffers around the page writes.
- Manifest.FromJson: the struct is a value updated field by field, so aliasing of its buffers is not modelled.
- Json.JsonGetNumber: `strtoul` and `strtoll` are specification functions, sign, saturation and the 32-bit cast included; the two callers share the search.
- BuildCorpus.Corpus.Open: the name generator and the failure reasons are arbitrary; the reaper and other processes that unlink names are not part of this model.
- BuildCorpus.Session: a worker opens only a handle that is empty; opening a live one would overwrite it.
- FdRecv.Receive: the peer's replies are a list; sending is a single `sendmsg` and is left out.
- `cuvs_circuit_*`, request batching, auto shard counts, TID encoding and metric names: short branches and expressions.
