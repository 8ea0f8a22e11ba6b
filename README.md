# Posting-list splitter and link-back join, modelled in Dafny

This project models two pieces of a Hadoop entity-resolution pipeline and
proves what they do.

**PreMapper** (similarity step). This mapper receives one inverted-index
posting list, with its entries already cut at `,`, and writes comparison
tasks keyed by (container id, flag).

- A list of at most one entry writes nothing.
- A list of 2 to `lengthThreshold` entries is written unchanged as one
  self-join task. Its id comes from `smallIndex`.
- A longer list is cut into `splitNum` segments of `docsInSeg = ceil(n / splitNum)`
  entries each. The mapper writes, row by row, the self join of segment i (flag 0)
  and then its cross joins with segments i+1 .. splitNum-1 (flag 1). A cross-join
  text is the two segment texts around `#`. The ids come from `bigIndex`.

When `(splitNum - 1) * docsInSeg >= n`, the mapper meets a segment with no
entries. `getSegment` then throws: `Arrays.copyOfRange` rejects a start past
the end, or `arrToStr` calls `deleteCharAt(-1)` on an empty builder. The
writes made before the throw remain in `written`. The model follows this
exactly, and proves the mapper never throws under the default configuration
(`split.num` 6, `length.threshold` 1000).

**JoinReducer** (first link-back step). This reducer walks the values of one
group.

- A value whose key carries tag 1 is a cluster id. `Integer.valueOf` reads it
  into the stored `outputValue`.
- Any other value is an entry record. Its text before the first `"::"` is
  written with the stored id.

The stored id and key are fields of the reducer instance and are never reset.
So a group with no tag-1 value is written with the id left by an earlier group,
or with 0 before any assignment. The model follows the code here: it does not
drop such entries.

Java runtime behaviour is written out:

- `String.split("::")` drops trailing empty strings. A text made only of
  `"::"` repeated yields no piece, so `contents[0]` throws
  ArrayIndexOutOfBoundsException.
- `Integer.valueOf` accepts an optional sign and decimal digits within the
  int range. Anything else throws NumberFormatException.
- Every exception ends the call, and the state left at that point is kept.

Modules:

- `Outcomes`: options, the Java exceptions and completion status.
- `Text`: the `arrToStr` join and its inverse.
- `Decimal`: `Integer.valueOf`, and the decimal form it reads back.
- `SplitPlan`: the abstract emission order of tasks over k segments, its counts
  and the pair-coverage argument.
- `Similarity`: the `PreMapper` class and the function `MapSpec` that specifies it.
- `SimilarityFacts`: what a long list produces.
- `LinkBack`: the `JoinReducer` class, the function `Run` that specifies it, and
  its properties.

## Model

| member | source | states |
|---|---|---|
| Similarity.PreMapper.constructor | src/main/java/clustering/similarity/PreMapper.java:44-69 | the configuration is stored; both counters start at 0 and nothing has been written |
| Similarity.PreMapper.Map | src/main/java/clustering/similarity/PreMapper.java:77-115 | counters, written records and outcome after one call are those of MapSpec on the old counters: nothing for n <= 1, one record (old smallIndex, 0, value) for n <= lengthThreshold, the long-list split otherwise |
| Similarity.PreMapper.MapLong | src/main/java/clustering/similarity/PreMapper.java:82-109 | computes docsInSeg = ceil(n/splitNum) and runs both loops; the new counters, records and status are those of SplitLong |
| Similarity.PreMapper.SegmentSize | src/main/java/clustering/similarity/PreMapper.java:84-87 | docsInSeg is n / splitNum rounded up, and positive for a non-empty list |
| Similarity.PreMapper.SplitRows | src/main/java/clustering/similarity/PreMapper.java:88-104 | the outer loop over segments 0 .. splitNum-2 leaves smallIndex alone; it completes, with the rows before splitNum-1 written, exactly when segment splitNum-1 has entries; otherwise it throws the exception of the first empty segment m = ceil(n/d) after the interrupted first row |
| Similarity.PreMapper.SplitRow | src/main/java/clustering/similarity/PreMapper.java:88-104 | one pass of the outer loop appends row i of the plan; only the pass for segment 0 can throw, and then exactly the self join of segment 0 and its cross joins before the first empty segment have been written |
| Similarity.PreMapper.WriteSelfJoin | src/main/java/clustering/similarity/PreMapper.java:90-93 | getSegment yields the text of segment i, and the record (bigIndex, 0, that text) is appended with bigIndex + 1 |
| Similarity.PreMapper.CrossJoinRow | src/main/java/clustering/similarity/PreMapper.java:95-103 | the inner loop appends the cross joins (i, i+1) .. (i, stop-1), each with the next bigIndex; it completes with stop = splitNum or throws at the first empty segment stop = ceil(n/d), with the exception the source raises |
| Similarity.PreMapper.CrossJoinPair | src/main/java/clustering/similarity/PreMapper.java:98-102 | writes (bigIndex, 1, partI # partJ) and increments bigIndex when segment j has entries; otherwise throws and changes nothing |
| Similarity.PreMapper.LastSegment | src/main/java/clustering/similarity/PreMapper.java:105-109 | the self join of segment splitNum-1 ends the plan: the records written are exactly those of Plan(splitNum) |
| Similarity.MapSpec | src/main/java/clustering/similarity/PreMapper.java:80-114 | no record and unchanged counters for n <= 1; for 1 < n <= threshold one record (old smallIndex, 0, value), smallIndex + 1, bigIndex unchanged; the long split above the threshold |
| Similarity.SplitLong | src/main/java/clustering/similarity/PreMapper.java:82-109 | smallIndex unchanged; bigIndex advances by the number of records; record p has id old bigIndex + p (consecutive, distinct); completes exactly when (k-1)*ceil(n/k) < n |
| Similarity.SplitLongCompletes | src/main/java/clustering/similarity/PreMapper.java:82-109 | when segment k-1 has entries, the long split writes exactly the records of Plan(k) and completes |
| Similarity.SplitLongThrows | src/main/java/clustering/similarity/PreMapper.java:82-109 | when m = ceil(n/d) < k, the long split writes the records of the first row up to segment m and throws the exception of segment m |
| Similarity.CeilDiv | src/main/java/clustering/similarity/PreMapper.java:84-87 | reference definition of docsInSeg: n / k, plus one when k does not divide n; CeilDivBounds and CeilDivPositive state its properties |
| Similarity.CeilDivBounds | src/main/java/clustering/similarity/PreMapper.java:84-87 | docsInSeg is the least d with n <= d*k: (d-1)*k < n <= d*k |
| Similarity.CeilDivPositive | src/main/java/clustering/similarity/PreMapper.java:84-87 | a non-empty list has a positive segment size |
| Similarity.Segment | src/main/java/clustering/similarity/PreMapper.java:118-119 | reference definition of the copyOfRange slice of segment i, from i*d to (i+1)*d, both clamped to the list; SimilarityFacts.SegmentBounds, SegmentsPrefix and SegmentsPartition state its properties |
| Similarity.GetSegment | src/main/java/clustering/similarity/PreMapper.java:117-121 | completes exactly when segment i starts before n; throws IllegalArgumentException when it starts past n and StringIndexOutOfBoundsException when it is empty |
| Similarity.EmptySegmentError | src/main/java/clustering/similarity/PreMapper.java:117-121 | reference definition of the exception getSegment raises for an empty segment m: StringIndexOutOfBoundsException when m*d = n, IllegalArgumentException past the end; GetSegment states the same choice |
| Similarity.GetSegmentOk | src/main/java/clustering/similarity/PreMapper.java:117-121 | getSegment completes exactly for segments below ceil(n/d), and then yields the comma join of that segment |
| Similarity.SegmentOkMeans | src/main/java/clustering/similarity/PreMapper.java:117-121 | segment s has entries exactly when s*d < n |
| Similarity.Emissions | src/main/java/clustering/similarity/PreMapper.java:88-109 | reference definition of the records written for a sequence of units from container id base; EmissionsAt and EmissionsCount state its properties, and the PreMapper methods are proved against it |
| Similarity.SegmentText | src/main/java/clustering/similarity/PreMapper.java:117-121 | reference definition of the text getSegment returns for segment s: the comma join of its slice (the empty text for an empty segment, which map never writes); SimilarityFacts.SegmentTextDecodes and GetSegmentOk state its properties |
| Similarity.UnitText | src/main/java/clustering/similarity/PreMapper.java:90-108 | reference definition of the value a record carries: partI for a self join, partI + "#" + partJ for a cross join, lastSeg for the last self join; EmissionsAt, SimilarityFacts.PlanRecordAt and CrossTextDecodes state its properties |
| Similarity.EmissionsAt | src/main/java/clustering/similarity/PreMapper.java:88-109 | one record per unit; record p has id base + p, the flag of unit p and its text |
| Similarity.EmissionsCount | src/main/java/clustering/similarity/PreMapper.java:88-109 | the records with flag f are as many as the units of that kind |
| Similarity.PlanUnitsOk | src/main/java/clustering/similarity/PreMapper.java:88-109 | when segment k-1 has entries, every unit of the plan reads only segments with entries |
| Similarity.InterruptedUnitsOk | src/main/java/clustering/similarity/PreMapper.java:88-103 | the units written before a throw read only segments with entries |
| Similarity.Interrupted | src/main/java/clustering/similarity/PreMapper.java:88-103 | reference definition of what the first pass writes before getSegment throws at segment m: the self join of 0, then the cross joins (0,1) .. (0,m-1); FirstRowInterrupted, InterruptedUnitsOk and SplitLongThrows state its properties |
| Similarity.FirstRowInterrupted | src/main/java/clustering/similarity/PreMapper.java:88-103 | an interrupted first pass has written the self join of segment 0 and its cross joins before segment m, and nothing else |
| Text.Join | src/main/java/clustering/similarity/PreMapper.java:127-133 | arrToStr: the builder after the loop is the result followed by one separator, which deleteCharAt removes; the first element starts the result; defined only for a non-empty segment |
| Text.JoinSplit | src/main/java/clustering/similarity/PreMapper.java:127-133 | joining the pieces of s at c gives back s |
| Text.SplitJoin | src/main/java/clustering/similarity/PreMapper.java:127-133 | cutting a join at its separator gives back the list when no element holds the separator |
| Text.JoinFree | src/main/java/clustering/similarity/PreMapper.java:127-133 | a character in no element, other than the separator, is not in the join |
| SplitPlan.PlanCounts | src/main/java/clustering/similarity/PreMapper.java:88-109 | k segments give k self joins, k(k-1)/2 cross joins and k(k+1)/2 units |
| SplitPlan.Plan | src/main/java/clustering/similarity/PreMapper.java:88-109 | reference definition of the emission order of the nested loops for k segments: all k rows; PlanAt, PlanCounts and PlanMembers state its properties |
| SplitPlan.RowsBefore | src/main/java/clustering/similarity/PreMapper.java:88-104 | reference definition of the units written by the outer-loop passes for segments 0 .. i-1, row by row; RowsBeforeNext, PlanAt and PlanMembers state its properties, and SplitRows is proved against it |
| SplitPlan.CrossRow | src/main/java/clustering/similarity/PreMapper.java:95-103 | reference definition of the cross joins (i, i+1) .. (i, stop-1) that the inner loop writes; CrossRowSnoc states one loop step, and CrossJoinRow is proved against it |
| SplitPlan.PlanAt | src/main/java/clustering/similarity/PreMapper.java:88-109 | the unit at Position(k, i, j) is the self join of i when i = j and the cross join (i, j) otherwise: row i, self join first, follows row i-1 |
| SplitPlan.PlanMembers | src/main/java/clustering/similarity/PreMapper.java:88-109 | the plan holds exactly the self joins of 0..k-1 and the cross joins i < j < k, each once |
| SplitPlan.CrossRowSnoc | src/main/java/clustering/similarity/PreMapper.java:95-103 | one more inner-loop step appends the cross join (i, j) |
| SplitPlan.SegmentOf | src/main/java/clustering/similarity/PreMapper.java:117-121 | position a lies in segment a / d and in no other |
| SplitPlan.CoveredExactlyOnce | src/main/java/clustering/similarity/PreMapper.java:88-121 | positions a < b of a list with n <= k*d meet in the unit at Position(k, a/d, b/d), a/d <= b/d < k, and in no other unit of the plan |
| SimilarityFacts.LongListCompletes | src/main/java/clustering/similarity/PreMapper.java:82-109 | when segment k-1 has entries, map completes with smallIndex unchanged, bigIndex + k(k+1)/2 and exactly the records of the plan |
| SimilarityFacts.LongListCounts | src/main/java/clustering/similarity/PreMapper.java:88-109 | a completed long list: k records with flag 0, k(k-1)/2 with flag 1, bigIndex advances by k(k+1)/2 and one id per record, smallIndex unchanged |
| SimilarityFacts.PlanRecordAt | src/main/java/clustering/similarity/PreMapper.java:88-109 | record Position(k, i, j) has id bigIndex + Position(k, i, j), flag 0 and segment i's text for i = j, flag 1 and the texts of i and j around '#' otherwise |
| SimilarityFacts.SegmentBounds | src/main/java/clustering/similarity/PreMapper.java:117-121 | segment i is docs[i*d .. min((i+1)*d, n)], and it has entries exactly when d > 0 and i*d < n |
| SimilarityFacts.SegmentsPrefix | src/main/java/clustering/similarity/PreMapper.java:117-121 | segments 0..i-1 one after the other are the first min(i*d, n) entries |
| SimilarityFacts.SegmentsPartition | src/main/java/clustering/similarity/PreMapper.java:84-121 | when the long list completes, all k segments have entries and together, in order, are the whole list |
| SimilarityFacts.EntryInSegment | src/main/java/clustering/similarity/PreMapper.java:117-121 | an entry of segment i sits at offset a - i*d in it |
| SimilarityFacts.LongListCoverage | src/main/java/clustering/similarity/PreMapper.java:84-121 | in a completed long list, every pair of positions a < b in segments i, j meets in the record Position(k, i, j) and in no other record; i <= j < k |
| SimilarityFacts.PlanRecordCoverage | src/main/java/clustering/similarity/PreMapper.java:88-121 | the same over the records of the plan for any segment size d with n <= k*d |
| SimilarityFacts.SegmentTextDecodes | src/main/java/clustering/similarity/PreMapper.java:127-133 | a self-join text cut at ',' gives back its segment when no entry holds a ',' |
| SimilarityFacts.CrossTextDecodes | src/main/java/clustering/similarity/PreMapper.java:98-101 | a cross-join text cut at '#' gives back the two segment texts when no entry holds a '#' |
| SimilarityFacts.LongEnoughCompletes | src/main/java/clustering/similarity/PreMapper.java:84-109 | a list longer than k(k-1) always completes |
| SimilarityFacts.DefaultsNeverThrow | src/main/java/clustering/similarity/PreMapper.java:65-114 | with split.num 6 and length.threshold 1000, map never throws |
| SimilarityFacts.EmptyLastSegment | src/main/java/clustering/similarity/PreMapper.java:84-133 | four entries, splitNum 3, threshold 3: two records are written, then StringIndexOutOfBoundsException |
| SimilarityFacts.SegmentPastEnd | src/main/java/clustering/similarity/PreMapper.java:84-120 | five entries, splitNum 4, threshold 4: three records are written, then IllegalArgumentException |
| Decimal.ParseInt | src/main/java/clustering/link_back/step1/JoinReducer.java:51 | Integer.valueOf: a value only for a non-empty text, within the int range, non-positive after '-' and non-negative otherwise |
| Decimal.ParseShow | src/main/java/clustering/link_back/step1/JoinReducer.java:51 | every int is read back from its decimal text |
| LinkBack.EntryKey | src/main/java/clustering/link_back/step1/JoinReducer.java:53-54 | the prefix of the text before its first "::", or all of it when there is none |
| LinkBack.Pieces | src/main/java/clustering/link_back/step1/JoinReducer.java:53 | the pieces between the leftmost non-overlapping occurrences of "::", empty pieces included: always at least one piece |
| LinkBack.StripTrailingEmpty | src/main/java/clustering/link_back/step1/JoinReducer.java:53 | a prefix of the pieces whose last piece is not empty; every piece it drops is empty |
| LinkBack.SplitEntry | src/main/java/clustering/link_back/step1/JoinReducer.java:53 | reference definition of String.split("::"): [""] for the empty text, otherwise the pieces without the trailing empty ones; SplitEntryFirst and PiecesAllEmpty state its properties |
| LinkBack.PiecesAllEmpty | src/main/java/clustering/link_back/step1/JoinReducer.java:53 | every "::" piece is empty exactly when the text is "::" repeated |
| LinkBack.SplitEntryFirst | src/main/java/clustering/link_back/step1/JoinReducer.java:53-54 | split("::") gives no piece exactly when the text is one or more "::", and otherwise its first piece is EntryKey |
| LinkBack.RunOutcome | src/main/java/clustering/link_back/step1/JoinReducer.java:48-58 | reduce completes exactly when every value is good; otherwise it throws at the first bad value (NumberFormatException for tag 1, ArrayIndexOutOfBoundsException for an entry); it writes one record per entry before that point and ends with the latest tag-1 id |
| LinkBack.RunOutputs | src/main/java/clustering/link_back/step1/JoinReducer.java:48-58 | the entry at p is written at index Payloads(p), in input order, with its key and the latest tag-1 id before it; the key comes from the entry text alone |
| LinkBack.AssignedGroup | src/main/java/clustering/link_back/step1/JoinReducer.java:38-57 | a group whose first value has tag 1 and a text Integer.valueOf reads as x, followed by good entries, completes and writes every entry, in order, with x |
| LinkBack.OrphansKeepCarriedId | src/main/java/clustering/link_back/step1/JoinReducer.java:34-57 | with no tag-1 value in the group the stored id is the one carried in |
| LinkBack.RunConcat | src/main/java/clustering/link_back/step1/JoinReducer.java:34-57 | two reduce calls in a row equal one over both groups: the stored id and key carry across calls |
| LinkBack.FirstBad | src/main/java/clustering/link_back/step1/JoinReducer.java:48-58 | the first value at or after i that reduce cannot process, or the end; all values before it are good |
| LinkBack.RunFrom | src/main/java/clustering/link_back/step1/JoinReducer.java:48-58 | reference definition of the loop of reduce from value i: a tag-1 value sets the stored id, an entry is written with its key and the stored id and its key becomes the stored key, and the first bad value ends the call with the exception it raises; RunOutcome, RunOutputs and RunFromConcat state its properties |
| LinkBack.Run | src/main/java/clustering/link_back/step1/JoinReducer.java:48-58 | reference definition of one reduce call, the loop from value 0; JoinReducer.Reduce is proved against it |
| LinkBack.JoinReducer.constructor | src/main/java/clustering/link_back/step1/JoinReducer.java:32-34 | the stored id starts at 0, the key empty, nothing written |
| LinkBack.JoinReducer.Reduce | src/main/java/clustering/link_back/step1/JoinReducer.java:45-59 | the new stored id, key, appended records and outcome are those of Run from the old stored id and key |

## Left out

- The Hadoop plumbing is replaced. `Context.write` becomes appending to a `written`
  sequence. The Writable types become strings, ints and pairs.
- `setup` reads `split.num` and `length.threshold` from the configuration. Here they
  are constructor parameters, required to satisfy splitNum >= 2 and
  lengthThreshold >= 1.
- Splitting the value at `,` with Java's regular-expression `split` is left out.
  `map` receives the entries already split, together with the unchanged text that
  a short list writes.
- Similarity.PreMapper.Map: the counters are unbounded integers. Java int
  wrap-around after 2^31 container ids is not modelled.
- Similarity.SegmentText: an empty segment has the empty text. The source never
  writes such a text, because getSegment throws first.
- Similarity.PreMapper.MapLong: the body is split into the helper methods
  SegmentSize, SplitRows, SplitRow, WriteSelfJoin, CrossJoinRow, CrossJoinPair and
  LastSegment. They run the same steps in the same order.
- Decimal.ParseInt: only ASCII digits are accepted. Integer.valueOf also accepts
  other Unicode decimal digits, which is not modelled.
- The shuffle is not modelled: the partitioner, the sort order and the grouping
  comparators. A group's values, each with its key's tag, are taken in the order
  they arrive. Nothing assumes that tag 1 comes first.
- The link-back driver is job configuration with no logic, and it is not part of
  this model.
- Task failure is not modelled. When map or reduce throws, Hadoop fails the task
  attempt and discards its output. The model keeps the writes made before the
  exception in `written`, and the status records the exception.
- Container-id collisions between parallel mapper instances are not modelled. The
  model covers the counters of one instance.
- tf-idf weights are carried as uninterpreted text.
