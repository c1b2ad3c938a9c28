# A Dafny model of the mixer utilities

This project models the logic in `util/util.go` of the mixer service (the
Data Commons query backend):

- **the containment closure** built by `GetContainedIn` (module `Containment`).
  It starts from the decoded type-relation records. The records whose
  predicate is `containedInPlace` are direct edges from a child type to a
  parent type. The builder keeps an adjacency map, seeds every direct edge with
  an empty list of intermediates, and then runs a FIFO worklist over each
  child's ancestors.
- **the batch split and drain** of `BigTableReadRowsParallel` (module
  `RowScan`). A key list or range list is cut into batches of at most
  `BtBatchQuerySize` = 1000 entries, and every batch is read from the store.
  The first store error wins; otherwise the rows go to the callback batch by
  batch, stopping at its first error.
- **the string and collection helpers** `GetProjectID`, `SnakeToCamel`,
  `CamelToSnake`, `StringList`, `StringContainedIn` and `CheckValidDCIDs`
  (module `TextUtil`), and `IterateSortPVs` (module `PropertyValues`).
  Module `Wrappers` holds the `Option` and `Result` types.

The code that changes state step by step is written as methods with loops:

- the closure builder: `GetContainedIn`, `WalkChild` and `ExtendParents`;
- the batch loop and the drain: `ReadRowsParallel`, `CollectBatches` and
  `DrainQueue`;
- the helpers `SnakeToCamel`, `StringList`, `StringContainedIn`,
  `CheckValidDCIDs` and `IterateSortPVs`.

Each method is proved against a specification function, and the properties
of that function are proved as lemmas.

Things the source depends on appear as parameters:

- Go's random map-iteration order is a nondeterministic choice inside
  `GetContainedIn`.
- The BigTable client is a function from a batch to its rows or an error.
- The order in which the concurrent batch tasks finish is a permutation of
  the batch indices.
- The row callback is a function from a row to an optional error.
- The callback of `IterateSortPVs` is the sequence of calls it receives.

Some behaviour of the code that a reader may not expect, each case shown
by the member named:

- A direct edge does not always keep its empty list. A later write along a
  longer path replaces it (`DirectEntryOverwritten`).
- A pair reachable along two paths keeps the path written last. The paths
  are not concatenated, and no first-found policy applies (`DiamondExample`).
- An empty row set does not give zero batches. The loop issues
  `n/1000 + 1` batches, and the last one is empty whenever n is a multiple
  of 1000 (`PartitionShape`).
- `strings.Title` upper-cases the first letter of every word of a piece, not
  only the piece's first letter (`Title`).
- `SnakeToCamel` followed by `CamelToSnake` is not the identity on every
  snake-case identifier. A one-letter word in the middle is glued to the
  next word (`OneLetterWordLost`).

## Model

| member | source | states |
|---|---|---|
| Containment.GetContainedIn | util/util.go:177-206 | for acyclic input, in whatever order the children are visited, the table holds for every (child, ancestor) key exactly the entry `ClosureEntry` gives, so the result does not depend on Go's map order |
| Containment.WalkChild | util/util.go:195-204 | the worklist loop for one child ends with the table that the worklist specification `Walk` gives for the child's parents |
| Containment.ExtendParents | util/util.go:200-203 | the inner loop sets (c, p) to the entry for (c, curr) followed by curr, for every parent p of curr, and appends those parents to the worklist |
| Containment.BuildLinkEdges | util/util.go:180-182 | p is among the parents recorded for c exactly when some containedInPlace record says c is contained in p |
| Containment.BuildLinkKeys | util/util.go:180-182 | a type has an adjacency entry exactly when it is the subtype of some containedInPlace record |
| Containment.DirectTableMatchesLink | util/util.go:181-185 | the seeded table has a key exactly for the recorded direct edges, and each of them is [] |
| Containment.ClosureEntryIsChain | util/util.go:195-204 | a (c, p) key is present exactly when p is reachable from c, and its value L spells a chain c, L[0], ..., p of direct edges |
| Containment.DirectEdgeHasEntry | util/util.go:184 | every containedInPlace record keeps its key: no key is ever removed |
| Containment.OtherPredicateIgnored | util/util.go:181 | a record with another predicate, inserted anywhere among the records, changes neither the adjacency map (parent order included) nor the seeded table nor any closure entry |
| Containment.SelfLoopRequeues | util/util.go:196-203 | a type recorded as contained in itself has no rank, and one worklist step puts it straight back, so the source's loop never ends on it |
| Containment.AcyclicHasNoCycle | util/util.go:197-204 | under the termination assumption, no chain of direct edges returns to its start |
| Containment.LoadStep | util/util.go:197-203 | one worklist step lowers the termination measure, so the unguarded loop ends on acyclic input |
| Containment.WalkLocality | util/util.go:201 | the walk of child c leaves every key of another child as it was and depends only on the (c, ·) entries, which is why the visiting order of the children does not matter |
| Containment.EndNodesAreTops | util/util.go:188-194 | a type is an end node exactly when a containedInPlace record names it and none names it as a subtype |
| Containment.ChainExample | util/util.go:180-206 | on City, County, State the table is (City,County) to [], (County,State) to [], (City,State) to [County], and (State,City) is absent |
| Containment.DiamondExample | util/util.go:201 | on the diamond A to B, A to C, B to D, C to D the entry for (A, D) is [C] alone: the later write replaces the earlier one |
| Containment.DirectEntryOverwritten | util/util.go:184-201 | with A to B, A to C and B to C, the direct edge (A, C) ends as [B], not [] |
| RowScan.ReadRowsParallel | util/util.go:256-317 | an unsupported row set fails before any batch is issued; otherwise the issued batches are the partition; a store error is returned with no callback call; otherwise the callback sees the delivered rows in order and stops at its first error |
| RowScan.IssueBatches | util/util.go:258-286 | the loop over the key list or range list issues exactly the batches of the partition, in index order |
| RowScan.PartitionShape | util/util.go:275-286 | n/1000 + 1 batches, none longer than 1000, all full but the last, the last empty exactly when n is a multiple of 1000, and the key variant used exactly when the key list is non-empty |
| RowScan.PartitionCovers | util/util.go:275-286 | the batches laid end to end are the row set: every entry is requested once, in order |
| RowScan.CollectBatches | util/util.go:288-305 | the error kept is that of the first batch to fail in completion order; otherwise the queue holds each batch's rows in completion order, one entry per batch |
| RowScan.FirstFailure | util/util.go:302-305 | there is no error exactly when every batch's read succeeds |
| RowScan.DrainQueue | util/util.go:308-316 | the callback gets every queued row in order and stops at the first error, which is returned |
| RowScan.DeliveredIsPermutation | util/util.go:288-308 | whatever the completion order, the queue holds the same rows as reading the batches in index order |
| RowScan.EveryKeyDeliveredOnce | util/util.go:275-308 | when the store answers each key batch with one row per key, every key is queued, and so offered to the callback, exactly once |
| RowScan.CallbackSeesEveryKey | util/util.go:302-316 | for such a store no batch fails; the callback never sees a key twice; the scan returns no error exactly when the callback accepts every queued row, and then the callback has seen every key exactly once |
| RowScan.BufferAsWrittenFits | util/util.go:274-275 | a buffer of one slot per entry holds a send from every batch exactly when the row set is non-empty |
| RowScan.EmptyRowSetBlocks | util/util.go:274-297 | an empty key list gives one empty range batch, which succeeds and sends into a channel with no buffer |
| RowScan.BufferNeededFits | util/util.go:274-275 | one slot per batch holds every send, and on a non-empty row set it is never larger than one slot per entry |
| TextUtil.GetProjectID | util/util.go:87-102 | an InvalidArgument error naming db exactly when no '.' follows the internal prefix (or in the whole name without it); otherwise the text before that first '.', keeping the prefix |
| TextUtil.PublicProject | util/util.go:96-101 | a public name project.dataset yields the project |
| TextUtil.InternalProject | util/util.go:88-94 | an internal name google.com:project.dataset yields google.com:project |
| TextUtil.InternalProjectExample | util/util.go:88-94 | "google.com:p.ds" yields "google.com:p" |
| TextUtil.PublicProjectExample | util/util.go:96-101 | "proj.ds.table" yields "proj": only the first '.' splits |
| TextUtil.MissingDatasetExample | util/util.go:88-99 | "google.com:proj" and "proj" are rejected |
| TextUtil.LookalikePrefixExample | util/util.go:88-101 | "google.com.x" is not internal and yields "google" |
| TextUtil.JoinSplit | util/util.go:230 | joining the pieces of a split on a one-character separator gives the string back |
| TextUtil.SplitJoin | util/util.go:230 | splitting a join of separator-free pieces gives the pieces back |
| TextUtil.SnakeToCamel | util/util.go:224-245 | a string without '_' comes back unchanged; otherwise the result is the glued pieces of `Camel` |
| TextUtil.TitleLowers | util/util.go:241 | strings.Title keeps the length and changes letter case only |
| TextUtil.CamelHasNoUnderscore | util/util.go:224-245 | the result never contains '_' |
| TextUtil.CamelDropsUnderscores | util/util.go:224-245 | up to letter case, the result is the input with its underscores removed |
| TextUtil.CamelKeepsFirstPiece | util/util.go:237-239 | the first non-empty piece is kept verbatim at the start of the result |
| TextUtil.CamelTwoWords | util/util.go:230-243 | a_b becomes a followed by Title(b) |
| TextUtil.CamelOfWords | util/util.go:230-243 | non-empty words joined by single underscores become the first word followed by the others titled |
| TextUtil.CamelExample | util/util.go:224-245 | "geo_id" becomes "geoId" |
| TextUtil.CamelToSnake | util/util.go:250-252 | the result has no upper-case ASCII letter |
| TextUtil.SnakifyInserts | util/util.go:247-251 | the replacement inserts one '_' per match of ([a-z0-9])([A-Z]) and changes nothing else |
| TextUtil.CamelToSnakeLength | util/util.go:247-252 | the output length is the input length plus the number of lower-or-digit/upper pairs |
| TextUtil.CamelToSnakeInserts | util/util.go:247-252 | without underscores, the output is the input without underscores, lower-cased |
| TextUtil.CamelToSnakeIdempotent | util/util.go:247-252 | applying CamelToSnake twice is the same as once |
| TextUtil.CamelRoundTrip | util/util.go:224-252 | camel case and back loses only underscores and letter case |
| TextUtil.SnakeRoundTrip | util/util.go:224-252 | CamelToSnake undoes SnakeToCamel on lower-case identifiers whose later words start with a letter and whose middle words have two or more characters |
| TextUtil.OneLetterWordLost | util/util.go:224-252 | x_b_y with a one-letter middle word comes back as x_by |
| TextUtil.CamelToSnakeExample | util/util.go:247-252 | "geoId" becomes "geo_id" |
| TextUtil.BreakExamples | util/util.go:247 | "aBC" becomes "a_bc" and "x1Y" becomes "x1_y": only a lower-case letter or digit before a capital is a break |
| TextUtil.StringList | util/util.go:150-156 | the result is the strings, each in double quotes, joined by ", " |
| TextUtil.StringListShape | util/util.go:150-156 | the result is "" for no strings, otherwise one quoted run whose pieces are separated by `", "` |
| TextUtil.StringContainedIn | util/util.go:159-166 | true exactly when some element equals the target |
| TextUtil.CheckValidDCIDs | util/util.go:320-327 | true exactly when no DCID contains a space or a comma |
| PropertyValues.IterateSortPVs | util/util.go:210-221 | one call per entry, with indices 0..n-1; the properties are non-decreasing and are, position by position, the sorted list of the entries' properties with duplicates kept (a permutation by SortStringsSorts); each call carries the last value given for its property |
| PropertyValues.SortStringsSorts | util/util.go:217 | the sort returns a sorted permutation of its input |
| PropertyValues.SortedUnique | util/util.go:217 | two sorted permutations of the same list are equal, so the result does not depend on the sorting algorithm |
| PropertyValues.StrLeTotal | util/util.go:217 | any two strings are ordered one way or the other |
| PropertyValues.StrLeAntisymmetric | util/util.go:217 | strings ordered both ways are equal |
| PropertyValues.StrLeTransitive | util/util.go:217 | the string order is transitive |
| PropertyValues.LastValueIsLast | util/util.go:213-216 | the map keeps the value of the last entry for a property |
| PropertyValues.LastValueAbsent | util/util.go:219 | a property that never occurs reads as "" |
| PropertyValues.IterateExample | util/util.go:210-221 | b:1, a:2, a:3 sort to a, a, b, and both calls for a carry 3 |

## Findings

| source | as written | input that shows it | evidently intended | confidence | as-written member | corrected member |
|---|---|---|---|---|---|---|
| util/util.go:274-275 | `rowChan` gets one slot per key or range, but the loop issues `rowSetSize/1000 + 1` tasks. Nothing is received before `errs.Wait()` returns, so a send past the buffer blocks. | an empty `RowList`: one task, which reads an empty range list successfully and blocks on its send into an unbuffered channel, so the scan never returns | one slot per batch, so that an empty row set returns with no callback call and no error | high for the buffer arithmetic; assumes the client answers an empty range list without error; not executed | RowScan.EmptyRowSetBlocks (with RowScan.BufferAsWritten, RowScan.BufferAsWrittenFits) | RowScan.BufferNeededFits (with RowScan.BufferNeeded; RowScan.CollectBatches sends at most one entry per batch) |

## Left out

- `ZipAndEncode` and `UnzipAndDecode` (util/util.go:104-146) wrap the gzip and base64 libraries; they are not modelled.
- Reading the type-relation file and `json.Unmarshal` in `GetContainedIn` are I/O. The model starts from the decoded records, and the ignored decoding error is not modelled.
- Go slice aliasing is not modelled, and it changes results. `append(result[TypePair{c, curr}], curr)` (util/util.go:201) gives the entries of two parents of one node a shared backing array once that node's entry has spare capacity. A later append for one of them then overwrites a slot of the other. Example: c -> x1 -> x2 -> x3 -> x4 -> x5 -> m, m -> p1, m -> p2, p1 -> q1, p2 -> q2. With Go's growth of slice capacity, the source leaves (c, q1) as [x1, x2, x3, x4, x5, m, p2], which is not a chain; the model (value semantics, as ClosureEntryIsChain states) gives [x1, x2, x3, x4, x5, m, p1]. `morep := ps` shares too, but appends to the worklist write only past the end of `link[c]`, so no parent list changes.
- Containment.GetContainedIn: requires an acyclic containment map. The source keeps no visited set, so on a cycle its worklist never ends (SelfLoopRequeues shows the smallest case). The model does not describe runs that never end, and it has no guarded variant of the walk.
- Goroutines, `errgroup`, context cancellation and the channel itself are not modelled. Their effect is the completion-order parameter, the first-failure rule and the queue. The blocking of a full channel appears only in the buffer members of the finding: RowScan.ReadRowsParallel returns normally for an empty row set, as the corrected buffer would.
- `btTable.ReadRows` is a foreign client. It is the `store` function parameter, and the per-row accumulating callback inside each task is folded into it.
- The row callback and the `IterateSortPVs` callback are pure: a function from row to optional error, and a returned trace of calls. Side effects inside them are not modelled.
- The regexp engine of `CamelToSnake` is not modelled. Its one pattern is specified directly as a left-to-right scan (`Snakify`).
- Unicode case mapping is not modelled. Upper- and lower-casing act on ASCII letters only. For `strings.Title`, non-ASCII characters count as word characters and are never case-mapped.
- `sort.Strings` is represented by an insertion sort, `SortStrings`. `SortedUnique` shows any correct sort gives the same result. The string order is lexicographic on characters, which agrees with Go's byte order for UTF-8.
- Nil `*pb.PropertyValue` entries are not modelled. Every entry has a property and a value.
- store/store.go is not part of this model: it builds BigQuery and BigTable clients and reads schema files.
- examples/get_place_obs/main.go is not part of this model: it is a command-line gRPC client.
- The constants block of util/util.go is configuration, apart from `BtBatchQuerySize` (`RowScan.BatchSize`).
