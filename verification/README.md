# talon-db: the index engine, modelled and proved

talon-db keeps JSON documents per entity and, in the same transaction as every write, updates seven
secondary indexes by delta: inverted (terms), numeric, temporal (event logs), group-by, closure
(ancestor and descendant tables), running statistics and absence (last occurrence). Queries read the
indexes and trust them. This project models that engine in Dafny and proves that, in every state any
run can reach, each index says exactly what a brute-force reading of the live documents would say; and
where the code does not keep such a law, it states the exact condition under which one write does.

How the pieces fit:

- `Order`, `Float64`, `Documents`, `Postings`, `Buckets`: byte order, binary64 bit patterns
  (section 3.4 of IEEE 754-2019) and the byte-sortable key, JSON documents and the term extractor, bitmaps
  keyed by string, bucket names.
- `IdMaps`, `Inverted`, `Numeric`, `Temporal`, `Groups`, `Closures`, `Stats`, `Absences`: one module per index
  file. Each has a class whose methods update its buckets in place as the code does, a specification of the
  update on values, and lemmas that the update keeps the index in agreement with the documents.
- `Engine`: the state of one entity, the transactions as relations on it, and the invariant `Inv`. `Runs`,
  `Restricted` and `Replay` reason about whole runs of single operations, rolled-back transactions included;
  `Histories` shows that a history of single calls and batches is such a run, so their laws hold on it;
  `Batches` says when the visiting order of a batch matters to the chains.
- `Stores`: the store object. Its methods are proved to take exactly the transactions of `Engine`, or to
  leave the state as it was; its readers are proved to answer what the invariant promises.
- `Sequences` and `Clusters`: the two greedy scans over a sorted log, with completeness. `Queries` and
  `Aggregates`: the structured query composer. `VectorIndexes` and `VectorStores`: vectors on disk, their
  in-memory mirror with tombstones, and crashes between the two.
- `Witnesses`: documents and calls, from a new store on, on which laws fail outside their conditions.
  `Scenarios`: small runs from a new store whose answers are known.

What documents, numbers and clauses mean is stated apart from the code that computes it: terms and numbers
are read off a document's paths (`Documents.TermsSpelled`, `Documents.NumsRead`), events, parents and groups
off its fields (`Documents.EventRead`, `Documents.ParentRead`, `Groups.KeysRead`), values off consecutive bit
patterns (`Float64.NextValue`), comparisons off the byte order (`Queries.OrderingMeans`).

Main results: `Runs.RunInv` with `Histories.HistoryInv` (every index, every run), `Queries.Query` (narrowing
equals the plain scan, for literals of every comparable type, with the exact exception),
`Restricted.RunChainsExact` with `Restricted.AncestorsAndDescendants` and
`Restricted.PutRefusedExactly`, `Restricted.RunStatsTrue`, `Restricted.RunCellsExact`,
`Float64.NumKeyOrder` with `Runs.RangeExact`, `Sequences.SequenceWalk`, `Clusters.ClusterScan`,
`VectorStores.StepExact` with `VectorStores.RunMirrors`, `VectorIndexes.Index.Search`, `Replay.RunLogRight`
with `Replay.RunKinds`, `Aggregates.RowsConserve`.

Properties that fail without a side condition, each with a concrete counterexample and the exact condition:

| law | fails on | holds if and only if |
|---|---|---|
| chains are the walks along parent fields | `Witnesses.ReparentingGoesStale` | `Restricted.PutChainsExact`, `Restricted.DeleteChainsExact` |
| a put that closes a cycle is refused | `Witnesses.CycleAccepted` (`Witnesses.CycleRefused` in another order) | while chains are exact: `Restricted.PutRefusedExactly` |
| a batch leaves exact chains in every visiting order | `Batches.BatchChainsStale` | `Batches.BatchChainsExact`: no document it moves ends up with a child |
| incremental statistics are true | `Witnesses.TwoValuesMiscounted` | `Restricted.PutAggregatesExact` |
| last-occurrence cells are true, owner and time | `Witnesses.LoweredOverwriteLies` | `Restricted.PutCellsExact`, `Restricted.DeleteCellsExact`; for the times alone `Restricted.PutTimesExact`, `Restricted.DeleteTimesExact` |
| LastSeen is the latest event of the item and type | `Witnesses.NamesakeAnswers` | `Absences.LastSeenExact` |
| GroupCount equals brute force | `Witnesses.StrangerCounted` | `Runs.GroupCountExact` |
| first and last bracket a group | `Witnesses.ZeroTimeForgotten` | `Restricted.PutHoldsExactly` (a Delete never fails: `Restricted.DeleteHolds`) |
| a numeric range finds every value in it | `Witnesses.NegativeZeroMissed` | `Runs.RangeWhole` |
| a narrowed query returns the plain scan | `Witnesses.ZeroSignHides`, `Witnesses.IntegerHides` | `Queries.Query` |
| replaying events rebuilds the documents | `Witnesses.BlankMisleadsEvents` | `Replay.DeleteReplaysExactly` |
| a document's event kinds follow | `Witnesses.BlankMisleadsEvents` | `Replay.PutKindsExactly` (a Delete never fails: `Replay.DeleteKindsExactly`) |
| the vector mirror equals the disk, which can be reopened | `Witnesses.SharedBucketBreaksReopen` | `VectorStores.StepExact`, from `VectorStores.InsertExact`, `VectorStores.DeleteExact`, `VectorStores.DropExact` |

Where code and documentation disagree the model follows the code: a query's `Entity` term neither binds nor
constrains although its comment says so (bboltstore/query.go:39-41); the extractor emits `status:active`, not
the `:status:active` of the usage example (README.md:57); the comment on reparenting (bboltstore/indexhooks.go:188-192)
speaks of the moved document only, and the chains of its descendants are left as they were.

## Model

| member | source | states |
|---|---|---|
| Documents.Walker.Emit | internal/index/terms.go:66-75 | a non-empty term joins the set once, the slice stays duplicate-free |
| Documents.Walker.EmitLeaf | internal/index/terms.go:77-83 | a leaf adds its bare text and the last path segment joined to it; what that means for a document is TermsSpelled |
| Documents.Walker.WalkObject | internal/index/terms.go:85-89 | collected terms and numerics grow by exactly those of the object, whatever order its fields are visited in |
| Documents.Walker.WalkArray | internal/index/terms.go:91-136 | the same for an array, whose elements share the path |
| Documents.Walker.WalkValue | internal/index/terms.go:91-136 | the same for any JSON value |
| Documents.Extract | internal/index/terms.go:42-58 | terms come out sorted, duplicate-free and equal to the recursively defined term set; numerics likewise; anything but a JSON object yields nothing |
| Documents.DocNumsFinite | internal/index/terms.go:91-136 | every numeric contribution is a finite value |
| Documents.TopLevelTerm | internal/index/terms.go:77-136 | every top-level scalar contributes the composite term the query composer looks up |
| Documents.TermsSpelled | internal/index/terms.go:77-136 | a term is extracted if and only if some scalar leaf, at the end of a key path through objects and arrays, prints as it, or as its part after the path's last key and a colon |
| Documents.NumsRead | internal/index/terms.go:91-136 | a number is extracted under a name if and only if it is a finite leaf at the end of a path whose last key is that name |
| Documents.EventRead | bboltstore/temporal.go:42-76 | a document is the event of an item, type and time if and only if item_id and type are those strings and at is a number converting, or a string parsing, to that time |
| Documents.ParentRead | bboltstore/closure.go:37-54 | a document has a parent if and only if its parent field is that non-empty string |
| Documents.ScalarRead | bboltstore/groupby.go:40-77 | the grouped attributes are the other scalar fields of a document with a string item_id, as they print |
| Scenarios.NestedTermFound | internal/index/terms.go:77-83 | from a new store: a field of a nested object is found under its own name |
| Scenarios.TextTimeSeen | bboltstore/temporal.go:64-72 | from a new store: an event with a textual time is seen at the parsed time |
| Float64.ValueInjective | bboltstore/numidx.go:33-44 | finite bit patterns with equal values are equal, except the two zeros |
| Float64.NextValue | bboltstore/numidx.go:124-132 | zero is worth 0, and each next pattern one unit in the last place more: 1 through the subnormals and the first binade, twice as much in each later one, in units of 2^-1074 |
| Float64.ValueDoubles | bboltstore/numidx.go:124-132 | one more in the exponent doubles a normal value |
| Float64.ValueNegates | bboltstore/numidx.go:124-132 | the sign bit negates |
| Float64.FiniteMeans | internal/index/terms.go:91-136 | a pattern is finite below that of infinity and a NaN beyond it, whatever the sign |
| Float64.ValueOfOne | bboltstore/numidx.go:124-132 | the pattern of 1.0 is worth 2^1074 units |
| Float64.SortableRoundTrip | bboltstore/numidx.go:124-132 | undoing the sortable transformation gives back the bit pattern |
| Float64.SortableOrder | bboltstore/numidx.go:33-44 | the transformed words are ordered as the values are, subnormals included, with negative zero just below zero |
| Float64.NumKeyRoundTrip | bboltstore/numidx.go:124-132 | a key is 12 bytes and decodes to its value and id |
| Float64.NumKeyInjective | bboltstore/numidx.go:33-44 | equal keys come from equal values and ids |
| Float64.NumKeyOrder | bboltstore/numidx.go:33-44 | byte order of keys is value order first, id order second |
| IdMaps.AssignKeeps | bboltstore/idmap.go:47-91 | assignment keeps the two maps mutually inverse, changes no earlier id and hands out a fresh one, through the 32-bit wrap-around |
| IdMaps.RefusesOnlyWhenFull | bboltstore/idmap.go:47-91 | the counter refuses only after every 32-bit id but 0 is taken |
| IdMaps.IdMap.Assign | bboltstore/idmap.go:47-91 | returns the existing id, a fresh one, or refuses without a change once the counter has wrapped |
| IdMaps.IdMap.Materialize | bboltstore/lookup.go:220-243 | fails exactly on an orphan id, else lists each id's document once |
| Inverted.DiffSorted | bboltstore/indexhooks.go:282-300 | the merge pass yields exactly the two set differences |
| Inverted.InvertedIndex.Add | bboltstore/invindex.go:30-43 | sets one bit and nothing else |
| Inverted.InvertedIndex.Remove | bboltstore/invindex.go:47-65 | clears one bit and drops the term when its bitmap empties |
| Inverted.InvertedIndex.ApplyDelta | bboltstore/indexhooks.go:115-128 | the bucket after the delta is the bucket with the document's old bits cleared and new bits set |
| Inverted.InvertedIndex.Lookup | bboltstore/invindex.go:69-83 | the stored bitmap, empty for an unknown term |
| Inverted.InvertedIndex.LookupPrefix | bboltstore/invindex.go:87-103 | seek-and-walk returns the union over every term with the prefix |
| Inverted.ScanCovers | bboltstore/invindex.go:87-103 | keys with a prefix form one block of the byte order, so the walk misses none |
| Inverted.UpdateKeeps | bboltstore/indexhooks.go:115-128 | the delta carries agreement with the documents from the old contents to the new |
| Numeric.ScanIsRange | bboltstore/numidx.go:92-122 | the bounds test on encoded keys accepts a value if and only if it is in the open or closed range and not a zero of the wrong sign |
| Witnesses.NegativeZeroMissed | bboltstore/numidx.go:92-122 | from a new store: a stored negative zero lies in a closed range that starts at zero and is not found |
| Numeric.NumericIndex.Add | bboltstore/numidx.go:65-74 | one key joins the attribute's bucket |
| Numeric.NumericIndex.Remove | bboltstore/numidx.go:78-87 | one key leaves the attribute's bucket |
| Numeric.NumericIndex.Apply | bboltstore/indexhooks.go:266-278 | removing all old and inserting all new values leaves exactly the new keys of the document beside those of others, even where they overlap |
| Numeric.NumericIndex.Range | bboltstore/numidx.go:92-122 | a bound that is not finite is an error; else the cursor scan returns exactly the ids of keys in the bounds |
| Numeric.NumReplace | bboltstore/indexhooks.go:266-278 | the update keeps every bucket equal to the keys of the live documents' values |
| Numeric.ScanFindsHolders | bboltstore/numidx.go:92-122 | on an agreeing bucket the scan finds exactly the documents with an accepted value |
| Temporal.FilterEntries | bboltstore/temporal.go:166-174 | drops exactly the entries of one document, in order |
| Temporal.SortByTime | bboltstore/temporal.go:79-90 | sorted by time and a permutation |
| Temporal.TemporalIndex.Add | bboltstore/temporal.go:79-90 | the item's log becomes a time-sorted arrangement of the old one without the document plus the new entry |
| Temporal.TemporalIndex.Remove | bboltstore/temporal.go:93-105 | the document's entries leave, and the bucket goes when its log empties |
| Temporal.TemporalIndex.Apply | bboltstore/indexhooks.go:245-261 | remove under the old item, add under the new one |
| Temporal.TemporalIndex.Read | bboltstore/temporal.go:109-128 | the log, filtered to the given record types when any are given |
| Temporal.TempMoveKeeps | bboltstore/indexhooks.go:245-261 | every log stays sorted and holds exactly the live events as a multiset, a bucket existing if and only if it is non-empty, whatever the unstable sort does with ties |
| Temporal.OfKindsSorted | bboltstore/temporal.go:109-128 | filtering by record type keeps a log sorted |
| Temporal.OfKindsCounts | bboltstore/temporal.go:109-128 | the filter keeps every entry of the given types, as often as it occurs, and no other |
| Sequences.SequenceWalk | bboltstore/sequence.go:88-114 | no result if and only if no increasing index choice spells the steps within the window; else the result starts at the smallest feasible index and ends earliest |
| Sequences.WalkFrom | bboltstore/sequence.go:88-114 | the inner walk is pointwise earliest among all choices with its start |
| Sequences.NoMatchFrom | bboltstore/sequence.go:88-114 | a start whose greedy walk falls short or overruns the window starts no match |
| Sequences.SequenceJoin | bboltstore/sequence.go:23-81 | lists exactly the candidate items with a match, in candidate order and as often as asked for, each with its best one |
| Sequences.JoinLists | bboltstore/sequence.go:34-80 | an item is reported if and only if it is asked for, or no list is given, and it has a match |
| Clusters.ClusterScan | bboltstore/cluster.go:54-93 | clusters are disjoint, in order, contiguous, large enough, within the window and right-maximal, and cover every index that starts a dense run |
| Groups.GroupIndex.Add | bboltstore/groupby.go:85-122 | count rises only for a new member, first and last merge, bitmap gains the id; whose times first and last are is RunTight |
| Groups.GroupIndex.Remove | bboltstore/groupby.go:125-162 | undoes the membership, dropping the key with its last member, and touches no other key |
| Groups.GroupIndex.Apply | bboltstore/indexhooks.go:215-239 | key by key, leave under the old document and join under the new one, in any visiting order |
| Groups.GroupIndex.Read | bboltstore/groupby.go:165-185 | the stored record, zero when missing |
| Groups.GroupMoveKeeps | bboltstore/indexhooks.go:215-239 | count stays the bitmap's size, bitmaps stay the live documents with the key, no key is empty |
| Groups.MoveHoldsExactly | bboltstore/groupby.go:85-122 | a write keeps all live members between first and last if and only if no other member is earlier than the joining time while first is 0 |
| Groups.MoveKeepsBracket | bboltstore/groupby.go:85-122 | with positive times first and last go on bracketing every live member |
| Witnesses.ZeroTimeForgotten | bboltstore/groupby.go:85-122 | from a new store: a member without a timestamp drops out of the bracket when a later one joins |
| Groups.GroupKeyInjective | bboltstore/groupby.go:79-81 | separator-free items and attributes are recovered from the key |
| Groups.GroupRead | bboltstore/groupby.go:40-77 | a document belongs to a group if and only if item_id is that string and the attribute is a field that prints as the value |
| Groups.KeysRead | bboltstore/groupby.go:79-81 | its keys are exactly item, attribute and printed value joined by separators |
| Groups.TimeRead | bboltstore/indexhooks.go:226-230 | the time it brings is its event's, or 0 |
| Groups.SpansStep | bboltstore/groupby.go:85-162 | with positive times one move keeps first and last the least and greatest of the times written since the key was last absent |
| GroupTimes.RunTight | bboltstore/groupby.go:85-162 | on every run with positive times under a key, first and last are the least and greatest of the times written under it since it was last absent, and it is absent exactly when there are none |
| GroupTimes.RunLive | bboltstore/groupby.go:85-162 | the live members' times are among those, and are all of them if no member has left or been overwritten since |
| Scenarios.OneEventGroup | bboltstore/groupby.go:85-122 | from a new store: one event gives a count of one, first and last at its time |
| Groups.BarCollides | bboltstore/groupby.go:79-81 | with the separator in a name two groups share a key |
| Closures.ClosureTable.BuildAncestors | bboltstore/closure.go:58-77 | the parent followed by its stored chain, refused past 256 only when the parent has a chain |
| Closures.ClosureTable.Add | bboltstore/closure.go:81-117 | refuses on depth or a cycle, else stores the chain and one descendant bit per ancestor |
| Closures.ClosureTable.Remove | bboltstore/closure.go:121-158 | drops the chain and its descendant bits, dropping emptied bitmaps |
| Closures.ClosureTable.Apply | bboltstore/indexhooks.go:193-209 | remove under the old parent, add under the new one |
| Closures.UpdateKeepsTable | bboltstore/closure.go:81-158 | on every run: a chain per document with a parent, duplicate-free, without the document itself, 1 to 256 long, and descendants exactly the ids whose chain names the ancestor |
| Closures.ChainIsWalk | bboltstore/closure.go:160-174 | chains that each extend their parent's are the complete walks along the parent fields |
| Closures.WalksIff | bboltstore/closure.go:58-117 | the chains are the complete walks if and only if each extends its parent's chain |
| Closures.Acyclic | bboltstore/closure.go:81-117 | while chains are exact no path along parent fields returns to its start |
| Closures.DescendantsReach | bboltstore/closure.go:176-182 | while chains are exact Descendants is every document whose walk reaches the root |
| Closures.RefusedExactly | bboltstore/closure.go:58-117 | while chains are exact a parent is accepted if and only if the resulting walk ends within 256 steps |
| Closures.UpdateKeepsWalks | bboltstore/indexhooks.go:193-209 | an accepted write keeps the chains exact if and only if it leaves the parent alone or nobody's chain runs through the document |
| Closures.OnChainIffDescendants | bboltstore/closure.go:176-182 | being on a stored chain is having recorded descendants |
| Witnesses.ReparentingGoesStale | bboltstore/indexhooks.go:193-209 | from a new store: giving a parent to a document with a child, Ancestors of the child answers its parent alone while its walk has two documents |
| Witnesses.CycleAccepted | bboltstore/closure.go:81-117 | from a new store: three puts that close a cycle are all accepted, and no walk from the last ends |
| Witnesses.CycleRefused | bboltstore/closure.go:81-117 | from a new store: in another order the last of the same three puts is refused |
| Stats.WelfordStep | bboltstore/stats.go:38-50 | one online step carries the true count, mean, squared deviations, min and max from a collection to the collection with one more value |
| Stats.StatsIndex.MarkStale | bboltstore/stats.go:80-90 | sets the stale flag and nothing else |
| Stats.StatsIndex.AddFresh | bboltstore/stats.go:95-108 | an online step unless stale |
| Stats.StatsIndex.Apply | bboltstore/indexhooks.go:156-186 | old paths go stale, paths only in the new document take one online step with one of its values |
| Stats.StatsIndex.Scan | bboltstore/stats.go:113-130 | folding the numeric bucket in key order gives its true statistics |
| Stats.StatsIndex.Recompute | bboltstore/stats.go:113-130 | stores and returns the true statistics, no longer stale |
| Stats.StatsIndex.Read | bboltstore/stats.go:133-154 | a usable aggregate as stored, a stale one recomputed |
| Stats.IncrementExact | bboltstore/stats.go:95-108 | the online step for a document is true if and only if the document has a single value at the path |
| Stats.StatsMoveExact | bboltstore/indexhooks.go:156-186 | the hook keeps every usable aggregate true if and only if each path on the incremental branch is single-valued |
| Stats.RenamedDescribes | bboltstore/stats.go:113-130 | the statistics do not depend on the names of the values, so bucket keys and documents give the same |
| Scenarios.MeanOfOneAndThree | bboltstore/stats.go:38-50 | from a new store: the mean of 1.0 and 3.0 is the value of 2.0, the least that of 1.0, the greatest that of 3.0 |
| Witnesses.TwoValuesMiscounted | bboltstore/indexhooks.go:156-186 | from a new store: a document with two values at one path is counted once |
| Absences.AbsenceIndex.Record | bboltstore/absence.go:42-63 | an event no newer than another document's maximum is dropped, else the cell is replaced |
| Absences.AbsenceIndex.Retract | bboltstore/absence.go:68-108 | when the owner goes, the running maximum over the log's other events of the type takes over, 0 meaning none |
| Absences.AbsenceIndex.Apply | bboltstore/indexhooks.go:133-150 | retract only when the new document is empty, record when it is an event |
| Absences.AbsenceIndex.Lookup | bboltstore/absence.go:110-124 | the stored time, if any |
| Absences.UpdateExact | bboltstore/indexhooks.go:133-150 | a write keeps every cell true if and only if it is safe in a sense stated on the old cells and live events |
| Absences.UpdateTimes | bboltstore/indexhooks.go:133-150 | from true cells a write leaves every cell with the right time if and only if it is safe, or the owner leaves its cell in a tie |
| Absences.GentleIsSafe | bboltstore/indexhooks.go:133-150 | overwrites that keep item and type and do not lower the time are safe, and so is every deletion, for positive times and separator-free items |
| Absences.LastSeenIsLatest | bboltstore/absence.go:110-124 | items without the separator have no namesakes, so LastSeen is then the latest live event of the item and type |
| Absences.LastSeenExact | bboltstore/absence.go:35-124 | while its cell shows the right time LastSeen is the latest live event of the item and type, absent if and only if there is none, if and only if no event whose names spell the same cell is later than all of them |
| Witnesses.NamesakeAnswers | bboltstore/absence.go:35-37 | from a new store: an item and type with no event get the answer of others that spell the same cell |
| Witnesses.LoweredOverwriteLies | bboltstore/indexhooks.go:133-150 | from a new store: after the latest event's time is lowered LastSeen answers it although another document's event is later |
| Engine.InitInv | bboltstore/store.go:44-54 | the empty store agrees with its documents |
| Engine.ReindexInv | bboltstore/indexhooks.go:18-56 | the seven hooks carry the invariant from the old contents of a document to the new |
| Engine.PutInv | bboltstore/store.go:265-325 | a committed Put keeps every index equal to a brute-force reading |
| Engine.DeleteInv | bboltstore/store.go:136-181 | so does a committed Delete, including of zero-length documents that never touched an index |
| Runs.RunInv | bboltstore/indexhooks.go:18-95 | in every state of every run of committed or rolled-back single operations all unconditional indexes agree with the live documents |
| Runs.RunIdsStable | bboltstore/idmap.go:47-91 | an id once assigned never changes on any run |
| Runs.RunIdsNeverReused | bboltstore/idmap.go:47-127 | it keeps leading back to its document and is never given to another |
| Runs.BatchIsPuts | bboltstore/store.go:187-221 | a committed batch is a chain of committed single puts |
| Runs.BatchInv | bboltstore/store.go:187-221 | a committed batch keeps the invariant and writes exactly its documents |
| Runs.BatchOrderIrrelevant | bboltstore/store.go:187-221 | documents and both lookups are the same for every order in which the map is visited |
| Runs.Materialises | bboltstore/lookup.go:220-243 | ids of live documents all have a reverse entry and map back to exactly those documents |
| Runs.LookupExact | bboltstore/lookup.go:16-32 | Lookup is exactly the live documents whose terms contain the term |
| Runs.LookupPrefixExact | bboltstore/lookup.go:199-215 | LookupPrefix is exactly those with some term that starts with the prefix |
| Runs.ContainingRead | internal/index/terms.go:77-136 | those documents, read off their paths |
| Runs.FoundRead | bboltstore/numidx.go:92-122 | the documents found in a range, read off their number leaves |
| Runs.RangeExact | bboltstore/lookup.go:180-196 | the range lookup is exactly the live documents with a value in the range that no zero bound splits off |
| Runs.RangeWhole | bboltstore/numidx.go:92-122 | it is the whole range if and only if no live document has only split-off zeros among its values in the range |
| Runs.GroupCountExact | bboltstore/lookup.go:119-150 | GroupCount equals brute force, count and members alike, if and only if no live document reaches the key through other names |
| Runs.GroupIsUnderKey | bboltstore/lookup.go:119-150 | on every state the count and members are those of the live documents filed under the key |
| Runs.PlainNamesNoStranger | bboltstore/groupby.go:79-81 | names without the separator admit no other document under the key |
| Witnesses.StrangerCounted | bboltstore/groupby.go:79-81 | from a new store: two items that spell the same key are counted together |
| Restricted.PutChainsExact | bboltstore/indexhooks.go:193-209 | a committed Put keeps the chains equal to the walks along live parent fields if and only if it keeps the parent or the document has no recorded descendants |
| Restricted.DeleteChainsExact | bboltstore/indexhooks.go:193-209 | the same for Delete |
| Restricted.PutRefusedExactly | bboltstore/closure.go:58-117 | a Put is refused exactly when no id is left, or the walk from the document would close a cycle or exceed 256 |
| Restricted.RunChainsExact | bboltstore/closure.go:58-158 | chains are exact on every run whose writes meet that condition |
| Restricted.AncestorsAndDescendants | bboltstore/lookup.go:81-116 | then Ancestors is the walk, never contains the document, and Descendants is exactly the documents whose walk reaches the root |
| Restricted.PutAggregatesExact | bboltstore/indexhooks.go:156-186 | a committed Put keeps the aggregates true to the live documents' values if and only if every incremental path is single-valued |
| Restricted.DeleteAggregatesExact | bboltstore/indexhooks.go:156-186 | a committed Delete always does |
| Restricted.ReadAggregatesExact | bboltstore/stats.go:133-154 | reading recomputes a stale aggregate to the true one and spoils no other |
| Restricted.RunAggregatesExact | bboltstore/stats.go:38-154 | on every run of single-valued documents all usable aggregates are the true statistics of the live documents' values |
| Restricted.BucketIsLive | bboltstore/stats.go:113-130 | a numeric bucket and the live documents' values at its path have the same statistics |
| Restricted.OneValueEach | bboltstore/stats.go:95-108 | for single-valued documents these are the statistics of one value per document |
| Restricted.RunStatsTrue | bboltstore/lookup.go:60-78 | on every run of single-valued documents a usable aggregate describes one value per live document that has the path |
| Restricted.PutCellsExact | bboltstore/indexhooks.go:133-150 | a committed Put keeps every last-occurrence cell true, owner and time, if and only if it is safe |
| Restricted.DeleteCellsExact | bboltstore/indexhooks.go:133-150 | the same for every Delete |
| Restricted.PutTimesExact | bboltstore/indexhooks.go:133-150 | from true cells a committed Put leaves the right times if and only if it is safe or the owner leaves in a tie |
| Restricted.DeleteTimesExact | bboltstore/indexhooks.go:133-150 | from true cells a committed Delete leaves the right times if and only if the successor is recoverable |
| Restricted.LatestRead | bboltstore/temporal.go:42-76 | the latest live event of an item and type, read off the documents' fields |
| Restricted.RunCellsExact | bboltstore/absence.go:42-108 | cells are true on every run with positive times, separator-free items and gentle overwrites, also after the owner is deleted |
| Restricted.PutHoldsExactly | bboltstore/groupby.go:85-122 | a committed Put keeps a group's live members bracketed if and only if it drops none of the others |
| Restricted.DeleteHolds | bboltstore/groupby.go:125-162 | a committed Delete always keeps the remaining members bracketed |
| Restricted.RunBracketed | bboltstore/groupby.go:85-162 | first and last bracket all live members on every run that adds only positive times under the key |
| Replay.RunLogRight | bboltstore/store.go:76-181 | on every run replaying the emitted events gives the visible documents, each event carries the content it replaced and the right kind, and rolled-back transactions add nothing |
| Replay.RunReplays | bboltstore/store.go:265-325 | with no zero-length documents the replay is the document map itself |
| Replay.KindsFollow | bboltstore/store.go:313-324 | an event list whose events are right and bring visible documents reads assert, changes, retract, repeated, for each document |
| Replay.RunKinds | bboltstore/store.go:265-325 | on every run without zero-length puts each document's kinds follow, and end present exactly for live documents |
| Replay.PutKindsExactly | bboltstore/store.go:313-324 | where the log is right a Put continues the document's kinds if and only if the replay does not hold it as zero-length content; over such a document it asserts again |
| Replay.DeleteKindsExactly | bboltstore/store.go:163-174 | where the log is right a Delete always continues them: it retracts visible content and is silent about the rest |
| Replay.DeleteReplaysExactly | bboltstore/store.go:136-181 | a Delete keeps the replay exact if and only if the document is not a stored zero-length one |
| Witnesses.BlankMisleadsEvents | bboltstore/store.go:163-174 | from a new store: storing a zero-length document twice asserts it twice, deleting it emits nothing, and the replay keeps it |
| Stores.Store.constructor | bboltstore/store.go:44-54 | a new store is the initial state |
| Stores.Store.Reindex | bboltstore/indexhooks.go:18-95 | the hooks in their order perform the specified move of every index, and only the closure hook can fail |
| Stores.Store.PutInTx | bboltstore/store.go:265-325 | fails exactly when no id is left or the closure index refuses, else performs the Put transaction and returns its event |
| Stores.Store.Put | bboltstore/store.go:76-100 | commits the Put transaction with its event, or leaves the whole state as it was |
| Stores.Store.Delete | bboltstore/store.go:136-181 | commits the Delete transaction, emitting only for a document that was really there |
| Stores.Store.BatchPut | bboltstore/store.go:187-221 | all documents, each visited exactly once, in one transaction, or no change at all; it fails only on an empty id, a cancelled context, or a document refused after some of the others |
| Stores.Store.Lookup | bboltstore/lookup.go:16-32 | never an orphan error; exactly the live documents one of whose leaves spells the term, each once |
| Stores.Store.LookupPrefix | bboltstore/lookup.go:199-215 | exactly the live documents with a leaf that spells a term starting with the prefix, each once |
| Stores.Store.LookupNumericRange | bboltstore/lookup.go:180-196 | an error exactly for a bound that is not finite, else the live documents with a number leaf in the range that no zero bound splits off, each once |
| Stores.Store.SequenceJoin | bboltstore/sequence.go:23-81 | over the stored logs, exactly the items with a match in candidate order, each with its best one |
| Stores.Store.ClusterQuery | bboltstore/cluster.go:30-49 | the cluster guarantees on the item's stored log filtered by type, with the minimum size raised to 1 |
| Stores.Store.LastSeen | bboltstore/lookup.go:35-57 | the stored time; while the cell shows the right time, the latest time any live document gives for the item and type if and only if no namesake is later |
| Stores.Store.RunningStats | bboltstore/lookup.go:60-78 | the true statistics of the live documents' values, per document when single-valued, if and only if the path's aggregate was stale or true |
| Stores.Store.GroupCount | bboltstore/lookup.go:119-150 | never an orphan error; the documents under the key, each once, with their number; the brute-force answer if and only if no stranger; first and last are the least and greatest of the times the record spans, and bracket the members while held |
| Stores.Store.Ancestors | bboltstore/lookup.go:81-97 | the stored chain, never with the document itself; while chains are exact the complete walk along parent fields |
| Stores.Store.Descendants | bboltstore/lookup.go:100-116 | never an orphan error; the documents whose stored chain names the root, each once; while chains are exact those whose walk reaches it |
| Histories.HistoryIsRun | bboltstore/store.go:76-221 | every history of single calls and batches is a run of single operations through the same states in order, asking for nothing else |
| Histories.HistoryInv | bboltstore/indexhooks.go:18-95 | in every state of every history all unconditional indexes agree with the live documents and the event log is right |
| Histories.HistoryIdsStable | bboltstore/idmap.go:47-91 | an id once assigned never changes on any history |
| Histories.HistoryReplays | bboltstore/store.go:187-221 | without zero-length documents the replay is the document map and kinds follow, batches included |
| Histories.HistoryStatsTrue | bboltstore/stats.go:38-154 | with single-valued documents the aggregates are true on every history |
| Histories.HistoryBracketed | bboltstore/groupby.go:85-162 | with positive times first and last bracket live members on every history |
| Histories.HistoryTight | bboltstore/groupby.go:85-162 | with positive times first and last are the extremes of the times written along the flattened history since the key was last absent |
| Histories.HistoryChainsExact | bboltstore/closure.go:58-158 | chains are exact on every history each of whose single writes keeps parents |
| Histories.HistoryCellsExact | bboltstore/absence.go:42-108 | cells are true on every history each of whose single writes is gentle |
| Batches.BatchChainsExact | bboltstore/store.go:187-221 | if no document a batch moves ends up with a child, every visiting order that commits leaves the chains exact |
| Batches.BatchAncestorsAgree | bboltstore/store.go:187-221 | and then any two such orders give every document the same ancestors |
| Batches.BatchChainsStale | bboltstore/store.go:187-221 | if a document ends up below one the batch moves, an order that does not visit it later leaves its chain stale |
| Batches.PutStores | bboltstore/closure.go:81-117 | a Put stores the parent followed by the parent's chain of the moment and changes nobody else's chain |
| Queries.AllGrows | bboltstore/query.go:250-320 | matching never rebinds or drops a variable |
| Queries.FirstIsFirst | bboltstore/query.go:302-315 | Or answers with the first branch that matches from the same bindings, and fails if and only if all fail |
| Queries.OrderingMeans | bboltstore/query.go:424-439 | the ordering operators compare numbers as their sortable patterns do, the two zeros being equal |
| Queries.OrderingNeedsNumbers | bboltstore/query.go:424-430 | nothing but two numbers passes them |
| Queries.RangeIsComparisons | bboltstore/query.go:431-438 | a numeric range is the two comparisons with its bounds |
| Queries.EqualityMeans | bboltstore/query.go:456-466 | equal are the same scalars and the two zeros; lists, objects and NaN equal nothing |
| Queries.TextMeans | bboltstore/query.go:440-452 | the text operators ask for a prefix, a suffix or a part |
| Queries.TextNeedsStrings | bboltstore/query.go:440-452 | nothing but two strings passes them |
| Queries.UnknownOperator | bboltstore/query.go:418-454 | no other operator passes anything |
| Queries.FullTextMeans | bboltstore/query.go:322-345 | full text asks for a string field, or the one named, that contains the query when both are folded |
| Queries.NotMeans | bboltstore/query.go:317-320 | a clause list and its negation never both match, one of them always does, and the negation binds nothing |
| Queries.PatternsHold | bboltstore/query.go:275-294 | every pattern of a match holds under the bindings it leaves: the field is there and equals the literal or the variable's binding |
| Queries.UnboundIsNil | bboltstore/query.go:411-416 | an unbound variable equals no literal and orders with none |
| Queries.FilterMeans | bboltstore/query.go:275-300 | binding a number field and comparing the variable passes exactly the documents whose number compares, and binds it |
| Queries.EntityBound | bboltstore/query.go:404-409 | every match binds the entity variable to the document id, as a number if it reads as one |
| Scenarios.PriceBelowFound | bboltstore/query.go:431-438 | from a new store: a price of five passes a bound of ten and gives its row |
| Queries.MatchAll | bboltstore/query.go:250-257 | the mutating evaluator refines the pure one, result and bindings |
| Queries.MatchOne | bboltstore/query.go:259-273 | the same per clause; a failed clause and a negation leave the bindings as they were |
| Queries.MatchPattern | bboltstore/query.go:275-294 | literal, bound variable, free variable and wildcard behave as in the pure evaluator |
| Queries.MatchOr | bboltstore/query.go:302-315 | branches run on scratch bindings, the matching one is merged back exactly, failed ones leak nothing |
| Queries.MatchFullText | bboltstore/query.go:322-345 | case-folded containment in the named field, or in some string field |
| Queries.CollectAnchors | bboltstore/query.go:211-223 | exactly the top-level patterns with a literal attribute and value |
| Queries.IntersectSorted | bboltstore/query.go:386-402 | sorted intersection |
| Queries.GatherCandidates | bboltstore/query.go:227-246 | in docID order, exactly the live documents that carry every anchor's term |
| Queries.AnchorFinds | bboltstore/query.go:349-372 | a document on which an anchor clause holds carries the anchor's term unless its value prints unlike the literal and no other field supplies the term |
| Queries.MatchesAreAnchored | bboltstore/query.go:115-246 | a matching document is a candidate |
| Queries.NarrowingKeepsMatches | bboltstore/query.go:142-187 | leaving out documents that do not match leaves the sequence of matches alone |
| Queries.NarrowingLosesMatch | bboltstore/query.go:142-187 | leaving out one that does match loses a match |
| Queries.ScanExactly | bboltstore/query.go:115-187 | the candidates' matches and rows are the plain scan's if and only if no matching document is hidden by a value that prints unlike the literal |
| Queries.OneScan | bboltstore/query.go:142-187 | the plain scan of the live documents in docID order exists and is unique |
| Queries.NoNegativeZeroHidesNothing | bboltstore/query.go:349-372 | with no negative zero stored or queried, and integer literals that print as floats do, nothing is hidden |
| Witnesses.ZeroSignHides | bboltstore/query.go:349-372 | from a new store: a stored negative zero matches a queried zero and its row is lost |
| Witnesses.IntegerHides | bboltstore/query.go:353-372 | from a new store: a stored 1234567 matches the integer literal 1234567, which prints differently, and its row is lost |
| Queries.ClashHides | bboltstore/query.go:349-372 | equal values with different texts hide the document |
| Queries.EvaluateAll | bboltstore/query.go:142-187 | the candidate loop yields the bindings and one projected row per matching document, in order |
| Queries.Query | bboltstore/query.go:115-187 | an error if and only if there is no anchor; else, column by column, exactly the rows of evaluating all clauses on every live document in docID order, if and only if nothing is hidden |
| Aggregates.SumLoop | bboltstore/aggregate.go:79-92 | sum and count of the numeric bindings |
| Aggregates.NumberRead | bboltstore/aggregate.go:138-152 | only number bindings count, for what they are worth |
| Aggregates.BestLoop | bboltstore/aggregate.go:94-136 | the least or greatest number among the members, nil when there is none |
| Aggregates.Compute | bboltstore/aggregate.go:58-77 | each aggregate function's meaning on its members, nil for an unknown one |
| Aggregates.Bucketize | bboltstore/aggregate.go:16-56 | one bucket per key text holding exactly its matches in order |
| Aggregates.KeyTextTells | bboltstore/aggregate.go:154-163 | where the printed parts have no separator, two keys have the same text if and only if every part prints equally |
| Aggregates.RunAggregates | bboltstore/aggregate.go:16-56 | one row over all matches without grouping; else one row per key text, in strictly increasing order, showing every grouping variable of the group |
| Aggregates.MembersPartition | bboltstore/aggregate.go:16-56 | every match is in its own group and in no other |
| Aggregates.GroupsConserve | bboltstore/aggregate.go:16-92 | group counts and sums add up to the ungrouped ones |
| Aggregates.RowsConserve | bboltstore/aggregate.go:16-92 | in the returned rows a count or sum column adds up to the ungrouped answer |
| Aggregates.RowsBest | bboltstore/aggregate.go:94-136 | in the returned rows the best of a min or max column is the ungrouped answer |
| Aggregates.QueryAggregated | bboltstore/query.go:115-187 | a query with aggregates answers over the documents the index finds, and over the plain scan unless a match is hidden; an error if and only if there is no anchor |
| Aggregates.BestOfBests | bboltstore/aggregate.go:94-136 | the best of the groups' bests is the ungrouped best |
| VectorIndexes.Index.Insert | vectorindex/index.go:125-164 | replaces or adds the node and un-buries it; a wrong dimension is refused after the un-burying |
| VectorIndexes.Index.Delete | vectorindex/index.go:219-240 | buries a live node, and reports whether there was one |
| VectorIndexes.Index.DropScope | vectorindex/index.go:246-258 | forgets the scope |
| VectorIndexes.Index.Len | vectorindex/index.go:303-311 | the live count |
| VectorIndexes.Index.Search | vectorindex/index.go:176-210 | given a graph that returns the nearest nodes, over-fetching by the tombstones returns exactly the nearest min(k, live) live ones in order |
| VectorIndexes.FilteredNearest | vectorindex/index.go:176-210 | the first k live hits of an over-fetched answer are the k nearest live nodes |
| VectorStores.BlobRoundTrip | bboltstore/vector.go:271-291 | decoding an encoded vector gives it back |
| VectorStores.EncodeLoop | bboltstore/vector.go:271-277 | four little-endian bytes per component |
| VectorStores.EncodedBytes | bboltstore/vector.go:271-277 | component i takes four bytes from 4 i on, least significant first |
| VectorStores.DecodeLoop | bboltstore/vector.go:279-291 | refuses exactly a ragged length or a wrong count, else decodes |
| VectorStores.DataNameInjective | bboltstore/vector.go:100-151 | for separator-free entities data buckets of different scopes have different names |
| Witnesses.SharedBucketBreaksReopen | bboltstore/vector.go:100-151 | from a new store: two accepted inserts whose scopes share a bucket leave a disk that cannot be reopened |
| VectorStores.InsertExact | bboltstore/vector.go:100-151 | for any entity, commit and mirror update of an accepted insert keep disk well-formed and mirror exact if and only if every other scope in the bucket already holds the vector, alone if the scope is new |
| VectorStores.DeleteExact | bboltstore/vector.go:169-200 | for any entity, a delete does if and only if no other scope sees the vector |
| VectorStores.DropExact | bboltstore/vector.go:205-240 | for any entity, dropping a scope does if and only if no other scope has a vector in its bucket |
| VectorStores.RebuildMirrors | bboltstore/vector.go:61-90 | replaying a well-formed disk gives an exact mirror |
| VectorStores.StepExact | bboltstore/vector.go:61-240 | a commit, mirror update, or crash and reopening keeps the machine right if and only if it is harmless in that sense |
| VectorStores.RunMirrors | bboltstore/vector.go:61-240 | on every run of harmless steps, crashes between commit and mirror update included, live memory equals disk whenever nothing is pending, with the registered dimension and metric |
| VectorStores.FirstInsertFixes | bboltstore/vector.go:100-151 | the dimension and metric of the first insert into a scope stay registered until the scope is dropped |
| VectorStores.ColonFreeRunMirrors | bboltstore/vector.go:61-240 | so it does on every run over colon-free entities, whose scopes never share a bucket |
| VectorStores.VectorStore.Reopen | bboltstore/vector.go:61-90 | on a well-formed disk the rebuild never fails and yields the replayed mirror; it succeeds only if every blob decodes at its scope, and a failure sticks |
| VectorStores.VectorStore.Insert | bboltstore/vector.go:100-151 | refused without effect after a failed rebuild, for a bad name, an empty vector or the dimension lock, else commit and mirror with the registered metric; done exactly when the mirror accepts too |
| VectorStores.VectorStore.Delete | bboltstore/vector.go:169-200 | not found, or refused after a failed rebuild, without effect, else commit and mirror |
| VectorStores.VectorStore.DropScope | bboltstore/vector.go:205-240 | refused without effect after a failed rebuild, else the data bucket goes in any case, the mirror only for a registered scope |
| Buckets.NamesDistinct | bboltstore/store.go:334-342 | for valid entities bucket names differ across family, entity and suffix |
| Buckets.LogScanExact | bboltstore/sequence.go:34-50 | scanning names for an entity's log prefix yields exactly its items, also beside vector buckets of unvalidated entities |
| Buckets.OthersUntouched | bboltstore/store.go:334-342 | no run of writes to one entity's buckets changes a bucket of another |

## Left out

- grpcserver, proto and cmd: wire translation, listeners and error-code mapping.
- Subscribe and Emit fan-out: delivery to subscribers; the model keeps the sequence of emitted events.
- Foreign libraries: the HNSW graph is a map with an assumed nearest-first search, a roaring bitmap is a set, snappy is the identity.
- Stores.Store.Put: bbolt's own refusals (an empty key, as for a numeric field named with the empty string, or a key over its size limit, disk errors) are not among the reasons for failure; runs allow any transaction to be rolled back, so the run theorems cover them.
- JSON, RFC 3339 and float formatting: documents start parsed; parsing and formatting are arbitrary functions of a `Host`, and JSON null members, like absent ones, contribute nothing.
- Floating-point rounding: statistics and aggregates use exact arithmetic on reals, in units of 2^-1074.
- Timestamps: int64 differences in the sequence and cluster windows are unbounded integers, so wrap-around is not modelled.
- Query literals that are lists or objects: comparing two of them stops the Go program; here they are unequal. Go numbers of types the comparison does not know equal nothing there, and are left out.
- Internal records (logs, chains, cells, metadata) are assumed to read back as written; as JSON they would replace bytes that are not valid UTF-8, which document ids may contain.
- Queries.Query: covers requests without aggregates, `Aggregates.QueryAggregated` those with them.
- Stores.Store.SequenceJoin: takes the items from the log map; that scanning bucket names finds the same items is `Buckets.LogScanExact`.
- Stores.Store.Lookup: the order of the materialised ids (bitmap order) is not stated; callers that need an order sort.
- Overlapping writers: events and mirror updates happen after the commit and outside the lock, so statements about their order are for operations one at a time.
- The window argument of WindowQuery, which the code ignores; docMeta times and versions; Get, Scan, scope listings and validation messages: easy members.
- One store object is one entity; that entities do not interfere is `Buckets.NamesDistinct` and `Buckets.OthersUntouched`.
