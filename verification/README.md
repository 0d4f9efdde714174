# NovaDB, modelled and proved in Dafny

NovaDB is a small document database written from scratch. This project models the parts that hold
its state and its branching, and proves what they promise:

- **Index.** The B+ tree in its arena of nodes with the linked leaf chain, its structural check and its
  checksummed snapshot (`keys`, `key_order`, `leaves`, `tree`, `arena`, `chain`, `stored`, `verify_tree`, `tree_laws`,
  `bplus_tree`, `lists`, `snapshot`, `snapshot_laws`).
- **Queries.** The index catalog, the indexed backend over the in-memory one, the expression evaluator, the
  planner, the pipeline stages, the executor, and the expression parser (`catalog`, `backend`, `backend_runs`,
  `evaluate`, `evaluate_laws`, `planner`, `sorting`, `sort_laws`, `listings`, `pipeline`, `stage_laws`, `stored_values`,
  `queries`, `query_laws`, `lost_answers`, `grammar`, `forms`, `printer`, `parentheses`, `parser`).
- **Durability.** The write-ahead log to the byte, recovery, the transaction coordinator, and whole runs with
  crashes (`wal`, `log`, `recovery`, `outcomes`, `locks`, `transactions`, `transaction_runs`).
- **Storage.** CRC-32, slotted pages, the page file, the buffer pool, varints, the NBF document codec and the
  storage engine (`checksum`, `crc_polynomials`, `bytes`, `pages`, `page_laws`, `page_file`, `buffer_pool`, `varints`,
  `nbf`, `nbf_laws`, `nbf_codec`, `utf8`, `engine`), and the layout of all files (`formats`).
- **Calendar.** Dates from day counts and timestamp fields (`calendar`).

Objects that change in place are classes with `modifies` clauses, loops are loops with invariants, and each
method is proved against a specification on values; the theorems are about those specifications and about
whole runs. What the specifications themselves compute is proved against descriptions that do not use them: floats
by the numbers they stand for, operators by arithmetic and truth tables, sorting by the values under the keys,
parsing by the written forms of expressions, checksums by polynomial division, text by code points, and files by
the tables of their format documents. `dafny verify dfyconfig.toml` checks everything.

Conventions: bytes and machine integers are subset types of `int` with their ranges; a float is its 64 bits; a
`NovaId` is the number that its 16 bytes spell, whose order is the byte order; UTF-8 text is its bytes; error
texts are dropped and error kinds kept. Files are byte sequences or arrays of page images, and a method that
the source runs under a mutex is one atomic step.

Where code and documentation differ, the code is followed:

- `docs/nbf-format.md` promises `decode(encode(d)) == d` for every document; the encoder replaces a NaN by the
  canonical one. Bit by bit the document comes back if and only if each NaN in it is the canonical one
  (`NbfLaws.SameDocument`, with `NbfLaws.PayloadLost` at a document that does not). In the code's own `==`, which
  `Document` and `NovaValue` derive and which compares floats as IEEE 754 does, the decoded document is equal if and
  only if there is no NaN at all (`NbfLaws.EqualAgain`); `NbfLaws.CanonicalNanUnequal` has both at one document.
- The comment at crates/nova-planner/src/lib.rs:62-64 says that index selection cannot alter query correctness. It
  can in two ways. A document with `-0.0` is equal to the literal `0.0` for the filter but has another index key, so
  the answer can lose it (`Planner.OppositeZeroIsLost`). And where the filter fails on some document, the full scan
  fails, while the index scan may never read that document and answer (`Planner.FailureIsLost`).
  `LostAnswers.ZeroLost` and `LostAnswers.FailureDeletes` follow both through whole histories: a query that finds
  nothing, and a delete that removes a document where the full scan would have failed and changed nothing.
  `Planner.FilterSelect` and `Planner.PlanKeepsAnswer` give the exact condition: if the filter decides every document,
  no match holds the opposite zero; otherwise it fails on a document that the chosen index returns.
- The structural check of the tree does not compare keys with the bounds that an inner node inherits, so it accepts
  files whose lookups miss keys (`TreeLaws.AcceptedMayMisroute`, `SnapshotLaws.MisroutedFileOpens`). On an accepted
  arena all lookups are right if and only if every key lies within the separators of all its ancestors
  (`TreeLaws.AcceptedLookups`), which every reachable tree does (`TreeLaws.StoredWithin`); a range from a given start
  is right if and only if no leaf before the routed one holds a key at or above it (`TreeLaws.AcceptedRanges`).
- A snapshot with a string key over 16 MiB is written without complaint and refused when opened
  (`SnapshotLaws.StoredSnapshot`, with `SnapshotLaws.LongKeyLost` at a tree of one key).
- A page accepts an empty record that needs a new directory entry even when no four bytes are left, and then no
  longer serializes; the contract of `Pages.SlottedPage.Insert` says exactly when, and
  `PageLaws.EmptyRecordOverflows` is such a page.
- The log takes page images under any transaction id. Under a committed one recovery replays them all the same
  (`Outcomes.StrayReplayed`); `Outcomes.StrayImage` and the contract of
  `Transactions.TransactionManager.LogPageWrite` say exactly which ids are harmless.
- A page edited through `get_mut` so that it no longer fits, or has another id, is lost when it is evicted
  (`Buffer.EvictionKeepsExactly`, both directions; `Buffer.EditLost` at a page that took an empty record too many).
  Once the 64-bit use counter has wrapped, the victim need not be the least recently used page
  (`Buffer.VictimLeastRecent`, both directions; `Buffer.WrappedVictim` at a pool of two pages).

## Model

| member | source | states |
|---|---|---|
| IndexKeys.FractionEmbeds | crates/nova-index/src/lib.rs:74-84 | byte order of strings is a total order with no two equal strings apart |
| IndexKeys.RankEmbeds | crates/nova-index/src/lib.rs:53-84 | the derived key order, floats by totalOrder, is a strict total order that embeds in the reals |
| KeyOrder.FloatOrder | crates/nova-index/src/lib.rs:67-71 | the order of float keys is that of the numbers that sign, exponent and fraction spell, negative zero before positive, and NaNs beyond the infinities |
| KeyOrder.FloatsByValue | crates/nova-index/src/lib.rs:67-71 | of two finite floats the smaller number is the smaller key, and only the zeros are two keys for one number |
| KeyOrder.Classes | crates/nova-index/src/lib.rs:67-71 | finite floats are exactly those below 2^1024, and NaNs those that spell more than an infinity |
| KeyOrder.FloatInterval | crates/nova-index/src/lib.rs:238-243 | a closed interval of float keys holds the numbers between its ends and none outside |
| KeyOrder.TextOrder | crates/nova-index/src/lib.rs:74-84 | strings are ordered by their first difference, proper prefixes first |
| KeyOrder.LessExactly | crates/nova-index/src/lib.rs:53-84 | keys are ordered by kind, integers by value, floats and strings as above, ids as numbers |
| Leaves.PartitionPoint | crates/nova-index/src/lib.rs:517-519 | binary search over sorted separators finds the first one above the key |
| Leaves.SearchEntries | crates/nova-index/src/lib.rs:223-231 | binary search finds the key's entry or the place where it belongs |
| Leaves.InsertPairOk | crates/nova-index/src/lib.rs:331-351 | putting a pair into a leaf keeps it sorted and adds exactly that pair |
| Leaves.RemovePairOk | crates/nova-index/src/lib.rs:267-285 | taking a pair out of a leaf keeps it sorted, leaves no key without ids and drops exactly that pair |
| Leaves.IdsForComplete | crates/nova-index/src/lib.rs:223-231 | the ids found in a leaf are all and only those of the key, sorted |
| TreeModel.InsertOrdered | crates/nova-index/src/lib.rs:329-389 | insertion, leaf and inner splits included, keeps keys strictly inside inherited bounds, leaves at one depth and capacities |
| TreeModel.InsertHas | crates/nova-index/src/lib.rs:329-389 | after an insertion the tree, with its new right half if it split, has exactly the old pairs and the new one |
| TreeModel.InsertFilled | crates/nova-index/src/lib.rs:329-389 | no inner node that insertion leaves has fewer than half its children |
| TreeModel.RouteHas | crates/nova-index/src/lib.rs:391-401 | a key that is anywhere in the tree is in the one leaf its separators lead to |
| TreeModel.RemoveOrdered | crates/nova-index/src/lib.rs:267-285 | removal keeps order, bounds and depth although nodes never merge |
| TreeModel.RemoveHas | crates/nova-index/src/lib.rs:267-285 | removal drops exactly the one pair |
| Arena.InsertUses | crates/nova-index/src/lib.rs:329-389 | every arena slot is used exactly once: the old ones as before, and the new ones once each |
| Arena.RepFrame | crates/nova-index/src/lib.rs:329-389 | writing slots outside a subtree leaves the subtree as it was |
| Arena.ReplaceKidRep | crates/nova-index/src/lib.rs:353-370 | writing one child back keeps the whole node, siblings and leaf links included |
| Arena.SplitKidsRep | crates/nova-index/src/lib.rs:371-389 | splitting an inner node keeps both halves represented and the leaf chain unbroken |
| LeafChain.ChainOf | crates/nova-index/src/lib.rs:479-514 | the linked leaf chain is the list of leaves in key order |
| LeafChain.FlatOk | crates/nova-index/src/lib.rs:479-514 | the entries along the chain are strictly sorted across leaf borders |
| LeafChain.FlatHas | crates/nova-index/src/lib.rs:238-265 | the chain holds exactly the pairs of the tree |
| LeafChain.RouteChain | crates/nova-index/src/lib.rs:238-265 | from the routed leaf on, the chain holds every key at or above the searched one |
| LeafChain.PairsBetweenOk | crates/nova-index/src/lib.rs:238-265 | a cut of the chain is exactly the pairs of the closed interval, in key and id order |
| StoredTree.InsertStored | crates/nova-index/src/lib.rs:208-219 | the full invariant survives an insertion, root growth included |
| StoredTree.InsertPairs | crates/nova-index/src/lib.rs:208-219 | an insertion at the root adds exactly one pair to the map |
| StoredTree.RemoveStored | crates/nova-index/src/lib.rs:267-285 | the full invariant survives a removal |
| StoredTree.RemovePairs | crates/nova-index/src/lib.rs:267-285 | a removal drops exactly one pair from the map |
| TreeVerify.VerifyNode | crates/nova-index/src/lib.rs:404-477 | the recursive check accepts a node exactly when an ordered subtree of unvisited slots at the common depth hangs there |
| TreeVerify.WalkChain | crates/nova-index/src/lib.rs:479-514 | the chain check succeeds exactly when the links run through sorted leaves, none twice, to an end, as many as there are leaves |
| TreeVerify.Verify | crates/nova-index/src/lib.rs:314-327 | the whole check returns Ok for exactly the arenas that `Accepted` describes |
| TreeLaws.StoredAccepted | crates/nova-index/src/lib.rs:314-327 | every arena that satisfies the full invariant is accepted |
| TreeLaws.StoredFanOut | crates/nova-index/src/lib.rs:361-401 | a tree of height h has at least 2 * ((max + 1) / 2)^(h - 1) leaves, after removals too |
| TreeLaws.StoredWithin | crates/nova-index/src/lib.rs:391-401 | in every reachable tree that test holds and all lookups are right |
| TreeLaws.AcceptedMayMisroute | crates/nova-index/src/lib.rs:446-474 | a concrete arena that the check accepts, where a lookup misses a stored key and the omitted test fails |
| TreeLaws.AcceptedLookups | crates/nova-index/src/lib.rs:446-474 | on every arena that the check accepts, all lookups find exactly what is stored if and only if each key lies within the separators of all its ancestors, the test that the check omits |
| TreeLaws.AcceptedRanges | crates/nova-index/src/lib.rs:238-265 | on every arena that the check accepts, a range from a start is right for every end if and only if no leaf before the routed one holds a key at or above the start |
| BPlusTrees.BPlusTree.Insert | crates/nova-index/src/lib.rs:208-219 | adds exactly one pair to the contents and keeps the invariant |
| BPlusTrees.BPlusTree.InsertNode | crates/nova-index/src/lib.rs:329-389 | the recursion over the arena does what insertion on the tree value does, and touches no slot outside the subtree |
| BPlusTrees.BPlusTree.FindLeaf | crates/nova-index/src/lib.rs:391-401 | reaches the routed leaf in exactly as many steps as the tree is high |
| BPlusTrees.Descend | crates/nova-index/src/lib.rs:391-401 | in any arena that holds a tree with leaves at one depth, opened files included, the descent reaches the routed leaf |
| BPlusTrees.BPlusTree.Get | crates/nova-index/src/lib.rs:223-231 | the sorted ids of the key, all and only |
| BPlusTrees.BPlusTree.Range | crates/nova-index/src/lib.rs:238-265 | exactly the pairs whose keys lie between the bounds by value, in key and id order; an error exactly for an inverted interval |
| BPlusTrees.OpenedRange | crates/nova-index/src/lib.rs:238-265 | on every arena that the check accepts, the range loop cuts the chain from the routed leaf on; under that condition it returns exactly the stored pairs of the interval, in order |
| BPlusTrees.BPlusTree.Remove | crates/nova-index/src/lib.rs:267-285 | deletes exactly one pair and reports whether it existed |
| BPlusTrees.BPlusTree.Verify | crates/nova-index/src/lib.rs:314-327 | accepts every tree that satisfies the invariant |
| BPlusTrees.Run | crates/nova-index/src/lib.rs:208-327 | any history of inserts and removes from an empty tree ends in a valid, accepted tree with exactly the history's pairs |
| CodedLists.AllRoundTrip | crates/nova-index/src/lib.rs:546-576 | a run of items is read back whole if each item is |
| CodedLists.ReadMany | crates/nova-index/src/lib.rs:617-658 | the reading loop agrees with the item-by-item specification |
| Snapshot.Encode | crates/nova-index/src/lib.rs:531-580 | the writing loop produces the specified bytes, checksum last, or fails on a length over 32 bits |
| Snapshot.Decode | crates/nova-index/src/lib.rs:582-663 | the reading loop agrees with the specification, errors included |
| Snapshot.Open | crates/nova-index/src/lib.rs:181-195 | exactly the files that decode and pass the structural check are opened |
| SnapshotLaws.KeyWritten | crates/nova-index/src/lib.rs:665-708 | a key is read back from its bytes, or refused if it is a string over 16 MiB |
| SnapshotLaws.NodeWritten | crates/nova-index/src/lib.rs:546-658 | a node is read back from its bytes exactly when its keys are |
| SnapshotLaws.SnapshotRoundTrip | crates/nova-index/src/lib.rs:531-663 | a snapshot decodes to the tree it was taken from if and only if no string key is over 16 MiB |
| Formats.SnapshotLayout | crates/nova-index/src/lib.rs:531-580 | every header field of a snapshot stands where the format document says |
| Formats.KeyLayout | crates/nova-index/src/lib.rs:665-690 | tag and payload of each kind of key |
| Formats.NodeLayout | crates/nova-index/src/lib.rs:546-576 | tag, link and counts of leaves and inner nodes |
| SnapshotLaws.StoredSnapshot | crates/nova-index/src/lib.rs:181-195 | saving a reachable tree succeeds if and only if its strings and lists are countable in 32 bits; opening the file then gives the same arena if and only if no string key is over 16 MiB |
| SnapshotLaws.LongKeyLost | crates/nova-index/src/lib.rs:665-708 | a reachable tree with one longer key is saved and cannot be opened again |
| SnapshotLaws.MisroutedFileOpens | crates/nova-index/src/lib.rs:181-195 | the file of the misrouting arena is opened without an error |
| SnapshotLaws.ChangedSnapshotRejected | crates/nova-index/src/lib.rs:773-787 | changing any single byte of an accepted snapshot makes it refused |
| Documents.SplitJoin | crates/nova-core/src/document.rs:112-115 | dotted paths and lists of dot-free segments correspond |
| Planner.KeyExactly | crates/nova-index/src/catalog.rs:305-321 | no key exactly for a missing or null value, refused exactly for booleans, arrays, documents and timestamps, and otherwise the key with the very payload of the value; `_id` gives the id |
| Planner.PlanChoosesFirstUsable | crates/nova-planner/src/lib.rs:66-112 | the plan is an index scan exactly when some index of the collection fits an equality term, and then uses the first by name |
| Planner.EqualityKeyExactly | crates/nova-planner/src/lib.rs:114-146 | the key comes from the first conjunct, from left to right, that sets the field equal to a literal of a kind with keys, on either side, and there is none without such a conjunct |
| Planner.MatchHasKey | crates/nova-planner/src/lib.rs:114-146 | a document that the filter accepts has the plan's key in the index, unless it holds the opposite zero |
| Planner.FilterFails | crates/nova-executor/src/executor.rs:379-390 | filtering fails exactly when the predicate fails on some document, and always as an invalid argument |
| Planner.FilterSelect | crates/nova-executor/src/executor.rs:379-390 | filtering the index candidates gives what filtering the whole collection gives, failures included, if and only if no match holds the opposite zero or, where the full filter fails, it also fails on a candidate |
| Planner.IndexScanKeepsAnswer | crates/nova-executor/src/executor.rs:182-197 | under exactly that condition the two pipelines agree whatever stages follow the filter, failures included |
| Planner.PlanKeepsAnswer | crates/nova-planner/src/lib.rs:60-112 | the planned access path gives the answer of the full scan, whatever stages follow the filter, if and only if reading through the one index that the plan chooses is safe |
| Planner.OppositeZeroIsLost | crates/nova-index/src/lib.rs:53-71 | a concrete document that a full scan finds and the index scan loses |
| Planner.FailureIsLost | crates/nova-executor/src/executor.rs:379-390 | two documents on which the full filter fails and the index scan answers, although no match holds the opposite zero |
| EvaluateLaws.EqualIsSame | crates/nova-executor/src/evaluate.rs:182-185 | two values are equal exactly if no NaN is inside and they differ in nothing but the sign of zeros |
| EvaluateLaws.FloatsEqual | crates/nova-executor/src/evaluate.rs:184-185 | finite floats are equal exactly if they are the same number |
| EvaluateLaws.OrderIsBelow | crates/nova-executor/src/evaluate.rs:217-237 | values of one scalar kind are ordered by number, by first difference, by time or by id, and others not at all |
| EvaluateLaws.IntegersCompute | crates/nova-executor/src/evaluate.rs:239-257 | integer operators give the exact number or an overflow error; quotient and remainder divide toward zero |
| EvaluateLaws.OneQuotient | crates/nova-executor/src/evaluate.rs:246-252 | that determines quotient and remainder |
| EvaluateLaws.UnaryOk | crates/nova-executor/src/evaluate.rs:132-148 | `not` flips, negation is the additive inverse, of floats too, or an overflow error |
| EvaluateLaws.BinaryOk | crates/nova-executor/src/evaluate.rs:150-198 | short circuit, truth tables, `!=` as the negation of `==`, the four orderings as one order, membership and arithmetic, on all operands that have values, and when each fails |
| EvaluateLaws.ArrayMeans | crates/nova-executor/src/evaluate.rs:25-48 | an array has the values of its items, and fails exactly if one of them does |
| EvaluateLaws.ObjectMeans | crates/nova-executor/src/evaluate.rs:25-48 | an object has each name once, in order, with the value of its last member of that name |
| EvaluateLaws.PathMeans | crates/nova-executor/src/evaluate.rs:86-94 | `_id` reads the id, any other path the value there, or nothing |
| Sorting.ValidateSortValues | crates/nova-executor/src/executor.rs:458-474 | comparing each value with itself and with one reference accepts exactly the columns in which any two values compare |
| Sorting.CompareTransitive | crates/nova-executor/src/evaluate.rs:96-120 | comparing rows key by key, ascending or descending, is transitive on validated columns |
| Sorting.OneOrder | crates/nova-executor/src/executor.rs:432-449 | there is only one stable order of the documents |
| Sorting.SortedStable | crates/nova-executor/src/executor.rs:432-449 | insertion gives that order |
| Sorting.SortDocuments | crates/nova-executor/src/executor.rs:416-456 | fails exactly when a column holds values that do not compare, and otherwise permutes the documents into the stable order, which `SortLaws.SortedByKeys` describes |
| SortLaws.CompareMeans | crates/nova-executor/src/evaluate.rs:96-120 | missing before null before everything else, false before true, and then the order of the values; what does not compare |
| SortLaws.SortedByKeys | crates/nova-executor/src/executor.rs:416-456 | of any two results the first has the smaller value at the first key that tells them apart, the larger if that key descends, or came first before; fails exactly if two values under one key do not compare |
| Pipeline.RunAll | crates/nova-executor/src/executor.rs:379-414 | the loops over stages and documents compute the specified pipeline, drawing ids in the same order |
| StageLaws.StageOk | crates/nova-executor/src/executor.rs:379-414 | each stage by positions: a filter keeps exactly the true documents in order, a limit the first ones, a skip the rest, a sort the order above, assignments and projections document by document |
| StageLaws.FilterMeans | crates/nova-executor/src/executor.rs:382-390 | a filter fails exactly if some document has no truth value |
| StoredValues.StoredReadsBack | crates/nova-executor/src/evaluate.rs:60-84 | a value can be stored exactly if nothing inside is missing or not finite and there are ids for its documents, and it reads back as it was |
| StoredValues.SetOk | crates/nova-executor/src/executor.rs:495-514 | a path can be set exactly if it is not empty, leads through documents only, and there are ids for the missing ones |
| StoredValues.AssignMeans | crates/nova-executor/src/executor.rs:476-493 | after an assignment the path evaluates to the value that the expression had before, paths off it as before; exactly when it fails, `_id` included |
| StoredValues.AssignLast | crates/nova-executor/src/executor.rs:476-482 | later assignments see what earlier ones have set |
| Pipeline.SetReads | crates/nova-executor/src/executor.rs:484-514 | after an assignment the path reads as the value, and every path off it as before |
| Pipeline.ProjectExactly | crates/nova-executor/src/executor.rs:516-555 | a projection never fails, is part of the document, holds every listed path that the document has, and nothing on paths apart from them |
| Catalog.IndexCatalog.CreateIndex | crates/nova-index/src/catalog.rs:100-142 | a new index holds exactly the keys of the given documents; which error when, and any failure changes nothing |
| Utf8.IdentifierExactly | crates/nova-index/src/catalog.rs:323-334 | a name is valid exactly if it is not empty and each code point is a letter, a digit or the underscore |
| Catalog.IndexCatalog.InsertDocument | crates/nova-index/src/catalog.rs:183-195 | adds the document's key to every index of its collection and touches no other |
| Catalog.IndexCatalog.ReplaceDocument | crates/nova-index/src/catalog.rs:202-234 | moves the document from its old key to its new one in every index of its collection |
| Catalog.IndexCatalog.DeleteDocument | crates/nova-index/src/catalog.rs:241-253 | removes the document's key from every index of its collection |
| Catalog.IndexCatalog.DropCollectionIndexes | crates/nova-index/src/catalog.rs:165-176 | removes exactly the indexes of the collection |
| Catalog.IndexCatalog.Lookup | crates/nova-index/src/catalog.rs:260-265 | the ids under the key, or NotFound for an unknown index |
| Backend.MemoryBackend.Scan | crates/nova-executor/src/backend.rs:142-148 | every document of the collection once, in id order |
| Backend.IndexedBackend.Insert | crates/nova-executor/src/indexed.rs:53-58 | refines the plain map's insert, refuses exactly a document with an unordered value under an indexed field, fails without any change, and keeps every index in agreement |
| Backend.IndexedBackend.Replace | crates/nova-executor/src/indexed.rs:60-65 | refines the plain map's replace, refuses exactly what an index refuses, fails without any change, and keeps every index in agreement |
| Backend.IndexedBackend.Delete | crates/nova-executor/src/indexed.rs:67-71 | refines the plain map's delete and keeps every index in agreement |
| Backend.IndexedBackend.CreateIndex | crates/nova-executor/src/indexed.rs:82-86 | the new index agrees with its collection from the start; which error when |
| Backend.AllIndexableExactly | crates/nova-index/src/catalog.rs:100-142 | a collection can be indexed exactly if no document holds a refused value under the field |
| Backend.IndexedBackend.DropCollection | crates/nova-executor/src/indexed.rs:77-80 | removes the collection and all its indexes, and keeps the rest |
| Backend.IndexedBackend.Lookup | crates/nova-executor/src/indexed.rs:96-110 | in every reachable state: exactly the ids of the collection's documents whose extracted key equals the key |
| Backend.IndexedBackend.ScanIndex | crates/nova-executor/src/indexed.rs:96-110 | the documents with the key, in scan order |
| Backend.IndexedBackend.RunPlanned | crates/nova-executor/src/executor.rs:182-197 | in every reachable state, for every parsed query: the pipeline over the documents of the chosen index, which is the answer of the full scan, failures included, whenever reading through that index is safe |
| BackendRuns.Act | crates/nova-executor/src/indexed.rs:48-111 | one operation on the indexed backend does to collections and index definitions what it does to plain maps, failures included |
| BackendRuns.LookupAfter | crates/nova-executor/src/indexed.rs:53-110 | after any history of operations, failing ones included, looking up any key in any index returns exactly the ids of that collection's documents whose extracted key equals it |
| BackendRuns.QueryAfter | crates/nova-executor/src/executor.rs:182-197 | after any history, a planned query answers with the pipeline over what the chosen index holds, and as over the plain collection, failures included, whenever that is safe |
| Queries.PipelineIsStages | crates/nova-executor/src/executor.rs:379-414 | the pipeline with its filter in front is the pipeline stage by stage |
| Queries.Execute | crates/nova-executor/src/executor.rs:92-166 | a get, update, delete or insert does exactly what the plain query over the planned read does, collections and half-way failures included; the same as over the whole collection, failures included, whenever reading through the chosen index is safe |
| Queries.ExecuteAfter | crates/nova-executor/src/executor.rs:92-166 | the same for any query after any history of the backend |
| QueryLaws.StagesAllowed | crates/nova-executor/src/executor.rs:365-377 | a get takes no assignments, an update no projections, a delete neither |
| QueryLaws.DeleteExactly | crates/nova-executor/src/executor.rs:141-152 | a delete removes exactly the documents that its pipeline chooses, each of them stored, or none if the pipeline fails |
| QueryLaws.UpdateExactly | crates/nova-executor/src/executor.rs:128-140 | an update replaces exactly the documents that come out of its pipeline, up to the first one that an index refuses |
| QueryLaws.InsertStores | crates/nova-executor/src/executor.rs:113-127 | an insertion stores the value of its object under a fresh id, field by field, or fails |
| QueryLaws.QueryCompares | crates/nova-executor/src/executor.rs:92-152 | a get or delete by comparison with a literal finds, or removes, exactly the documents whose value compares, and fails exactly if one cannot be compared |
| LostAnswers.ZeroLost | crates/nova-executor/src/executor.rs:182-197 | after one collection, one index and one insert the indexed query finds nothing and the plain one finds the document |
| LostAnswers.FailureDeletes | crates/nova-executor/src/executor.rs:141-152 | after two inserts the indexed delete removes a document, where the plain one fails and changes nothing |
| Grammar.ParseExpression | crates/nova-query/src/parser.rs:313-332 | on every terminated token list parsing ends, takes at least one token and never the end of input |
| Forms.ReadForm | crates/nova-query/src/parser.rs:313-332 | every way to write an expression is read as that expression: either spelling of `==` and `not`, quoted or bare keys, trailing commas, and parentheses anywhere |
| Forms.ReadGroup | crates/nova-query/src/parser.rs:366-371 | a parenthesized expression is read as that expression |
| Forms.ReadList | crates/nova-query/src/parser.rs:409-427 | a written array is read back item by item, with or without a trailing comma |
| Forms.ReadRecord | crates/nova-query/src/parser.rs:429-465 | a written object with distinct keys is read back member by member, keys quoted or not |
| Forms.ParsedExpression | crates/nova-query/src/parser.rs:313-465 | whatever is parsed was one of these ways, up to where parsing stops |
| Forms.ParsesExactly | crates/nova-query/src/parser.rs:313-465 | the parser reads an expression from exactly the token lists that write it |
| Printer.ReadPrinted | crates/nova-query/src/parser.rs:313-332 | an operand printed for its place is read completely, up to the operators that follow it |
| Printer.PrintedReadsBack | crates/nova-query/src/parser.rs:313-465 | any expression, printed with parentheses only where an operator binds too loosely for its place, parses to itself and parsing stops right after it |
| Printer.ExpressionPrintable | crates/nova-query/src/parser.rs:384-465 | whatever is parsed has distinct object keys and non-empty paths |
| Printer.Reprinted | crates/nova-query/src/parser.rs:313-465 | whatever parses, however it was written, prints to tokens that parse to the same expression |
| Parentheses.PrintedParens | crates/nova-query/src/parser.rs:313-332 | printing opens exactly the parentheses that the expression needs in its place |
| Parentheses.FewestParens | crates/nova-query/src/parser.rs:313-465 | no token list that parses to an expression opens fewer parentheses than the printed one |
| Parentheses.ParensNeeded | crates/nova-query/src/parser.rs:313-371 | without a pair that printing puts, the operand is not read back |
| Parser.TokenParser.ParseExpression | crates/nova-query/src/parser.rs:313-332 | the loop over operators agrees with the grammar, and the position never passes the end of input |
| Parser.TokenParser.ParsePrimary | crates/nova-query/src/parser.rs:356-382 | agrees with the grammar, failures included |
| Parser.TokenParser.ParseArray | crates/nova-query/src/parser.rs:409-427 | the loop agrees with the grammar, a trailing comma included |
| Parser.TokenParser.ParseObject | crates/nova-query/src/parser.rs:429-465 | the loop and its set of names agree with the grammar: duplicates are refused |
| Checksum.Compute | crates/nova-storage/src/checksum.rs:1-16 | the nested loops compute the fold of single-byte steps |
| Checksum.FeedInjective | crates/nova-storage/src/checksum.rs:9-13 | one step of the register is injective in the register and in the byte |
| Checksum.ChecksumDiffers | crates/nova-storage/src/checksum.rs:1-16 | for strings that differ in one byte the checksums agree if and only if that byte lies in the zeroed range |
| CrcPolynomials.ChecksumIsRemainder | crates/nova-storage/src/checksum.rs:1-16 | the checksum is the complement of the remainder of the message, times x^32 and with initial ones, modulo the generator of CRC-32 |
| CrcPolynomials.OneRemainder | crates/nova-storage/src/checksum.rs:1-16 | that remainder is the only polynomial below x^32 that is congruent to it |
| Pages.SlottedPage.Insert | crates/nova-storage/src/page.rs:138-156 | the lowest deleted slot or a new one takes the record, all other slots stay; exactly when a full page stops fitting |
| Pages.SlottedPage.Remove | crates/nova-storage/src/page.rs:164-169 | returns the record and empties its slot only |
| Pages.SlottedPage.ToBytes | crates/nova-storage/src/page.rs:177-230 | filling the 4096-byte array slot by slot gives the specified image, or fails exactly when the page does not fit |
| Pages.SlottedPage.FromBytes | crates/nova-storage/src/page.rs:239-324 | the parsing loop agrees with the specification, error kinds included |
| PageLaws.PageRoundTrip | crates/nova-storage/src/page.rs:177-324 | every page that fits, and no other, has an image, and the image decodes to the page |
| PageLaws.AcceptedTiles | crates/nova-storage/src/page.rs:280-321 | in an accepted image every byte from the free-space end on belongs to exactly one record |
| PageLaws.AcceptedFits | crates/nova-storage/src/page.rs:239-324 | an accepted page can be encoded, and its new image decodes to the same slots |
| PageLaws.ChangedPageRejected | crates/nova-storage/src/page.rs:258-261 | changing any single byte of an accepted image makes it refused |
| PageLaws.EditAndReload | crates/nova-storage/src/page.rs:138-324 | a page built by any inserts and removes is written and read back unchanged exactly when it still fits, always without empty records |
| PageLaws.EmptyRecordOverflows | crates/nova-storage/src/page.rs:138-156 | a full page that takes an empty record and then has no image |
| Formats.PageLayout | crates/nova-storage/src/page.rs:177-230 | every header field and directory entry of a page stands where its format document says |
| PageFile.PageManager.Write | crates/nova-storage/src/manager.rs:108-114 | replaces one allocated page's image and nothing else, or fails with the right kind and changes nothing |
| PageFile.PageManager.Allocate | crates/nova-storage/src/manager.rs:67-78 | appends one empty page |
| WalCodec.DecodeRecords | crates/nova-wal/src/lib.rs:261-318 | the decoding loop agrees with the record-by-record specification, errors included |
| WalCodec.RecordRoundTrip | crates/nova-wal/src/lib.rs:223-345 | an encoded record is read back whole |
| Formats.RecordLayout | crates/nova-wal/src/lib.rs:223-255 | every field of a log record, its tag and its payload stand where the format document says |
| WalCodec.EncodesExactly | crates/nova-wal/src/lib.rs:223-240 | a record has an encoding exactly when its page fits and carries the record's page id |
| WalCodec.TornTail | crates/nova-wal/src/lib.rs:261-318 | cutting any accepted log after k bytes decodes to exactly the records that fit in k bytes, with their length; without torn tails only cuts between records are accepted |
| WalCodec.LogRoundTrip | crates/nova-wal/src/lib.rs:223-318 | the encoding of any log numbered from 0 decodes to it |
| WalCodec.TornLog | crates/nova-wal/src/lib.rs:223-318 | both together, for the encoding of any log and any byte length |
| WalCodec.AcceptedNumbers | crates/nova-wal/src/lib.rs:303-306 | accepted records are numbered contiguously |
| WalCodec.AppendAccepted | crates/nova-wal/src/lib.rs:162-178 | appending an encoded record extends the decoded log by it and moves no earlier record |
| Log.WriteAheadLog.Open | crates/nova-wal/src/lib.rs:63-89 | keeps the decoded records, drops the torn tail and resumes after the last record |
| Log.WriteAheadLog.Append | crates/nova-wal/src/lib.rs:162-178 | appends exactly one record, or changes nothing for a page without an image; the last number of all is written and then refused |
| Log.WriteAheadLog.Flush | crates/nova-wal/src/lib.rs:156-160 | whatever a crash leaves from now on decodes to everything appended so far |
| Recovery.RedoContents | crates/nova-wal/src/lib.rs:206-218 | after a replay each page holds its last replayable image, or else its earlier content, or else an empty page |
| Recovery.RedoRestarts | crates/nova-wal/src/lib.rs:182-183 | replaying again after any prefix of the writes and allocations ends in the same page file |
| Recovery.ReplaysExactly | crates/nova-wal/src/lib.rs:188-221 | the replayed images are those of exactly the records whose transaction has a commit in the log and no abort, in log order |
| Recovery.Recover | crates/nova-wal/src/lib.rs:188-221 | replays the images of committed and not aborted transactions in log order; a failure leaves a cut-off replay |
| Outcomes.BeginKeeps | crates/nova-transaction/src/lib.rs:71-81 | a transaction begun under a fresh id starts with nothing of an earlier one in the log |
| Outcomes.CrashKeeps | crates/nova-wal/src/lib.rs:63-89 | a crash that keeps the synchronized records keeps every reported outcome and loses the running transactions |
| Outcomes.CrashInEndKeeps | crates/nova-transaction/src/lib.rs:124-147 | a crash inside a commit or rollback either keeps it with all its images or loses the transaction |
| Outcomes.StrayImage | crates/nova-wal/src/lib.rs:118-126 | an image logged under an id that is not running keeps the log faithful if and only if that transaction was rolled back or lost; under a committed one it is replayed |
| Outcomes.StrayReplayed | crates/nova-wal/src/lib.rs:118-126 | a log of one committed transaction without images and one image under its id: recovery writes the image |
| Outcomes.ReplaysByStory | crates/nova-wal/src/lib.rs:192-218 | recovery replays of each transaction all its images if it committed and none otherwise |
| Locks.GrantKeeps | crates/nova-transaction/src/lib.rs:89-117 | granting a lock keeps writers alone, earlier grants held and conflicts ordered |
| Locks.EndKeeps | crates/nova-transaction/src/lib.rs:185-193 | releasing drops the locks of the ended transaction and of nobody else |
| Locks.PrecedesEnds | crates/nova-transaction/src/lib.rs:89-147 | a conflict is ordered as the ends are: the earlier transaction has ended, and before the later one |
| Locks.EndOrderSerializes | crates/nova-transaction/src/lib.rs:89-147 | the order of ends is a serialization order |
| Locks.NoCycle | crates/nova-transaction/src/lib.rs:89-147 | the precedence graph of conflicting acquisitions has no cycle |
| Transactions.TransactionManager.Open | crates/nova-transaction/src/lib.rs:46-64 | resumes above every recorded id, with no transaction and no lock |
| Transactions.TransactionManager.Begin | crates/nova-transaction/src/lib.rs:71-81 | the new id is above every id in the log, and never one whose outcome was reported |
| Transactions.TransactionManager.AcquireShared | crates/nova-transaction/src/lib.rs:89-98 | granted exactly to an active transaction when nobody else writes; no holding weakens |
| Transactions.TransactionManager.AcquireExclusive | crates/nova-transaction/src/lib.rs:105-117 | granted exactly to an active transaction when nobody else reads or writes; no holding weakens |
| Transactions.TransactionManager.LogPageWrite | crates/nova-wal/src/lib.rs:118-126 | logs one after-image under any id; the invariant survives if and only if the transaction is running, or dead with its id handed out |
| Transactions.TransactionManager.Commit | crates/nova-transaction/src/lib.rs:124-132 | reported only with the record synchronized; releases all and only its own locks |
| Transactions.TransactionManager.Rollback | crates/nova-transaction/src/lib.rs:139-147 | likewise for an abort |
| TransactionRuns.CrashLeaves | crates/nova-wal/src/lib.rs:63-89 | any crash leaves a prefix of the records that holds the synchronized ones |
| TransactionRuns.ValidIsCrashSafe | crates/nova-wal/src/lib.rs:188-221 | from every reachable state, after any crash, recovery replays exactly what the replies told |
| TransactionRuns.Run | crates/nova-transaction/src/lib.rs:46-147 | any run of transactions, page writes under any id, locks, flushes, crashes and reopenings, up to the first write that the log cannot survive truthfully: recovery is faithful to the replies, begun ids are new or lost, nothing follows a reported outcome, and grants are serializable |
| TransactionRuns.CoherentEnds | crates/nova-transaction/src/lib.rs:71-147 | after the reply that ends a transaction no later reply names it |
| TransactionRuns.CommittedWrites | crates/nova-wal/src/lib.rs:188-221 | what recovery replays of a transaction are the pages written between its begin and its reported or found commit, all of them in order, and none after a rollback |
| TransactionRuns.Uncommitted | crates/nova-wal/src/lib.rs:188-221 | without a reported or found commit nothing of a transaction is replayed |
| Buffer.SelectVictim | crates/nova-buffer/src/lib.rs:205-212 | an unpinned frame with the smallest use time, the smaller id first; none exactly when all are pinned |
| Buffer.VictimLeastRecent | crates/nova-buffer/src/lib.rs:205-212 | the victim is the least recently used unpinned page if and only if none was last used before a wrap of the clock that the victim was used after; without a wrap always |
| Buffer.WrappedVictim | crates/nova-buffer/src/lib.rs:205-212 | with two unpinned pages the one used last is evicted, because the clock wrapped in between |
| Buffer.BufferPool.EvictOne | crates/nova-buffer/src/lib.rs:205-220 | evicts one unpinned page, writes it back if dirty, and changes no page for a reader |
| Buffer.EvictionKeepsExactly | crates/nova-buffer/src/lib.rs:205-220 | eviction changes no page for a reader if and only if the frame is clean, or its page fits and kept its id |
| Buffer.EditLost | crates/nova-buffer/src/lib.rs:214-220 | a full page that took an empty record: its eviction changes nothing on disk and the reader finds the old, empty page |
| Buffer.BufferPool.Load | crates/nova-buffer/src/lib.rs:181-203 | makes the page resident, changes no page for a reader, keeps pinned pages; when it fails |
| Buffer.BufferPool.Allocate | crates/nova-buffer/src/lib.rs:84-91 | one new empty page for a reader, or no change |
| Buffer.BufferPool.Edit | crates/nova-buffer/src/lib.rs:111-119 | exactly the edited page changes for a reader, whatever the edit; the pool stays in order if and only if the page fits and kept its id |
| Buffer.BufferPool.Pin | crates/nova-buffer/src/lib.rs:126-137 | one more pin on a resident page |
| Buffer.BufferPool.FlushAll | crates/nova-buffer/src/lib.rs:161-170 | afterwards the disk reads as the pool shows, and no page changed for a reader |
| Buffer.Run | crates/nova-buffer/src/lib.rs:84-220 | any run through the pool, up to the first edit that leaves a page too full, shows the pages that the same steps on the page file itself would, within capacity |
| Varints.VarintRoundTrip | crates/nova-nbf/src/varint.rs:5-34 | reading what was written for any 64-bit value gives it back, whatever follows |
| Varints.VarintUnique | crates/nova-nbf/src/varint.rs:13-34 | only the written form of a value reads as it |
| Varints.WriteVarint | crates/nova-nbf/src/varint.rs:5-11 | the loop appends the minimal groups |
| Varints.ParseVarint | crates/nova-nbf/src/varint.rs:13-34 | the accumulating loop agrees with the group-by-group specification |
| NbfLaws.RoundTrip | crates/nova-nbf/src/lib.rs:81-164 | decoding what was encoded gives the document back, its NaNs canonical |
| NbfLaws.SameDocument | crates/nova-nbf/src/lib.rs:81-164 | bit by bit a document comes back as it was if and only if each NaN in it is the canonical one |
| NbfLaws.PayloadLost | crates/nova-nbf/src/lib.rs:104-147 | a document with another NaN comes back different |
| NbfLaws.EqualAgain | crates/nova-core/src/nova_value.rs:14 | what is decoded is equal to the document in the code's `==` if and only if the document holds no NaN |
| NbfLaws.CanonicalNanUnequal | crates/nova-core/src/document.rs:25 | a document with the canonical NaN comes back bit by bit and is still not equal to itself |
| NbfLaws.NoAcceptedPrefix | crates/nova-nbf/src/lib.rs:156-164 | every strict prefix of an accepted encoding is refused |
| NbfLaws.EncodesExactly | crates/nova-nbf/src/lib.rs:104-147 | a value is encoded exactly when its collections are neither too deep nor too long |
| NbfLaws.AcceptedEncodes | crates/nova-nbf/src/lib.rs:156-297 | every decoded document is well formed, can be encoded, and round-trips |
| NbfLaws.InsertAscending | crates/nova-nbf/src/lib.rs:203-209 | fields that arrive in any order end up sorted, each once |
| Formats.ValueLayout | crates/nova-nbf/src/lib.rs:104-147 | tag and payload of each kind of value, as in the table of the format document |
| Formats.DocumentLayout | crates/nova-nbf/src/lib.rs:81-102 | magic, version, root tag, id and field count of a document |
| Utf8.ValidExactly | crates/nova-nbf/src/lib.rs:245-250 | text is accepted exactly if it encodes a list of Unicode scalar values |
| NbfCodec.PushValue | crates/nova-nbf/src/lib.rs:104-147 | appends exactly the specified bytes |
| NbfCodec.PushDocument | crates/nova-nbf/src/lib.rs:89-102 | the loop over the fields appends exactly the specified bytes |
| NbfCodec.Decoder.ReadValue | crates/nova-nbf/src/lib.rs:213-243 | agrees with the specification and advances by what was read |
| NbfCodec.Decoder.ReadArray | crates/nova-nbf/src/lib.rs:226-234 | the loop over the items agrees with the specification |
| NbfCodec.Decoder.ReadFields | crates/nova-nbf/src/lib.rs:203-209 | the loop over the fields agrees with the specification, duplicates refused |
| NbfCodec.DecodeBytes | crates/nova-nbf/src/lib.rs:156-164 | agrees with the specification, error kinds included |
| Engine.PlacedConsistent | crates/nova-storage/src/engine.rs:97-125 | placing a new document's record binds its id and nothing else |
| Engine.StorageEngine.Insert | crates/nova-storage/src/engine.rs:83-126 | binds exactly one id to the document, NaNs canonical, or changes no binding; which error when |
| Engine.StorageEngine.Get | crates/nova-storage/src/engine.rs:134-154 | the bound document, or none |
| Engine.DuplicateRefused | crates/nova-storage/src/engine.rs:49-54 | two records of one document fit no directory |
| Engine.OneDirectory | crates/nova-storage/src/engine.rs:34-58 | at most one directory is consistent with the pages |
| Engine.Open | crates/nova-storage/src/engine.rs:34-58 | scanning succeeds exactly when a consistent directory exists and finds that one, so reopening gives the same documents |
| Engine.GetAfterReopening | crates/nova-storage/src/engine.rs:34-154 | any documents inserted into an empty store are bound as in a plain map after reopening it |
| Calendar.CivilValid | crates/nova-core/src/nova_timestamp.rs:74-85 | for every integer day count the date is valid, and counting its days gives the day count back |
| Calendar.CivilInverts | crates/nova-core/src/nova_timestamp.rs:74-85 | every valid date is the date of its day number |
| Calendar.CivilSuccessor | crates/nova-core/src/nova_timestamp.rs:74-85 | the next day has the next date of the calendar |
| Calendar.CivilIncreases | crates/nova-core/src/nova_timestamp.rs:74-85 | later days have later dates, so no two share one |
| Calendar.Epoch | crates/nova-core/src/nova_timestamp.rs:70-85 | day 0 is 1970-01-01 |
| Calendar.FieldsRoundTrip | crates/nova-core/src/nova_timestamp.rs:54-67 | the printed fields are valid and lose no millisecond |
| Calendar.FieldsOnto | crates/nova-core/src/nova_timestamp.rs:54-67 | every valid set of fields is that of its instant |

## Left out

- Files, sockets, mutexes and threads: a file is its bytes or its page images, and a lock-guarded method is one step. An I/O failure is modelled only as a crash; the truncation of a torn tail at open is taken as durable.
- TransactionRuns.Run: the run ends at the first page write under an id whose transaction is neither running, nor rolled back, nor lost with its id handed out: what the log says is no longer what was reported (`Outcomes.StrayImage`, both directions).
- Buffer.Run: the run ends at an edit that leaves a page too full, because the page would be lost at eviction; `Buffer.EvictionKeepsExactly` says so. The statistics counters are not modelled.
- Recovery.Recover: a page file holds at most 2^52 pages, because later offsets do not fit 64 bits; the source would meet a limit of the file system first.
- Log.WriteAheadLog.Append: a log that has used up its last sequence number is not used further.
- Sorting.SortOrder: the source calls the library's stable sort; the model sorts by insertion, and `Sorting.OneOrder` shows that any stable sort gives the same order.
- Float arithmetic is a parameter of the evaluator: any function of the operator and the operand bits.
- Which characters beyond ASCII are alphanumeric in names is a parameter of the catalog: any function of the character's UTF-8 bytes.
- The records of a log and the nodes of a snapshot are encoded one by one by functions; only the loops over records, nodes and list items are methods, and inner lists of a node are read by the same specification function.
- Random ids are inputs: a list from which object literals and missing documents draw in order, an empty one standing for an entropy failure.
- The catalog's `.meta` files: their codec repeats the snapshot codec in a simpler form.
- The lexer, the parsing of commands and stages around expressions, `explain`, source spans and error texts.
- The server, the client, the command line, the studio, authentication, telemetry and the adviser: plumbing, or easy next to the rest.
