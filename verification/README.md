# Verified models of PostgreSQL index code

This project models, in Dafny, the algorithms at the heart of several PostgreSQL
contrib modules bundled with this repository, and one small matcher of its own, and
proves what they are meant to guarantee. Code that works by changing things is
modelled by classes, arrays and loops proved against specification functions; code
made of expressions is modelled by functions.

* **Bloom index access method** (`Bloom*.dfy`, `CInt.dfy`). `BloomRandom`,
  `BloomSignature` and `BloomPage` are the generator, the signatures and the pages.
  `BloomProtocol` is the index as a concurrent system: any number of inserters, bulk
  deletes, cleanups and scans, whose actions are the sections run under buffer locks, so
  that what a backend remembers between two actions may be stale. `BloomSafety` proves
  the invariant of every action, `BloomTheorems` the results over whole runs.
  `BloomIndex` and `BloomPasses` are the entry points as imperative code and show that
  a call is a run of the protocol; `BloomBuild` is the initial build.
* **Variable-length GiST keys** (`ByteOrder.dfy`, `VarKey*.dfy`) for bytea. Internal keys
  are intervals with truncated bounds. `VarKeyLayout` is their byte layout, `VarKey` has
  the methods and the coverage invariant, `VarKeySplit` the exact condition under which
  splitting an internal page is safe, `VarKeyTree` trees of any height.
* **B-tree checker** (`Nbtree*.dfy`), read-only mode. Keys are integers, standing for ranks
  in the operator class's total order. The checker does not terminate on every corrupt
  index, so each walk takes a fuel argument; every run that does not use it up gives the
  right verdict, for a page (`NbtreeTarget`), a level (`NbtreeLevel`) and the tree
  (`NbtreeTree`). What a good verdict means is stated for key order (`NbtreeOrder`), for
  two levels (`NbtreeLockstep`, `NbtreeDownlinks`) and for the tree (`NbtreeTheorems`);
  `NbtreeExcuses` says what its two farther-reaching tests amount to.
  Which order the check guarantees, and which it does not, is stated exactly for a level
  (`NbtreeGaps`) and for a tree (`NbtreeCompared`), by shifting keys (`NbtreeRekey`,
  `NbtreeShift`).
* **Cube GiST methods** (`Cube*.dfy`) over real coordinates: boxes of mixed dimension whose
  absent dimensions count as zero. `CubeTree` has trees of any height whose keys come from
  the modelled unions and page splits.
* **Heap checker** (`Heap*.dfy`): transaction id conversion, status queries against a cached
  id range, HOT-chain passes over a page, TOAST chunks.
* **hstore layout** (`HStore*.dfy`) at byte level, and the **progression matcher**
  (`LinearProgression.dfy`). `Common.dfy` has what several components share.

Results that turned out false are kept as such: a lemma gives a concrete input, and
another states exactly when the property holds.

* Signature positions: `BloomSignature.SignBitsMiss`, `BloomSignature.SignBitsInRange`.
* Splitting internal pages of variable-length keys: `VarKeyTree.InternalSplitLoses`,
  `VarKeySplit.SplitNeverRejects`, and for whole trees `VarKeyTree.SearchExactly`.
* The contained-by operator of cubes: `CubeGist.ContainedByMisses`,
  `CubeGist.ContainedByExact`, and for whole trees `CubeTree.SearchExactly`.
* Transitivity of the cube comparison: `CubeOrder.CmpCircle`, `CubeOrder.CmpTransitiveExactly`.
* Key order in a B-tree: `NbtreeTheorems.EmptyPageHidesDisorder`, for a level
  `NbtreeGaps.OrderExactly`, for a tree `NbtreeCompared.LeafOrderExactly`.
* Checking a B-tree down to the leaves: `NbtreeTheorems.HollowRootPasses`,
  `NbtreeTheorems.TreeHeight`.

Where the code and its comments disagree, the model follows the code. The comment in
`mySrand` says the state is transformed to [1, 0x7ffffffe]; the code works on a signed
word, so states may be negative and two seeds give 0. The final call of
`bt_child_highkey_check` has no downlink; comparing high keys there reads an item
at offset zero, whose value the model takes as an input.

## Model

| member | source | states |
|---|---|---|
| BloomRandom.Generator.Srand | workspace/postgres-src/contrib/bloom/blutils.c:250-256 | The generator's state becomes the seed, read as a signed 32-bit integer, reduced by C remainder and shifted by one; no overflow. |
| BloomRandom.Generator.Rand | workspace/postgres-src/contrib/bloom/blutils.c:223-248 | Schrage's split never overflows int32 and the new state is exactly 16807 * state mod 2^31 - 1, for negative and zero states, too; the draw is the state minus one. |
| BloomRandom.SeedStateZero | workspace/postgres-src/contrib/bloom/blutils.c:250-256 | The seeded state is the fixed point 0 exactly for the seeds 0xFFFFFFFF and 0x80000001. |
| BloomRandom.OrbitNonZero | workspace/postgres-src/contrib/bloom/blutils.c:239-247 | From a non-zero seeded state no draw ever reaches 0. |
| BloomRandom.OrbitRange | workspace/postgres-src/contrib/bloom/blutils.c:239-247 | Every later state lies in [1, 2^31 - 2], so every draw lies in [0, 2^31 - 3]. |
| BloomSignature.SetBit | workspace/postgres-src/contrib/bloom/blutils.c:30-33 | Setting a bit adds that position to the signature's set of positions and nothing else. |
| BloomSignature.SignValue | workspace/postgres-src/contrib/bloom/blutils.c:261-289 | Adds to the signature exactly the positions of the draws: for each of the bitSize draws after seeding with the mixed hash, the generator's state less one, modulo the length, and nothing else. |
| BloomSignature.SignBitsAre | workspace/postgres-src/contrib/bloom/blutils.c:283-288 | A position is one of a value's exactly when some draw number below bitSize gives it. |
| BloomSignature.ValueSeedIs | workspace/postgres-src/contrib/bloom/blutils.c:273-280 | The seed is the hash mixed with the column's first draw, 16807 * (attno + 1) - 1: mixing that in again gives back the hash. |
| BloomSignature.SignBitsInRange | workspace/postgres-src/contrib/bloom/blutils.c:273-288 | All drawn positions are valid if and only if the second seed is neither of the two bad ones. |
| BloomSignature.InRangeIffUnpoisoned | workspace/postgres-src/contrib/bloom/blutils.c:281-288 | For any signature length and number of draws, the drawn positions are in range exactly for unpoisoned seeds. |
| BloomSignature.UnsignableHashes | workspace/postgres-src/contrib/bloom/blutils.c:261-280 | In every column exactly two hash values give a bad second seed. |
| BloomSignature.SignBitsMiss | workspace/postgres-src/contrib/bloom/blutils.c:273-288 | A concrete one: in the first column a value with hash 4294950489 sets bit -1. |
| BloomSignature.FormTuple | workspace/postgres-src/contrib/bloom/blutils.c:294-313 | The tuple carries the heap pointer, and its positions are those of the draws of its non-null columns and no others. |
| BloomSignature.ScanSignature | workspace/postgres-src/contrib/bloom/blscan.c:90-116 | No match at all exactly when some key is null; otherwise every position of every key is in the signature and every position in it belongs to some key. |
| BloomSignature.WordsMatchIsInclusion | workspace/postgres-src/contrib/bloom/blscan.c:147-155 | The word-by-word test is inclusion of the scan's positions in the tuple's. |
| BloomSignature.AgreeingRowMatches | workspace/postgres-src/contrib/bloom/blscan.c:90-155 | A row whose columns hash like every scan key passes the word test, whatever signatures the two methods produced. |
| BloomSignature.MatchIsEveryBit | workspace/postgres-src/contrib/bloom/blscan.c:111-155 | A tuple passes the word test of a scan if and only if it has every position of every key. |
| BloomPage.LegalReloptions | workspace/postgres-src/contrib/bloom/blutils.c:476-493 | Every accepted length option gives between 1 and 256 words, rounded up. |
| BloomPage.FreeSpaceExact | workspace/postgres-src/contrib/bloom/bloom.h:149-152 | On a page that respects the space invariant the unsigned free-space macro does not wrap. |
| BloomPage.HasRoomIs | workspace/postgres-src/contrib/bloom/blutils.c:330-332 | A page has room for a tuple exactly when the bytes of one more tuple fit in the 8160 that are there. |
| BloomPage.AddItemOk | workspace/postgres-src/contrib/bloom/blutils.c:319-347 | Adding keeps the space invariant and pd_lower stays in front of the opaque area; the tuple goes to the end exactly when its bytes fit, else the page is left alone. |
| BloomPage.EmptyPageHasRoom | workspace/postgres-src/contrib/bloom/blutils.c:400-410 | For all legal options an initialised page has room for a tuple. |
| BloomPage.KeptAndDropped | workspace/postgres-src/contrib/bloom/blvacuum.c:88-107 | Compaction splits a page's tuples by the callback: kept and dropped together are the page, as multisets, and counts agree. |
| BloomPage.CompactOk | workspace/postgres-src/contrib/bloom/blvacuum.c:85-132 | Compaction keeps the space invariant; a page that held tuples is left reusable exactly when it lost the last one, and a page without tuples is left alone. |
| BloomPage.CompactTuples | workspace/postgres-src/contrib/bloom/blvacuum.c:88-107 | After compaction every accepted tuple is gone and every other is there as often as before. |
| BloomPage.PageBuffer.Add | workspace/postgres-src/contrib/bloom/blutils.c:319-347 | The in-place copy, maxoff and pd_lower update is the page-value function, inside the slot array. |
| BloomPage.PageBuffer.CompactSlots | workspace/postgres-src/contrib/bloom/blvacuum.c:81-111 | The two-pointer loop leaves the order-preserving filter of the slots and counts the removed tuples. |
| BloomPage.PageBuffer.BulkDelete | workspace/postgres-src/contrib/bloom/blvacuum.c:73-132 | One page of the pass: filter, maxoff, pd_lower and removed count; a page that lost its last tuple is marked deleted; new and deleted pages are left alone. |
| BloomPage.PageBuffer.Scan | workspace/postgres-src/contrib/bloom/blscan.c:137-164 | One page of a scan returns, in order, the tuples that pass the word test. |
| BloomPage.WordTest | workspace/postgres-src/contrib/bloom/blscan.c:145-155 | The loop with early exit decides the word-by-word test. |
| BloomSafety.StepInv | workspace/postgres-src/contrib/bloom/blinsert.c:202-335 | Every locked section of inserters, bulk deletes, cleanups and scans keeps page space, the metapage window, lock ownership, conservation, and the bounds behind complete deletes and scans. |
| BloomSafety.TryFirstInv | workspace/postgres-src/contrib/bloom/blinsert.c:218-244 | Trying the remembered page with stale information keeps the invariant, whether the page was filled, emptied or recycled meanwhile. |
| BloomSafety.TryListedInv | workspace/postgres-src/contrib/bloom/blinsert.c:271-309 | A turn of the slow loop keeps the invariant. |
| BloomSafety.FillInv | workspace/postgres-src/contrib/bloom/blinsert.c:315-332 | Initialising an allocated page, adding the tuple and resetting the list to that page keeps the invariant. |
| BloomSafety.VacuumPageInv | workspace/postgres-src/contrib/bloom/blvacuum.c:66-138 | Compacting one page while inserts run on others keeps the invariant, including what the pass still owes. |
| BloomSafety.VacuumMetaInv | workspace/postgres-src/contrib/bloom/blvacuum.c:146-158 | Overwriting the metapage list with stale information keeps the window inside the array and on data pages. |
| BloomSafety.ScanPageInv | workspace/postgres-src/contrib/bloom/blscan.c:131-166 | Reading one page keeps the scan's completeness and soundness bounds. |
| BloomSafety.CleanupPageInv | workspace/postgres-src/contrib/bloom/blvacuum.c:196-211 | Offering a page to the free-space map keeps the invariant. |
| BloomTheorems.RunInv | workspace/postgres-src/contrib/bloom/blinsert.c:202-335 | The invariant holds in every state of every run, for any number of backends and any interleaving, aborts included. |
| BloomTheorems.Conservation | workspace/postgres-src/contrib/bloom/blinsert.c:202-335 | In every reachable state the tuples on the pages plus those removed by bulk deletes are exactly those inserted, as multisets. |
| BloomTheorems.StepRefines | workspace/postgres-src/contrib/bloom/blinsert.c:202-335 | Each action refines a plain multiset: it inserts one tuple and finishes its backend, deletes only accepted tuples, or changes nothing. |
| BloomTheorems.ExactlyOnce | workspace/postgres-src/contrib/bloom/blinsert.c:231-240 | The copies of a tuple ever inserted are those the build loaded plus the finished inserts of it; unfinished and aborted inserts add none. |
| BloomTheorems.TuplesStayPut | workspace/postgres-src/contrib/bloom/blinsert.c:224-231 | In any action each page keeps its tuples, gains the inserter's tuple at the end, or is filtered by a callback: reinitialising a page never costs a tuple. |
| BloomTheorems.BulkDeleteComplete | workspace/postgres-src/contrib/bloom/blvacuum.c:57-139 | When a bulk delete has finished, every copy of an accepted tuple present at its start is gone, with concurrent inserts and deletes. |
| BloomTheorems.NothingElseRemoved | workspace/postgres-src/contrib/bloom/blvacuum.c:88-107 | A tuple no bulk delete accepts is in the index exactly as often as it was inserted. |
| BloomTheorems.ScanExact | workspace/postgres-src/contrib/bloom/blscan.c:118-171 | A finished concurrent scan found every matching tuple live at its start and not removed since, nothing that does not match, and no more copies than were live or inserted. |
| BloomTheorems.NoFalseNegatives | workspace/postgres-src/contrib/bloom/blscan.c:80-172 | End to end: a row that agrees with all scan keys and stays in the index during the scan is returned. |
| BloomTheorems.LackingBitNotFound | workspace/postgres-src/contrib/bloom/blscan.c:111-155 | A tuple that lacks one position of one key is not returned by any finished scan, in any run. |
| BloomTheorems.SlowLoopProgress | workspace/postgres-src/contrib/bloom/blinsert.c:256-309 | While an inserter is in the slow loop nobody else changes the metapage, and each turn leaves the loop or shortens the rest of the list. |
| BloomTheorems.OnlyLocksBlockInserts | workspace/postgres-src/contrib/bloom/blinsert.c:206-329 | An inserter waits only for locks: the blocks it is about to read exist and are data pages, list positions are inside the array. |
| BloomTheorems.OnlyLocksBlockPasses | workspace/postgres-src/contrib/bloom/blvacuum.c:57-158 | Bulk deletes, cleanups and scans wait only for locks. |
| BloomTheorems.NoInsertError | workspace/postgres-src/contrib/bloom/blinsert.c:320-324 | The error for an empty page without room is unreachable in every run. |
| BloomTheorems.ReachesInv | workspace/postgres-src/contrib/bloom/blinsert.c:202-335 | Whatever state a run reaches from a state with the invariant has it. |
| BloomPasses.VacuumAlone | workspace/postgres-src/contrib/bloom/blvacuum.c:57-160 | A bulk delete running alone is a run of the protocol that ends in the computed state. |
| BloomPasses.OnlyDeadGone | workspace/postgres-src/contrib/bloom/blvacuum.c:57-139 | Alone, it takes away the accepted tuples and only those. |
| BloomPasses.VacuumedPages | workspace/postgres-src/contrib/bloom/blvacuum.c:113-158 | After the pass every page that lost its last tuple is reusable, and the metapage lists, in order, pages with tuples and room for one more, skipping none until the list is full. |
| BloomPasses.FoundAll | workspace/postgres-src/contrib/bloom/blscan.c:126-171 | Alone, a scan finds each matching tuple as often as it is stored and nothing else. |
| BloomPasses.TupleCountIsSize | workspace/postgres-src/contrib/bloom/blvacuum.c:206-209 | The tuple count of a cleanup is the size of the index. |
| BloomIndex.Relation.Insert | workspace/postgres-src/contrib/bloom/blinsert.c:173-341 | The whole call is a run of the protocol, keeps the invariant, and adds its tuple to the contents exactly once. |
| BloomIndex.Relation.InsertSlow | workspace/postgres-src/contrib/bloom/blinsert.c:252-335 | The slow path ends with the tuple inserted and the metapage unlocked. |
| BloomIndex.Relation.AllocateAndInsert | workspace/postgres-src/contrib/bloom/blutils.c:354-395 | Taking a reusable page from the free-space map or extending the file, then filling it, ends with the tuple inserted and its page the only one on the not-full list. |
| BloomIndex.Relation.TryListedSection | workspace/postgres-src/contrib/bloom/blinsert.c:279-308 | One turn of the loop is one protocol action, with nStart advanced on success. |
| BloomIndex.Relation.BulkDelete | workspace/postgres-src/contrib/bloom/blvacuum.c:33-161 | The call is a run of the protocol after which accepted tuples are gone and all others are still there; every page that lost its last tuple is reusable, and the metapage lists pages with tuples and room, skipping none until the list is full; tuples_removed is right. |
| BloomIndex.Relation.VacuumPages | workspace/postgres-src/contrib/bloom/blvacuum.c:57-139 | The page loop compacts every page and collects the first pages with tuples and room, as many as the metapage holds. |
| BloomIndex.Relation.VacuumCleanup | workspace/postgres-src/contrib/bloom/blvacuum.c:168-217 | A block is in the free-space map afterwards exactly when it was before or is a reusable data page; pages_free and num_index_tuples are right. |
| BloomIndex.Relation.VacuumAndCleanup | workspace/postgres-src/contrib/bloom/blvacuum.c:126-216 | After a bulk delete and a cleanup every page that lost its last tuple is in the free-space map. |
| BloomIndex.Relation.GetBitmap | workspace/postgres-src/contrib/bloom/blscan.c:118-171 | The result holds each tuple that passes the signature test as often as the index does, and nothing else. |
| BloomIndex.Relation.GetBitmapForKeys | workspace/postgres-src/contrib/bloom/blscan.c:80-172 | From the keys: nothing if one is null, else each tuple that has every position of every key, as often as the index holds it, and no other. |
| BloomBuild.Build | workspace/postgres-src/contrib/bloom/blinsert.c:120-158 | The built file holds the heap's tuples in order, all pages but the last full, and is a legal initial state of the protocol. |
| BloomBuild.Builder.Feed | workspace/postgres-src/contrib/bloom/blinsert.c:73-115 | Each tuple lands on the cached page, flushing a full one first; the empty-page error is not reported. |
| BloomBuild.Builder.Finish | workspace/postgres-src/contrib/bloom/blinsert.c:147-155 | The last page is flushed unless the heap was empty; index_tuples is the number of tuples. |
| ByteOrder.CommonPrefixLength | workspace/postgres-src/contrib/btree_gist/btree_utils_var.c:120-162 | The byte loop returns the length of the longest common prefix. |
| ByteOrder.LeqTransitive | workspace/postgres-src/contrib/btree_gist/btree_bytea.c:65-71 | The byte order is transitive. |
| ByteOrder.LeqAntisymmetric | workspace/postgres-src/contrib/btree_gist/btree_bytea.c:65-71 | The byte order is antisymmetric. |
| ByteOrder.LeqTotal | workspace/postgres-src/contrib/btree_gist/btree_bytea.c:65-71 | The byte order is total. |
| ByteOrder.HullCommonPrefix | workspace/postgres-src/contrib/btree_gist/btree_utils_var.c:120-162 | The ends of an interval share no more bytes than anything inside it. |
| VarKeyLayout.NodeRoundTrip | workspace/postgres-src/contrib/btree_gist/btree_utils_var.c:86-102 | Packing two bounds with headers and alignment and reading them gives both back, for all lengths, never looks like a leaf, and puts the upper bound at the next multiple of four. |
| VarKeyLayout.LeafRoundTrip | workspace/postgres-src/contrib/btree_gist/btree_utils_var.c:55-84 | A packed leaf value reads back as both bounds and is recognised as a leaf by its size. |
| VarKey.LeafExact | workspace/postgres-src/contrib/btree_gist/btree_utils_var.c:553-612 | On leaf entries the consistent method is the operator, for all strategy numbers. |
| VarKey.CoveredConsistent | workspace/postgres-src/contrib/btree_gist/btree_utils_var.c:553-612 | A key that covers a value is not rejected by any query the value satisfies, for all six strategies. |
| VarKey.RejectsExactly | workspace/postgres-src/contrib/btree_gist/btree_utils_var.c:553-612 | What an internal key rejects, for all six strategies and every key: for less and less-or-equal exactly when no value at or above its lower bound is at or below the query and its upper bound is no prefix of it; for greater and greater-or-equal when no value up to its upper bound, or extending it, reaches the query and its lower bound is no prefix; for equal when the query is outside the bounds and extends neither; for not-equal when both bounds are the query. |
| VarKey.HullTight | workspace/postgres-src/contrib/btree_gist/btree_utils_var.c:232-277 | The bounds of a union before the cut are bounds of entries. |
| VarKey.UnionCovers | workspace/postgres-src/contrib/btree_gist/btree_utils_var.c:321-357 | A union key, although cut to two bytes beyond the common prefix, covers whatever its entries cover. |
| VarKey.SplitCovers | workspace/postgres-src/contrib/btree_gist/btree_utils_var.c:529-544 | A side of a leaf split, cut to the longer common prefix and two bytes, covers its entries. |
| VarKey.Union | workspace/postgres-src/contrib/btree_gist/btree_utils_var.c:321-357 | The loop over the entries computes the least interval and cuts it. |
| VarKey.PickSplit | workspace/postgres-src/contrib/btree_gist/btree_utils_var.c:457-547 | The first half of the entries, in the order given, goes left and the rest right; in sorted order no lower bound on the left is above one on the right; the datums are the cut hulls of their sides. |
| VarKey.SplitPartitions | workspace/postgres-src/contrib/btree_gist/btree_utils_var.c:513-527 | Every offset lands on exactly one side. |
| VarKeySplit.SplitKeepsCoverage | workspace/postgres-src/contrib/btree_gist/btree_utils_var.c:529-544 | On internal pages the split key covers what its entries cover if and only if no entry spills: the greatest upper bound of the side, cut to two bytes beyond the longer common prefix, continues an entry's cut upper bound by something other than maximal bytes. |
| VarKeySplit.SplitNeverRejects | workspace/postgres-src/contrib/btree_gist/btree_utils_var.c:529-612 | On internal pages a split key never rejects a query that matches a covered value if and only if no entry loses values: it spills and the new lower bound does not match as a prefix. |
| VarKeyTree.DerivedCovers | workspace/postgres-src/contrib/btree_gist/btree_utils_var.c:232-357 | Any key built by unions, leaf splits and internal splits that do not spill covers every value that went into it. |
| VarKeyTree.SearchExact | workspace/postgres-src/contrib/btree_gist/btree_utils_var.c:553-612 | In a tree of any height with such keys a search returns exactly the stored values that satisfy the query, in order. |
| VarKeyTree.FindsExactly | workspace/postgres-src/contrib/btree_gist/btree_utils_var.c:553-612 | A key never rejects a search that a value satisfies, for all six strategies, if and only if it passes the equality search for it and is not the key of one other value. |
| VarKeyTree.SearchExactly | workspace/postgres-src/contrib/btree_gist/btree_utils_var.c:553-612 | For trees of any height, however their keys were derived: all searches are exact if and only if every key finds, in this sense, every value stored below it. |
| VarKeyTree.DerivationExactly | workspace/postgres-src/contrib/btree_gist/btree_utils_var.c:232-547 | For a derivation by unions, leaf splits and internal splits: every page of values that went into the key is searched exactly below it if and only if the key finds all of them. |
| VarKeyTree.PageSplits | workspace/postgres-src/contrib/btree_gist/btree_utils_var.c:441-527 | A concrete internal page of four entries in sorted order, and the keys its two halves get. |
| VarKeyTree.InternalSplitLoses | workspace/postgres-src/contrib/btree_gist/btree_utils_var.c:529-544 | In the tree after that split an equality search does not find a stored value. |
| CubeData.IsPoint | workspace/postgres-src/contrib/cube/cube.c:1529-1550 | True exactly for boxes stored as points and boxes whose corners agree in every dimension. |
| CubeData.Union | workspace/postgres-src/contrib/cube/cube.c:746-805 | The union is, in every dimension with absent ones counting as zero, the least box around both, for mixed dimensions, swapped corners, points and aliased arguments. |
| CubeData.CubeContains | workspace/postgres-src/contrib/cube/cube.c:1123-1159 | Decides containment in the dimensions of the second box, absent dimensions counting as zero. |
| CubeData.CubeOverlap | workspace/postgres-src/contrib/cube/cube.c:1193-1229 | Decides overlap in every dimension, absent ones counting as zero. |
| CubeGist.OperatorsMean | workspace/postgres-src/contrib/cube/cube.c:1123-1229 | Boxes overlap exactly when some point, with a coordinate in every dimension, lies in both; one contains another exactly when every point of the other lies in it, in the other's dimensions. |
| CubeGist.UnionIsLeast | workspace/postgres-src/contrib/cube/cube.c:746-805 | The union encloses both boxes and is enclosed by every box that does. |
| CubeOrder.CubeCmp | workspace/postgres-src/contrib/cube/cube.c:936-1014 | Lexicographic comparison: lower extents, upper extents, excess dimensions against zero, then number of dimensions. |
| CubeOrder.CmpIs | workspace/postgres-src/contrib/cube/cube.c:936-1014 | A box is smaller exactly if it is at the first difference of lower extents in the common dimensions, failing that of upper extents there, then of lower, then of upper extents in the rest, or else has fewer dimensions. |
| CubeOrder.CmpZero | workspace/postgres-src/contrib/cube/cube.c:936-1014 | The result is zero exactly for equal dimension and equal extents. |
| CubeOrder.CmpAntisymmetric | workspace/postgres-src/contrib/cube/cube.c:936-1014 | Swapping the arguments negates the result, for all boxes. |
| CubeOrder.CmpTransitive | workspace/postgres-src/contrib/cube/cube.c:936-1014 | Transitive among boxes of one dimension and boxes of dimension zero. |
| CubeOrder.CmpTransitiveExactly | workspace/postgres-src/contrib/cube/cube.c:936-1014 | For a set of dimensions: transitive on all boxes with these if and only if at most one of them is positive. |
| CubeOrder.CmpCircle | workspace/postgres-src/contrib/cube/cube.c:936-1014 | For any two different positive dimensions: three boxes each smaller than the next, in a circle. |
| CubeGist.GistUnion | workspace/postgres-src/contrib/cube/cube.c:424-449 | The union of at least two entries is their exact hull, zero-extended. |
| CubeGist.HullGrows | workspace/postgres-src/contrib/cube/cube.c:734-743 | One more union extends the exact hull by one more box. |
| CubeGist.LeafConsistent | workspace/postgres-src/contrib/cube/cube.c:678-705 | Decides the operator for each strategy. |
| CubeGist.InternalConsistent | workspace/postgres-src/contrib/cube/cube.c:707-732 | Decides the internal test for each strategy. |
| CubeGist.InternalExactly | workspace/postgres-src/contrib/cube/cube.c:707-732 | For overlap and contains the internal test rejects exactly the queries that no enclosed box matches; for contained-by those that contain no enclosed box without excess dimensions away from zero; for same those that no enclosed box contains. |
| CubeGist.ContainedByExact | workspace/postgres-src/contrib/cube/cube.c:697-727 | A contained leaf is found below every enclosing key if and only if the query meets zero in the dimensions the leaf does not have. |
| CubeGist.ContainedBySmallQuery | workspace/postgres-src/contrib/cube/cube.c:697-727 | In particular when the query has no more dimensions than the leaf. |
| CubeGist.ContainedByMisses | workspace/postgres-src/contrib/cube/cube.c:697-727 | A concrete leaf and query where contained-by matches the leaf but not its key. |
| CubeDistance.Distance1D | workspace/postgres-src/contrib/cube/cube.c:1502-1515 | The gap between two intervals given by unordered ends; zero when they meet. |
| CubeDistance.DistanceTaxicab | workspace/postgres-src/contrib/cube/cube.c:1301-1343 | The sum of the gaps over all dimensions of either box. |
| CubeDistance.DistanceSquared | workspace/postgres-src/contrib/cube/cube.c:1252-1285 | The sum of the squared gaps. |
| CubeDistance.DistanceChebyshev | workspace/postgres-src/contrib/cube/cube.c:1345-1395 | The largest gap. |
| CubeDistance.GapIsDistance | workspace/postgres-src/contrib/cube/cube.c:1502-1515 | The gap of two intervals is the distance of their two closest points. |
| CubeDistance.EveryDimension | workspace/postgres-src/contrib/cube/cube.c:1252-1395 | No distance is less than its part in any one dimension: the gap for taxicab and Chebyshev, its square for the squared Euclidean. |
| CubeDistance.OneDimension | workspace/postgres-src/contrib/cube/cube.c:1252-1343 | If two boxes differ in one dimension only, their taxicab distances to a third differ by exactly the difference of the gaps there, and their squared Euclidean ones by that of the squares. |
| CubeDistance.ZeroIffOverlap | workspace/postgres-src/contrib/cube/cube.c:1252-1395 | Each of the three distances is zero if and only if the boxes overlap. |
| CubeDistance.ChebyshevAttained | workspace/postgres-src/contrib/cube/cube.c:1345-1395 | Some dimension attains the Chebyshev distance. |
| CubeDistance.CoordOfLeaf | workspace/postgres-src/contrib/cube/cube.c:1405-1474 | A leaf's coordinate is its lower or upper extent, negated for negative coordinates, zero beyond its dimensions. |
| CubeSplit.CubeSize | workspace/postgres-src/contrib/cube/cube.c:909-932 | The product of the extents, zero for points and for dimension zero. |
| CubeSplit.VolumeScales | workspace/postgres-src/contrib/cube/cube.c:921-929 | The product is proportional to the width in each dimension, the others being equal. |
| CubeSplit.VolumeZero | workspace/postgres-src/contrib/cube/cube.c:921-929 | It is zero exactly if some width is. |
| CubeSplit.UnitVolume | workspace/postgres-src/contrib/cube/cube.c:921-929 | It is one if all widths are. |
| CubeSplit.Inter | workspace/postgres-src/contrib/cube/cube.c:822-895 | The corners of the intersection in every dimension. |
| CubeSplit.WasteIs | workspace/postgres-src/contrib/cube/cube.c:556-566 | The waste of a pair is the size of its union less the size of its intersection, whatever boxes those are. |
| CubeSplit.PickSeeds | workspace/postgres-src/contrib/cube/cube.c:546-578 | The seeds are distinct and, among the pairs looked at, waste the most space when put together. |
| CubeSplit.DealOne | workspace/postgres-src/contrib/cube/cube.c:613-647 | A seed goes to its own side, any other entry where it enlarges the datum less; each datum stays the exact hull of its side and seed. |
| CubeSplit.PickSplit | workspace/postgres-src/contrib/cube/cube.c:510-655 | The offsets are partitioned into two non-empty increasing lists that fit the arrays with their sentinel, and each datum is the exact hull of its side. |
| CubeTree.DerivedEncloses | workspace/postgres-src/contrib/cube/cube.c:424-449 | A key built by any number of unions and page splits encloses every stored box that went into it. |
| CubeTree.UnionPage | workspace/postgres-src/contrib/cube/cube.c:424-449 | The union of the entries of a page is such a key, for everything below them. |
| CubeTree.SplitPage | workspace/postgres-src/contrib/cube/cube.c:510-655 | The two datums of a page split are such keys, and everything below an entry is below one of them. |
| CubeTree.MatchReachesKeys | workspace/postgres-src/contrib/cube/cube.c:707-732 | A stored box that matches is only below keys that match, at any height: always for overlap, same and contains, for contained-by if the query meets zero where the box has no dimension. |
| CubeTree.Search | workspace/postgres-src/contrib/cube/cube.c:390-417 | The search returns what descending along matching keys finds. |
| CubeTree.SearchExact | workspace/postgres-src/contrib/cube/cube.c:390-417 | In a tree of any height with such keys it finds exactly the matching stored boxes, in order. |
| CubeTree.SearchExactly | workspace/postgres-src/contrib/cube/cube.c:390-417 | It does so on every tree of given boxes if and only if no box that matches a contained-by query lacks a dimension in which the query does not meet zero. |
| CubeTree.DerivedAdmissible | workspace/postgres-src/contrib/cube/cube.c:1405-1498 | For each metric and each coordinate, such a key is never farther from the query than a box that went into it. |
| CubeTree.EuclideanAdmissible | workspace/postgres-src/contrib/cube/cube.c:1252-1285 | The same for the Euclidean distances, the roots of the squared ones. |
| CubeTree.KeysAdmissible | workspace/postgres-src/contrib/cube/cube.c:1405-1498 | So in a tree of any height no downlink is farther from the query than a box below it. |
| HeapXid.FromXidNormal | workspace/postgres-src/contrib/amcheck/verify_heapam.c:1882-1919 | Every normal 32-bit id converts to a normal 64-bit id that truncates back to it, unless clamped to 3. |
| HeapXid.ClampOnlyInEpochZero | workspace/postgres-src/contrib/amcheck/verify_heapam.c:1901-1913 | Clamping happens exactly for ids before the first normal one, and only in epoch 0. |
| HeapXid.FromXidInverts | workspace/postgres-src/contrib/amcheck/verify_heapam.c:1893-1918 | Conversion inverts truncation if and only if the id is within 2^31 of the next one. |
| HeapXid.PrecedenceAgrees | workspace/postgres-src/contrib/amcheck/verify_heapam.c:1898-1899 | Modulo-2^32 precedence agrees with 64-bit order for ids within 2^31 of each other. |
| HeapXid.RecentIdsAgree | workspace/postgres-src/contrib/amcheck/verify_heapam.c:1882-1919 | Both together for ids within 2^31 before the next one. |
| HeapStatus.HeapCheckContext.GetXidStatus | workspace/postgres-src/contrib/amcheck/verify_heapam.c:2016-2084 | The cached range after the call, the verdict, and, if it is asked for, the status with its one-entry cache. |
| HeapStatus.StatusMeans | workspace/postgres-src/contrib/amcheck/verify_heapam.c:2064-2083 | Each commit status, and when it is given: ids before the clog's horizon are committed, then current, in progress, committed or aborted in this order. |
| HeapStatus.VerdictMeans | workspace/postgres-src/contrib/amcheck/verify_heapam.c:2023-2053 | Each verdict, and exactly when it is given. |
| HeapStatus.RefreshMeans | workspace/postgres-src/contrib/amcheck/verify_heapam.c:2033-2044 | The shared range is read again exactly for a normal id outside the cached one. |
| HeapStatus.CacheFromHistory | workspace/postgres-src/contrib/amcheck/verify_heapam.c:1924-1936 | Over any run the cached range is one that was current at an earlier query or at the start. |
| HeapStatus.ComplaintsAreCurrent | workspace/postgres-src/contrib/amcheck/verify_heapam.c:2033-2049 | Over any run in-future and precedes-cluster-minimum are only reported against the range read in that same call. |
| HeapStatus.AcceptedIsInRange | workspace/postgres-src/contrib/amcheck/verify_heapam.c:2046-2055 | Over any run bounds-ok means inside a range that was current and not before relfrozenfxid. |
| HeapStatus.NoFalseAlarm | workspace/postgres-src/contrib/amcheck/verify_heapam.c:2033-2051 | An id in use is never reported as outside the cluster's range, however stale the cache. |
| HeapStatus.ExactVerdict | workspace/postgres-src/contrib/amcheck/verify_heapam.c:2033-2051 | If fewer than 2^31 ids were assigned since the cache was filled, the verdict on an id in use is exact. |
| HeapChains.CheckItem | workspace/postgres-src/contrib/amcheck/verify_heapam.c:450-573 | First pass, one line pointer: lp_valid, successor and whether corruption is reported. |
| HeapChains.CheckLink | workspace/postgres-src/contrib/amcheck/verify_heapam.c:604-743 | Second pass, one link: whether it is recorded as predecessor and whether corruption is reported. |
| HeapChains.CheckChains | workspace/postgres-src/contrib/amcheck/verify_heapam.c:579-744 | Second pass: predecessor holds the first link to each item; nothing is reported exactly when links are injective and consistent. |
| HeapChains.CheckRoots | workspace/postgres-src/contrib/amcheck/verify_heapam.c:753-776 | Third pass: nothing is reported exactly when no live heap-only tuple lacks a predecessor. |
| HeapChains.VerifyPage | workspace/postgres-src/contrib/amcheck/verify_heapam.c:442-776 | The passes report nothing if and only if the page is well-formed. |
| HeapChains.HeapOnlyHasOnePredecessor | workspace/postgres-src/contrib/amcheck/verify_heapam.c:746-776 | On a clean page a heap-only tuple with known committed or in-progress xmin has exactly one predecessor, a redirect or a HOT-updated tuple whose update xid is its xmin. |
| HeapChains.NothingLiveAfterAborted | workspace/postgres-src/contrib/amcheck/verify_heapam.c:727-742 | Down any update chain of a clean page whose statuses are known, nothing committed or in progress follows a tuple whose xmin aborted. |
| HeapChains.AbortedHasNoLiveSuccessor | workspace/postgres-src/contrib/amcheck/verify_heapam.c:727-742 | The successor of a tuple with known aborted xmin is not known committed or in progress. |
| HeapChains.RunningHasNoCommittedSuccessor | workspace/postgres-src/contrib/amcheck/verify_heapam.c:700-725 | The successor of a tuple whose xmin still runs is not known committed. |
| HeapChains.LinkOkExactly | workspace/postgres-src/contrib/amcheck/verify_heapam.c:604-743 | A link is reported exactly for disagreeing heap-only flags and these combinations of statuses, and from a redirect for a target that is not heap-only. |
| HeapChains.LinkExactly | workspace/postgres-src/contrib/amcheck/verify_heapam.c:450-660 | When one item follows another, in the fields of the two: a redirect to it, or a ctid on this page with its xmin as update xid, both readable. |
| HeapChains.ChainsDoNotMerge | workspace/postgres-src/contrib/amcheck/verify_heapam.c:620-680 | Two chains of one length on a clean page that end in the same tuple are the same. |
| HeapToast.CheckToastTuple | workspace/postgres-src/contrib/amcheck/verify_heapam.c:1457-1541 | One chunk: no complaint exactly when number, data and size are as expected. |
| HeapToast.CheckToastedAttribute | workspace/postgres-src/contrib/amcheck/verify_heapam.c:1763-1814 | No complaint if and only if the scan returned chunks 0 to last in order, each valid and of the expected size. |
| HeapToast.SizesAddUp | workspace/postgres-src/contrib/amcheck/verify_heapam.c:1463-1534 | The chunks of a clean value add up to the external size. |
| HeapToast.CompleteExactly | workspace/postgres-src/contrib/amcheck/verify_heapam.c:1457-1541 | A value has no complaint if and only if its chunks are numbered in sequence, all full but a last non-empty one, and together as large as the value. |
| NbtreePages.ChainDistinct | workspace/postgres-src/contrib/amcheck/verify_nbtree.c:924-932 | A right-link chain that reaches the rightmost page visits no block twice. |
| NbtreeLockstep.DownlinkMissingCheck | workspace/postgres-src/contrib/amcheck/verify_nbtree.c:2667-2833 | Success exactly when the page is the root, its left neighbour's split is incomplete, or an interrupted multi-level deletion is rooted in it: otherwise corruption is reported. |
| NbtreeExcuses.ExcusedExactly | workspace/postgres-src/contrib/amcheck/verify_nbtree.c:2667-2833 | A page may lack a downlink exactly when it is the root, its left sibling's split is incomplete, or its first downlinks lead, one level at a time, to a half-dead leaf that names it as top parent. |
| NbtreeLockstep.LeftmostIgnoringHalfDead | workspace/postgres-src/contrib/amcheck/verify_nbtree.c:1147-1199 | Success exactly when only mutually linked half-dead pages lie to the left. |
| NbtreeExcuses.LeftmostExactly | workspace/postgres-src/contrib/amcheck/verify_nbtree.c:1147-1199 | A page passes as leftmost exactly when half-dead pages, linked in both directions, lead to it from a page without left sibling. |
| NbtreeLockstep.BtreeCheckState.ChildHighkeyCheck | workspace/postgres-src/contrib/amcheck/verify_nbtree.c:2255-2487 | Success exactly when the child level can be followed from what is remembered to the downlink, or to its end, every live page passed over being excused and every high key equal to its separator; and what is remembered then. |
| NbtreeLockstep.CallWalks | workspace/postgres-src/contrib/amcheck/verify_nbtree.c:2300-2480 | Such a call extends the lockstep walk along the child level to the downlink, or to the end of the level. |
| NbtreeLockstep.BtreeCheckState.VisitChild | workspace/postgres-src/contrib/amcheck/verify_nbtree.c:2322-2469 | One turn: success exactly when the page may be followed through, with its level, links, excuse and high key. |
| NbtreeLockstep.TurnExactly | workspace/postgres-src/contrib/amcheck/verify_nbtree.c:2322-2469 | The same in the fields of the page and its parent: level, links, excuse, and which separator or high key the page's high key must equal, also for a page passed over before the downlink. |
| NbtreeLockstep.ReachDownlink | workspace/postgres-src/contrib/amcheck/verify_nbtree.c:2471-2477 | Reaching the downlink keeps the lockstep invariant. |
| NbtreeLockstep.SkipPage | workspace/postgres-src/contrib/amcheck/verify_nbtree.c:2358-2364 | Passing over an ignorable or excused page keeps it. |
| NbtreeTarget.RightPageScankey | workspace/postgres-src/contrib/amcheck/verify_nbtree.c:1975-2176 | The key comes from the first page to the right that is not ignorable; failure only if there is no such page. |
| NbtreeTarget.ItemCheck | workspace/postgres-src/contrib/amcheck/verify_nbtree.c:1651-1872 | Success exactly when, on a page that is not rightmost, the item's key is at most the high key and on an internal page strictly less, and it is below the next item and, if last, below the first item to the right. |
| NbtreeTarget.ChildCheck | workspace/postgres-src/contrib/amcheck/verify_nbtree.c:2502-2652 | Success exactly when the child level can be followed to the downlink and the downlink's key is a strict lower bound of a child that is not deleted. |
| NbtreeTarget.TargetPageCheck | workspace/postgres-src/contrib/amcheck/verify_nbtree.c:1425-1955 | Success exactly when the page passes, given what was remembered before it: order of its items for a leaf page, for an internal page that and every downlink, and below a rightmost page the end of the child level. |
| NbtreeTarget.TargetOrdered | workspace/postgres-src/contrib/amcheck/verify_nbtree.c:1651-1872 | A page that passes has strictly increasing keys, in order with the page to the right, and if it is not rightmost all at most the high key, on an internal page strictly less; the first item of an internal page does not count. |
| NbtreeLevel.VisitPage | workspace/postgres-src/contrib/amcheck/verify_nbtree.c:793-920 | One turn of the level walk succeeds exactly when nothing is wrong with the page: level, sibling link, leftmost and root conditions, and the page check; and carries over what later pages depend on. |
| NbtreeLevel.CheckLevel | workspace/postgres-src/contrib/amcheck/verify_nbtree.c:761-986 | A level passes exactly when nothing is wrong with any page on the walk along its right links to the rightmost page; and where the level below begins. |
| NbtreeLevel.RememberedFromLast | workspace/postgres-src/contrib/amcheck/verify_nbtree.c:788-973 | What is carried to the next page is the high key of the page just visited and the right link and split flag of the page below its last item. |
| NbtreeLevel.NoWalkClean | workspace/postgres-src/contrib/amcheck/verify_nbtree.c:788-973 | Where something is wrong with a page, no walk of the level is clean: the right links force the way and what is remembered on it. |
| NbtreeLevel.CleanPassed | workspace/postgres-src/contrib/amcheck/verify_nbtree.c:788-986 | On a level that passes every page is in place and in order, siblings agree, and the first live page is leftmost and, on the top level, the root. |
| NbtreeLevel.LeafLevelExact | workspace/postgres-src/contrib/amcheck/verify_nbtree.c:788-986 | On the leaf level that is all: it passes if and only if this holds. |
| NbtreeOrder.LevelIncreasing | workspace/postgres-src/contrib/amcheck/verify_nbtree.c:1727-1872 | The items of a level that passed strictly increase from left to right exactly when they do across its empty pages, which the check does not look past. |
| NbtreeTheorems.EmptyPageHidesDisorder | workspace/postgres-src/contrib/amcheck/verify_nbtree.c:2133-2168 | A tree of three levels without incomplete splits on which the whole check passes although the leaf items are out of order across an empty page. |
| NbtreeGaps.OrderExactly | workspace/postgres-src/contrib/amcheck/verify_nbtree.c:2133-2168 | The check of a level, leaf or internal, guarantees key order, for every choice of keys on the same structure with which the level passes, if and only if no empty live page lies between two live pages with usable items. |
| NbtreeGaps.GapHidesDisorder | workspace/postgres-src/contrib/amcheck/verify_nbtree.c:2133-2168 | Where there is such a page, the level also passes with keys that fall across it: keys left of it are shifted, together with what belongs to them on the level below. |
| NbtreeShift.LevelStaysClean | workspace/postgres-src/contrib/amcheck/verify_nbtree.c:1651-2469 | Shifting a set of keys that no comparison of the level leaves keeps the verdict on the level. |
| NbtreeCompared.LeafOrderExactly | workspace/postgres-src/contrib/amcheck/verify_nbtree.c:1651-2652 | For two leaf items of a tree that passes: the whole check guarantees that the first is below the second, for every choice of keys, if and only if the comparisons it makes lead from the first to the second. |
| NbtreeCompared.FirstChildUnguarded | workspace/postgres-src/contrib/amcheck/verify_nbtree.c:1486-1505 | In particular nothing is guaranteed about the items of a leaf page with an empty page before it that is the first child of its parent. |
| NbtreeOrder.HighKeyRespected | workspace/postgres-src/contrib/amcheck/verify_nbtree.c:1651-1723 | Every usable key of a level that passed is at most its page's high key and, on internal pages, strictly less. |
| NbtreeOrder.OutOfBoundsReported | workspace/postgres-src/contrib/amcheck/verify_nbtree.c:1701-1723 | One key above the high key of its page, or on an internal page equal to it, and the level does not pass. |
| NbtreeOrder.EveryPageInPlace | workspace/postgres-src/contrib/amcheck/verify_nbtree.c:793-932 | Every page of a level that passed: not deleted, not its own neighbour, a leaf exactly on level 0, half-dead only as a leaf with a right sibling, otherwise on the level; and a root level starts with the root. |
| NbtreeOrder.SiblingsAgree | workspace/postgres-src/contrib/amcheck/verify_nbtree.c:898-908 | Each live page's left link names the page visited just before it. |
| NbtreeDownlinks.DownlinksDistinct | workspace/postgres-src/contrib/amcheck/verify_nbtree.c:2300-2487 | No two downlinks of a level that passed point to the same page. |
| NbtreeDownlinks.LevelConnected | workspace/postgres-src/contrib/amcheck/verify_nbtree.c:2255-2487 | A pass over a level alone shows that the level below can be walked to its end and that the downlinks, all of them in order, are places on that walk, every other live page on it being excused. |
| NbtreeDownlinks.ConnectedBelow | workspace/postgres-src/contrib/amcheck/verify_nbtree.c:2255-2487 | On the walk of the level below the downlinks are places in order if and only if no live page of the level has block 0 as first downlink. |
| NbtreeDownlinks.ChildBetween | workspace/postgres-src/contrib/amcheck/verify_nbtree.c:2405-2469 | The usable items of a live child without incomplete split lie above the separator at its downlink, unless that is the first of its page, and at most at the next separator or the high key. |
| NbtreeDownlinks.SiblingsOrdered | workspace/postgres-src/contrib/amcheck/verify_nbtree.c:2502-2652 | The items of two children of one page are in order, whatever lies between them. |
| NbtreeTree.OnwardOn | workspace/postgres-src/contrib/amcheck/verify_nbtree.c:647-671 | The clean walk of a level is the only one, so it decides which level is checked next. |
| NbtreeTree.CheckEveryLevel | workspace/postgres-src/contrib/amcheck/verify_nbtree.c:647-671 | The check passes exactly when nothing is wrong with any level from the true root down. |
| NbtreeTheorems.TreePassed | workspace/postgres-src/contrib/amcheck/verify_nbtree.c:647-671 | Every level of a tree that passes has passed. |
| NbtreeTheorems.TreeStacked | workspace/postgres-src/contrib/amcheck/verify_nbtree.c:647-671 | Any two consecutive levels of it are two levels to which the results on separators and siblings apply. |
| NbtreeTheorems.TreeHeight | workspace/postgres-src/contrib/amcheck/verify_nbtree.c:647-671 | A tree that passes was checked down to the leaves if and only if on every level above them the first downlink of the first live page is not block 0. |
| NbtreeTheorems.TreeConnected | workspace/postgres-src/contrib/amcheck/verify_nbtree.c:652-671 | In a tree that passes a level's downlinks form a subsequence of the next level's right-link chain, other live pages on it being excused, if and only if none of its live pages has block 0 as first downlink. |
| NbtreeTheorems.OrderBelow | workspace/postgres-src/contrib/amcheck/verify_nbtree.c:2502-2652 | Order on a level carries over to the level below, across its empty pages, too, if the right end of each gap is not a first child and the separator after its left end is an item of the level above. |
| NbtreeTheorems.HollowRootPasses | workspace/postgres-src/contrib/amcheck/verify_nbtree.c:652-671 | A root whose only downlink is block 0 passes on any level, with nothing below it looked at. |
| HStore.Builder.AddItem | workspace/postgres-src/contrib/hstore/hstore.h:112-126 | A pair is appended: end positions, null flag and bytes. |
| HStore.Builder.CopyItem | workspace/postgres-src/contrib/hstore/hstore.h:99-106 | The same for a key and value copied as one piece. |
| HStore.Builder.Finalize | workspace/postgres-src/contrib/hstore/hstore.h:129-140 | After finalizing, with as many pairs as reserved or fewer, the accessors return every key, value and null flag, and the size is that of the header, the entries and the strings. |
| HStore.RoundTrip | workspace/postgres-src/contrib/hstore/hstore.h:28-34 | From the packed form the offsets, lengths and flags give back pair number i. |
| HStore.FlagBits | workspace/postgres-src/contrib/hstore/hstore.h:23-30 | Position, null and first flags do not disturb each other. |
| HStoreOps.HstorePairs | workspace/postgres-src/contrib/hstore/hstore_io.c:446-471 | Building from a list of pairs and reading back gives the list. |
| HStoreOps.HstoreDelete | workspace/postgres-src/contrib/hstore/hstore_op.c:244-287 | Deleting a key leaves exactly the other pairs, in order, readable in the smaller value. |
| HStoreOps.WithoutKeeps | workspace/postgres-src/contrib/hstore/hstore_op.c:269-281 | The pairs that are left are those at exactly the places whose key is another one, in their order. |
| LinearProgression.Passes | environment/src/graders/linear-grader.ts:24-66 | Test k passes if and only if there are k + 1 calls, in order, that are successful updates of the target and set the first k + 1 expected states. |
| LinearProgression.PlacesExactly | environment/src/graders/linear-grader.ts:30-54 | The states are a subsequence of the non-blank states set exactly when such calls exist. |
| LinearProgression.PassingIsDownwardClosed | environment/src/graders/linear-grader.ts:24-66 | Passing a test implies passing every earlier one. |
| LinearProgression.MatchedIsLongest | environment/src/graders/linear-grader.ts:37-54 | Taking each state at its first chance finds the longest prefix that is a subsequence. |

## Left out

- Buffer pins, memory contexts and WAL contents: each logged change is atomic and each abort changes nothing.
- Hash functions, collations and heap scans: parameters or input sequences.
- Signature words are sequences of 16 booleans, not machine integers; the bitwise operators are pointwise.
- VarKey.PickSplit: sorting itself (`qsort_arg`) is left out; the order is a parameter and any order of the offsets is allowed.
- Multi-byte encodings of variable-length keys; the key algorithms work on leaf and node values, whose byte layout is modelled separately.
- GiST core (insertion, choice of subtree) and penalty functions: trees are given, with keys that say how unions and splits made them.
- Floating-point rounding and NaN in cube: coordinates are reals.
- CubeDistance.DistanceSquared: stops before the square root, which is not computable on reals; `CubeTree.EuclideanAdmissible` speaks of the roots.
- The coordinate -2^31 of the cube coordinate operator, whose negation overflows.
- B-tree checks of the metapage, tuple sizes, attribute counts, posting lists, uniqueness, heap fingerprints and root descents, and the checks that tolerate concurrent changes.
- B-tree block number 0xFFFFFFFF, which the checker uses as a mark: the results on downlinks assume that it is no block, as in every relation, and the one on key order along an internal level that no first downlink there is 0 and no right link below it is 0xFFFFFFFF.
- Termination of the B-tree checker: its walks are bounded by a parameter, and a run that uses it up gives neither verdict.
- Error texts and the order in which several errors on one page would be noticed.
- Multixact ids, tuple visibility and attribute checks of the heap checker: their results are inputs of the page passes.
- hstore text input, comparison and the remaining operators.
- Trimming and lower-casing of issue states and the comparison of issue ids: calls carry the normalised state and whether they concern the target.
- The HTTP, container, mail and prompt plumbing of the environment, which is input and output only.
