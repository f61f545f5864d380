# Verified models of the benchmark programs' hard components

The repository bundles benchmark programs. Their drivers are thin, but several components inside them are
intricate: an in-place B+ tree, memcached's external page store, hash table, LRU queues and buffers, the Graph 500
result validator, CRC-32C and MD5, the HPCC random stream, liblinear's dual solvers and canneal's lock-free swap.
This project models these components in Dafny and proves what each is for.

| files | component | main result |
|---|---|---|
| `BTreeNode`, `BTreeShape`, `BTree` | B+ tree | every run of insert, insert_unique, delete and find agrees with a finite map; all structural invariants hold after each operation |
| `BTreeStuck` | B+ tree | exactly which deletions meet an underfull node without neighbour, in a tree whose nodes may have a single child |
| `BTreeBulk` | B+ tree | bulk_load builds a search tree for its input whose leaf chain is the input; later operations agree with a finite map, and some run of deletions cannot be completed if and only if some level has a node left over |
| `Extstore` | external page store | in every interleaving a read gives exactly the bytes written under its page version or fails; buffers, I/Os and pages are conserved |
| `ExtstoreObjects` | external page store | page counters stand for the objects that are left; an object that is not given up stays readable until its page is closed, and a generation ends exactly at a close or with no object left; when writes and allocations succeed |
| `ExtstoreWriters` | external page store | exactly when the assert that a bucket's head page is full holds, over all runs of concurrent write requests; a retried request is served |
| `ExtstoreLists` | external page store | the page lists in memory, linked by `next` pointers, follow the lists of the model |
| `BfsVerify` | Graph 500 validator | it accepts exactly the breadth-first-search trees of the root's component |
| `Bits`, `Crc32c` | CRC-32C | table-driven and interleaved computations equal the bitwise CRC |
| `Iteration`, `Lfsr`, `Gups` | HPCC random access | PERIOD is a period of the stream; jump-ahead equals stepping; 128 batched streams equal one sequential stream |
| `Assoc` | incremental hash table | lookups during migration agree with a set of keys; an iteration amid insertions and deletions yields nothing twice and all that stays |
| `Reals`, `Vectors`, `SvcDual`, `SvcSolver` | dual coordinate descent | exact coordinate minimisation, strict descent, stationary points are exactly the minima, and what every pass of the solver finds and does |
| `CrammerSinger` | Crammer-Singer sub-problem | thresholding gives the unique minimum |
| `AtomicSwap` | ordered atomic swap | linearisation, exactly when TrySwap fails, conservation, absence of deadlock |
| `BipBuffer` | bip buffer | first in, first out, exactly which bytes are accepted, and peeked bytes stay until they are polled while producers go on |
| `LruCrawler`, `LruPull` | LRU queues | a crawl shows every item, and how often, whatever is linked and unlinked meanwhile; lru_pull_tail keeps counts, queues and locks right, and exactly what it takes out, moves, stops at and counts |
| `Md5` | streaming MD5 | any cutting into appends gives the digest of the padded message |
| `Common`, `Division` | | shared types and functions on sequences; quotients and remainders |

Components whose code updates objects in place are classes and methods over arrays, sequences and maps; each
method is proved against a function or relation on values, and the theorems are lemmas about those. Protocols of
several threads are state machines with one step per critical section or atomic instruction, and the theorems speak
about all runs. Doubles are exact reals. Pointer structures carry ghost mirrors of their fields, so that
well-formedness is a statement about values. Where a contract says `Valid() == true`, the comparison only makes the
verifier pass the invariant on as a whole instead of part by part.

Some points where the models follow the code closely:

- `extstore_delete`, `extstore_close_page` and `extstore_evict_page` given version 0 match a page that is already
  free and free it again. `Extstore.DeleteOK` and `Extstore.CloseOK` state exactly when the store stays
  intact. Callers pass versions of stored objects, which are positive, so runs are over positive versions.
- `bipbuf_poll` limits the size by the end of the array, not by the end of region A. `BipBuffer.PolledOK` states exactly
  which polls keep the cursors in order.
- The first assert of `_allocate_page`, that the bucket's head page is full, can fail: two requests for one bucket can
  both read the same full head, and the second one allocates although the first one's page is still empty
  (`ExtstoreWriters.OverlapFails`). It fails exactly for a request that was overtaken in this way
  (`ExtstoreWriters.AssertExact`), so never while requests for one bucket do not overlap
  (`ExtstoreWriters.SerialAsserts`).
- `bulk_load` can leave an only child. When such a child runs short of keys, `delete_entry` reads `keys[0]` and
  `pointers[1]` of a parent that has no key and one child; the model's deletion then gives up and answers false.
  `BTree.Tree.Delete` says for every tree and key exactly when this happens. On a loaded tree it never does if no level
  has a node left over (`BTreeBulk.LoadAndRun`); otherwise deleting the keys from the last one to the first runs into
  it (`BTreeBulk.LoadAndClear`), and with order 3 and seven keys the first deletion does
  (`BTreeBulk.LoadSevenDeleteLast`).
- `HPCC_starts` reduces its argument modulo PERIOD, which is right because PERIOD, (2^63 - 1) / 7, is a period of the
  stream (`Lfsr.Period`). In the update loop an index equal to the table size can occur, which the source provides for
  by allocating beyond the table.
- An item that the crawler has passed and that a WARM rotation puts back at the head is shown again
  (`LruCrawler.RotatedItemShownTwice`); `LruCrawler.ShownExactly` counts how often an item is shown.
- `lru_pull_tail` with LRU_PULL_RETURN_ITEM on another queue than COLD, or together with LRU_PULL_EVICT, ends with the
  item it stopped at referenced and locked, and returns none. `LruPull.LruCache.PullTail` says exactly which item stays
  held, and `LruPull.LeakFromHot` shows the case of a HOT queue. A crawler that blocks makes it return 0 even after
  expired items were taken out.
- The validator reads parent entries as indices, so they and the root are taken to be in range. Its own `assert`s
  about parent chains are read as disabled (NDEBUG).
- `Checkin` is a plain store in every build, because the macro that selects the other branch is misspelt; it is modelled as
  one atomic store. `Swap` of a cell with itself never returns (`AtomicSwap.SelfSwapStuck`), so progress is proved for
  swaps of different cells.
- In the dual solver a zero row has no curvature; the code's division then gives infinity and the coordinate
  goes to its upper bound, which is modelled and covered by the descent theorems.

## Model

| member | source | states |
|---|---|---|
| `BTree.Tree.FindLeaf` | sources/btree/btree.c:217-230 | the descent ends in the one leaf whose key range owns the key |
| `BTree.Tree.Find` | sources/btree/btree.c:232-244 | returns the record the represented map has for the key, or none |
| `BTreeNode.Node.InsertIntoLeaf` | sources/btree/btree.c:326-338 | shifting slots in place inserts the entry at its sorted position |
| `BTreeNode.Node.SplitLeaf` | sources/btree/btree.c:340-376 | the two leaves are the halves, at cut(order - 1), of the leaf with the entry added |
| `BTreeNode.Node.SplitInner` | sources/btree/btree.c:390-424 | the two nodes are the halves of the node with the entry added, without the middle key |
| `BTreeNode.Node.InsertIntoNode` | sources/btree/btree.c:378-388 | shifting slots in place adds the separator and the right child behind the left one |
| `BTreeNode.Node.Absorb` | sources/btree/btree.c:624-648 | the left node becomes the join of both, with the separator for internal nodes |
| `BTreeNode.Node.BorrowLeft` | sources/btree/btree.c:660-678 | both nodes become the halves of their join, cut one slot further left |
| `BTreeNode.Node.BorrowRight` | sources/btree/btree.c:679-698 | both nodes become the halves of their join, cut one slot further right |
| `BTree.Tree.InsertIntoLeafAfterSplitting` | sources/btree/btree.c:340-376 | the tree is well formed again and its map has the new entry, however far the split cascades |
| `BTree.Tree.LeftIndex` | sources/btree/btree.c:319-324 | finds the slot of the left node in its parent |
| `BTree.Tree.InsertIntoNode` | sources/btree/btree.c:378-388 | a pending separator put into a parent with room completes the tree |
| `BTree.Tree.InsertIntoNodeAfterSplitting` | sources/btree/btree.c:390-432 | a full parent is split, its children re-parented and the separator passed on, keeping all invariants |
| `BTree.Tree.InsertIntoParent` | sources/btree/btree.c:434-442 | from a tree with one pending separator to a well-formed tree |
| `BTree.Tree.InsertIntoNewRoot` | sources/btree/btree.c:444-454 | the tree grows by one level at the root |
| `BTree.Tree.StartNewTree` | sources/btree/btree.c:456-464 | the first entry makes a one-leaf tree |
| `BTree.Tree.Insert` | sources/btree/btree.c:466-480 | the map is updated at the key, whether present or absent, and every invariant kept |
| `BTree.Tree.InsertUnique` | sources/btree/btree.c:560-577 | for an absent key the caller's record is stored under it, and every invariant kept |
| `BTree.Tree.NeighborIndex` | sources/btree/btree.c:583-589 | the position of the left neighbour, or -1 for the first child |
| `BTreeNode.Node.RemoveEntry` | sources/btree/btree.c:591-606 | removes exactly the entry at its position, closing the gap in keys and pointers |
| `BTree.Tree.AdjustRoot` | sources/btree/btree.c:608-619 | a root left without keys gives way to its only child or to the empty tree, after which every invariant holds |
| `BTree.Tree.CoalesceNodes` | sources/btree/btree.c:621-654 | merging a node with its neighbour and deleting the separator above gives a well-formed tree with the same map |
| `BTree.Tree.RedistributeNodes` | sources/btree/btree.c:656-700 | borrowing one slot from a neighbour restores the minimum occupancy with the same map |
| `BTree.Tree.DeleteEntry` | sources/btree/btree.c:702-719 | removing an entry, with the cascade it causes, gives a well-formed tree, if and only if no node without neighbour underflows on the way up |
| `BTree.Tree.Delete` | sources/btree/btree.c:721-729 | for every tree and key the deletion is completed if and only if it does not get stuck at an only child, which cannot happen where every node has a key; the result then is well formed, with separator order, equal depth, occupancy, parents and leaf chain, and its map is the old one without the key |
| `BTree.Tree.Lookup` | sources/btree/btree.c:232-244 | answers as the finite map |
| `BTree.Tree.Leaves` | sources/btree/btree.c:150-167 | the leaf chain lists exactly the keys of the map in increasing order |
| `BTree.Run` | sources/btree/btree.c:466-480 | every run of operations from the empty tree answers every lookup as a finite map does |
| `BTree.RunOn` | sources/btree/btree.c:466-729 | so does every run from any tree, up to the first deletion that gets stuck; there is none if no node is empty |
| `BTreeStuck.StuckStep` | sources/btree/btree.c:702-719 | a node left with k keys gets stuck if and only if it underflows and is an only child, or is merged with its neighbour and its parent, left with one key less, gets stuck |
| `BTreeStuck.SameStuck` | sources/btree/btree.c:702-719 | whether it gets stuck depends only on the node's place and on what lies at its level or above |
| `BTreeStuck.NeverStuck` | sources/btree/btree.c:702-719 | where no node is empty no deletion gets stuck |
| `BTreeStuck.StuckOnLeaf` | sources/btree/btree.c:721-729 | the leaf responsible for the key decides whether its deletion gets stuck |
| `BTreeStuck.HasKey` | sources/btree/btree.c:519-555 | below every node, also one without keys, some key of the map is stored |
| `BTreeShape.OwnerUnique` | sources/btree/btree.c:217-230 | on each level of a well-formed tree at most one node owns a key |
| `BTreeShape.SplitPreserves` | sources/btree/btree.c:340-432 | splitting any node and moving the separator up preserves well-formedness for the same map |
| `BTreeShape.SplitSized` | sources/btree/btree.c:340-432 | a split of an overfull node leaves both halves within the occupancy bounds |
| `BTreeShape.MergePreserves` | sources/btree/btree.c:621-654 | merging two neighbours and dropping their separator preserves well-formedness for the same map |
| `BTreeShape.RedistributionPreserves` | sources/btree/btree.c:656-700 | moving the boundary between neighbours preserves well-formedness for the same map |
| `BTreeShape.InsertPreserves` | sources/btree/btree.c:326-338 | a leaf insertion gives a well-formed tree for the extended map |
| `BTreeShape.RemovePreserves` | sources/btree/btree.c:591-606 | a leaf removal gives a well-formed tree for the reduced map |
| `BTreeBulk.BuildLeaves` | sources/btree/btree.c:489-510 | the leaves are consecutive runs of the input, chained in order |
| `BTreeBulk.FirstKeyBelow` | sources/btree/btree.c:535-543 | descending to the leftmost leaf gives the lower bound of the child's keys |
| `BTreeBulk.MakeParent` | sources/btree/btree.c:526-550 | one parent takes the next children with their separators |
| `BTreeBulk.BuildLevel` | sources/btree/btree.c:519-555 | a level is grouped under fewer parents and the forest stays well formed for the same map |
| `BTreeBulk.LevelledOK` | sources/btree/btree.c:519-555 | grouping a level under new nodes, also a last one with a single child, preserves well-formedness |
| `BTreeBulk.BulkLoad` | sources/btree/btree.c:486-558 | for strictly increasing keys the result is a search tree for exactly the input pairs, and has a node without keys, the last of its level, if and only if some level has one node left over |
| `BTreeBulk.LoadAndQuery` | sources/btree/btree.c:486-558 | find on a bulk-loaded tree agrees with array lookup for every key, and the leaf chain is the input |
| `BTreeBulk.LoadAndRun` | sources/btree/btree.c:466-729 | every run of operations on a bulk-loaded tree answers as a finite map up to the first deletion that gets stuck; there is none if no level has a node left over |
| `BTreeBulk.LoadAndClear` | sources/btree/btree.c:486-729 | deleting the keys of a bulk-loaded tree from the last one to the first gets through if and only if no level has a node left over |
| `BTreeBulk.LoadAndDeleteLast` | sources/btree/btree.c:486-729 | where the last leaf is an only child with a single entry, the deletion of the last key gets stuck |
| `BTreeBulk.LoadSevenDeleteLast` | sources/btree/btree.c:486-729 | so it does for seven keys in a tree of order 3 |
| `BTreeBulk.NeighbourIff` | sources/btree/btree.c:709-712 | an underfull node has a neighbour if and only if its parent has a key |
| `Extstore.FreePageOK` | sources/memcached/extstore.c:952-993 | freeing an inactive, unreferenced page keeps the whole invariant |
| `Extstore.AllocatePageOK` | sources/memcached/extstore.c:471-497 | a page enters service under a version no stored object has, and the invariant is kept, whenever allocations happen |
| `Extstore.FreeHead` | sources/memcached/extstore.c:467-497 | the asserts on page_free hold, and a page on a free list is free |
| `Extstore.IoLeft` | sources/memcached/extstore.c:559-580 | _submit_wbuf never finds the I/O stack empty |
| `Extstore.SubmitOK` | sources/memcached/extstore.c:559-580 | zeroing the unused end of a buffer and queueing it keeps the invariant |
| `Extstore.AllocateWbufOK` | sources/memcached/extstore.c:500-520 | attaching a free buffer to a page without one keeps the invariant |
| `Extstore.AppendOK` | sources/memcached/extstore.c:652-670 | putting an object into the granted buffer keeps the invariant, and the object lies within one buffer |
| `Extstore.WriteOK` | sources/memcached/extstore.c:591-670 | a write to any page a writer may have picked keeps the invariant, in all its branches |
| `Extstore.PWriteOK` | sources/memcached/extstore.c:922-927 | the unlocked flush keeps the invariant |
| `Extstore.CallbackOK` | sources/memcached/extstore.c:528-554 | returning buffer and I/O after a flush keeps the invariant |
| `Extstore.CallbackAsserts` | sources/memcached/extstore.c:528-554 | the asserts of _wbuf_cb hold, and the returned buffer's bytes are on disk |
| `Extstore.ObjInBuffer` | sources/memcached/extstore.c:815-833 | the asserts of _read_from_wbuf hold, and the buffer has the object's bytes |
| `Extstore.ObjOnDisk` | sources/memcached/extstore.c:885-891 | a read sent to disk asks only for flushed bytes |
| `Extstore.RetainOK` | sources/memcached/extstore.c:882-900 | taking a reference keeps the count equal to the number of reads in flight |
| `Extstore.PReadOK` | sources/memcached/extstore.c:901-921 | what an unlocked disk read returns is the object's bytes |
| `Extstore.ReleaseOK` | sources/memcached/extstore.c:938-943 | dropping the reference keeps the invariant |
| `Extstore.DeleteOK` | sources/memcached/extstore.c:724-757 | delete keeps the store intact if and only if the version is positive or the page is not free |
| `Extstore.CloseOK` | sources/memcached/extstore.c:772-807 | the same for close and evict |
| `Extstore.SweepOK` | sources/memcached/extstore.c:195-224 | reclaiming emptied and closed pages keeps the invariant |
| `Extstore.InitOK` | sources/memcached/extstore.c:257-397 | the initial store satisfies the invariant, for any disk contents and device layout |
| `Extstore.StepOK` | sources/memcached/extstore.c:528-993 | every step of every thread keeps the invariant |
| `Extstore.ReadSafe` | sources/memcached/extstore.c:882-900 | a read of a written object gives its bytes or fails, and fails exactly if its page generation is over or being closed |
| `Extstore.ReadBack` | sources/memcached/extstore.c:652-670 | after a write and any further run, its object is read back exactly or not at all |
| `Extstore.NeverAgain` | sources/memcached/extstore.c:163-166 | an object whose page generation is over is never readable again |
| `Extstore.Pinned` | sources/memcached/extstore.c:882-943 | no step frees, reallocates or overwrites what a read in flight refers to |
| `Extstore.ConservedAlways` | sources/memcached/extstore.c:364-397 | in every reachable state free and attached buffers and free and submitted I/Os add up, page_free counts the free pages, and each page is on exactly one list, once, the one its fields name |
| `ExtstoreObjects.StepCounted` | sources/memcached/extstore.c:652-757 | while callers give up what they wrote, each object once and with matching counts, obj_count and bytes_used of a page that is not closed are the number and the size of the objects left in its generation |
| `ExtstoreObjects.EndsIff` | sources/memcached/extstore.c:195-224 | the generation of a page ends if and only if it is unread and inactive and is closed, or is given up or swept with no object left |
| `ExtstoreObjects.StaysReadable` | sources/memcached/extstore.c:724-757 | an object that is not given up is readable after every run in which its page is not closed |
| `ExtstoreObjects.WrittenReadable` | sources/memcached/extstore.c:652-670 | so is what a write stored, from the write on |
| `ExtstoreObjects.CloseIff` | sources/memcached/extstore.c:772-807 | closing or evicting an inactive page with its version makes all its objects unreadable, also while others still read them; otherwise nothing happens |
| `ExtstoreObjects.FailedForever` | sources/memcached/extstore.c:882-900 | an object that cannot be read is never readable again |
| `ExtstoreObjects.AllocateIff` | sources/memcached/extstore.c:471-497 | the page comes from the requested free list if it has one, else from list 0, and an allocation fails if and only if neither has a page |
| `ExtstoreObjects.WriteIff` | sources/memcached/extstore.c:591-670 | a write succeeds if and only if the page is active and its buffer, or one it can get, has room, and puts the object at the end of the page's content |
| `ExtstoreObjects.WriteFails` | sources/memcached/extstore.c:613-649 | a write that fails submits a buffer without room, or gets a page its buffer, or changes nothing |
| `ExtstoreWriters.EmptyServed` | sources/memcached/extstore.c:591-640 | a request for an empty bucket stores its data if a page and a buffer are free |
| `ExtstoreWriters.RetryServed` | sources/memcached/extstore.c:585-640 | a request that finds a full page allocates, and its retry stores the data if a page and a buffer are free |
| `ExtstoreWriters.StepGood` | sources/memcached/extstore.c:467-640 | every step keeps every page behind a bucket's head full, and a refused request knows that the head it read was full |
| `ExtstoreWriters.AssertExact` | sources/memcached/extstore.c:470-470 | in any interleaving the assert at a pending allocation fails if and only if another request put a page that is not full at the head since this one read it |
| `ExtstoreWriters.SerialAsserts` | sources/memcached/extstore.c:591-624 | in every run where requests for one bucket do not overlap the assert never fails |
| `ExtstoreWriters.OverlapFails` | sources/memcached/extstore.c:600-624 | from any state with a full head and a free page two overlapping requests make it fail |
| `ExtstoreWriters.RunIsExec` | sources/memcached/extstore.c:591-640 | a run of requests is a run of the store, so the store's theorems hold of it |
| `ExtstoreLists.PageStore.constructor` | sources/memcached/extstore.c:338-371 | pushing the pages from the last to the first builds the initial free lists in memory |
| `ExtstoreLists.PageStore.Allocate` | sources/memcached/extstore.c:471-497 | relinking a page from the requested free list or the default one to the bucket's head is the allocation step, and page_free is positive where the source asserts it |
| `ExtstoreLists.PageStore.Walk` | sources/memcached/extstore.c:963-976 | the walk along a bucket's list finds the page and the one before it |
| `ExtstoreLists.PageStore.Unlink` | sources/memcached/extstore.c:962-976 | the page is taken out of its list at any place and no other list changes |
| `ExtstoreLists.PageStore.Free` | sources/memcached/extstore.c:952-993 | unlinking, resetting and pushing a page in memory is the step that frees it |
| `ExtstoreLists.CutLists` | sources/memcached/extstore.c:965-972 | redirecting one pointer takes one page out of its list and leaves all lists linked |
| `BfsVerify.ComputeLevels` | sources/graph500/verify.c:17-77 | computes the levels of the parent array, and fails exactly if there are none (a cycle or a chain leaving the tree) |
| `BfsVerify.CheckEdges` | sources/graph500/verify.c:114-157 | accepts exactly the edge lists whose edges respect the levels, marks the tree edges seen and counts the edges inside |
| `BfsVerify.CheckTree` | sources/graph500/verify.c:159-172 | accepts exactly if every tree edge was seen and no other vertex is its own parent |
| `BfsVerify.CheckRules` | sources/graph500/verify.c:79-179 | the whole validator accepts exactly if the parent array has levels and meets the edge and tree rules |
| `BfsVerify.RulesSound` | sources/graph500/verify.c:79-179 | the checked rules imply that levels are shortest distances and the tree spans exactly the component |
| `BfsVerify.RulesComplete` | sources/graph500/verify.c:79-179 | every breadth-first-search tree satisfies the checked rules |
| `BfsVerify.VerifyBfsTree` | sources/graph500/verify.c:79-179 | accepts if and only if the array is a breadth-first-search tree of the root's component and no edge leaves the array; returns the number of edges inside |
| `Crc32c.FeedLinear` | sources/memcached/crc32c.c:49-61 | the CRC register is linear over GF(2) in its start value |
| `Crc32c.MatrixTimes` | sources/memcached/crc32c.c:62-71 | multiplying by the matrix of an operator applies the operator |
| `Crc32c.MatrixSquare` | sources/memcached/crc32c.c:75-78 | squaring the matrix doubles the number of zero bits it stands for |
| `Crc32c.ZerosOp` | sources/memcached/crc32c.c:85-117 | the repeated squaring gives the operator for the highest power of two not above len zero bytes |
| `Crc32c.ZerosTables` | sources/memcached/crc32c.c:121-131 | the four tables hold the operator on each byte position |
| `Crc32c.Shift` | sources/memcached/crc32c.c:134-137 | four table lookups apply the operator |
| `Crc32c.Hardware` | sources/memcached/crc32c.c:161-246 | for every alignment, length and start the three-way interleaved loop computes the bitwise CRC |
| `Crc32c.InitLittle` | sources/memcached/crc32c.c:369-389 | table k holds the effect of a byte followed by k zero bytes |
| `Crc32c.SliceByEight` | sources/memcached/crc32c.c:402-418 | eight lookups feed eight bytes |
| `Crc32c.SoftwareLittle` | sources/memcached/crc32c.c:393-424 | for every alignment, length and start the slicing-by-8 loop computes the bitwise CRC |
| `Crc32c.Crc32cHw` | sources/memcached/crc32c.c:155-246 | with its own tables the hardware path equals the bitwise CRC-32C |
| `Crc32c.Crc32cSw` | sources/memcached/crc32c.c:369-424 | with its own tables the slicing-by-8 path equals the bitwise CRC-32C |
| `Crc32c.CrcContinues` | sources/memcached/crc32c.c:391-424 | the crc of a concatenation continues from the crc of its first part |
| `Gups.SquareSteps` | sources/gups/gups.c:41-45 | squaring modulo the polynomial doubles the number of steps |
| `Gups.SquareTable` | sources/gups/gups.c:40-45 | entry j of the table is the value 2j steps from 1 |
| `Gups.TopBit` | sources/gups/gups.c:47-49 | finds the highest set bit |
| `Gups.Starts` | sources/gups/gups.c:29-64 | for every argument the result is the value n steps from 1, or the value from which -n steps lead to 1 |
| `Lfsr.Period` | sources/gups/gups.c:27-27 | PERIOD steps from 1 lead back to 1 |
| `Lfsr.ReducePower` | sources/gups/gups.c:26-26 | x^64n = x^2n + x^n + 1 modulo the polynomial for every power of two n |
| `Lfsr.PeriodTimesY` | sources/gups/gups.c:26-27 | multiplying a multiple of x + 1 by x^PERIOD changes nothing |
| `Gups.UpdateRow` | sources/gups/gups.c:177-184 | one round over the streams applies one update of each |
| `Gups.UpdateTable` | sources/gups/gups.c:172-184 | for any number of updates the batched loop leaves the table that one sequential stream leaves |
| `Assoc.Undisturbed` | sources/memcached/assoc.c:70-79 | a migration changes where a hash is looked up exactly if it belongs to the migrated bucket, and leaves other chains alone |
| `Assoc.StripeSeparates` | sources/memcached/assoc.c:209-213 | an operation under another item lock works on another bucket than the one being migrated |
| `Assoc.InsertedOK` | sources/memcached/assoc.c:153-170 | insertion keeps each item in the one chain where it is looked up |
| `Assoc.DeletedOK` | sources/memcached/assoc.c:172-189 | deletion does too |
| `Assoc.ExpandedOK` | sources/memcached/assoc.c:121-141 | starting an expansion does too |
| `Assoc.MigratedOK` | sources/memcached/assoc.c:213-233 | migrating a bucket does too |
| `Assoc.ExpansionEnds` | sources/memcached/assoc.c:213-233 | an expansion ends after exactly the remaining buckets' rounds, with the old table empty |
| `Assoc.Table.Find` | sources/memcached/assoc.c:70-98 | finds the map's item for the key, in either table |
| `Assoc.Table.Insert` | sources/memcached/assoc.c:153-170 | linking at the head of the right chain extends the map |
| `Assoc.Table.Delete` | sources/memcached/assoc.c:103-189 | unlinking from the chain removes the key from the map |
| `Assoc.Table.Expand` | sources/memcached/assoc.c:121-141 | the table is swapped for one of twice the size with the same map and the migration starts at bucket 0; a failed allocation changes nothing |
| `Assoc.Table.Migrate` | sources/memcached/assoc.c:204-243 | moving a bucket's items by relinking keeps the map |
| `Assoc.Iterate` | sources/memcached/assoc.c:318-360 | each call yields the next item of the locked bucket, moves to the next bucket or ends |
| `Assoc.IterateAll` | sources/memcached/assoc.c:318-360 | a whole iteration of a table that nobody changes yields every item of the map exactly once |
| `Assoc.IterateRun` | sources/memcached/assoc.c:304-360 | with insertions and deletions by other threads at any time outside the locked bucket no item is yielded twice, not even one deleted and inserted again, only items once in the table are, and all items present throughout are yielded |
| `Assoc.Run` | sources/memcached/assoc.c:70-264 | any interleaving of lookups, insertions, deletions, expansions and migrations answers as a set of keys |
| `Vectors.SparseWithDense` | sources/liblinear/linear.cpp:62-71 | the sparse product is the inner product with the row's vector |
| `Vectors.SparseDot` | sources/liblinear/linear.cpp:73-93 | the merge of two rows gives their inner product |
| `Vectors.Axpy` | sources/liblinear/linear.cpp:95-102 | adds a multiple of the row's vector |
| `Vectors.NormDense` | sources/liblinear/linear.cpp:51-60 | the sum of squared values is the squared norm |
| `Vectors.Nrm2Sq` | sources/liblinear/linear.cpp:51-60 | the loop adds up the squared values |
| `SvcDual.DualIs` | sources/liblinear/linear.cpp:869-885 | the objective through w is the documented quadratic form |
| `SvcDual.DualChange` | sources/liblinear/linear.cpp:979-982 | the exact effect of changing one coordinate, by its gradient and curvature |
| `SvcDual.StepMinimises` | sources/liblinear/linear.cpp:1017-1020 | the clipped Newton step is the minimum along the coordinate within the box |
| `SvcDual.Optimality` | sources/liblinear/linear.cpp:984-1012 | a feasible point is a global minimum if and only if every projected gradient is zero |
| `SvcSolver.Update` | sources/liblinear/linear.cpp:1015-1021 | the coordinate update is the best one and keeps w equal to the sum of alpha y x |
| `SvcSolver.Visit` | sources/liblinear/linear.cpp:975-1021 | a visit shrinks the example if and only if its coordinate is at a bound with a gradient beyond the limit, makes the coordinate optimal and the objective strictly smaller if the projected gradient exceeds 1e-12, and otherwise changes nothing; w and box are kept |
| `SvcSolver.Shuffle` | sources/liblinear/linear.cpp:967-971 | the index stays a permutation for all random choices |
| `SvcSolver.Pass` | sources/liblinear/linear.cpp:964-1022 | a pass visits every active example once, one visit going on where the last one ended, puts the shrunk ones behind the others, and returns the extreme projected gradients found |
| `SvcSolver.Objective` | sources/liblinear/linear.cpp:1054-1064 | the reported value is the dual objective |
| `SvcSolver.Solve` | sources/liblinear/linear.cpp:901-1064 | the result is feasible with matching w, its objective is below the start value once there is an example and a pass, each pass follows from the one before, and the solver stops early only after a pass over all examples whose projected gradients are all within eps |
| `SvcSolver.ShrunkIsStationary` | sources/liblinear/linear.cpp:984-1008 | an example is shrunk away only while its projected gradient is zero |
| `SvcSolver.FinishedFound` | sources/liblinear/linear.cpp:1030-1042 | the last pass of an early stop visited every example and found its projected gradient within eps |
| `SvcSolver.FinishedMinimum` | sources/liblinear/linear.cpp:1015-1042 | with eps at most 1e-12 all projected gradients of the result are within eps, and with eps 0 it is the global minimum |
| `CrammerSinger.Threshold` | sources/liblinear/linear.cpp:632-635 | the loop over the sorted array finds the multiplier at which the excess is A times C |
| `CrammerSinger.Solution` | sources/liblinear/linear.cpp:637-643 | the coordinates add up to 0 if yi is active and to -C_yi otherwise, and meet the optimality conditions |
| `CrammerSinger.Minimum` | sources/liblinear/linear.cpp:622-645 | a feasible point meeting the conditions is the only minimum |
| `CrammerSinger.SolveSubProblem` | sources/liblinear/linear.cpp:613-645 | alpha_new becomes the unique minimum of the sub-problem |
| `AtomicSwap.CommitOK` | sources/canneal/AtomicPtr.h:123-136 | PrivateSet on the higher cell transposes the contents of the two cells |
| `AtomicSwap.StepOK` | sources/canneal/AtomicPtr.h:226-243 | every atomic step keeps the invariant, and contents change only where a swap commits |
| `AtomicSwap.CommitsOnce` | sources/canneal/AtomicPtr.h:226-274 | in any interleaving a call takes effect at most once between call and return, on its own two cells, a Swap always does, and what is returned says whether it did |
| `AtomicSwap.TrySwapReturns` | sources/canneal/AtomicPtr.h:247-274 | TrySwap returns true if and only if it took effect, and false if and only if at one of its own steps a cell had no value or another one than it had loaded |
| `AtomicSwap.FailsIff` | sources/canneal/AtomicPtr.h:137-155 | from any point of a TrySwap on, it gives up if and only if it is obstructed in this way |
| `AtomicSwap.AloneSwaps` | sources/canneal/AtomicPtr.h:226-274 | on two different cells that have their values and without other threads, either call returns true after five steps with the contents swapped |
| `AtomicSwap.StepConserves` | sources/canneal/AtomicPtr.h:279-298 | no step loses or duplicates a location |
| `AtomicSwap.RunConserves` | sources/canneal/AtomicPtr.h:226-298 | over any run of Swap and TrySwap the locations in cells and hands are the same |
| `AtomicSwap.Quiescent` | sources/canneal/AtomicPtr.h:226-243 | with no call under way the cells hold what the committed swaps lead to |
| `AtomicSwap.Progress` | sources/canneal/AtomicPtr.h:226-243 | some thread would complete its call within seven own steps |
| `AtomicSwap.NoDeadlock` | sources/canneal/AtomicPtr.h:226-243 | this holds in every state of every run of swaps of different cells |
| `AtomicSwap.SelfSwapStuck` | sources/canneal/AtomicPtr.h:226-243 | a Swap of a cell with itself never takes effect and never returns, from the call on, in any run |
| `BipBuffer.RequestedPushes` | sources/memcached/bipbuffer.c:77-107 | after a granted request pushes of at most that total succeed, across the switch to region B |
| `BipBuffer.AcceptedIff` | sources/memcached/bipbuffer.c:23-30 | bytes are accepted if and only if they fit on the larger side of region A, next to what region B has; while region B is empty, only what fits on neither side is refused |
| `BipBuffer.PolledOK` | sources/memcached/bipbuffer.c:151-180 | a poll keeps the cursors in order if and only if it is refused or takes at most region A |
| `BipBuffer.Buffer.Request` | sources/memcached/bipbuffer.c:77-89 | grants exactly the unused bytes, at a place that holds no queued byte |
| `BipBuffer.Buffer.Fill` | sources/memcached/items.c:1284-1288 | writing into granted room changes nothing that is queued |
| `BipBuffer.Buffer.UsedBytes` | sources/memcached/bipbuffer.c:37-40 | the number of queued bytes |
| `BipBuffer.Buffer.IsEmpty` | sources/memcached/bipbuffer.c:63-66 | true exactly for the empty queue |
| `BipBuffer.Buffer.Push` | sources/memcached/bipbuffer.c:91-107 | the bytes written at the requested place join the queue |
| `BipBuffer.Buffer.Offer` | sources/memcached/bipbuffer.c:109-128 | the bytes join the queue if and only if they fit on the larger side of region A, and peeked bytes stay in place |
| `BipBuffer.Buffer.PeekAll` | sources/memcached/bipbuffer.c:142-149 | shows a non-empty prefix of a non-empty queue |
| `BipBuffer.Buffer.Poll` | sources/memcached/bipbuffer.c:151-180 | takes the oldest bytes |
| `BipBuffer.Produce` | sources/memcached/items.c:1281-1297 | request, fill and push: what is accepted joins the queue, and peeked bytes are untouched |
| `BipBuffer.TakePeeked` | sources/memcached/items.c:1333-1335 | a later poll succeeds and takes exactly what the peek showed |
| `BipBuffer.Step` | sources/memcached/bipbuffer.c:63-180 | every operation keeps peeked bytes intact and pollable |
| `BipBuffer.Run` | sources/memcached/bipbuffer.c:63-180 | over any run of producers and a consumer that peeks and polls later, the bytes accepted are those that fit, they are the bytes taken followed by those queued, and each poll returns what its peek showed |
| `LruCrawler.Queue.Link` | sources/memcached/items.c:407-432 | the item is the new head of the doubly linked list |
| `LruCrawler.Queue.Unlink` | sources/memcached/items.c:447-477 | the item is taken out wherever it is |
| `LruCrawler.Queue.LinkTail` | sources/memcached/items.c:1673-1692 | the crawler is the new tail and no size changes |
| `LruCrawler.Queue.UnlinkTail` | sources/memcached/items.c:1694-1713 | the crawler is taken out, also after it was popped off the head |
| `LruCrawler.Queue.Crawl` | sources/memcached/items.c:1717-1769 | the crawler changes places with its predecessor, which is returned, and nothing else moves |
| `LruCrawler.CrawlAll` | sources/memcached/items.c:1673-1769 | a whole crawl visits every item once from tail to head and restores list, head, tail, links and size |
| `LruCrawler.ShownExactly` | sources/memcached/items.c:1717-1769 | with items linked and unlinked meanwhile, all items behind the crawler were shown, and an item is shown once for being ahead and once per link, except when unlinked before its turn |
| `LruCrawler.ShownAgain` | sources/memcached/items.c:1717-1769 | an item that was passed is shown again if and only if it is linked again and reached again |
| `LruCrawler.RotatedItemShownTwice` | sources/memcached/items.c:1160-1165 | a rotation of a passed item makes the crawler show it twice |
| `LruCrawler.CrawlRun` | sources/memcached/items.c:1717-1769 | a run on the linked list itself shows what the run on values shows and leaves its list |
| `LruPull.UnlinkQOK` | sources/memcached/items.c:447-477 | taking an item out of its queue keeps both counters right |
| `LruPull.LinkQOK` | sources/memcached/items.c:407-432 | linking a moved item restores the full invariant |
| `LruPull.ReleaseOK` | sources/memcached/items.c:538-546 | item_free is reached only for unlinked, unqueued items without references |
| `LruPull.UnlinkOK` | sources/memcached/items.c:523-536 | do_item_unlink_nolock keeps counts, queues and table in agreement |
| `LruPull.LruCache.Drop` | sources/memcached/items.c:523-536 | table, queue and counters agree after the unlink, and the call keeps its reference and lock |
| `LruPull.LruCache.LetGo` | sources/memcached/items.c:538-546 | reference and lock are given back together, and the last reference frees |
| `LruPull.LruCache.Attach` | sources/memcached/items.c:407-432 | a moved item becomes the head of its new queue and the full invariant holds again |
| `LruPull.LruCache.Take` | sources/memcached/items.c:1104-1110 | an item is locked and referenced together or left alone |
| `LruPull.LruCache.InspectWarm` | sources/memcached/items.c:1151-1185 | an active WARM item is back at the head and released; an active HOT item is on its way to WARM, an idle one over the limit or too old to COLD, and any other stays, still referenced and locked |
| `LruPull.LruCache.InspectCold` | sources/memcached/items.c:1186-1222 | the COLD item is evicted, returned, on its way to WARM or left in place as the flags say |
| `LruPull.LruCache.Walk` | sources/memcached/items.c:1084-1225 | the loop stops at the first item from the tail that can be locked, has not expired and is not an active WARM item on its first turn, within five tries |
| `LruPull.LruCache.PullTail` | sources/memcached/items.c:1072-1246 | on every path reference counts, queues, counters and locks are right at return, and exactly the item the walk stopped at stays held if LRU_PULL_RETURN_ITEM is given, returned or not; all queues, links, flags and the table are those that the expired, rotated, moved or evicted items lead to, and the result counts these items |
| `LruPull.StopsAtFirst` | sources/memcached/items.c:1084-1225 | from a HOT, COLD or TEMP queue the walk stops at x if and only if x is the first item from the tail that can be locked and has not expired, within five items that are no crawlers and with no blocking crawler behind it |
| `LruPull.TakesOutExpired` | sources/memcached/items.c:1121-1141 | from a HOT, COLD or TEMP queue exactly those items are taken out on the way that the walk comes to, can lock and finds expired, and none is moved to the head |
| `LruPull.StopsAtInactive` | sources/memcached/items.c:1084-1225 | from a WARM queue it stops at the first such item that is not active, if there is one within five |
| `LruPull.StopsAtOnly` | sources/memcached/items.c:1084-1225 | a pull on a queue with one item stops at it if and only if it can be locked, has not expired and is not an active WARM item |
| `LruPull.LeakFromHot` | sources/memcached/items.c:1151-1246 | with LRU_PULL_RETURN_ITEM on a HOT queue the item ends up referenced and locked and is not returned |
| `Md5.FoldAppend` | sources/memcached/md5.c:351-353 | compressing a concatenation continues from its first part |
| `Md5.CountStep` | sources/memcached/md5.c:333-337 | the two count words hold the bit length modulo 2^64 across carries |
| `Md5.LengthBytes` | sources/memcached/md5.c:372-374 | the eight length bytes are the bit length in little-endian order |
| `Md5.State.Append` | sources/memcached/md5.c:322-358 | the registers cover all full blocks of what was appended and the buffer holds the rest |
| `Md5.State.Finish` | sources/memcached/md5.c:360-382 | the digest is the compression of the message padded as sections 3.1 and 3.2 of RFC 1321 say |
| `Md5.DigestOf` | sources/memcached/md5.c:312-382 | any way to cut a message into appends gives its digest |

## Left out

- Benchmark drivers, option parsing, timing, NUMA, page-table dumps and file signalling: system calls without an algorithm.
- Memory allocation failure and slabs in btree.c, destroy_tree and the printing routines other than the leaf walk: allocation is a fresh object, and none of these is part of the map semantics.
- BTreeBulk.BulkLoad: strictly increasing keys only, as the function is documented for sorted data.
- Failing I/O, short reads and writes, version wrap-around and zero-length objects in extstore; the choice of the eviction victim; statistics.
- The write buffers, their stack and the I/O queue of extstore in memory: they are values in the state machine, and only the pages and their lists are objects with pointers.
- Reads of locations that were never written, which the store does not protect against.
- OpenMP branches of verify.c and gups.c: the sequential code is modelled.
- The big-endian, ARM and fallback branches of crc32c.c; the crc32 instruction is one step of the bitwise CRC.
- The thresholds that trigger a hash table expansion, and tracing probes.
- Rounding in liblinear, its logistic, Newton and regression solvers, the outer loop of the multi-class solver, the final recomputation of w, and model files.
- AtomicSwap.NoDeadlock: a weak store order of Checkin is not modelled; the atomic operations are sequentially consistent.
- Actions of other threads between the steps of one lru_pull_tail call, other than lock and reference contention; tail repair, external storage deletion and statistics in it; the bump buffers and the LRU maintainer loop.
- LruPull.StopsAtInactive: which active WARM item a pull stops at on its second turn is said by the walk on lists only.
- MD5's 64 rounds, which are an arbitrary compression function here, and appends of 2^28 bytes or more, where the source's shift overflows.
