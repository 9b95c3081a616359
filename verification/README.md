# Storage engine: a verified model

The project models the storage engine under `src/server/storage` and proves that its parts do what the rest
of the server relies on. Every object that the engine changes in place is a class here, with the same fields
and the same steps; what a method leaves behind is stated through specification functions whose own
properties are proved as lemmas.

| files | part of the engine | main results |
|---|---|---|
| `TreePages`, `TreeSteps`, `TreeEntries`, `TreeDelete`, `BplusTree` | the B+ tree index | `InsertEntry` and `DeleteEntry` change the index by exactly one pair and keep one invariant through every cascade of splits, borrowings, merges and root changes |
| `TreeLimits` | page limits too small for the index | two trees, each left by the index's own steps, on which looking a page up in its parent fails |
| `TreeMeaning`, `TreeOrder`, `TreeChecker` | what that invariant says of the whole tree | equal depth, reachability, separators, slot-0 keys, the leaf chain; exactly which pages the index's own checker accepts, every kept tree among them |
| `BplusTreeRuns` | every run of the index | insertions, deletions, lookups and range scans answer what a plain set of pairs answers, whoever else pins pages; no page is leaked |
| `BplusTreeScan`, `LowerBound`, `Keys` | range scans | a scan returns exactly the pairs in the range, each once, in order |
| `Comparators` | attribute values, record ids, fitted string bounds | where the comparisons are orders and where they are not, as exact conditions |
| `LruCache`, `FrameManager` | cache list, frame allocator | the pointers always form one list in order of last use; frames are conserved; the victim is the unpinned page used longest ago |
| `PageHeader`, `CacheUse`, `BufferPool`, `BufferPoolRuns` | the buffer pool of a file | every run of operations agrees with a plain list of pages and pins, running out of frames included; a page waiting for its last unpin is not handed out; every use of a page is recorded, and a frame is taken from the page used longest ago; what may be on disk after a flush and later writes, and so what a restart finds |
| `LogRecords`, `LogBuffer`, `LogRecovery` | the redo log | nothing is lost between buffer and file; a record's number is its place; exactly which records of up to 4096 bytes recovery returns, from a whole log or a cut one; when the log can be continued; how every record is answered and what is flushed when |
| `Bitmap`, `PageLayout`, `RecordHeap`, `RecordHeapRuns`, `RecordScan` | record pages, the record file and its scan | every run of the heap agrees with a map from record ids to bytes, and an insertion fails only when every slot that a file can have is taken; a scan returns every accepted record once, in order |
| `Table` | a table and its indexes | every run places a record exactly when there is room for it and for its entries, and leaves each index with exactly one entry for each record; a failed insertion is undone everywhere |
| `ReturnCodes` | the answers of operations | |

The invariant of the tree is local to each page and its neighbours: every page has a level and a range
(`TreePages.Shape`), the range of a child is cut out of its parent's by the separators, and the key of slot 0
of an internal page is the lower end of its range whenever that range has one. While a split is on its way up,
`TreePages.Pending` names the page that no parent lists yet; while a merge is on its way up, `under` names the
page that may be one item short. The lemmas of `TreeMeaning` turn this into statements about the whole tree.
Pins are counted for one page, `probe`, chosen arbitrarily when the index is created, so what is proved of
it holds of every page.

## Where the code falls short of what it is for

The model keeps the code as it is written, and where there is a condition under which it does what it should,
that condition is proved in both directions. Only the places that "Left out" names as modelled as intended
differ: the index orders record ids by page and slot, recovery counts bytes, and deletions of records keep
the list of free pages in order.

- Recovery takes some records that start right behind a record which lies in several blocks for a part of that
  one, and so loses them, in two places. It tests for a tail shorter than a record header before it hands a pending
  record over (`clog_manager.cpp:311` before `319`). And the header of a block that begins with a record longer
  than the block says that no record starts there (`190-191`, read at `302-309`), so when the record before it
  ended exactly with the last block, the new one is taken for more of it: `LogRecovery.RecoversExactly`,
  `SwallowedExample` (a short tail), `LongExample` (a long record).
- `AppendRecord` answers that the buffer is full although it appended the record, and a commit record appended
  this way is not flushed: `LogBuffer.CLogManager.AppendRecord`.
- Recovery does not move the log's number past a last record that crossed into the last block:
  `LogRecovery.NumbersContinue`, `Reopen`.
- Of a log that is not all flushed, recovery hands the record at the end of the file over as if it was whole:
  `LogRecovery.Recover`, `CutRecord`, `CutCommit`.
- Flushing an empty buffer would overwrite the header block of the log file with zeros
  (`LogBuffer.CLogBuffer.FlushBuffer`); nothing does so, since a flush always follows an append.
- The deletion of records lists a page as free again although it was given up, unless a handler still has the
  page pinned; handlers that store or change a record never give their pin back, which hides this until the
  file is opened again: `RecordHeap.RecordFileHandler.DeleteAndRelist`, `LostRecord`. A pin that is given back
  later, like that of the scan of a delete statement, only puts this off: the page is given up at that moment,
  and is listed.
- `NextSetBit` keeps the start position within a byte for the bytes after it: `Bitmap.BitMap.NextSetBit`,
  `MissedBit`. The iterators, which only search on from a set bit, are not affected: `AfterSetBit`.
- The capacity of a record page leaves out one byte but rounds the record area up to 8, so records that leave
  fewer than 24 bits over, those of 24 bytes among them, overrun the page: `PageLayout.SlotsFit`, `SlotsOverrun`.
- `RecordId::Compare` has its arms exchanged, `CompareInt` wraps around, `CompareFloat` never finds a value
  equal to itself: `Comparators.RidCompareMeans`, `ToldApart`, `CompareIntMeans`, `CompareFloatMeans`.
- A scan compares its bounds before it fits them to the attribute, and refuses a left bound that is included
  when it is the kept part of a longer right bound that is not, as from "abc" to before "abcd" on three bytes,
  although "abc" lies in that range. Otherwise only ranges with nothing in them are refused: `Keys.RefusedMeans`.
- The index's own check passes some trees that are not in order, such as one whose chain of leaves ends too
  early: `TreeChecker.AcceptsShortChain`.
- Raising the last byte of a bound that is too long wraps around at 255: `Comparators.LeftBoundMeans`.
- A page is found in its parent by its last key. With limits that let an internal page shrink to one child
  this can find the wrong page when keys below zero are stored: `TreeDelete.OnlyKeyFinds`,
  `TreeLimits.OnlyKeyMisses`. With limits that let a leaf run empty there is no last key: `TreeLimits.NoLastKey`.
- A page added at the end of a file is written there at once, but the header that counts it only by the next
  flush: `BufferPoolRuns.Unflushed`.
- A page below the end of a file is marked as taken before a frame is found for it, and keeps the mark and its
  old data: `BufferPool.DiskBufferPool.AllocatePage`.
- The deletion of a missing entry is answered with `RecordRecordNotExist` or `Empty`, never with the
  `RecordInvalidKey` that the rollback of a failed insertion waives (`table.cpp:715`). The rollback therefore
  stops at the index that refused, and has by then undone exactly the ones before it:
  `Table.Table.DeleteEntryOfIndexes`, `InsertRecord`.

## Model

| member | source | states |
|---|---|---|
| BplusTree.BplusTreeHandler.InsertEntry | src/server/storage/b_plus_tree.cpp:733-765 | on every valid tree, empty or not: adds exactly the pair (attr, rid), or answers duplicate and holds what it held; whatever splits follow, depth, order, separators, parents, leaf links, occupancy, page accounting and pins are kept |
| BplusTree.BplusTreeHandler.DeleteEntry | src/server/storage/b_plus_tree.cpp:766-789 | removes exactly the pair, or answers that there is none (or no tree) and holds what it held; through every cascade of borrowing, merging and root collapse the same invariant is kept, and a page that leaves the tree is freed unless someone else holds it |
| BplusTree.BplusTreeHandler.Create | src/server/storage/b_plus_tree.cpp:622-678 | a new index is valid, holds nothing, and has the limits it was given |
| BplusTree.BplusTreeHandler.FindLeafInternal | src/server/storage/b_plus_tree.cpp:898-921 | the descent by key, first or last ends, with one pin, in the leaf whose range covers the key, or in the first or last leaf |
| BplusTree.BplusTreeHandler.LeafLookUp | src/server/storage/b_plus_tree.cpp:190-196 | the position of the first key not below the key, and whether it is the key |
| BplusTree.BplusTreeHandler.InternalLookUp | src/server/storage/b_plus_tree.cpp:406-425 | the slot of the child whose range covers the key, and where a separator is to go, ignoring the key of slot 0 |
| BplusTree.BplusTreeHandler.InsertEntryIntoLeafNode | src/server/storage/b_plus_tree.cpp:1153-1195 | a key the leaf covers is added once, splitting a full leaf and passing the new leaf up, or refused because some entry of the tree has it |
| BplusTree.BplusTreeHandler.SplitFullLeaf | src/server/storage/b_plus_tree.cpp:1165-1194 | splitting a full leaf and inserting on the proper side gives a tree whose only irregularity is the new leaf that no parent lists yet; its entries are the old ones and the new one |
| BplusTree.BplusTreeHandler.InsertEntryIntoParent | src/server/storage/b_plus_tree.cpp:1080-1152 | lists a pending right half in its parent, splitting full ancestors up to a new root; no entry, pin or page is lost, and it ends because the distance to the root shrinks |
| BplusTree.BplusTreeHandler.SplitParent | src/server/storage/b_plus_tree.cpp:1126-1148 | a full parent is split, the pending half goes to the side its key belongs to with its parent pointer corrected, and the new parent is pending in turn |
| BplusTree.BplusTreeHandler.CopyFrom | src/server/storage/b_plus_tree.cpp:482-503 | the copied children name the page they were copied to as their parent |
| BplusTree.BplusTreeHandler.SplitInternal | src/server/storage/b_plus_tree.cpp:938-954 | the upper half of the children, from floor(n/2) on, moves to a new page and is re-parented |
| BplusTree.BplusTreeHandler.CreateNewRoot | src/server/storage/b_plus_tree.cpp:1085-1106 | two halves without a parent get a new root, recorded in the header |
| BplusTree.BplusTreeHandler.CreateNewTree | src/server/storage/b_plus_tree.cpp:1209-1231 | the first entry makes a root leaf |
| BplusTree.BplusTreeHandler.DeleteEntryInternal | src/server/storage/b_plus_tree.cpp:922-937 | removes the one entry with the key from the whole tree, or none has it; nothing but its leaf changes if and only if that stays at least half full, or is the root and keeps an entry |
| BplusTree.BplusTreeHandler.CoalesceOrRedistribute | src/server/storage/b_plus_tree.cpp:955-1004 | a page that lost an item is repaired up to the root: the entries stay, every page is full enough again, all pins are given back; the pages stay as they are if and only if the page was still at least half full, or is a root with enough items |
| BplusTree.BplusTreeHandler.FindNeighbour | src/server/storage/b_plus_tree.cpp:973-988 | looking the last key of a page up in its parent finds the slot of that page, and the neighbour taken is next to it |
| BplusTree.BplusTreeHandler.RedistributeLeaf | src/server/storage/b_plus_tree.cpp:1055-1079 | with more entries in both leaves than fit one, moving one from the neighbour, which is strictly the larger one, leaves every page full enough and the separator right |
| BplusTree.BplusTreeHandler.RedistributeInternal | src/server/storage/b_plus_tree.cpp:1055-1079 | likewise for internal pages, whose slot-0 key becomes or was a separator; the child moved is re-parented |
| BplusTree.BplusTreeHandler.CoalesceLeaf | src/server/storage/b_plus_tree.cpp:1003-1054 | two leaves whose entries fit one become the left one; the leaf chain, the parent and the set of pages in use follow |
| BplusTree.BplusTreeHandler.CoalesceInternal | src/server/storage/b_plus_tree.cpp:1003-1054 | two internal pages become the left one, with the children re-parented; only the parent may be short of an item afterwards |
| BplusTree.BplusTreeHandler.HoldPage | src/server/storage/buffer_pool.cpp:176-211 | a pin that someone else takes on a page in use changes nothing of the index but which pages are held |
| BplusTree.BplusTreeHandler.ReleasePage | src/server/storage/buffer_pool.cpp:300-312 | when the last pin of someone else on a page is given back, the page is freed if the index had given it up, and not otherwise; the index stays valid |
| BplusTree.BplusTreeHandler.AdjustRoot | src/server/storage/b_plus_tree.cpp:1232-1261 | an empty root leaf is dropped and leaves no root, a root with one child hands over to it, and any other root stays; entries, occupancy and pins are as they should be |
| TreeSteps.SplitInternalOk | src/server/storage/b_plus_tree.cpp:389-399 | cutting an internal page in two keeps the tree but for the part not yet listed |
| TreeSteps.SplitLeafOk | src/server/storage/b_plus_tree.cpp:219-226 | cutting a leaf in two keeps the tree, both directions of the leaf chain included |
| TreeSteps.JoinLeafOk | src/server/storage/b_plus_tree.cpp:242-262 | appending a leaf to its left neighbour keeps the tree and the leaf chain |
| TreeSteps.JoinInternalOk | src/server/storage/b_plus_tree.cpp:450-458 | appending an internal page to its left neighbour keeps the tree: its slot-0 key is a separator |
| TreeSteps.GrowOk | src/server/storage/b_plus_tree.cpp:367-373 | a new root over two halves keeps the tree |
| TreeSteps.CollapseOk | src/server/storage/b_plus_tree.cpp:1244-1260 | the only child of the root as root keeps the tree |
| TreePages.LinkOk | src/server/storage/b_plus_tree.cpp:379-388 | listing a pending half right after its sibling keeps the tree |
| TreePages.UnlinkOk | src/server/storage/b_plus_tree.cpp:444-449 | taking a child off its parent keeps the tree, the child being pending again |
| TreePages.OnePagePerLevel | src/server/storage/b_plus_tree.cpp:898-921 | at each level at most one page covers a key, so a descent cannot go wrong |
| TreeDelete.MoveFirstIsShift | src/server/storage/b_plus_tree.cpp:459-469 | moving the first child to the end of the left neighbour is re-cutting the two pages one place further |
| TreeDelete.MoveLastIsShift | src/server/storage/b_plus_tree.cpp:470-478 | moving the last child to the front of the right neighbour is re-cutting them one place earlier |
| TreeDelete.LastKeyFinds | src/server/storage/b_plus_tree.cpp:973-980 | looking up the last key of a page in its parent finds its slot: for a leaf with an entry, and for an internal page with two children |
| TreeDelete.OnlyKeyFinds | src/server/storage/b_plus_tree.cpp:973-980 | with one child left the lookup finds the slot if and only if the page is off the left spine or its meaningless slot-0 key is below the next separator |
| TreeLimits.OnlyKeyMisses | src/server/storage/b_plus_tree.cpp:973-980 | an ordered, linked tree with limits of 4 and no page under-full; removing one entry and merging its leaf, as the deletion does, leaves a page with one child that the lookup does not find, since a separator below zero stands after it |
| TreeLimits.NoLastKey | src/server/storage/b_plus_tree.cpp:973-980 | an ordered, linked tree with a leaf limit of 3 and no page under-full; removing one entry, as the deletion does, leaves an under-full leaf that has no last key to look up |
| TreeDelete.RedistributeLeafGood | src/server/storage/b_plus_tree.cpp:1055-1079 | borrowing keeps order, separators and occupancy |
| TreeDelete.BorrowChildGood | src/server/storage/b_plus_tree.cpp:1055-1079 | borrowing a child keeps order, separators, slot-0 keys, parents and occupancy |
| TreeEntries.LeafSplitGood | src/server/storage/b_plus_tree.cpp:1165-1194 | the two halves of a full leaf and the new entry are both at least half full |
| TreeEntries.KeyUnique | src/server/storage/b_plus_tree.cpp:1153-1195 | no two entries of a tree have one key |
| TreeMeaning.EqualDepth | src/server/storage/b_plus_tree.cpp:898-921 | every path from the root to a leaf has the same length |
| TreeMeaning.Reachable | src/server/storage/b_plus_tree.cpp:898-921 | every page kept for the tree is reached from the root |
| BplusTreeRuns.NoPageLeak | src/server/storage/b_plus_tree.cpp:1003-1054 | the allocated pages are the two header pages, exactly the pages reached from the root, and those given up that someone else still holds; without such holders, the first two and nothing else |
| TreeMeaning.SeparatorsBound | src/server/storage/b_plus_tree.cpp:406-425 | a separator bounds every key stored anywhere below its two sides |
| TreeMeaning.SlotZeroKey | src/server/storage/b_plus_tree.cpp:450-478 | off the left spine the key of slot 0 equals the separator above the page, which is what the moves rely on |
| TreeMeaning.ChainLinked | src/server/storage/b_plus_tree.cpp:1298-1345 | next and prev are inverse along the chain, which runs in key order |
| TreeMeaning.ChainIsAllLeaves | src/server/storage/b_plus_tree.cpp:1298-1345 | from the leftmost leaf the chain meets every leaf, and nothing else |
| TreeMeaning.ChainSorted | src/server/storage/b_plus_tree.cpp:1298-1345 | reading the leaves along the chain reads strictly increasing keys |
| TreeChecker.IsValidateLeafLink | src/server/storage/b_plus_tree.cpp:1298-1345 | on whatever pages: when every page of the tree is consistent it answers true exactly when some chain of leaves begins with the leftmost one, is linked in both directions, ascends from leaf to leaf and ends |
| TreeChecker.IsValidateNodeRecursive | src/server/storage/b_plus_tree.cpp:1346-1369 | on whatever pages: it answers true exactly when every page that can be reached from the given one exists, is sorted, fits between the separators of its parent and is the parent that its children name |
| TreeChecker.IsValidateTree | src/server/storage/b_plus_tree.cpp:813-830 | so the whole check answers true exactly when the pages meet both conditions |
| TreeChecker.KeptAccepted | src/server/storage/b_plus_tree.cpp:813-830 | every tree that the operations leave behind meets them |
| TreeChecker.AcceptedAscends | src/server/storage/b_plus_tree.cpp:1298-1345 | along an accepted chain of consistent leaves the keys of every leaf are below those of all later ones |
| TreeChecker.AcceptsShortChain | src/server/storage/b_plus_tree.cpp:813-830 | two leaves whose chain ends with the first one: the check answers true, and the tree is not in order |
| BplusTreeScan.BplusTreeScanner.Open | src/server/storage/b_plus_tree.cpp:1393-1537 | on a tree: what is left to return is exactly the entries within the bounds, for open, inclusive and exclusive ends and for crossed cursors; refused bounds leave nothing to return, and a second Open leaves what there was |
| BplusTreeScan.BplusTreeScanner.NextEntry | src/server/storage/b_plus_tree.cpp:1538-1574 | returns the least entry left and removes exactly it from what is left; reports the end exactly when nothing is left |
| BplusTreeScan.BplusTreeScanner.SeekLeft | src/server/storage/b_plus_tree.cpp:1407-1455 | the left cursor stands on the first entry from the bound on |
| BplusTreeScan.BplusTreeScanner.SeekRight | src/server/storage/b_plus_tree.cpp:1457-1522 | the right cursor stands on the last entry up to the bound |
| BplusTreeScan.BplusTreeScanner.Close | src/server/storage/b_plus_tree.cpp:1575-1588 | gives back the pins the scan holds |
| BplusTreeScan.CursorsSpan | src/server/storage/b_plus_tree.cpp:1523-1534 | where the two seeks leave the cursors, either they enclose exactly the range or the test for crossing empties the scan |
| BplusTreeScan.Scan | src/server/storage/b_plus_tree.cpp:1393-1588 | a scan opened with any bounds, read to its end and closed returns the record ids of exactly the pairs in the range, each once, in the order of the pairs, and gives its pins back; bounds that cross are refused |
| BplusTreeScan.GetEntry | src/server/storage/b_plus_tree.cpp:793-809 | returns the record ids stored under a value, each once, in order |
| BplusTreeRuns.Step | src/server/storage/b_plus_tree.cpp:733-809 | an insertion, deletion, lookup or range scan answers what the set of pairs gives, and the index then holds what becomes of the set; pins that others take, on pages in use only, and give back in between change neither |
| BplusTreeRuns.Run | src/server/storage/b_plus_tree.cpp:733-809 | so does every run of them, and the invariant holds throughout |
| BplusTreeRuns.EmptyIndex | src/server/storage/b_plus_tree.cpp:1232-1242 | there is no root exactly when the index holds nothing |
| Keys.KeyParts | src/server/storage/b_plus_tree.cpp:1373-1382 | an attribute value and a record id can be read back from their composite key |
| Keys.KeyOrder | src/server/storage/b_plus_tree.cpp:42-49 | composite keys compare by attribute value, then page, then slot |
| Keys.RefusedMeans | src/server/storage/b_plus_tree.cpp:1402-1407 | bounds are refused exactly when the interval between their kept parts is empty, the cut-off parts being ignored; no value lies in a refused range, with one exception: an included left bound that is the kept part of an over-long right bound that is not included |
| Keys.OpenNotRefused | src/server/storage/b_plus_tree.cpp:1402-1407 | a range that is open at one end is never refused |
| Keys.LargestRid | src/server/storage/record.cpp:38-46 | the record id reserved for bounds is the largest that two signed 32-bit numbers make |
| Keys.LeftKeyMeans | src/server/storage/b_plus_tree.cpp:1424-1431 | at or above the left sentinel key means at or above, or strictly above, the bound, but for the reserved record id |
| Keys.RightKeyMeans | src/server/storage/b_plus_tree.cpp:1479-1487 | below the right sentinel key means at or below, or strictly below, the bound, but for the reserved record id |
| LowerBound.FindLowerBound | src/server/common/lower_bound.h:14-41 | the binary search returns the first position not below the value and finds the value exactly when it is there |
| Comparators.RidCompareMeans | src/server/storage/record.cpp:35-37 | the comparison of record ids as written agrees with page and slot order if and only if the ids are equal or differ in both parts in the same direction |
| Comparators.RidCompareFails | src/server/storage/record.cpp:35-37 | two ids of one page that compare as equal, and two that compare the wrong way round |
| Comparators.ToldApart | src/server/storage/b_plus_tree.cpp:42-49 | the key comparison tells the entries of an index apart if and only if no two of one attribute value share a page or a slot |
| Comparators.CompareIntMeans | src/common/common_defs.cpp:45-48 | the wrapped difference has the right sign if and only if the difference fits 32 bits |
| Comparators.CompareIntCircle | src/common/common_defs.cpp:45-48 | three integers that compare as each below the next, in a circle |
| Comparators.CompareFloatMeans | src/common/common_defs.cpp:49-57 | a value compares below itself; the sign is right if and only if the first value is smaller, or larger by more than epsilon |
| Comparators.CompareStringMeans | src/common/common_defs.cpp:58-69 | stored strings of one attribute compare in dictionary order, and as equal only when they are |
| Comparators.RankMeans | src/common/common_defs.cpp:58-69 | the comparison is that of the numbers whose digits are the bytes |
| Comparators.RankBumped | src/server/storage/b_plus_tree.cpp:1619-1622 | raising the last byte is going to the next number, unless it wraps around |
| Comparators.LeftBoundMeans | src/server/storage/b_plus_tree.cpp:1611-1623 | comparing inclusively with the fitted left bound is, for all stored strings, comparing with the bound that is too long, if and only if the last byte kept is not 255 |
| Comparators.RightBoundMeans | src/server/storage/b_plus_tree.cpp:1611-1623 | the cut right bound always means what the longer one means |
| Comparators.FixUserKey | src/server/storage/b_plus_tree.cpp:1589-1624 | the buffer holds the padded bound, or the cut and raised one, and only a cut bound becomes inclusive |
| Comparators.BoundMeans | src/server/storage/b_plus_tree.cpp:1401-1487 | a string bound, given to the scan as a rank and whether more follows, means dictionary order on stored strings, whether it fits the attribute or not |
| Comparators.FixedRank | src/server/storage/b_plus_tree.cpp:1589-1624 | what the scan makes of that rank is the rank of the fitted bound: always on the right, and on the left if and only if the bound fits or its last kept byte is not 255 |
| LruCache.LruCache.Get | src/server/storage/lru_cache.h:93-100 | answers what the table holds, and moves the key to the front of the list |
| LruCache.LruCache.Put | src/server/storage/lru_cache.h:102-112 | stores the value and moves or puts the key to the front |
| LruCache.LruCache.Remove | src/server/storage/lru_cache.h:114-118 | takes exactly the key out, the order of the others unchanged |
| LruCache.LruCache.LruTouch | src/server/storage/lru_cache.h:136-149 | the pointers after a touch are those of the list with the node moved to the front |
| LruCache.LruCache.LruPush | src/server/storage/lru_cache.h:151-160 | the pointers after a push are those of the list with the node put in front |
| LruCache.LruCache.LruRemove | src/server/storage/lru_cache.h:162-173 | the pointers after a removal are those of the list without the node |
| LruCache.LruCache.Foreach | src/server/storage/lru_cache.h:120-126 | visits the keys in the order of the list |
| LruCache.LruCache.ForeachReverse | src/server/storage/lru_cache.h:128-134 | the value accepted is, of all acceptable ones, the one whose key was used longest ago; none is missed |
| LruCache.LruCache.Count | src/server/storage/lru_cache.h:44 | the table and the list have one length |
| LruCache.PushByRecency | src/server/storage/lru_cache.h:136-160 | putting a key at the front keeps the list in order of last use |
| LruCache.DropByRecency | src/server/storage/lru_cache.h:162-173 | so does taking a key out |
| FrameManager.MemoryPool.Alloc | src/server/storage/mem_pool.h:102-115 | takes the item free for longest, growing a dynamic pool; none only when a pool that cannot grow is used up |
| FrameManager.MemoryPool.Free | src/server/storage/mem_pool.h:117-126 | gives an item back; one that is not in use is ignored |
| FrameManager.MemoryPool.ItemCount | src/server/storage/mem_pool.h:84-126 | free and used items always add up to all items |
| FrameManager.FrameManager.Alloc | src/server/storage/buffer_pool.cpp:72-82 | a page gets a free frame unless it has one already or none is free |
| FrameManager.FrameManager.Free | src/server/storage/buffer_pool.cpp:83-97 | the frame of a page is given back, and refused when the page is not cached in it |
| FrameManager.FrameManager.GetPurgeableFrame | src/server/storage/buffer_pool.cpp:98-110 | the frame of the unpinned page used longest ago; none exactly when all are pinned |
| FrameManager.FrameManager.FindFrames | src/server/storage/buffer_pool.cpp:111-121 | exactly the frames of the file |
| FrameManager.FrameManager.FrameCount | src/server/storage/buffer_pool.cpp:72-97 | cached pages and free frames add up to the frames of the pool |
| PageHeader.MostPages | src/server/storage/buffer_pool.h:33-42 | the header of a file fits a page of 16 KB exactly when the file has no more pages than the limit |
| PageHeader.TakeOk | src/server/storage/buffer_pool.cpp:223-257 | taking the page that allocation picks keeps the counters equal to the bits below the end and the bits above clear |
| PageHeader.GiveOk | src/server/storage/buffer_pool.cpp:260-274 | giving a page up keeps the counters right if and only if it was allocated and is not the header |
| PageHeader.SomeClear | src/server/storage/buffer_pool.cpp:212-222 | the counters differ exactly when a bit below the end of the file is clear |
| PageHeader.FirstClear | src/server/storage/buffer_pool.cpp:214-222 | the search finds the first clear bit |
| BufferPool.DiskBufferPool.GetPage | src/server/storage/buffer_pool.cpp:176-211 | pins the page in a frame or answers why not; no page of any file changes its content, no other page its pins; the page is then the one used last, the others keep their order of use, and a frame is taken from another page only when it must be, from the unpinned one used longest ago by these calls |
| BufferPool.DiskBufferPool.AllocateFrame | src/server/storage/buffer_pool.cpp:376-398 | finds a frame within two rounds, or answers that there is none exactly when every frame is pinned; the victim is the unpinned page used longest ago, and no content or pin changes |
| BufferPool.DiskBufferPool.PurgeFrame | src/server/storage/buffer_pool.cpp:399-417 | a pinned page stays cached; any other leaves the cache, written back first when dirty, with its content unchanged |
| BufferPool.DiskBufferPool.PurgePage | src/server/storage/buffer_pool.cpp:275-280 | likewise for a page that may not be cached |
| BufferPool.DiskBufferPool.LoadPage | src/server/storage/buffer_pool.cpp:430-444 | the frame holds what the file holds, and a page the file does not have leaves it alone |
| BufferPool.DiskBufferPool.FlushPage | src/server/storage/buffer_pool.cpp:338-354 | the page is in its place in the file and the frame is clean |
| BufferPool.DiskBufferPool.FlushAllPages | src/server/storage/buffer_pool.cpp:355-365 | afterwards the file alone holds what its pages hold |
| BufferPool.DiskBufferPool.AllocatePage | src/server/storage/buffer_pool.cpp:212-259 | the page taken is the first one not allocated; one below the end is marked even when no frame is then found, and keeps its old content; one at the end is 16380 zero bytes, and is refused exactly when the file has as many pages as its header has bits; nothing else changes; uses are recorded as by GetPage |
| BufferPool.DiskBufferPool.DisposePage | src/server/storage/buffer_pool.cpp:260-274 | a page without pins is given up at once, a pinned one waits and stays allocated |
| BufferPool.DiskBufferPool.DisposeUnallocated | src/server/storage/buffer_pool.cpp:260-274 | a page that is not allocated can be given up too: unless it is pinned, the counters of the header are then wrong |
| BufferPool.DiskBufferPool.UnpinPage | src/server/storage/buffer_pool.cpp:300-312 | the last pin of a waiting page, and only that, gives the page up; otherwise nothing is written and no order of use changes |
| BufferPool.DiskBufferPool.CheckPageId | src/server/storage/buffer_pool.cpp:418-429 | accepts exactly the allocated pages |
| BufferPool.DiskBufferPool.OpenFile | src/server/storage/buffer_pool.cpp:122-154 | the header page is cached and pinned, or no frame could be had |
| BufferPool.DiskBufferPool.WriteUnmarked | src/server/storage/b_plus_tree.cpp:1186-1188 | writing without a dirty mark keeps the pool coherent if and only if the frame was dirty already or the data are the same |
| BufferPool.DiskBufferPool.RoomLeft | src/server/storage/buffer_pool.cpp:376-398 | a frame can be had exactly while fewer pages are pinned than there are frames |
| BufferPool.FileSystem.CreateFile | src/server/storage/buffer_pool.cpp:471-509 | a new file is its header page, which counts it |
| BufferPoolRuns.Step | src/server/storage/buffer_pool.cpp:176-312 | pinning, reading, writing, unpinning, taking, giving up and flushing pages answer what a plain list of pages with pin counts answers, no frame being left included, and leave the pool holding what that list becomes, with one of the contents on disk that the list names for each page |
| BufferPoolRuns.Run | src/server/storage/buffer_pool.cpp:176-417 | so does every sequence of operations, whatever is cached, evicted or flushed on the way and whichever pages stay pinned |
| BufferPoolRuns.WaitingPage | src/server/storage/buffer_pool.cpp:260-312 | in such a run a page given up while pinned stays allocated, and is not handed out, before its last pin is given back |
| BufferPoolRuns.PageHoldsLastWritten | src/server/storage/buffer_pool.cpp:176-417 | in such a run a page holds what was last written to it |
| BufferPoolRuns.DiskAfter | src/server/storage/buffer_pool.cpp:355-365 | in a run without a flush, what may be on disk for a page is what might have been there before and what the run wrote to it; a page that was not written is on disk as the last flush left it |
| BufferPoolRuns.Unflushed | src/server/storage/buffer_pool.cpp:212-259 | the file is in order without a flush if and only if no page was added at its end since the last one |
| BufferPoolRuns.RestartUnflushed | src/server/storage/buffer_pool.cpp:122-154 | a pool opened then with an empty cache holds, for each page, one of the contents that may be on disk: what the last flush wrote when nothing was written since |
| BufferPoolRuns.Restart | src/server/storage/buffer_pool.cpp:355-365 | after a flush, a pool with an empty cache over the same file holds the same pages |
| LogRecords.RecordRoundTrip | src/server/storage/clog_manager.cpp:56-124 | a record is read back from its bytes as it was written, whatever follows them |
| LogRecords.RecordLayout | src/server/storage/clog_manager.h:13-42 | bytes 0 to 15 of a record spell its number, transaction, type and length, the lowest byte of each first; the payload follows |
| LogRecords.FirstStarts | src/server/storage/clog_manager.cpp:176-196 | the header of a block that begins with a new record says 8, or 512 when the record is longer than the block |
| LogRecords.FirstEnds | src/server/storage/clog_manager.cpp:176-196 | the header of a block that begins inside a record says where in the block the record ends, or 512 when it does not |
| LogRecords.RecordInStream | src/server/storage/clog_manager.cpp:97-124 | record i occupies the stream from its start to the start of the next |
| LogRecords.LsnInStream | src/server/storage/clog_manager.cpp:357-380 | byte j of a record numbered by its place is byte lsn + j of the stream |
| LogBuffer.CLogBuffer.AppendCLogRecord | src/server/storage/clog_manager.cpp:155-200 | the buffer afterwards holds the stream up to the bytes taken; all of the record is taken exactly when the room left in the buffer suffices |
| LogBuffer.CLogBuffer.FlushBuffer | src/server/storage/clog_manager.cpp:201-224 | the whole stream is in the file, and the buffer keeps only a last block with room; with nothing buffered, the block in front of the log is overwritten with zeros |
| LogBuffer.CLogManager.GetNextLsn | src/server/storage/clog_manager.cpp:357-361 | numbers advance by the length of the record |
| LogBuffer.CLogManager.MakeRecord | src/server/storage/clog_manager.cpp:370-380 | a record gets the next number, which moves on by its length |
| LogBuffer.CLogManager.MakeAndAppend | src/server/storage/clog_manager.cpp:357-392 | from number 0 on, every record made and appended is numbered by where it starts in the log, whatever is flushed on the way; a record of any kind is answered by whether all of it fits the buffer |
| LogBuffer.Run | src/server/storage/clog_manager.cpp:357-392 | so is every run of them: the log then holds the records of the events, so numbered, each answered by the room there was for it, and the file holds as many bytes as the commits and the full buffers put there |
| LogBuffer.CLogManager.AppendRecord | src/server/storage/clog_manager.cpp:381-392 | the record is always appended; success is answered if and only if it fitted the buffer, and a commit record is durable if and only if success is answered; nothing is written to the file but for a commit and for a full buffer |
| LogBuffer.CommitsStay | src/server/storage/clog_manager.cpp:381-395 | whatever is appended after a commit that was answered with success, all of the log up to that commit stays in the file |
| LogBuffer.RoomInBuffer | src/server/storage/clog_manager.h:11-12 | a log that was never flushed takes 4128768 bytes before an answer is that the buffer is full |
| LogBuffer.CLogManager.Conservation | src/server/storage/clog_manager.cpp:155-224 | over every run, the data of the blocks in file and buffer, in order, are the bytes of all records |
| LogBuffer.CLogManager.LsnLocates | src/server/storage/clog_manager.cpp:357-361 | in every such log the record numbered n starts in block n / 504, at byte n % 504 of its data, and that block is at byte 512 * (1 + n / 504) of the file |
| LogRecovery.BlockRecover | src/server/storage/clog_manager.cpp:300-340 | each step of the parser hands over the next record that is not swallowed, or moves on |
| LogRecovery.RecoverBlock | src/server/storage/clog_manager.cpp:267-293 | parsing one block to its end |
| LogRecovery.Recover | src/server/storage/clog_manager.cpp:255-299 | of a file that ends with the log or with a full block, recovery hands over exactly the records there that are not swallowed, in order, then what there is of the record that is cut; of a whole log it leaves the buffer ready to go on |
| LogRecovery.RecoversExactly | src/server/storage/clog_manager.cpp:300-340 | it returns the list that was appended if and only if no record right behind one that lies in several blocks starts with less than a header of room left in its block, or at the start of a block that is too short for it |
| LogRecovery.SwallowedExample | src/server/storage/clog_manager.cpp:308-322 | records of 496, 504 and 24 bytes: the third is not returned |
| LogRecovery.LongExample | src/server/storage/clog_manager.cpp:185-196 | eleven records of 560 bytes, as insertions of longer rows are logged: the tenth starts a block right behind the ninth and is not returned, the others are |
| LogRecovery.NumbersContinue | src/server/storage/clog_manager.cpp:282-298 | the next number is the end of the log if and only if the last record did not cross into the last block; otherwise its own number is given again |
| LogRecovery.CommittedMeans | src/server/storage/clog_manager.cpp:341-355 | a transaction counts as committed exactly when the log holds its commit |
| LogRecovery.CLogMiniTxnManager.CLogRecordManage | src/server/storage/clog_manager.cpp:341-355 | one more record keeps the transactions and the records to redo those of the list |
| LogRecovery.RedoMeans | src/server/storage/clog_manager.cpp:341-355 | the records to redo are those that mark no transaction, each once, in the order of the log |
| LogRecovery.Restart | src/server/storage/clog_manager.cpp:396-399 | after any run, and wherever the last flush ended, a restart gets the unswallowed records in the file and the cut one; from a durable log, all of them, and continues the log |
| LogRecovery.Reopen | src/server/storage/clog_manager.cpp:255-299 | from a durable log, recovery leaves a log of the same records that can be appended to; when they were numbered and all returned, it is in step if and only if the last one does not cross into another block |
| LogRecovery.CutRecord | src/server/storage/clog_manager.cpp:294-297 | a record cut behind its header is handed over with zeros for the rest of its payload |
| LogRecovery.CutCommit | src/server/storage/clog_manager.cpp:294-297 | a cut commit record counts as a commit if and only if more than eight bytes of it are in the file |
| LogRecovery.AllSynced | src/server/storage/clog_manager.cpp:393-395 | the log is durable if and only if the last flush ended where it ends |
| Bitmap.BitMap.GetBit | src/server/storage/bitmap.cpp:18-21 | whether the bit is set |
| Bitmap.BitMap.SetBit | src/server/storage/bitmap.cpp:22-25 | sets one bit, no other |
| Bitmap.BitMap.ClearBit | src/server/storage/bitmap.cpp:26-29 | clears one bit, no other |
| Bitmap.BitMap.NextSetBit | src/server/storage/bitmap.cpp:47-63 | the first set bit from the start on that is not passed over; passed over are bits of the first byte that is not zero, when it is not the starting one, below the place of the start in its byte; so the answer is the next set bit if and only if there is no such bit |
| Bitmap.BitMap.NextUnsetBit | src/server/storage/bitmap.cpp:30-46 | likewise for clear bits, with bytes that are all ones in place of zero bytes |
| Bitmap.BitMap.AfterSetBit | src/server/storage/bitmap.cpp:47-63 | after a set bit nothing is passed over, so the iterators see every bit |
| Bitmap.MissedBit | src/server/storage/bitmap.cpp:47-63 | a set bit that a search from bit 1 misses |
| PageLayout.CapacityBound | src/server/storage/record.cpp:17-20 | the capacity is the most records whose bytes and bits fit the page data behind the header less one byte |
| PageLayout.BitmapBeforeRecords | src/server/storage/record.cpp:21-29 | the bitmap ends before the first record |
| PageLayout.SlotsDisjoint | src/server/storage/record.cpp:235-237 | slots do not overlap |
| PageLayout.SlotsEnd | src/server/storage/record.cpp:108-128 | the last slot ends within the page data rounded up to 8 |
| PageLayout.SlotsFit | src/server/storage/record.cpp:108-128 | records of r bytes fit page data of d bytes if and only if the bits that they leave over, 8 * (d - 21) modulo 8 * r + 1, are at least 8 * (d % 8 - 1) |
| PageLayout.SlotsOverrun | src/server/storage/record.cpp:108-128 | with the 16380 bytes a page has, records of 24 bytes leave 18 bits over, and the last slot ends 4 bytes behind the page |
| RecordHeap.FullAndEmpty | src/server/storage/record.cpp:129-210 | a page is full exactly when every slot is taken and empty exactly when none is |
| RecordHeap.RecordFileHandler.InsertInPage | src/server/storage/record.cpp:129-146 | the record goes into the first free slot of the page: every slot below is taken |
| RecordHeap.RecordFileHandler.InsertRecord | src/server/storage/record.cpp:302-336 | the record gets an id that no record has, in the first free slot of its page, other records stay; a listed page with room is used before a new one, and a scan can return the record exactly when that page is allocated; it fails only when all pages are full and the file is as large as it can be |
| RecordHeap.RecordFileHandler.UpdateRecord | src/server/storage/record.cpp:167-185 | changes exactly the record named, or answers why there is none |
| RecordHeap.RecordFileHandler.GetRecord | src/server/storage/record.cpp:211-226 | the record named, or why there is none |
| RecordHeap.RecordFileHandler.DropRecord | src/server/storage/record.cpp:186-210 | takes one record off; its page is given up exactly when it was the last and nobody else has the page pinned |
| RecordHeap.RecordFileHandler.DeleteRecord | src/server/storage/record.cpp:290-301 | as intended: removes exactly the record named, gives an emptied page up and keeps it out of the list of free pages, which stays right |
| RecordHeap.RecordFileHandler.DeleteAndRelist | src/server/storage/record.cpp:290-301 | as written: the list of free pages stays right if and only if the page still holds a record or is pinned by a handler that never gave its pin back |
| RecordHeap.LostRecord | src/server/storage/record.cpp:290-336 | in a file just opened, with no page pinned, when the only record is deleted as written and another stored, the insertion succeeds and no scan returns the record |
| RecordHeap.FirstFree | src/server/storage/record.cpp:129-146 | the search of the bytes for a free slot finds the first free bit |
| RecordHeap.NextTaken | src/server/storage/record.cpp:50-65 | the search of the bytes for the next record, from the first slot or behind a record, finds the next taken bit |
| RecordHeapRuns.Step | src/server/storage/record.cpp:129-226 | each insertion, change, deletion or look-up replies what a map from record ids to bytes may reply, an insertion taking a new id unless every slot that a file can have is taken, and the heap then holds what becomes of the map |
| RecordHeapRuns.Run | src/server/storage/record.cpp:262-359 | so does every run of them |
| RecordScan.RecordFileScanner.FetchNextRecordInPage | src/server/storage/record.cpp:423-433 | finds the first accepted record left in the page |
| RecordScan.RecordFileScanner.FetchNextRecord | src/server/storage/record.cpp:399-422 | finds the first accepted record left |
| RecordScan.RecordFileScanner.Next | src/server/storage/record.cpp:392-398 | returns the first record left and takes exactly it off what is left |
| RecordScan.ScanRecord | src/server/storage/table.cpp:560-595 | a scan without an index returns every accepted record once, in page and slot order, and nothing else |
| Table.MatchesAdd | src/server/storage/table.cpp:702-710 | adding a record and its entry keeps an index in agreement; the entry was not there |
| Table.EmptyMatches | src/server/storage/table.cpp:711-719 | an index in agreement is empty exactly when there is no record |
| Table.MatchesDrop | src/server/storage/table.cpp:711-719 | removing a record and its entry keeps an index in agreement; the entry was there |
| Table.Table.InsertEntryOfIndexes | src/server/storage/table.cpp:702-710 | the indexes before the first that refuses have gained exactly the entry, the others nothing |
| Table.Table.DeleteEntryOfIndexes | src/server/storage/table.cpp:711-719 | the indexes before the first without the entry have lost exactly it, the others nothing |
| Table.Table.InsertRecord | src/server/storage/table.cpp:508-559 | the record is stored and in every index unless the heap is full or an index finds no frame; then all indexes and the heap hold what they held, and the answer says which |
| Table.Table.DeleteRecord | src/server/storage/table.cpp:333-361 | a record leaves the heap and every index; an id without a record changes nothing, and with an index the answer is Empty when there is no record at all, else RecordRecordNotExist |
| Table.Table.CreateIndex | src/server/storage/table.cpp:362-412 | the new index holds exactly the entries of the records, or is dropped when it refuses one |
| Table.Step | src/server/storage/table.cpp:333-559 | each step keeps every index in agreement with the heap; an insertion places its record exactly when the heap is not full and no index is starved, and an index is added exactly when no record is; the answers say which; its effect on the records and the indexes is the plain one |
| Table.Run | src/server/storage/table.cpp:333-559 | so does every run of insertions, deletions and index creations |

## Left out

- BplusTree.BplusTreeHandler.InsertEntry: the index is kept on pages that are never evicted and can always be had, because the source lacks dirty marks at `b_plus_tree.cpp:1186-1188`, `1005-1054` and `1251-1253` (`BufferPool.DiskBufferPool.WriteUnmarked` says what that would cost) and does not undo a split whose parent cannot be allocated.
- BplusTree.BplusTreeHandler.DeleteEntry: who else holds pages of the index (`held`) changes between its calls, not during one; a page so held waits to be freed until it is released, others are freed at once.
- BplusTree.BplusTreeHandler.Create: requires a leaf limit of at least 4 and an internal limit of at least 6, the smallest for which every page keeps a key that finds it; `Create` with computed limits meets this for attributes of up to some thousand bytes.
- BplusTree.BplusTreeHandler: the bytes of a node are modelled as sequences of entries and children, a composite key as its position in key order (`Keys.KeyOrder`, `Comparators.RankMeans`), with record ids compared by page and slot as intended; the largest record id is reserved for bounds.
- BplusTreeScan.BplusTreeScanner.Open: no insertion or deletion happens during a scan; dates, for which the comparison asserts false, are not modelled.
- BplusTreeHandler::Open, Close, Sync and printing: file handling and display only.
- Comparators.CompareFloatMeans: floats are real numbers; rounding and NaN are not modelled.
- LruCache.LruCache.Get: the hash function and the memory of deleted nodes are not modelled; the table is a map.
- FrameManager.MemoryPool.Alloc: failing to get memory from the system is not modelled.
- BufferPool.DiskBufferPool.GetPage: files are maps from page numbers to pages with reliable reads and writes; the pool of a file and the manager that writes frames back by their file descriptor are one class, and access times are left out, since eviction does not look at them.
- BufferPool.DiskBufferPool.OpenFile: expects a file with the pages its header counts; closing files and using descriptors again, purging all pages and `RecoverPage` are left out.
- BufferPool.DiskBufferPool.DisposePage: the page is allocated; `DisposeUnallocated` says what becomes of any other page that the bitmap has a bit for.
- PageHeader.TakeOk: the bitmap is a sequence of bits, not bytes.
- BufferPoolRuns.RestartUnflushed: a restart without a flush is followed when no page was added since the last one, so that the stored header counts the pages of the file.
- TreeChecker.IsValidateTree: pages from which the check would never come back, or would read behind their items, are not given to it (`TreeChecker.Readable`); getting a page of the file does not fail.
- BufferPoolRuns.Run: clients mark what they write and use only pages that they have pinned, and do not give the header page up; other files of the same pool are not used meanwhile.
- LogBuffer.CLogBuffer.AppendCLogRecord: records are of at most 4096 bytes, as the source assumes (`clog_manager.h:147`, `LogRecords.RecordOk`); what follows the header of a record is opaque bytes; its encoding for inserted and deleted rows is left out.
- LogBuffer.CLogManager.MakeAndAppend: the log ends before its numbers overflow 32 bits, which the source does not look out for either.
- LogRecovery.Recover: the file is read block by block and reliably, not 8 blocks at a time with a length that a short read leaves standing; the pending buffer is unbounded, where the source has 4096 bytes, which only a chain of swallowed records can exceed; after a cut log the buffer starts empty, and what is then logged is not followed.
- LogRecovery.BlockRecover: byte offsets and a record header at the first byte are modelled as intended (`clog_manager.cpp:323-324`, `57`, `105-111`).
- RecordHeap.RecordFileHandler.InsertRecord: pages are values in a file that follows the allocation of the pool, without frames; which listed page is tried first is left open.
- RecordHeap.RecordFileHandler.DeleteAndRelist: `pinned` stands for a pin that is never given back; what happens to the listed page when a scan gives its pin back later is not followed.
- RecordHeap.RecordFileHandler.DeleteRecord: models the intent: handlers give their pins back (in the source they do not, `record.cpp:288`, `313-314`, `335`, `344`), no scan has the page pinned, and a page given up is not listed as free (`record.cpp:297-299` lists it); `DeleteAndRelist` is the deletion as written.
- RecordHeap.NextBit: the bitmap of a page is a sequence of bits here; `FirstFree` and `NextTaken` show that the searches on bytes find the same.
- RecordHeap.RecordFileHandler.GetRecord: record ids on the header page of the file are not asked for.
- RecordFileHandler::InitFreePages, UpdateRecordInPlace, RecoverInsertRecord: the first only rebuilds the list, the others repeat an update or serve recovery.
- RecordScan.ScanRecord: the filter is any function of the record's bytes; the visibility of records to transactions is left out, and the condition filters that the statements build are not modelled.
- Table.Table.InsertRecord: the steps without a transaction; an index refuses an insertion when no frame can be had for the first page it asks for, so that its tree is unchanged.
- Table.Table.DeleteRecord: deleting an entry finds its frames, and the data given are those of the record.
- Table.Table.CreateIndex: names and the metadata, which creating an index does not update, are left out; the field is a number, its value a rank.
- Table.Run: deletions are those intended (`RecordHeap.RecordFileHandler.DeleteRecord`).
- The index scan of the planner: its operator clears the table and the index it is given and does not carry the bounds through.
- The grammar, statements, the prefix tree, JSON metadata, `WriteN` and `ReadN`, mutexes, `Txn` and `Table::Drop`, which asserts false.
