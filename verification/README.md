# minidbms storage engine, modelled in Dafny

This project models the storage engine of minidbms and proves what its parts promise: the page-based
B+ tree, the buffer pool with its replacement policies, the slotted page, the row format, and the heap
with its index and its HOT updates. Verify all of it with `dafny verify dfyconfig.toml`.

Code that changes state keeps its own form. Nodes, page buffers and frames are arrays, chains are
linked entries, and loops and early returns are those of the C and Python functions. Each method is
proved against a specification on values, and the theorems are about that specification.

**The B+ tree.** `BTreeModel` describes the index file as a flat map from page numbers to nodes. Each
page carries a ghost level, key range and parent, so being well-formed is a condition on a page and
its children; a ghost chain orders the leaves. `BTreeSteps` proves that every page-level step keeps
this and the map it stands for, `BTreeNode` proves the shifting and splitting loops, `BTree` puts them
together with the ancestor stack, `BTreeHeight` counts, `BTreeTheorems` gives reachability and the leaf
chain, and `NodeLayout` the bytes of a node page.

**The buffer pool.** `PageTable` is the chained hash table, `Eviction` the four policies with a
declarative contract each, `BufferManager` the object that owns frames, counters, table and policy.
`BufferModel` is its transition function; a `Choice` stands for what a policy did, and a legal choice is
any that evicts an OCCUPIED frame when one exists, so "every strategy" includes ones that know the
future. `BufferTheorems`, `Transparency`, `Belady`, `LruStack`, `ClockRuns`, `OptRuns`,
`Nocache`, `RepeatedScans` and `WorkingSet` are about runs of this function, and
`BufferManager.ServeTrace` and `PageAccess` connect them to the object.

**Pages and rows.** `SlottedPage` works on the 4096 bytes; `PageModel` is what a page means, and
`PageSpace` how much goes on it. `RowCodec` and `PythonCodec` describe the row image once and prove four
readers and writers against it; `RowFormat` and `PythonFormat` hold them against the format byte by byte.
`Utf8` is the replacing decoder that the Python reader applies to strings, and `Utf8Chars` what it does to
characters.

**The table.** `HeapModel` and `HotModel` are the state changes of INSERT, DELETE, UPDATE and SCAN.
`PooledTable` runs them on the buffer manager object and the tree together, with `HeapTable`,
`PooledHeap`, `PooledRedirects` and `PooledMove` for their parts. `HeldUpdate` and `HeldPolicies` are
about the one place where a page is held across other fetches, the UPDATE that moves a row, and
`PooledUpdate` and `LostRedirect` apply them to the pages of a table. `HeapTheorems` and
`KeyColumns` are about runs of INSERT and DELETE, `PlainUpdate` about an UPDATE after them, `HotTheorems`
and `HotIndex` about runs of INSERT and UPDATE, and `UpdateIndex` says exactly when an UPDATE keeps index
and live slots in agreement.

Conditions that appear in contracts, because the code meets its intent only under them:

- Transparency is for callers that hold one page at a time and release a written page dirty, as the
  heap insert and delete code does. `buffer_frame.h` says a page with active readers is PINNED, but a
  page that has just been loaded is OCCUPIED with pin count 1. `HeldFetchSafeIff` says exactly when a
  fetch while a page is held keeps what the store shows, `HolderSafeIff` exactly when the holder keeps
  its frame, and `HeldPageLost` shows what losing it can cost. `handler_update` makes such fetches;
  `MoveSafeIff` says exactly when it survives them under every strategy, `NocacheMoveIff` and
  `LruMoveIff` when it does under these policies, and `RedirectLost` is an input for which it does not.
- RowIDs hold page numbers up to 32767, so table runs are for tables of at most 32768 pages.
- Index and live slots agree over INSERT and DELETE. UPDATE does not maintain the index, and
  `KeyTwoTwice` is an input on which a key ends up in two rows; over INSERT and UPDATE the index still
  leads to every row while updates keep the keys. Redirect chains are proved over INSERT and UPDATE, since
  deleting a redirected slot would read its target as a byte offset.
- Python reads back the strings it wrote exactly if none is cut inside a character, since its writer cuts
  at a byte and its reader replaces what is then ill-formed.
- Pages exist, I/O does not fail, metrics are not reset during a run, and the access clock stays below
  LLONG_MAX. Index files stay below 2^31 pages (`HasRoom`).

The code and its documentation disagree in three places. NoCache is documented with a hit rate of 0%, but
it does not clear the page table, so it hits unless the trace is as `NocacheNeverHitsIff` says.
`page.h` calls redirects not yet implemented and their offset a slot; `handler_update` implements them and
stores a RowID there. And frames with active readers are not always PINNED, as said above.

## Model

| member | source | states |
|---|---|---|
| BTreeFile.BTree.constructor | storage-engine/btree.c:231-267 | a new index file: a well-formed tree of one empty leaf that stands for the empty map, with page numbers to spare |
| BTreeFile.BTree.FindLeaf | storage-engine/btree.c:277-297 | a descent ends at the one leaf whose key range holds the key, after exactly `height` page reads, however stale the separators are |
| BTreeFile.BTree.Search | storage-engine/btree.c:269-309 | search is map lookup, -1 for a missing key |
| BTreeFile.BTree.FindLeafAndPath | storage-engine/btree.c:324-352 | the ancestor stack holds exactly the pages from the root to the leaf; fewer than 7 entries, so the 32-entry check never fires |
| BTreeFile.BTree.Insert | storage-engine/btree.c:311-548 | insert refines map insert through any cascade of splits: 0 and the old map plus the pair for a fresh key, 1 and nothing changed for a present one; the tree stays well-formed and `n_entries` stays the map size |
| BTreeFile.BTree.SplitFullLeaf | storage-engine/btree.c:369-427 | splitting a full leaf around the new entry: the pair is added to the map, the new page is well-formed and in the leaf chain but still unknown to its parent, and the separator is the low end of its key range |
| BTreeFile.BTree.AddChild | storage-engine/btree.c:463-469 | a parent with room takes the separator and the new child, and the tree is well-formed again |
| BTreeFile.BTree.SplitParent | storage-engine/btree.c:471-539 | a full parent takes the separator and splits into two halves that are wide enough to stay; the key that moves up is the low end of the new half's range and the map does not change |
| BTreeFile.BTree.PushUp | storage-engine/btree.c:429-540 | the push-up loop ends with a well-formed tree of the same map, whether it stops at a parent with room or grows a new root |
| BTreeFile.BTree.Delete | storage-engine/btree.c:550-610 | delete is map removal: 0 for a present key, -1 and no change for a missing one; only `n_entries` of the meta record changes |
| BTreeNodes.NodeBuffer.LeafInsertSorted | storage-engine/btree.c:12-25 | the shifting loop puts the entry into its gap and keeps all others in order |
| BTreeNodes.NodeBuffer.InternalInsertSorted | storage-engine/btree.c:27-46 | the shifting loops put a separator into its gap and the new child just right of it |
| BTreeNodes.NodeBuffer.SplitLeaf | storage-engine/btree.c:371-417 | the two halves of an overfull leaf, cut from the temporary arrays, are its first 50 and its last 51 entries |
| BTreeNodes.NodeBuffer.SplitInternal | storage-engine/btree.c:472-525 | the two halves of an overfull internal node and the key between them |
| BTreeModel.Halves | storage-engine/btree.c:371-525 | the cut in numbers: 50 and 51 entries of 101 in a leaf; 50 keys with 51 children on each side of the middle key in an internal node |
| BTreeNodes.NodeBuffer.RemoveEntry | storage-engine/btree.c:586-595 | the shifting loop of delete takes out one entry and keeps the order of the rest |
| BTreeNodes.NodeBuffer.ChildIndex | storage-engine/btree.c:343-346 | the slot a descent follows: the first key greater than the search key bounds it |
| BTreeSteps.PutLeafWellFormed | storage-engine/btree.c:360-367 | a fresh key in a leaf with room keeps every invariant of the tree |
| BTreeSteps.SplitLeafWellFormed | storage-engine/btree.c:369-427 | a leaf split keeps sorted keys, ranges, parents and the leaf chain, with the new page still unknown to its parent |
| BTreeSteps.SplitLeafHolds | storage-engine/btree.c:369-427 | a leaf split loses and invents no entry |
| BTreeSteps.PutChildWellFormed | storage-engine/btree.c:463-469 | a parent that takes the pending child separates the two ranges again |
| BTreeSteps.SplitInternalWellFormed | storage-engine/btree.c:471-539 | an internal split hands each child to the half whose range covers it and leaves both halves 51 children |
| BTreeSteps.GrowRootWellFormed | storage-engine/btree.c:432-456 | a new root over two halves keeps all leaves at one depth, one deeper |
| BTreeSteps.DropEntryWellFormed | storage-engine/btree.c:586-605 | deleting from a leaf keeps the tree well-formed although separators go stale and leaves run empty |
| BTreeSteps.DropEntryHolds | storage-engine/btree.c:586-605 | deleting entry i of a leaf removes exactly its key from the map |
| BTreeSteps.LeafOfKeyUnique | storage-engine/btree.c:343-352 | no key is in the range of two leaves |
| BTreeHeight.LevelWidth | storage-engine/btree.c:507-525 | below the root every level is at least 51 times as wide as the one above it |
| BTreeHeight.LeafCount | storage-engine/btree.c:471-538 | a tree of height h >= 2 has at least 2 * 51^(h-2) leaves, whatever has been deleted |
| BTreeHeight.HeightBound | storage-engine/btree.c:337-341 | with page numbers below 2^31 the height is at most 7 |
| BTreeTheorems.HangsOnce | storage-engine/btree.c:463-539 | a page hangs in a child slot of the file if and only if it is not the root, and then in exactly one |
| BTreeTheorems.PathFromRoot | storage-engine/btree.c:326-352 | every page is reachable from the root; every leaf in height - 1 steps |
| BTreeTheorems.LeafChain | storage-engine/btree.c:397-422 | following `next_leaf` from page 1 visits every leaf once, ends at -1, and yields the keys of the map in strictly increasing order |
| NodeLayout.WriteNode | storage-engine/btree.c:181-204 | a node page holds the 304 ints of the node in struct order, and zero bytes behind them |
| NodeLayout.NodeOffsets | storage-engine/btree.c:181-204 | where each cell lies: type at byte 0, key count at 4, keys from 8, children from 408, RowIDs from 812, next leaf at 1212 |
| NodeLayout.NodeOnPage | storage-engine/btree.c:158-179 | a node page in bytes: a leaf exactly if byte 0 holds 1, with as many keys as the int at byte 4 says, each with its RowID or between two children |
| NodeLayout.ReadNode | storage-engine/btree.c:158-179 | reading gives back every cell of the only node the page can have been written from |
| NodeLayout.WriteMeta | storage-engine/btree.c:135-156 | page 0 holds the five ints of the meta record in struct order, and zero bytes behind them |
| NodeLayout.MetaOffsets | storage-engine/btree.c:135-156 | root, entries, height, key type and next free page at bytes 0, 4, 8, 12 and 16 |
| NodeLayout.ReadMeta | storage-engine/btree.c:114-133 | reading page 0 gives back the only meta record it can have been written from |
| NodeLayout.ZeroPageNode | storage-engine/btree.c:216-221 | a page of zero bytes reads back as an internal node without keys |
| PageTables.PageTable.constructor | storage-engine/page_table.c:26-30 | all buckets empty: the empty map |
| PageTables.PageTable.Lookup | storage-engine/page_table.c:71-84 | walking one bucket is map lookup, -1 for a missing key |
| PageTables.PageTable.Insert | storage-engine/page_table.c:36-65 | insert or update in a linked bucket is map update; chains stay finite, disjoint and in their own bucket; `num_entries` stays the map size |
| PageTables.PageTable.Remove | storage-engine/page_table.c:90-112 | relinking around an entry removes its key from the map and nothing else; -1 if it was not there |
| PageTables.PageTable.Clear | storage-engine/page_table.c:118-132 | all buckets emptied: the empty map |
| PageTables.PlacedPrepend | storage-engine/page_table.c:52-65 | a new head keeps every entry in the bucket of its key, once |
| PageTables.PlacedRemove | storage-engine/page_table.c:97-108 | unlinking keeps every other entry in the bucket of its key, once |
| EvictionPolicies.NocacheEvict | storage-engine/eviction_policy.c:20-29 | the first OCCUPIED frame, -1 if there is none |
| EvictionPolicies.LruEvict | storage-engine/eviction_policy.c:126-141 | the first OCCUPIED frame with the smallest `last_access`, -1 if there is none |
| EvictionPolicies.FindNextUse | storage-engine/eviction_policy.c:196-204 | the index of the next access to a page, INT_MAX if there is none |
| EvictionPolicies.OptEvict | storage-engine/eviction_policy.c:185-214 | the first OCCUPIED frame whose page is used again last, -1 if there is none |
| EvictionPolicies.ClockEvict | storage-engine/eviction_policy.c:64-88 | within two sweeps: the first OCCUPIED frame without reference bit in circular order from the hand, or else the first OCCUPIED one; exactly the OCCUPIED frames passed lose their bit, the hand stops just behind the victim, and -1 means no frame is OCCUPIED |
| EvictionPolicies.ClockBits | storage-engine/eviction_policy.c:64-88 | an eviction takes the bits of exactly those OCCUPIED frames that lie between hand and victim, or of all OCCUPIED frames if the victim still had its own, and changes nothing else |
| ClockRuns.ClockHoldsDial | storage-engine/eviction_policy.c:64-88 | after any trace, from an empty pool, Clock has in each frame the page, and its hand at the place, that a dial computed from the trace alone says, and has hit exactly the accesses that found their page on the dial; the dial knows no reference bits, only when each page was last used and when the hand last went over its frame |
| ClockRuns.SecondChance | storage-engine/eviction_policy.c:64-88 | the victim of the dial is the first page from the hand on that was not accessed since the hand went over its frame, and the one at the hand only if all were |
| EvictionPolicies.PoliciesAreLegal | storage-engine/eviction_policy.c:20-214 | every policy evicts an OCCUPIED frame whenever there is one and touches nothing but reference bits |
| EvictionPolicies.EvictIsDeterministic | storage-engine/eviction_policy.c:20-214 | the declarative choice of every policy is unique |
| BufferManagers.BufferManager.constructor | storage-engine/buffer_manager.c:11-24 | a pool of free frames with an empty page table and zero counters |
| BufferManagers.BufferManager.UnpinFrame | storage-engine/buffer_frame.c:113-127 | the dirty mark sticks, the pin count drops, the last unpin makes the frame OCCUPIED; -1 if nothing was pinned |
| BufferManagers.BufferManager.WriteBackAndFree | storage-engine/buffer_frame.c:129-146 | a dirty victim is written to its page, the frame is wiped, one more eviction; a PINNED frame is refused |
| BufferManagers.BufferManager.Evict | storage-engine/eviction_policy.c:20-221 | the dispatch through the policy record obeys the contract of the policy installed |
| BufferManagers.BufferManager.FetchPage | storage-engine/buffer_manager.c:53-122 | the whole fetch - hit, free frame, eviction, failing load - makes exactly the transition of the value model, with the victim the policy chose |
| BufferManagers.BufferManager.UnpinPage | storage-engine/buffer_manager.c:124-133 | unpin by page makes exactly the transition of the value model |
| BufferManagers.BufferManager.Destroy | storage-engine/buffer_manager.c:26-47 | every dirty frame is written to its page and the page table is emptied |
| BufferManagers.BufferManager.ServeTrace | server/handlers.c:221-273 | fetching and releasing pages one after another is a run of the kind the cache theorems speak of, under every policy |
| BufferModel.FetchKeepsMapped | storage-engine/buffer_manager.c:53-108 | a fetch keeps page table and frames a bijection, and a successful one leaves the page mapped to the frame returned |
| BufferTheorems.RunKeepsBooks | storage-engine/buffer_manager.c:53-133 | over every run: each non-free frame's page maps to it and nothing else is mapped, no page sits in two frames, non-free frames = misses - evictions, clock = hits + misses, also when a load fails after an eviction |
| BufferTheorems.InitialBooks | storage-engine/buffer_frame.c:11-29 | an initialised pool satisfies the invariants that runs keep |
| BufferTheorems.FreeFrameLeft | storage-engine/buffer_frame.c:60-68 | a free frame is found exactly while the page table is smaller than the pool |
| BufferTheorems.AbsentPageCosts | storage-engine/buffer_manager.c:75-108 | fetching a page that does not exist fails and counts nothing, but in a full pool it has given up a cached page |
| Transparency.FetchTransparent | storage-engine/buffer_manager.c:53-122 | a fetch with empty hands returns the page a flat store would show, fails only for pages that do not exist, and changes nothing visible: on a hit, into a free frame, and on an eviction, under every policy |
| Transparency.WriteTransparent | storage-engine/buffer_frame.c:113-127 | writing the held page changes that page of the visible store only |
| Transparency.UnpinTransparent | storage-engine/buffer_manager.c:124-133 | releasing a page, dirty if it was written, changes nothing visible |
| Transparency.RunTransparent | storage-engine/buffer_manager.c:53-133 | every disciplined run shows what a flat page store shows |
| Transparency.NewPoolTransparent | storage-engine/buffer_manager.c:11-24 | a new pool shows the disk, and every disciplined run from there shows what a flat store starting as the disk shows |
| Transparency.DestroyFlushesView | storage-engine/buffer_manager.c:26-47 | shutdown leaves on disk exactly what was visible |
| Transparency.EvictionHarmlessIff | storage-engine/buffer_frame.c:129-146 | evicting a frame is invisible if and only if it is marked dirty or equals its disk page |
| Transparency.HeldFetchIff | storage-engine/buffer_manager.c:78-92 | a fetch while another page is held keeps what the store shows if and only if the policy does not pick the held frame, or nothing of that page is unsaved |
| Transparency.HeldFetchSafeIff | storage-engine/buffer_manager.c:78-92 | before the call: a fetch while a page is held keeps what the store shows under every strategy if and only if the held frame is PINNED, the page asked for is cached, a frame is free, or nothing of the held page is unsaved |
| Transparency.HolderKeepsFrameIff | storage-engine/buffer_manager.c:78-92 | a fetch takes the frame away from the holder of another page if and only if the policy is asked and picks it |
| Transparency.HolderSafeIff | storage-engine/buffer_frame.h:21 | before the call: the holder of a page keeps its frame under every strategy if and only if the frame is PINNED, the page asked for is cached, or a frame is free, whatever is saved |
| Transparency.HeldPageLost | storage-engine/buffer_frame.c:86-92 | a concrete run: a page just loaded may be evicted while its holder still writes it, and the write is lost |
| PageAccess.ReadPage | server/handlers.c:221-273 | fetch, copy, release clean through the real buffer manager reads the flat store and changes nothing visible |
| PageAccess.OverwritePage | storage-engine/heap.c:284-299 | fetch, write, release dirty through the real buffer manager changes exactly that page of the flat store |
| PooledHeap.TryPage | storage-engine/heap.c:284-299 | one round of the insert loop through the real buffer manager: the row goes into the page of the flat store or nothing changes |
| PooledHeap.StoreRow | storage-engine/heap.c:281-318 | the whole page loop of the heap insert through the real, evicting buffer manager, the new page included, does to the flat store what it does to plain pages; other tables are untouched |
| PooledHeap.DeleteFromPage | storage-engine/heap.c:350-386 | one page of the row delete through the real buffer manager and the real tree: exactly the slot of a live row is deleted, its key leaves the index, and the page is released clean if there is none |
| PooledTables.PooledTable.InsertIndexed | storage-engine/heap.c:274-329 | the heap insert with pages behind the evicting pool and the index in the real tree makes exactly the transition of the value model |
| PooledTables.PooledTable.HandleInsert | server/handlers.c:524-555 | the INSERT handler with pool and tree together, under every replacement policy |
| PooledTables.PooledTable.DeleteRow | storage-engine/heap.c:336-387 | the row delete with pool and tree together |
| PooledTables.PooledTable.HandleDelete | server/handlers.c:659-748 | the collect-then-delete loops of DELETE with pool and tree together |
| PooledTables.PooledTable.HandleScan | server/handlers.c:221-273 | the scan loops through the evicting pool gather exactly the live, not redirected rows in page and slot order, and change nothing the store shows |
| HeldUpdate.MoveRightIff | server/handlers.c:915-940 | an UPDATE that moves its row to another page while it holds the old one: under any strategy, what the store shows is right and saved if and only if the row fits nowhere, or the insert succeeds and the old page is still held in its frame when the redirect is written |
| HeldUpdate.MoveSafeIff | server/handlers.c:915-940 | before the call: such an UPDATE is right under every strategy if and only if the row fits nowhere, or the pool has two frames and the held one is PINNED or each page the insert visits before the held one is cached or finds a free frame |
| HeldPolicies.NocacheMoveIff | storage-engine/eviction_policy.c:20-29 | such an UPDATE in a pool under NoCache, from the state before it: right if and only if it is safe under every strategy or the held page is not in the first of two or more frames |
| HeldPolicies.LruMoveIff | storage-engine/eviction_policy.c:126-141 | such an UPDATE in a pool under LRU, with its page just fetched: right if and only if the row fits nowhere, or the pool has two frames and the page is PINNED or among the first pages, as many as the pool has frames, that the insert visits |
| LostRedirect.RedirectLost | server/handlers.c:915-940 | a failing input: a table of three pages, 1 and 3 full and 2 empty, in a pool of two frames under NoCache or LRU; the UPDATE of the row on page 3 loses its redirect |
| PooledUpdate.PageEditsMeaning | storage-engine/page.c:10-67 | the bytes that init_page, insert_row and the redirect write leave behind mean, on well-formed pages, what the page model says |
| PooledMoves.MoveRow | server/handlers.c:915-940 | the moving branch on the buffer manager object makes exactly the transition of which these conditions speak, under the pool's own policy |
| PooledMoves.MoveRightBefore | server/handlers.c:915-940 | so whether it is right can be told before the move: if it is safe, and exactly under the conditions for NoCache and LRU in pools of these policies |
| PooledRedirects.FollowRedirects | server/handlers.c:847-889 | the redirect loop with its limit of 64 hops on the buffer manager object, each page fetched and released in turn |
| PooledRedirects.UpdateOnPage | server/handlers.c:893-924 | the branches that stay within a page, on its bytes: same-size bytes in place, or a new row and a redirect to it |
| PooledTables.PooledTable.HandleUpdate | server/handlers.c:816-941 | the UPDATE handler on the buffer manager object: the state change of the value model, answer included, unless the row moves to another page and the move is not right |
| HeldUpdate.PlaceHeld | storage-engine/heap.c:281-318 | however the nested insert runs, its caller's page stays in its frame or is given up for good, and the insert does what it does to a flat store unless a one-frame pool is stuck with a PINNED page |
| PooledUpdate.FlatMoveIsOverwrite | server/handlers.c:915-940 | on the flat store such a move is exactly the UPDATE of the value model, new page included |
| AccessRuns.AccessSummary | storage-engine/buffer_manager.c:53-133 | one access in terms of the set of cached pages: a hit keeps it, a miss adds the page and gives up one only if the pool is full |
| AccessRuns.RepeatedAccessHits | storage-engine/buffer_manager.c:64-73 | one way to hit, under every policy: the second of two accesses in a row |
| Nocache.NocacheHoldsFirst | storage-engine/eviction_policy.c:20-29 | a NoCache pool of k frames holds, after any trace, exactly the second to the k-th distinct page and the latest page outside these, and its hits are exactly the accesses that find their page there |
| Nocache.NocacheNeverHitsIff | storage-engine/eviction_policy.h:37-40 | the documented hit rate of 0% holds of a trace if and only if its first k + 1 accesses are to different pages and every later one differs from its predecessor and from the second to the k-th page |
| RepeatedScans.NocacheBeatsLru | README.md:15 | r scans of k + 1 pages through k frames: LRU never hits, NoCache hits exactly (r - 1) * (k - 1) times |
| AccessRuns.PolicyRunIsRun | storage-engine/buffer_manager.c:78-86 | a run under one of the server's policies is a run of some replacement strategy |
| Belady.SoonerIsBetter | storage-engine/eviction_policy.c:195-212 | of two caches that differ in one page, the one whose page is used sooner can be served with no more misses |
| Belady.FarthestIsBest | storage-engine/eviction_policy.c:195-212 | giving up a page whose next use is farthest away is never worse than giving up any other |
| Belady.RunIsWithin | storage-engine/buffer_manager.c:53-108 | the misses of any run of the buffer manager are achievable by some choice of victims on sets of pages |
| Belady.OptAdvances | storage-engine/eviction_policy.c:216-221 | whenever OPT is asked, its position is the index of the access being served, and it picks the farthest next use from there |
| Belady.OptIsOptimal | README.md:21 | OPT on the trace it serves misses no more than any strategy that evicts only when no frame is free, for every trace and pool size |
| OptRuns.OptHoldsPages | storage-engine/eviction_policy.c:185-221 | after any trace, from an empty pool, OPT has in each frame exactly the page that the trace says, the first frame on a tie, and its hits are exact |
| OptRuns.NextUseMeaning | storage-engine/eviction_policy.c:196-204 | the next use is the first access to the page from the position on, INT_MAX exactly if there is none |
| LruStack.LruHoldsMostRecent | storage-engine/eviction_policy.c:126-141 | an LRU pool of k frames holds exactly the pages with fewer than k more recently used ones, min(k, distinct) of them, and its hits are exactly the accesses with that property |
| LruStack.LruIsStack | README.md:17 | what a smaller LRU pool holds a larger one holds too, and more frames never mean fewer hits |
| LruStack.LruStep | storage-engine/buffer_frame.c:97-111 | `last_access` is always one more than the position of the page's last use |
| WorkingSet.WorkingSetConverges | README.md:19 | with a frame for every page of the trace all strategies miss once per page and evict nothing |
| SlottedPages.InitPage | storage-engine/page.c:10-23 | an initialised page has no slots and all its room |
| SlottedPages.BlankLayout | storage-engine/page.c:10-23 | the words 0, 12 and 4096 at bytes 0, 4 and 8, and all 510 slot entries marked deleted with offset 0 |
| SlottedPages.InsertRow | storage-engine/page.c:25-67 | on the bytes: the row reads back from the slot returned, the first deleted slot or else a new one; no other slot's content changes; it succeeds exactly if the words at bytes 8 and 4 differ by the row's length plus 12, and else changes nothing |
| SlottedPages.Layout | storage-engine/page.c:10-67 | where everything lies on the page: the three header words, the entry of slot i at byte 12 + 8i with offset and state, and at the offset of a live row its size and its bytes |
| SlottedPages.StoreRow | storage-engine/page.c:53-64 | the writes touch the header, one slot entry and free bytes only |
| SlottedPages.DeleteRow | storage-engine/page.c:69-78 | the slot becomes deleted and nothing else changes; an unknown slot is ignored |
| SlottedPages.ReadRow | storage-engine/page.c:80-94 | nothing exactly for unknown and deleted slots; the position of the row's bytes for a live one; for a redirected one its target taken as a byte offset |
| SlottedPages.GetRowSize | storage-engine/page.c:96-112 | the length of a live row, -1 for unknown and deleted slots, and for a redirected one the int that happens to lie at its target |
| SlottedPages.OverwriteRow | server/handlers.c:893-908 | same-size bytes over a row change that row only, because rows are disjoint |
| SlottedPages.SetRedirect | server/handlers.c:915-937 | turning a slot into a redirect changes no other slot |
| SlottedPages.ByteOwnedOnce | storage-engine/page.c:25-67 | no byte belongs to two live rows, or to a live row and the slot directory |
| Bytes.IntRoundTrip | storage-engine/page.c:55-56 | a C int written to memory reads back, negative ones included |
| PageModel.InsertMeaning | storage-engine/page.c:25-67 | a stored row reads back, deleted slots are reused before the directory grows, and every other slot keeps what it holds |
| PageSpace.PlaceTaken | storage-engine/page.c:38-64 | it takes the first deleted slot, or else a new one, and only the row and its size are charged |
| PageSpace.NewPageTakes | storage-engine/page.c:25-67 | rows all go into a new page if and only if their lengths plus 12 each sum up to at most 4084 |
| PageSpace.UsedPageTakes | storage-engine/page.c:25-78 | after any inserts, deletes, rewrites and redirects a row goes in if and only if its length plus 12 is at most 4084 minus the length plus 4 of every row ever stored and minus 8 for each slot |
| PageModel.Capacity | storage-engine/page.c:33-37 | a row fits an empty page exactly if it has at most 4072 bytes, and no page ever has more than 340 slots |
| RowCodec.RowSerialize | storage-engine/schema.c:167-245 | writes exactly the row image into the buffer and leaves the rest of it alone, for any nonzero sizes of fixed-width values; fails exactly if the image is longer than the buffer; what it wrote decodes to the bytes the caller passed, cut to size, if no VARCHAR is longer than 65535 |
| RowFormat.EncodesRows | storage-engine/schema.c:167-245 | the image, byte by byte: bit i of the bitmap, low bit first, is 1 exactly for a NULL column i, and values lie one after another, four bytes for INT and FLOAT, one for BOOLEAN, a two-byte length and the bytes for VARCHAR |
| RowCodec.RowDeserialize | storage-engine/schema.c:247-323 | returns exactly the decoded cells and the bytes consumed, -1 exactly if there are none |
| RowFormat.DecodesRows | storage-engine/schema.c:247-323 | decoding returns cells and a length if and only if the buffer starts with a row of these cells and that length, laid out byte by byte, whatever follows |
| RowCodec.BitmapMeaning | storage-engine/schema.c:188-201 | bit i of the bitmap is set exactly for a NULL column i, for any number of bitmap bytes |
| RowCodec.CodecRoundTrip | storage-engine/schema.c:167-323 | the reader returns the written values and NULLs and consumes the whole output if and only if no VARCHAR is longer than 65535 bytes |
| RowCodec.ExtractIntColumn | storage-engine/heap.c:8-87 | the fast reader finds the column exactly if it is a non-NULL INT and the row is intact up to its end |
| RowCodec.FastReaderAgrees | storage-engine/heap.c:8-87 | on every row the full reader accepts, the fast reader returns the value of a non-NULL INT column and fails on a NULL one |
| PythonCodec.SerializeRow | sql-engine/storage_server.py:518-567 | writes the row image of its values, strings truncated to max_size; raises exactly if a number or a length does not fit its field |
| PythonCodec.PythonRaisesIff | sql-engine/storage_server.py:541-561 | it raises if and only if an int does not fit 32 bits or a string stays longer than 65535 bytes |
| PythonCodec.PythonCellsInC | sql-engine/storage_server.py:518-567 | the C reader finds in each column the number, 1 or 0, the packed float or the first max_size bytes of the string that Python was given |
| PythonCodec.DeserializeRow | sql-engine/storage_server.py:97-152 | the Python reader, with its unchecked slices and its replacing UTF-8 decoder, computes the decoding function or raises |
| PythonFormat.PyDecodesRows | sql-engine/storage_server.py:97-152 | the Python reader returns values if and only if they lie in the data byte by byte, strings cut short at its end and decoded with replacement; it raises on all other data |
| Utf8Chars.ValidIsText | sql-engine/storage_server.py:151 | the bytes that decode unchanged are exactly the encodings of sequences of code points |
| Utf8Chars.ReplacedStep | sql-engine/storage_server.py:151 | decoding step by step: a character at the front stays, else the longest piece that could have become one, or one byte, becomes U+FFFD |
| Utf8.ReplacedIdentity | sql-engine/storage_server.py:151 | decoding with replacement gives back the bytes if and only if they are well-formed UTF-8 |
| Utf8.CutIsValid | sql-engine/storage_server.py:558-560 | a string cut after n bytes is well-formed if and only if the cut does not fall inside a character |
| PythonCodec.PythonRowsReadInC | sql-engine/storage_server.py:518-567 | every row that Python writes is decoded by the C reader to the same values and to its last byte |
| PythonCodec.WritersAgree | sql-engine/storage_server.py:530-535 | Python and C write the same bytes for the same values if and only if no string is empty, which C takes for NULL |
| PythonCodec.ReadersAgree | sql-engine/storage_server.py:97-152 | on every row the C reader accepts the Python reader does not raise, and it returns the same values if and only if every non-null VARCHAR is well-formed UTF-8 |
| PythonCodec.PythonReadsBack | sql-engine/storage_server.py:97-152 | what Python reads back of each value it wrote: the truncated string as its decoder shows it |
| PythonCodec.PythonRoundTrip | sql-engine/storage_server.py:97-567 | Python reads back what it wrote, strings truncated to max_size, if and only if every string fits or is cut between two characters |
| PythonCodec.SplitCharacter | sql-engine/storage_server.py:558-560 | the failing input: a two-byte character in a VARCHAR(1) reads back as U+FFFD |
| RowIds.RowIdRoundTrip | storage-engine/heap.h:13-23 | the slot always decodes; the page decodes if and only if -32768 <= page < 32768; RowIDs of pages 1 to 32767 are positive |
| HeapModel.PutRowMeaning | storage-engine/heap.c:281-318 | a row is stored exactly if it has at most 4072 bytes, in one slot that held no row, adding at most one page; a longer row leaves an empty page behind |
| PageSpace.FirstPageWithRoom | storage-engine/heap.c:281-318 | the row goes to the first page with as many free bytes as it is long plus 12, and to a new page only if there is none |
| HeapTheorems.PrimaryKeyUnique | storage-engine/heap.c:89-125 | no two live rows have the same primary key |
| HeapTheorems.DuplicateUnreachable | server/handlers.c:524-550 | after the handler's check the duplicate branch inside the heap insert cannot be taken |
| HeapTheorems.InsertKeepsTable | server/handlers.c:524-555 | INSERT answers DUPLICATE_KEY exactly if a live row has the key, succeeds exactly if there is none and the payload has 1 to 4072 bytes, adds exactly one row under the RowID returned, and keeps the index exact |
| KeyColumns.DuplicateIff | server/handlers.c:524-542 | INSERT is a duplicate if and only if the reader finds, in the first primary key column, a value that it finds there in a live row |
| KeyColumns.IndexedCells | storage-engine/heap.c:89-125 | the index has exactly the numbers that the reader finds in that column of the live rows, each with the RowID of its row |
| KeyColumns.NoKeyNoIndex | storage-engine/heap.c:89-125 | without an INT primary key nothing is indexed and nothing is a duplicate |
| KeyColumns.NewTableDuplicates | server/handlers.c:482-759 | after any run of INSERT and DELETE on a new table, with rows that the reader accepts, a row is a duplicate if and only if a live row decodes to the same value, not NULL, in the key column |
| HeapTheorems.DeleteRowKeepsTable | storage-engine/heap.c:336-387 | deleting by RowID removes that row and its key, and nothing else |
| HeapTheorems.DeleteRowMisses | storage-engine/heap.c:336-387 | a RowID that names no live row deletes nothing |
| HeapTheorems.CollectPagesMeaning | server/handlers.c:659-740 | the collecting loops of DELETE name exactly the live rows the predicate selects |
| HeapTheorems.DeleteKeepsTable | server/handlers.c:659-748 | DELETE with any predicate removes exactly the matching rows, reports their number and keeps the index exact |
| HeapTheorems.RunKeepsTable | server/handlers.c:482-759 | over every run of INSERT and DELETE the index is exactly { primary key -> RowID } of the live rows |
| HeapTheorems.NewTableRun | server/handlers.c:482-759 | from a table just created: after every such run the index is exact and no two live rows share a key |
| HeapTables.FindPkColumn | storage-engine/schema.c:347-359 | the first primary key column, -1 if there is none |
| HeapTables.TryIndexInsert | storage-engine/heap.c:89-125 | the row's key, if it has one, is added to the tree; a key already there is reported and left alone |
| HeapTables.TryIndexDelete | storage-engine/heap.c:127-155 | the row's key, if it has one, is removed from the tree |
| HotTheorems.FollowMeaning | server/handlers.c:847-889 | from any slot of a chain the redirect loop reaches the row's one live slot exactly if at most 64 redirects are in between; targets are always allocated later, so chains are acyclic |
| HotTheorems.UpdateKeepsTable | server/handlers.c:816-941 | UPDATE succeeds if and only if the RowID names a slot, its chain has at most 64 redirects and the payload has 1 to 4072 bytes; it then changes that row's payload only; each of its other answers is given exactly when it should be, and only the one for no space leaves an empty page behind |
| PlainUpdate.UpdateMeaning | server/handlers.c:816-941 | on a table without redirects UPDATE takes exactly the RowIDs of live rows and payloads of 1 to 4072 bytes; the slot then holds the row, or redirects to a slot that held none, on its own page if that has room and else on the first page that has |
| PlainUpdate.DeletedRowStays | server/handlers.c:839-846 | UPDATE by the RowID of a deleted row answers that there is none and changes nothing |
| PlainUpdate.UpdateAfterRun | server/handlers.c:482-941 | the same after any run of INSERT and DELETE on a new table |
| HotTheorems.InsertKeepsHistory | server/handlers.c:524-555 | INSERT appends one logical row, named by the RowID it returns |
| HotTheorems.RunRefines | server/handlers.c:482-948 | over every run of INSERT and UPDATE every RowID ever returned keeps naming its row, and the live slots hold what the same events do to a plain list of rows |
| HotTheorems.ScanShowsTable | server/handlers.c:221-273 | SCAN shows exactly one row per logical row, with its latest payload and a RowID of its live slot |
| HotTheorems.ScanInOrder | server/handlers.c:221-273 | SCAN shows rows in the order of pages and slots: its RowIDs increase |
| HotTheorems.NewTableRefines | server/handlers.c:482-948 | from a table just created: after every run of INSERT and UPDATE SCAN shows one row for every successful INSERT, with its latest payload |
| HotTheorems.DeleteReadsInsideIff | storage-engine/page.c:96-112 | over every run of INSERT and UPDATE on a new table, the sizes that a following DELETE asks for lie inside their pages if and only if no slot is a redirect |
| HotIndex.KeysUnique | storage-engine/heap.c:89-125 | no two logical rows share a key while the index names them |
| HotIndex.EntryLeadsToRow | server/handlers.c:847-889 | the redirect loop, started at the RowID an index entry holds, lands on the live slot of the one row with that key, unless more than 64 redirects are in between |
| HotIndex.RunKeepsNames | server/handlers.c:482-948 | over every run of INSERT and UPDATE whose updates keep the keys of their rows, the index maps exactly those keys, each to an allocation of its row, and DUPLICATE_KEY is answered exactly for keys that a row has |
| HotIndex.NewTableKeepsNames | server/handlers.c:482-948 | the same from a table just created |
| UpdateIndex.UpdateKeepsIndexIff | server/handlers.c:816-941 | an UPDATE through any RowID, redirected or not, of a table on which heap and index agree: if it fails they still agree; if it succeeds they agree if and only if, at the slot where its chain ends, a live row keeps its key and either its size does not change or there is no key, or a deleted slot gets a row without key or becomes the new row's own slot again |
| UpdateIndex.KeyStoredTwice | server/handlers.c:893-908 | INSERT with key k, UPDATE to key l and INSERT with key l all succeed on a new table: the index still says k and two live rows have key l |
| UpdateIndex.KeyTwoTwice | server/handlers.c:893-908 | a failing input: one INT column, keys 1, 2 and 2 |

## Left out

- Sockets, request parsing, response text, signals, the SQL lexer, parser, planner and executor, the GUI and the benchmark driver: plumbing around the state changes modelled here.
- File I/O: pages of a table and of the index are maps that never fail within bounds; partial writes, and crashes between a node write and a meta write, are not modelled.
- Array cells of a node past `n_keys`: `BTreeFile` works on the meaningful prefix, and `NodeLayout` covers all cells.
- Memory: malloc and free never fail, and freed page table entries stay in a ghost set of known nodes.
- Integer width: RowIDs, stored ints, hashes and lengths have their C width; page offsets, sizes and counters are unbounded, so payload sizes near INT_MAX and counters past LLONG_MAX are not modelled.
- FLOAT values are four opaque bytes; hit rates as ratios are not modelled.
- WHERE parsing and value comparison: DELETE takes an arbitrary predicate on row bytes. The VARCHAR comparison of `handler_delete` expects a length prefix that `row_deserialize` does not produce.
- DELETE on a table with redirects: the sizes it asks for then lie outside their pages (`DeleteReadsInsideIff`), so what it does depends on other memory.
- A redirect that names page 0 would make `handler_update` look for slots in the schema page; the model answers that no such row exists. No run of the handlers produces one.
- BufferManagers.BufferManager.FetchPage: the trace recorder and the pin callbacks of the policies, which do nothing, are not modelled.
- BufferManagers.BufferManager.constructor: pool sizes outside 1 to 1024, which `bm_init` refuses, have no object.
- BTreeFile.BTree.Insert: takes an index file with page numbers left for one cascade of splits; what happens past 2^31 pages is not modelled.
- SlottedPages.GetRowSize: a REDIRECT slot whose target, taken for a byte offset, lies outside the page, where the C code reads memory behind it.
- PooledTables.PooledTable.DeleteRow: not for a RowID that names a redirected slot, for the same reason; likewise PooledHeap.DeleteFromPage.
- PooledTables.PooledTable.HandleDelete: not on tables with redirected slots, whose sizes the collecting loop would read in the same way.
- PooledTables.PooledTable.HandleUpdate: after a move that is not right, nothing but the pool's transition is stated.
- HeldPolicies.LruMoveIff: for Clock and OPT the outcome of a move is not stated in terms of the pool before it; `MoveSafeIff` and `MoveRightIff` hold for them too.
- RowCodec.RowSerialize: unknown column types and negative VARCHAR sizes, which have no meaning in a row, are not modelled.
- PythonCodec.SerializeRow: values have the type of their column; the coercions int(), float(), str() and bool(), and strings with lone surrogates, which encode() refuses, are not modelled; nor are floats past the 32-bit range, which pack() refuses.
- Metrics reset: `bp_reset_metrics` zeroes the LRU clock, so runs with a reset have no LRU or conservation property.
- Schema pages (`schema_serialize`), table creation, index creation for existing tables, and CSV import.
