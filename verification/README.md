# B+Tree index and clock buffer manager

This project is a Dafny model of two parts of a small teaching storage engine.

**The B+Tree index over integer keys** (`cs564/prj4/Btree/src/btree.cpp`):
- leaf pages are fixed-capacity arrays of (key, record id) pairs with a validity bitmap and a right-sibling link;
- internal pages hold keys, one more child page than keys, and a level;
- `leafNodeInsert` and `leafNodeInsertSplit` insert into a leaf, splitting it when it is full;
- `nonLeafNodeInsert` and `nonLeafNodeInsertSplit` do the same for an internal node;
- `insertEntryUpdate` and `insertEntry` descend from the root, absorb or propagate splits, and grow the tree by a level in the two places the code does;
- `startScan`, `scanNext` and `endScan` run a range scan over the leaf chain.

The index file is a map from page number to typed page: the header page (the index meta information), leaf pages and internal pages. The node capacities INTARRAYLEAFSIZE and INTARRAYNONLEAFSIZE are fields of the index, each at least 2.

**The buffer manager with clock replacement** (`cs564/BufMgr/src/buffer.cpp`):
- a table of frame descriptors (`file`, `pageNo`, `pinCnt`, `dirty`, `valid`, `refbit`) and the buffer pool;
- a directory from (file, page number) to frame, which is the hash table of the code;
- the clock hand;
- the operations: the constructor, `advanceClock`, `allocBuf` (the clock sweep), `readPage`, `unPinPage`, `flushFile`, `allocPage` and `disposePage`.

The files on disk are a map from (file, page number) to page contents.

Exceptions are results. An operation that throws returns its outcome next to the state it leaves behind. That state includes any fields the code had already changed before the throw.

Files:
- `results.dfy`: the `Result` type.
- `flags.dfy`: the count of set flags in a boolean array. It counts the valid slots of a node and the frames the clock sweep has noted pinned.
- `key_order.dfy`: sorted sequences. It defines `CountAtMost`, the number of keys at most a given key. This is the reference for both the insertion slot (a new key goes after equal keys) and the descent child.
- `btree_node.dfy`: leaf and internal nodes, and the four node operations with their correctness lemmas.
- `btree_index.dfy`: the page store, index consistency (`IndexOK`), and the multiset of all entries held by the leaves.
- `btree_insert.dfy`: `insertEntryUpdate` and `insertEntry`.
- `btree_scan.dfy`: `startScan`, `scanNext` and `endScan`. It also defines `Pending`, the entries still ahead of a scan cursor, as the reference for what `scanNext` returns.
- `buffer_state.dfy`: the buffer manager state, its consistency invariant (`Valid`), the constructor and the clock.
- `buffer_manager.dfy`: the buffer manager operations.

## Model

| member | source | states |
|---|---|---|
| BTreeNode.LeafInsertCorrect | cs564/prj4/Btree/src/btree.cpp:399-433 | On a packed ascending leaf with a free slot, leafNodeInsert keeps the leaf packed and ascending and adds one valid slot. The entries become the old ones with the new pair placed after every entry whose key is at most the new key (equal keys stay first). As a multiset they are the old entries plus the new pair. |
| BTreeNode.LeafInsertSplitCorrect | cs564/prj4/Btree/src/btree.cpp:456-519 | On a full leaf, the split keeps the first (C+1)/2 entries of the sorted merge in the old page and moves the remaining C+1-(C+1)/2 to the new page. Concatenated, the two pages are exactly the merge, so no entry is lost or doubled. Both pages are packed and ascending. The separator is the new page's first key, and the chain becomes old page, new page, old sibling. |
| BTreeNode.InternalInsertCorrect | cs564/prj4/Btree/src/btree.cpp:558-593 | On a node with a free key slot, the key goes to position i = the number of keys at most it, and later keys move right. The new child lands at i+1 and the other children keep their order. The node stays well formed, with one more key and still one more child than keys. |
| BTreeNode.InternalInsertSplitCorrect | cs564/prj4/Btree/src/btree.cpp:626-693 | On a full node, the promoted key is the middle of the merged keys and appears in neither half. The left half has the (C+1)/2 keys before it and the right half the C-(C+1)/2 keys after it. Each half has one more child than keys, the merged children are divided between the halves in order, and both halves keep the node's level. |
| BTreeNode.InternalInsertTakes | cs564/prj4/Btree/src/btree.cpp:558-593 | After an in-place insert, the new child is among the node's children. |
| BTreeNode.InternalSplitTakes | cs564/prj4/Btree/src/btree.cpp:626-693 | After a split, the new child is under one of the two halves, and every key of the right half is at least the promoted key. |
| BTreeNode.DescentChild | cs564/prj4/Btree/src/btree.cpp:842-876 | The child taken by the insert descent is the number of keys at most the key, and it is a child in use. When the search runs past the valid keys, the key before the stop is at most the key, which is what line 876 asserts. |
| BTreeNode.ChildForIsChild | cs564/prj4/Btree/src/btree.cpp:842-876 | The child the insert descent follows is the child at position CountAtMost(keys, key), the number of keys at most the key, and it is one of the node's children. |
| BTreeNode.ScanSlots | cs564/prj4/Btree/src/btree.cpp:187-249 | Above level 1, the scan descent takes the child after every key at most `low`; when no key exceeds `low` this is the last child. At level 1 it takes the same child, except that when no key exceeds `low` it takes the one before the last. |
| BTreeNode.EmptyLeafFacts | cs564/prj4/Btree/src/btree.cpp:739-742 | The first root leaf, with every slot cleared and no sibling, is a consistent leaf with no entries. |
| BTreeNode.NewRootFacts | cs564/prj4/Btree/src/btree.cpp:783-790 | A new root is a consistent internal node holding the one separator key, with the old root on its left and the split-off page on its right. |
| BTreeIndex.NewIndex | cs564/prj4/Btree/src/btree.cpp:57-80 | A new index file holds only the header, on page 1, and hands out page 2 next. The header names the index and records the attribute offset, an integer attribute type, no root and no internal node. The index is consistent. |
| BTreeIndex.ReopenRestores | cs564/prj4/Btree/src/btree.cpp:108-116 | Reopening a consistent index file takes the root page and the internal-node flag from the header, and this gives back exactly the index that wrote it. |
| BTreeInsert.LeafStepCorrect | cs564/prj4/Btree/src/btree.cpp:886-912 | Inserting into a leaf below a level-1 node adds exactly the new pair to the entries of the index and keeps it consistent. The leaf splits exactly when it is full. Without a split, the leaf page holds leafNodeInsert's result. With a split, the leaf keeps the lower half and links to the fresh page `nextPage`. That page takes the upper half and is reported upward with the separator, its first key. No other page changes, and the only new page is the reported one. |
| BTreeInsert.AbsorbOrSplitCorrect | cs564/prj4/Btree/src/btree.cpp:913-972 | A child's split is absorbed in place exactly when the node has fewer than C keys (`needsUpate` false). The node's page then holds nonLeafNodeInsert's result. Otherwise the node keeps the lower half of nonLeafNodeInsertSplit at its page. The upper half goes to the fresh page `nextPage` at the same level, reported upward with the promoted key, which is at most every key of that page. The new child is under the node or its upper half. The index stays consistent, its entries are unchanged, and no other page changes. |
| BTreeInsert.InsertBelowCorrect | cs564/prj4/Btree/src/btree.cpp:830-977 | A successful insertEntryUpdate below an internal node adds exactly the new pair to the entries of the index and keeps it consistent. The header and in-memory fields are untouched. Only pages on the descent path for the key change. Every page it creates is a child of an internal node or is the page it reports. The node either stays as it was (nothing reported) or took the child's split: exactly the page contents of `AbsorbOrSplitCorrect`. A node with a free key slot never reports a split. |
| BTreeInsert.InsertBelowFails | cs564/prj4/Btree/src/btree.cpp:830-977 | insertEntryUpdate from an internal node fails exactly when, for as many steps as it is allowed, the descent for the key stays on nodes above level 1 and never reaches a level-1 node. |
| BTreeInsert.FirstInsertCorrect | cs564/prj4/Btree/src/btree.cpp:734-758 | The first insertion allocates a fresh root leaf that holds just the new pair and records it in the header. The index stays consistent and gains exactly that entry. |
| BTreeInsert.RootLeafCorrect | cs564/prj4/Btree/src/btree.cpp:760-823 | While the root is a leaf, an insertion always succeeds and adds exactly the new pair. The root stays where it is exactly when the root leaf has room, and then holds leafNodeInsert's result. A full root leaf keeps the lower half of the split, and the fresh page `nextPage` takes the upper half. A fresh level-1 root holds just the separator over [old root, fresh page], and `hasNonLeaf` is set in memory and in the header. |
| BTreeInsert.GrowOverCorrect | cs564/prj4/Btree/src/btree.cpp:988-1012 | A split that reaches the root puts a fresh page over it as the new root. The new root has one key, the reported separator, and two children: the old root and the reported split-off page. It is at level 1 over a leaf root and at level 0 over an internal root. The header records the new root, and the growth leaves the entries unchanged. Every new page is the root or a child of an internal node, and no page other than the header is rewritten. |
| BTreeInsert.RootInternalCorrect | cs564/prj4/Btree/src/btree.cpp:983-1035 | Below an internal root, a successful insertion adds exactly the new pair and changes only pages on the descent path. The root moves only when a split reaches it, which needs a full root node. The root page then holds the lower half of its split, and a fresh level-0 root holds the key that went up over [old root, upper half]. |
| BTreeInsert.InsertEntryCorrect | cs564/prj4/Btree/src/btree.cpp:143-152 | A successful insertEntry keeps the index consistent and adds exactly the new pair. The index always has a root afterwards. A root that moved has a fresh internal page over the old root and the page split off it. insertEntry fails exactly when the root is internal and the descent for the key never reaches a level-1 node, which a consistent index allows only through a cycle of internal pages. |
| BTreeInsert.InsertEntryFails | cs564/prj4/Btree/src/btree.cpp:143-152 | insertEntry fails exactly when the root is internal and every page the descent for the key visits, however far it goes, is an internal node above level 1. |
| BTreeInsert.SetRoot | cs564/prj4/Btree/src/btree.cpp:793-809 | After a root change, the header page and the in-memory fields agree on the root page and on `hasNonLeaf`. |
| BTreeScan.StartScan | cs564/prj4/Btree/src/btree.cpp:163-290 | BadScanParam is raised exactly when low > high. Otherwise BadOpcodes is raised exactly when the low operator is not GT/GTE or the high operator is not LT/LTE. The bounds are recorded before either check, and the operators after the first: on BadScanParam nothing else changes, and on BadOpcodes the operators are already recorded. Afterwards a scan is running exactly when one was already running or neither error was raised. On success with a non-empty tree, the cursor is at slot 0 of a leaf. |
| BTreeScan.Descend | cs564/prj4/Btree/src/btree.cpp:178-277 | The startScan descent from an internal root ends on a leaf page, or reports a damaged file. |
| BTreeScan.DescendStep | cs564/prj4/Btree/src/btree.cpp:185-276 | One step of the descent, in terms of the number c of keys at most `low`. A level-0 node continues into child c. A level-1 node ends in child c, or in child n-1 when all n keys are at most `low`. |
| BTreeScan.ScanNext | cs564/prj4/Btree/src/btree.cpp:303-307 | With nothing inserted (root 0), scanNext signals completion and leaves the scan as it was. No call changes the scan bounds. |
| BTreeScan.ScanFromSeek | cs564/prj4/Btree/src/btree.cpp:309-370 | Against `Pending`, the entries ahead of the cursor along the leaf chain, the scan completes exactly when no entry ahead stops it or the first one that does is beyond the high bound. Otherwise it returns that entry's record, which satisfies both bounds, and the entries ahead of the new cursor are those after it. |
| BTreeScan.ScanNextSeek | cs564/prj4/Btree/src/btree.cpp:297-371 | scanNext returns the record of the first entry ahead that satisfies both bounds, unless an entry beyond the high bound comes first, in which case it completes. A returned entry is consumed, so the scan keeps running with the rest ahead. |
| BTreeScan.ScanNextCompletedStays | cs564/prj4/Btree/src/btree.cpp:328-361 | Completion is final: calling scanNext again after it completed completes again, without moving the cursor. |
| BTreeScan.EndScan | cs564/prj4/Btree/src/btree.cpp:377-387 | endScan raises ScanNotInitialized exactly when no scan is running, and then changes nothing. Otherwise it stops the scan. |
| BTreeScan.StartEndScan | cs564/prj4/Btree/src/btree.cpp:176-387 | A scan that started successfully can be ended once; ending it a second time raises ScanNotInitialized. |
| BufferState.Init | cs564/BufMgr/src/buffer.cpp:21-37 | The constructor gives a consistent manager whose frames are all invalid and numbered 0 to bufs-1. Nothing is resident, and the clock hand is on frame bufs-1. |
| BufferState.AdvanceClock | cs564/BufMgr/src/buffer.cpp:54-58 | The hand moves to the next frame, wraps to 0 after the last, and stays below numBufs. Nothing else changes. |
| BufferState.AdvanceByMoves | cs564/BufMgr/src/buffer.cpp:54-58 | k advances (k at most a full turn) move the hand k frames on, wrapping around past the last frame. |
| BufferState.FullTurn | cs564/BufMgr/src/buffer.cpp:54-58 | numBufs advances bring the clock back to where it started. |
| BufferManager.Sweep | cs564/BufMgr/src/buffer.cpp:62-116 | The clock loop always ends, and only reference bits and the hand change along the way. It stops on `Victim`: the first free frame with a clear reference bit in clock order from the frame after the hand, or, when there is none, the first free frame in that order. Every frame before the stop on the first turn loses its reference bit, and no other frame does. When no frame is free, it stops after noting every frame pinned, with every reference bit cleared, pinned frames included, because the code looks at the reference bit before the pin count. |
| BufferManager.Victim | cs564/BufMgr/src/buffer.cpp:62-116 | The frame the clock sweep evicts is free, exists exactly when some frame is free, and has a clear reference bit whenever some free frame does (a referenced frame gets a second chance). |
| BufferManager.AllocBuf | cs564/BufMgr/src/buffer.cpp:60-118 | A frame is handed out exactly when some frame is free; otherwise BufferExceeded is raised. The frame handed out is `Victim`, and the hand ends on it. Its page, if any, is written back when dirty, dropped from the directory, and cleared. The frames the sweep passed on its first turn lose their reference bit, and no other frame changes. The manager stays consistent. |
| BufferManager.ReadPage | cs564/BufMgr/src/buffer.cpp:120-156 | A hit pins the page's frame once more, sets its reference bit and changes no other frame. A miss claims a frame, installs the page read from disk, and records it in the directory. BufferExceeded is raised exactly on a miss with no free frame, and then only the sweep's work remains: every reference bit is cleared, while the directory, the pool and the disk are unchanged. InvalidPage is raised exactly on a miss for a page the file does not hold while some frame is free. By then the victim frame has been claimed: its dirty page is written back, its directory entry is dropped and the frame is cleared. The manager stays consistent. |
| BufferManager.UnPinPage | cs564/BufMgr/src/buffer.cpp:159-178 | A page that is not resident is ignored. A resident page with pin count 0 raises PageNotPinned and changes nothing. Otherwise the pin count drops by one and the frame becomes dirty if asked. `dirty` is never cleared, and no other frame changes. |
| BufferManager.PinThenUnpin | cs564/BufMgr/src/buffer.cpp:134-177 | Pinning a resident page (a readPage hit) and unpinning it clean restores the manager, apart from the reference bit, which stays set. |
| BufferManager.FlushFromCorrect | cs564/BufMgr/src/buffer.cpp:182-202 | The frame loop of flushFile on a consistent manager never raises BadBuffer. It raises PagePinned exactly when a frame of the file is pinned. On success, every frame of the file is cleared and its dirty page is on disk with the frame's contents. Frames and disk pages of other files are untouched. |
| BufferManager.FlushFileCorrect | cs564/BufMgr/src/buffer.cpp:180-203 | After a successful flushFile no frame records the file. Disk pages of other files keep their contents in every case. |
| BufferManager.AllocPage | cs564/BufMgr/src/buffer.cpp:205-218 | The fresh page reaches the disk. When a frame is free, the page is installed in the claimed frame and registered in the directory; otherwise BufferExceeded is raised, the directory and pool are unchanged, and every reference bit has been cleared by the sweep. The manager stays consistent. |
| BufferManager.DisposePage | cs564/BufMgr/src/buffer.cpp:220-242 | A resident page's frame is cleared and its directory entry removed, pinned or not and without a write-back. Other frames are untouched. The page is deleted from its file in every case. |
| BufferManager.InstallThenDispose | cs564/BufMgr/src/buffer.cpp:205-242 | Disposing of a page just installed in a frame gives back the frame table and directory from before the installation (only the pool keeps the contents) and deletes the page from the disk. |

## Left out

- The B+Tree works on the page store directly. The buffer manager calls it makes (readPage, allocPage, unPinPage with its dirty flags) are not modelled; the two halves of the model meet only in the page-number counter that `allocPage` advances.
- The index constructor's name formatting (relation name, '.', offset; cs564/prj4/Btree/src/btree.cpp:43-44) and its 20-byte limit: the index name is a parameter.
- The constructor's test for an existing file and the creation of its `BlobFile`: these are the choice between `NewIndex` and `Reopen`. The attribute checks asserted on reopening are not modelled.
- The bulk load of the constructor through `FileScan` (cs564/prj4/Btree/src/btree.cpp:83-100): an external record scanner feeding `insertEntry`, which is modelled.
- The destructors (the index flushes its file; the buffer manager writes back dirty frames), `printSelf`, `bufStats`, `showLeavesKey` and the debug output: I/O and statistics.
- Page layout: nodes and the header are typed records, not bytes. Reading a page as a node of the wrong kind is undefined in the code; the model reports it as `Corrupt`.
- BTreeInsert.InsertBelow, BTreeScan.Descend, BTreeScan.ScanFrom: recursion down the tree and along the leaf chain is bounded by the number of pages in the file. Running out of that fuel means going round a cycle of pages, which index consistency does not exclude; it ends in `Corrupt`, an outcome the code does not have (where the code would not terminate). For the insert descent, `InsertBelowFails` and `InsertEntryFails` state exactly when this happens.
- Keys and page numbers are unbounded integers. The code only compares keys and never does arithmetic on them, so the 32-bit width of `int` does not matter.
- BTreeInsert.InsertBelowCorrect: entries are counted over all leaf pages of the file, not the pages reachable from the root. The model states which pages change and that every new page hangs under an internal node, but it does not prove that the root reaches every leaf, because index consistency does not include reachability.
- BTreeInsert.InsertEntryCorrect, BTreeInsert.RootInternalCorrect: index consistency has no acyclicity or height invariant. A file whose internal nodes point round a cycle is consistent in the model, and there insertEntry fails (see `InsertEntryFails`). So success under an internal root is characterised, not proved for every consistent index.
- BufferManager.AllocBuf, BufferManager.ReadPage, BufferManager.AllocPage: when BufferExceeded is raised, where the clock hand ends is not stated.
- BTreeScan.ScanNext: the code's `assert(scanExecuting)` is a precondition.
- BTreeScan.EndScan: the unpinning of the current page and the reset of `currentPageData` belong to the buffer layer and are not modelled.
- BTreeScan.StartScan: states that the cursor lands on a leaf and where the descent goes, not that no matching entry lies in a leaf left of it. Index consistency here does not include key order across pages. With duplicate keys on both sides of a leaf split, the level-1 rule of taking the child after every key at most `low` can start to the right of matching entries.
- BufferState.Set, BufferState.Clear: `BufDesc::Set` and `BufDesc::Clear` live in buffer.h, which is not part of this model. `Set` is taken to mark the frame valid for the given file and page, pinned once, referenced and clean; `Clear` to reset it to an invalid, unpinned, clean frame.
- The size of the hash table (cs564/BufMgr/src/buffer.cpp:33): the directory is a map.
- The file layer (`allocatePage`, `readPage`, `writePage`, `deletePage`): the disk is a map. The page number `allocatePage` hands out and its blank contents are parameters. Reading a page the file does not hold raises InvalidPage.
- The superseded buffer manager (cs564/buffer.cpp), the scratch leaf split (cs564/untitled.cpp), the declarations-only draft (cs564/prj4_v1/drafts/node_upate.cc) and the unrelated word-locator exercise (HW1): these are not part of this model.
