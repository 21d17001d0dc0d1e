# LMDB engine and key comparers

This project models the storage engine that the Kotlin bindings ship (LMDB 0.9.33, `mdb.c` and
`midl.c`) and the comparison functions of the bindings (`ValComparers.kt`), and proves what they
are for. `dafny verify dfyconfig.toml` checks all of it.

- **Copy-on-write protocol** (`Mvcc*.dfy`). Readers, the single writer, the two meta pages, the
  page cache and stable storage are one step system; every unlocked access to shared memory is a
  step of its own. Proved over all runs: snapshots of live readers are never touched, reads are
  repeatable, every crash point recovers to a complete committed snapshot, every page number
  is accounted for exactly once, and a commit holds exactly what its transaction wrote. That the
  protocol gets somewhere is proved too: readers begin on the newest commit, transactions can be
  committed and are then read, and pages come back once no reader needs them.
- **Nested transactions** (`NestedTxn.dfy`, `NestedMerge.dfy`, `NestedCommit.dfy`, `SpillList.dfy`,
  `DirtyList.dfy`). The chain of dirty and spill lists is first a state machine with the meaning of
  `mdb_page_get`; the in-place merge of the arrays is then shown to do what its commit does.
- **ID lists** (`MidlSort.dfy`, `IdList.dfy`, `PgHead.dfy`). Quicksort with an explicit stack,
  sentinel merge in place, taking and giving back ranges of page numbers.
- **Pages** (`PageLayout.dfy`, `SlottedPage.dfy`, `SplitPoint.dfy`, `SplitMove.dfy`, `Rebalance.dfy`).
  Nodes as bytes on a page, the size arithmetic of split, merge and move, and the wrap-around move of
  a split.
- **Cursors during a split** (`SplitCursors.dfy`). The stacks of the acting and of all tracked cursors
  while a page is split, with any number of parents up to a new root.
- **B+tree** (`BTree*.dfy`). Put, get and delete with split, root growth, node move, merge and root
  collapse refine a sorted map over any total preorder of keys, and change the list of items, key
  bytes included, by exactly one; the sizes of items and keys with which they never fail are worked
  out exactly.
- **Cursors** (`CursorOrder.dfy`, `Cursor.dfy`). Positions in the tree, enumeration in both
  directions, and positioning with its shortcuts.
- **Freelist save** (`FreelistSave.dfy`, `FreelistCommit.dfy`). Reserving and filling the freeDB records
  while each write to the freeDB may change the free lists, and that the records written are those of
  the protocol's step.
- **Whole-tree walks** (`PageTree.dfy`, `CopyWalk.dfy`, `DropWalk.dfy`). The compacting copy and the
  emptying of a database.
- **Comparers** (`Comparators.dfy`).

The setting is the common one: 64 bits, little-endian, no WRITEMAP, page sizes from 4096 to 32768
for the tree (any even size from 1024 on for the search of a split point).

## What came out

- The split of a page that holds many small nodes is not searched for but made in the middle
  (`mdb.c:8881`). `SplitPoint.MiddleExact` gives the exact condition under which this is safe for
  every page content; beyond it `SplitPoint.Overfull` builds a legal page for which `mdb_node_add`
  then reports MDB_PAGE_FULL. For whole databases, `BTreeTotal.SafeExact` gives the sizes of items
  that every database made by puts of safe keys and by deletes can take, and exactly those;
  `BTreeKeys.SafeKeyExact` gives the sizes of separators that every branch page can take. With items
  and keys of such sizes no put and no delete of any run fails (`BTreeTotal.RunTotal`). On pages of
  4096 bytes the unsafe weights are those above 192 and up to 255 bytes; from 11264 bytes a page on
  every key is safe (`BTreeTotal.BigPagesSafe`).
- After the abort of a nested transaction its parent reads a page as before, whatever the child did,
  if and only if the page was not among its free ones: such a page may have been taken by the child and
  spilled to the file (`NestedTxn.AbortExact`). A free page belongs to no tree
  (`MvccTheorems.WriterConservation`).
- `mdb_midl_sort` adds two positions in a C int. `MidlSort.Sort` says for each list whether the sum
  overflows; `MidlSort.LengthExact` says for which lengths it can: no list of up to 2^30 + 3 ids makes it,
  and of every greater length there is one that does, even without duplicates.
- A reader may be handed a meta page that is newer than the id in its slot; the slot pins everything
  from that id on, so this does no harm (`MvccProtocol.MetaOfPin`).
- Emptying a database that records named databases leaves their pages allocated
  (`DropWalk.LeftBehind` says which); only databases of duplicates are followed.
- Two records of the room that `mdb_freelist_save` asks for may hold one id less than needed
  (1019 ids, two records, pages of 4096 bytes: `FreelistSave.HeadRoomShort`); the loop then goes on to
  the next key. `FreelistSave.HeadRoomExact` gives the exact condition.
- A comparison of two missing values answers -1 both ways round (`Comparators.SwapExact`).

## Model

| member | source | states |
|---|---|---|
| MvccTheorems.ReaderSafety | src/nativeInterop/cinterop/c/mdb.c:2151-2168 | In every reachable interleaving, a live reader holds one committed snapshot, at least as new as the id in its slot; all its pages are unchanged in the file, and none of them is dirty, spilled or up for allocation in the running write transaction; MvccProgress.BeginSucceeds says which snapshot readers get |
| MvccTheorems.SearchRespectsPins | src/nativeInterop/cinterop/c/mdb.c:2151-2168 | However the unlocked search for the oldest reader interleaves with readers, no process ever believes in an oldest reader younger than a pinned one, and no record that the writer may consume is as young as a pin |
| MvccTheorems.RepeatableReads | src/nativeInterop/cinterop/c/mdb.c:2796-2807 | Between any two moments of one read transaction, whatever readers, writers, commits and aborts come between, every page of the snapshot reads the same |
| MvccTheorems.CrashSafety | src/nativeInterop/cinterop/c/mdb.c:3902-3952 | At every crash point the meta page that recovery picks leads to a complete, conserved snapshot on stable storage, never older than the last reported commit; while no newer meta page is durable the snapshot before it is complete as well |
| MvccTheorems.Conservation | src/nativeInterop/cinterop/c/mdb.c:1751-1800 | Every snapshot ever committed in any run has each page number from 2 on either in a tree or in exactly one freeDB record, and satisfies the equation of the audit: freecount + used + 2 == next_pgno |
| MvccTheorems.AuditEquation | src/nativeInterop/cinterop/c/mdb.c:1751-1800 | The audit equation follows from the partition of the page numbers, the freecount being the sum of the record lengths |
| MvccTheorems.WriterConservation | src/nativeInterop/cinterop/c/mdb.c:818-819 | Inside a running write transaction the page numbers from 2 on are divided among trees, mt_free_pgs, me_pghead, loose pages and unconsumed freeDB records, none lost and none held twice; so the five sizes add up |
| MvccTheorems.FreeCountIs | src/nativeInterop/cinterop/c/mdb.c:1751-1776 | The number the audit adds up record by record is the number of pages listed, because no two records list the same page |
| MvccContents.CommitHolds | src/nativeInterop/cinterop/c/mdb.c:2468-2560 | A committed snapshot holds what the steps of its transaction have made of the snapshot it began with: each page of that one, followed through its copies, lies where the last copy put it with what was last written to it; so does each new page; and nothing else is there. The meta page leads to this snapshot |
| MvccContents.LastWriteHolds | src/nativeInterop/cinterop/c/mdb.c:2468-2560 | The last write to a page before it is copied or given up is what the committed snapshot holds under its number |
| MvccContents.OthersKept | src/nativeInterop/cinterop/c/mdb.c:2468-2560 | A page on which no step of the transaction acts is the same in both snapshots |
| MvccContents.AbortLeavesNothing | src/nativeInterop/cinterop/c/mdb.c:3036-3103 | A transaction aborted before its meta page is written leaves no snapshot and no meta page changed, in the page cache or on disk, and the last commit whole in the file |
| MvccProgress.BeginSucceeds | src/nativeInterop/cinterop/c/mdb.c:2796-2807 | A reader that takes its steps to begin, however those of other readers, the writer and the machine come between, is live on the newest published commit unless another one is published meanwhile |
| MvccProgress.BeginPossible | src/nativeInterop/cinterop/c/mdb.c:2796-2807 | In every reachable state the owner of a slot can take these steps |
| MvccProgress.ClaimPossible | src/nativeInterop/cinterop/c/mdb.c:2764-2807 | A slot within reach that no thread owns can be claimed when no other thread is claiming one, and its owner then begins on the newest commit |
| MvccProgress.FreshReads | src/nativeInterop/cinterop/c/mdb.c:2796-2807 | Over every run without a crash, a read transaction that begins after a commit is published gets that commit or a newer one |
| MvccProgress.ScanFinds | src/nativeInterop/cinterop/c/mdb.c:2153-2168 | A search for the oldest reader that nobody disturbs finds exactly the lowest id that the slots in use show, or the last commit if none is lower |
| MvccProgress.OldRecordsReturn | src/nativeInterop/cinterop/c/mdb.c:2283-2309 | After such a search every next record older than all ids shown and than the last commit is consumed, and its pages are up for allocation |
| MvccProgress.LastReaderEnds | src/nativeInterop/cinterop/c/mdb.c:3052-3075 | When the only reader shown ends, the next search finds the last commit: no record is held back for it any more |
| MvccProgress.ReleasedReused | src/nativeInterop/cinterop/c/mdb.c:4563-4576 | A slot given back when its thread ends can be claimed anew, and its next owner begins on the newest commit |
| MvccProgress.LooseReused | src/nativeInterop/cinterop/c/mdb.c:1908-1960 | A dirty page made loose can be allocated again at once, and the transaction has then the same lists and page numbers as before |
| MvccProgress.GivenBackReused | src/nativeInterop/cinterop/c/mdb.c:5781-5823 | A page given back to me_pghead can be allocated again from there |
| MvccProgress.SpilledTakenBack | src/nativeInterop/cinterop/c/mdb.c:2409-2462 | A dirty page that is spilled and unspilled leaves the transaction as it was and the page in the file |
| MvccProgress.CommitPossible | src/nativeInterop/cinterop/c/mdb.c:3513-3740 | In every state of the invariant a transaction that is not searching can be saved, flushed, synced and published: its tree is then the newest snapshot and no other snapshot has changed |
| MvccProgress.WrittenIsRead | src/nativeInterop/cinterop/c/mdb.c:2732-2866 | From every reachable state without a writer there is a run that changes one page, commits and begins a reader, whose snapshot differs from the one before in this page only |
| MvccPages.ReachableOk | src/nativeInterop/cinterop/c/mdb.c:2204-2374 | The joint invariant of readers, meta pages, page contents and page partition holds in every reachable state |
| MvccPages.StepOk | src/nativeInterop/cinterop/c/mdb.c:2204-2374 | Every enabled step of a reader, the writer or the machine keeps that invariant; what the steps of the writer make of page contents is MvccContents.CommitHolds |
| MvccPages.FetchedPagesUnneeded | src/nativeInterop/cinterop/c/mdb.c:2283-2309 | A freeDB record younger readers allow to be consumed lists no page of any snapshot that a pinned reader, or recovery from a crash, may still need |
| MvccPages.SavedRecordsSafe | src/nativeInterop/cinterop/c/mdb.c:3270-3305 | Leftover pages saved again under smaller freeDB keys stay safe: they belong to no snapshot that may still be read when those keys are consumed |
| MvccPages.SavedConserved | src/nativeInterop/cinterop/c/mdb.c:3140-3361 | The step that saves the freelist leaves every page number either in a tree or in exactly one freeDB record; FreelistCommit shows that the loops make this step |
| MvccProtocol.StepProtocol | src/nativeInterop/cinterop/c/mdb.c:2731-2866 | Slots, cached oldest ids, the unlocked slot scan and the two meta pages keep their invariant under every step; a slot that is being claimed shows nothing |
| MvccProtocol.MetaOfPin | src/nativeInterop/cinterop/c/mdb.c:2796-2830 | The meta page copied after the slot has been published may be newer than the slot says, never older |
| MvccProtocol.CrashPicks | src/nativeInterop/cinterop/c/mdb.c:4015-4020 | mdb_env_pick_meta finds on stable storage the newest committed meta page |
| IdList.Search | src/nativeInterop/cinterop/c/midl.c:34-64 | Binary search in a descending list that has the id at most once: everything before the position is larger, everything from it on is not, and it is the id itself if and only if the list has it |
| IdList.XMerge | src/nativeInterop/cinterop/c/midl.c:200-213 | The in-place merge, its source possibly in the tail of the same buffer, leaves the merged list of the two old lists and does not touch what lies behind |
| IdList.PlaceOne | src/nativeInterop/cinterop/c/midl.c:205-212 | One turn of that merge: the ids smaller than the new one move up by the gap, the new one goes right below them, everything else is unchanged; the sentinel in element 0 ends the scan |
| IdList.MergeHolds | src/nativeInterop/cinterop/c/midl.c:200-213 | The merged list holds exactly the ids of both lists, with multiplicity |
| IdList.MergeDescending | src/nativeInterop/cinterop/c/midl.c:200-213 | Merging two descending lists gives a descending list |
| IdList.MergeStrict | src/nativeInterop/cinterop/c/midl.c:200-213 | Merging disjoint duplicate-free lists gives a duplicate-free list |
| MidlSort.Sort | src/nativeInterop/cinterop/c/midl.c:220-279 | mdb_midl_sort never leaves the array and never overflows its stack of 64 ints; it permutes the ids, and ends with them descending unless a sum of positions overflows, which is told from the list alone |
| MidlSort.LengthExact | src/nativeInterop/cinterop/c/midl.c:220-279 | The sum l + ir overflows a C int for no list of n ids if and only if 2n <= INT_MAX + 8, and the same for lists without duplicates |
| MidlSort.Cross | src/nativeInterop/cinterop/c/midl.c:248-257 | The two sentinel scans meet inside the part: a permutation, not below the pivot on the left, not above it on the right |
| MidlSort.InsertionSort | src/nativeInterop/cinterop/c/midl.c:228-239 | The short case may run down to index 1 although its part starts later, since everything left of the part is not smaller |
| MidlSort.StackRoom | src/nativeInterop/cinterop/c/midl.c:262-276 | Because the smaller part is done first, at most 28 parts are ever on the stack, for every int length |
| PgHead.EndpointTest | src/nativeInterop/cinterop/c/mdb.c:2256-2264 | On a strictly descending list the two end points differ by n exactly when the n + 1 ids between are consecutive |
| PgHead.FindRun | src/nativeInterop/cinterop/c/mdb.c:2256-2264 | The search of mdb_page_alloc finds a run of num consecutive page numbers if and only if there is one, and the one with the lowest number |
| PgHead.Take | src/nativeInterop/cinterop/c/mdb.c:2357-2361 | The in-place removal takes the num ids that end at position i out of the list and leaves the rest of the buffer |
| PgHead.TakeKeeps | src/nativeInterop/cinterop/c/mdb.c:2357-2361 | What remains is strictly descending and is the old list less exactly the run |
| PgHead.GiveBack | src/nativeInterop/cinterop/c/mdb.c:5808-5822 | The insertion of mdb_ovpage_free puts the range before the first id below it |
| PgHead.GiveBackKeeps | src/nativeInterop/cinterop/c/mdb.c:5808-5822 | The new list is strictly descending and holds the old ids and exactly the range |
| PgHead.GiveBackUndoesTake | src/nativeInterop/cinterop/c/mdb.c:5814-5822 | Giving back a run restores the very list that it was allocated from |
| DirtyList.Search | src/nativeInterop/cinterop/c/midl.c:281-314 | Binary search in an ascending dirty list |
| DirtyList.Insert | src/nativeInterop/cinterop/c/midl.c:316-345 | Insertion adds the page to the map of the list and keeps it ascending; a duplicate or a full list is refused and nothing changes |
| NestedMerge.OverIsOverride | src/nativeInterop/cinterop/c/mdb.c:3637-3646 | As maps, the merged dirty list is the child overriding the parent |
| NestedMerge.OverAscends | src/nativeInterop/cinterop/c/mdb.c:3637-3646 | The merged dirty list is ascending and free of duplicates |
| NestedMerge.MergedLength | src/nativeInterop/cinterop/c/mdb.c:3620-3633 | The length computed in advance for deeper nesting is the length of the merged list |
| NestedMerge.MergeLists | src/nativeInterop/cinterop/c/mdb.c:3637-3648 | The backward in-place merge never overwrites an unread entry and the assertion i == x at its end always holds |
| NestedMerge.MapLength | src/nativeInterop/cinterop/c/mdb.c:1195-1200 | A dirty list is as long as the set of its pages |
| SpillList.SortedAppend | src/nativeInterop/cinterop/c/mdb.c:3651-3663 | Appending and sorting two spill lists with no page in common gives a spill list of both |
| NestedCommit.MarkSpilled | src/nativeInterop/cinterop/c/mdb.c:3580-3601 | Exactly the entries of the pages that the child holds dirty are marked as deleted in the parent's spill list |
| NestedCommit.PruneSpill | src/nativeInterop/cinterop/c/mdb.c:3580-3606 | After squashing, the parent's spill list holds its old pages less those the child holds dirty, still sorted |
| NestedCommit.PruneDirty | src/nativeInterop/cinterop/c/mdb.c:3608-3618 | Pages that the child spilled leave the parent's dirty list |
| NestedCommit.MergeDirty | src/nativeInterop/cinterop/c/mdb.c:3620-3648 | With either way of finding the length, the parent's array ends up as the dirty list of the merged transaction |
| NestedCommit.JoinSpill | src/nativeInterop/cinterop/c/mdb.c:3651-3663 | The parent's spill list becomes the union of both, still sorted, unless the sort overflows; up to 2^30 + 3 entries together it does not |
| NestedCommit.TxnLists.CommitInto | src/nativeInterop/cinterop/c/mdb.c:3578-3668 | The whole commit of a child on the arrays: the parent's lists then represent the merged transaction, unless the spill lists are too long together to be sorted |
| NestedTxn.CommitKeepsGet | src/nativeInterop/cinterop/c/mdb.c:5510-5562 | After a child commits, mdb_page_get in the parent returns for every page number what it returned in the child |
| NestedTxn.AbortRestores | src/nativeInterop/cinterop/c/mdb.c:3036-3103 | After a child aborts, whatever it and its descendants did, the parent's record is as before and mdb_page_get returns what it did before for every page number that is not a free page |
| NestedTxn.AbortLeavesFreshPage | src/nativeInterop/cinterop/c/mdb.c:2116-2132 | The exception is real: begin, allocate, spill and abort make the parent read a free page differently |
| NestedTxn.AbortExact | src/nativeInterop/cinterop/c/mdb.c:3036-3103 | A page reads as before after every possible abort of a child if and only if it is not a free page |
| NestedTxn.MergedLength | src/nativeInterop/cinterop/c/mdb.c:3634-3635 | UM_MAX - mt_dirty_room is the exact length of the merged list under a single ancestor, and bounds it otherwise |
| NestedTxn.TouchHasRoom | src/nativeInterop/cinterop/c/mdb.c:2517-2526 | A page dirty in an ancestor can always be copied: the dirty list has room |
| NestedTxn.StepKeepsContent | src/nativeInterop/cinterop/c/mdb.c:2409-2460 | Touch, spill, unspill, nested begin and commit, and changes of other pages leave what mdb_page_get returns for a page |
| NestedTxn.NotFoundExact | src/nativeInterop/cinterop/c/mdb.c:5510-5562 | mdb_page_get fails exactly for page numbers from mt_next_pgno on, whatever lists of the transaction and its ancestors it has to walk, and what it takes from the map is the page of the file |
| NestedTxn.WrittenIsGot | src/nativeInterop/cinterop/c/mdb.c:5510-5562 | What is written to a page, or allocated with it, mdb_page_get returns from memory; a page given back is in no list and can be allocated again |
| NestedTxn.ChildWrites | src/nativeInterop/cinterop/c/mdb.c:2517-2531 | Begin, touch, write and commit in a child change this page in the parent and nothing else |
| NestedTxn.SpillTakenBack | src/nativeInterop/cinterop/c/mdb.c:2409-2462 | A page spilled and unspilled leaves the transaction as it was, and the file differs in this page only |
| NestedTxn.RunOk | src/nativeInterop/cinterop/c/mdb.c:1195-1200 | The accounting of mt_dirty_room stays exact over every run of nested transactions |
| NestedTxn.StepOk | src/nativeInterop/cinterop/c/mdb.c:2171-2187 | Every touch, allocation, spill, unspill, give-back, nested begin, commit and abort keeps mt_dirty_room the exact room |
| SlottedPage.DecodeEncode | src/nativeInterop/cinterop/c/mdb.c:7455-7484 | What mdb_node_add writes for a leaf or branch node reads back, header fields and all, as that node |
| SlottedPage.NodeLayout | src/nativeInterop/cinterop/c/mdb.c:926-999 | The little-endian bytes of a node: words for size of data or page number, flags and size of the key, then key and data |
| SlottedPage.AddPacked | src/nativeInterop/cinterop/c/mdb.c:7445-7453 | A node put right below all others keeps the byte ranges disjoint and exactly filling the page from upper on |
| SlottedPage.DelPacked | src/nativeInterop/cinterop/c/mdb.c:7531-7552 | Closing the gap of a node and shifting the pointers keeps them so |
| SlottedPage.ContentFromBytes | src/nativeInterop/cinterop/c/mdb.c:7376-7486 | Bytes and pointers determine the nodes of a page and its upper bound |
| SlottedPage.Page.Add | src/nativeInterop/cinterop/c/mdb.c:7376-7486 | mdb_node_add on the bytes: refused exactly when there is no room, otherwise the page holds the old nodes with the new one at its index, every other node reading unchanged |
| SlottedPage.Page.Del | src/nativeInterop/cinterop/c/mdb.c:7503-7552 | mdb_node_del on the bytes: the page holds the other nodes, each reading unchanged; the bytes below the node are moved up over it and the pointers to them shifted, nothing else |
| SlottedPage.AddThenDel | src/nativeInterop/cinterop/c/mdb.c:7503-7552 | Adding a node to a page and deleting it again restores the page: its nodes, its pointers, its bounds and every byte of its nodes |
| SplitPoint.FindSplit | src/nativeInterop/cinterop/c/mdb.c:8836-8911 | The scan for the split point, forward, append-at-end and backward, ends where the sums of weights say: in the middle if it does not run, so that one old node goes with a new one at the end, and otherwise at the first node that no longer fits from the side of the new one, or the last position allowed; whenever it runs both pages are non-empty and fit |
| SplitPoint.SearchPlace | src/nativeInterop/cinterop/c/mdb.c:8858-8911 | The position that the tree operations cut at is this place |
| SplitPoint.SearchSplits | src/nativeInterop/cinterop/c/mdb.c:8881-8911 | For any node sizes up to me_nodemax, leaf or branch, the searched position leaves two non-empty pages that fit |
| SplitPoint.TwoKeys | src/nativeInterop/cinterop/c/mdb.c:4533-4534 | A page that has to be split holds at least two nodes |
| SplitPoint.BranchKeepsTwo | src/nativeInterop/cinterop/c/mdb.c:8881-8911 | A split branch page leaves at least two nodes on either side |
| SplitPoint.MiddleExact | src/nativeInterop/cinterop/c/mdb.c:8858-8881 | When the scan is skipped, cutting in the middle is safe for every legal content if and only if the new node is no bigger than the smallest nodes that the other half can hold together (or becomes the keyless first branch node) |
| SplitPoint.Overfull | src/nativeInterop/cinterop/c/mdb.c:8858-8881 | Otherwise there is a legal page for which the plain half split puts too much on one side |
| SplitMove.MoveNodes | src/nativeInterop/cinterop/c/mdb.c:8989-9035 | The wrap-around loop ends with the copy and the right page holding all nodes in order, the first branch node of each without its key, though it overwrites the pointers it is reading from |
| SplitMove.SplitPage | src/nativeInterop/cinterop/c/mdb.c:8976-9046 | After the whole move, left and right together are the old nodes with the new one at newindx: leaf nodes whole, branch nodes with their children and, but for the first of each page, their keys; the acting cursor's place on its page is that of the new node; SplitCursors.PageSplit has its stack |
| SplitMove.SplitFits | src/nativeInterop/cinterop/c/mdb.c:8881-8911 | A position that the search found leaves the room that the byte-level move needs |
| SplitCursors.PageSplit | src/nativeInterop/cinterop/c/mdb.c:8714-9129 | mdb_page_split on the stacks of the cursors, recursion into full parents and a new root included: afterwards the acting cursor stands at the new node, and every tracked cursor on a path of the new tree to the node it denoted before (to the new one, if that replaces it; past the end, if it was); the two pages hold the old nodes with the new one in order, no page has two parents, all other pages are untouched |
| SplitCursors.Separate | src/nativeInterop/cinterop/c/mdb.c:8740-8964 | The new right page becomes known to the parents, by a new root, a free place in the parent or a split of the parent: cursors behind it are shifted, mn leads to it, and it comes directly behind the left page, whether they have one parent or two |
| SplitCursors.FixUpBeside | src/nativeInterop/cinterop/c/mdb.c:9102-9116 | The loop compares with a parent index of the acting cursor that may be incremented already; for every tracked cursor it adds one to exactly the parent indices behind the page that was split |
| SplitCursors.FinalStands | src/nativeInterop/cinterop/c/mdb.c:9102-9112 | A cursor on a node that moves to the right page takes the path of mn and the index less the nodes that stay; it and every other cursor is then on a path of the new tree and denotes what it did |
| SplitCursors.ActedMoved | src/nativeInterop/cinterop/c/mdb.c:9031-9046 | The acting cursor, by going on to the next index of its parent or, past the last one, by taking over the path of mn, comes to the page that holds the new node |
| SplitCursors.NothingToRepair | src/nativeInterop/cinterop/c/mdb.c:8942-8959 | For a tracked acting cursor the test whether the left page has changed its parent never succeeds |
| Rebalance.MergeFits | src/nativeInterop/cinterop/c/mdb.c:8507-8515 | Whenever rebalancing merges, the nodes of both pages fit on one, even after the dissolved branch page's first node gets a key of maximal length |
| Rebalance.MoveFits | src/nativeInterop/cinterop/c/mdb.c:8356-8370 | Whenever it moves, the node fits on the page it moves to, even after that page's own first node gets a key |
| Rebalance.QuarterExact | src/nativeInterop/cinterop/c/mdb.c:8347-8372 | A leaf is rebalanced if and only if less than a quarter of its room is in use; it spares an item if and only if no less is, and another one remains |
| Rebalance.ThousandthExact | src/nativeInterop/cinterop/c/mdb.c:8347-8372 | A branch page is rebalanced if and only if it has one child left or less than a thousandth of its room in use; it spares a child if and only if it has three or more and no less in use |
| BTreeBalance.LeafAfterDelete | src/nativeInterop/cinterop/c/mdb.c:8347-8528 | What a deletion leaves of the leaves of a page: while a quarter of the room stays in use only its leaf changes; below that, one item moves over from the leaf on the left (on the right for the first), or the two become one if that leaf can spare none |
| BTreeRoom.SpareMoves | src/nativeInterop/cinterop/c/mdb.c:8503-8510 | A node moved from a neighbour that can spare it: both pages fit and keep their minimum of nodes, the new separator lies between them, and they stand for the same contents as before |
| BTreeInsert.InsertOk | src/nativeInterop/cinterop/c/mdb.c:6618-7147 | Insertion below any page, with splits, keeps order, separators, empty first branch key, depth and fill, and changes the map only at the key; BTreeItems.PutItems has the keys |
| BTreeDelete.DeleteOk | src/nativeInterop/cinterop/c/mdb.c:8347-8528 | Deletion below any page, with moves, merges and parent splits, keeps the same and removes only the key |
| BTreeCounts.InsertCounts | src/nativeInterop/cinterop/c/mdb.c:7282-7305 | The counters of leaf and branch pages gain what the tree gains on insertion |
| BTreeCounts.DeleteCounts | src/nativeInterop/cinterop/c/mdb.c:8182-8320 | The same for deletion |
| BTreeTheorems.GetRefines | src/nativeInterop/cinterop/c/mdb.c:5567-5645 | mdb_get is lookup in the sorted map |
| BTreeTheorems.PutRefines | src/nativeInterop/cinterop/c/mdb.c:6618-7147 | mdb_put is map update, and the database is again in order with exact counters, or a node found no room; BTreeItems.PutItems has the bytes of the keys |
| BTreeTheorems.DelRefines | src/nativeInterop/cinterop/c/mdb.c:8532-8635 | mdb_del is map removal, root collapse included, tells whether the key was there, and leaves the database in order |
| BTreeTheorems.RunRefines | src/nativeInterop/cinterop/c/mdb.c:6618-7147 | Over every run of puts and deletes the database does what the map does |
| BTreeItems.PutItems | src/nativeInterop/cinterop/c/mdb.c:6618-7147 | After mdb_put the items in order are the old ones with exactly the one given at its place, key bytes and all; or the one of its rank is replaced, its stored key staying where the value is as long as before |
| BTreeItems.DelItems | src/nativeInterop/cinterop/c/mdb.c:8532-8635 | After mdb_del the items in order are the old ones less the one of the rank, if there is one, and the answer tells whether there was |
| BTreeItems.RunItems | src/nativeInterop/cinterop/c/mdb.c:6618-7147 | Over every run of puts and deletes the list of items changes by these steps |
| BTreeItems.LeafCut | src/nativeInterop/cinterop/c/mdb.c:8976-9035 | A leaf that fits stays one page; another is cut at the place that the weights of its nodes say, all items kept in order, and the separator is the first key on the right |
| BTreeItems.BranchCut | src/nativeInterop/cinterop/c/mdb.c:8976-9035 | The same for a branch page, whose separator is the key of the first node on the right |
| BTreeStored.KeysWerePut | src/nativeInterop/cinterop/c/mdb.c:6618-7147 | Whatever a run of puts and deletes makes of an empty database, the key of every item and of every separator is, bytes and all, one that was given to a put |
| BTreeRoom.MergeHasRoom | src/nativeInterop/cinterop/c/mdb.c:8507-8515 | In a well-shaped tree the page that a merge builds fits |
| BTreeRoom.MoveLeftHasRoom | src/nativeInterop/cinterop/c/mdb.c:8507-8515 | In a well-shaped tree both pages fit after a move from the right neighbour |
| BTreeRoom.MoveRightHasRoom | src/nativeInterop/cinterop/c/mdb.c:8507-8515 | ... and from the left one |
| BTreeRoom.SearchedSplitHasRoom | src/nativeInterop/cinterop/c/mdb.c:8881-8911 | A leaf split with a search never ends in MDB_PAGE_FULL |
| BTreeTotal.RunTotal | src/nativeInterop/cinterop/c/mdb.c:6618-7147 | Over every run of puts of items and keys of safe sizes, and of deletes, no operation ends in MDB_PAGE_FULL and the database does what the map does |
| BTreeTotal.RunFromEmpty | src/nativeInterop/cinterop/c/mdb.c:6618-7147 | The same for every run that starts with an empty database, order, depth, fill and counters included |
| BTreeTotal.PutTotal | src/nativeInterop/cinterop/c/mdb.c:8858-8912 | A put of a safe size into a database of safe keys finds room, through any number of page splits |
| BTreeTotal.DelTotal | src/nativeInterop/cinterop/c/mdb.c:8347-8528 | A delete in a database of safe keys finds room, also when a node move lengthens a separator and splits the parent |
| BTreeTotal.SafeExact | src/nativeInterop/cinterop/c/mdb.c:8881-8912 | An item size is safe if and only if every database that puts of safe keys and deletes can make takes an item of that size with a safe key |
| BTreeKeys.SafeKeyExact | src/nativeInterop/cinterop/c/mdb.c:8858-8912 | A key size is safe if and only if every branch page of legal keys can take a separator of that size: the smallest nodes before the middle and nodes that fill the page up behind it refuse any other |
| BTreeTotal.PutCanFail | src/nativeInterop/cinterop/c/mdb.c:8858-8912 | For every unsafe size there is a run of puts of safe keys on an empty database after which the put of an item of that size, with a safe key, ends in MDB_PAGE_FULL |
| BTreeTotal.InsertRoom | src/nativeInterop/cinterop/c/mdb.c:8714-9129 | Insertion below any page finds room and leaves only safe keys and separators |
| BTreeTotal.DeleteRoom | src/nativeInterop/cinterop/c/mdb.c:8347-8528 | Deletion below any page, with merge, move and parent split, finds room and leaves only safe keys and separators |
| BTreeTotal.CutFits | src/nativeInterop/cinterop/c/mdb.c:8858-8912 | A page cut where the source cuts it, searched or in the middle, leaves two pages that fit, for every new node of a safe size |
| BTreeTotal.BigPagesSafe | src/nativeInterop/cinterop/c/mdb.c:8838-8839 | On pages of 11264 bytes and more every key is of a safe size |
| Cursor.NodeSearch | src/nativeInterop/cinterop/c/mdb.c:5359-5448 | The binary search in a page finds the first node not below the key and tells whether it is the key; branch pages are searched from index 1 |
| Cursor.ChildToFollow | src/nativeInterop/cinterop/c/mdb.c:5585-5625 | The child followed is the last one whose separator is not above the key |
| Cursor.Cursor.Sibling | src/nativeInterop/cinterop/c/mdb.c:5893-5940 | The next or previous page of the same level, across any number of parents; nothing changes when there is none |
| Cursor.Cursor.First | src/nativeInterop/cinterop/c/mdb.c:6309-6350 | The cursor is at item 0; NOTFOUND without a root |
| Cursor.Cursor.Last | src/nativeInterop/cinterop/c/mdb.c:6354-6392 | The cursor is at the last item, also when the descent keeps the pages it is already on; NOTFOUND without a root |
| Cursor.Cursor.Next | src/nativeInterop/cinterop/c/mdb.c:5943-6025 | One item onward, across page siblings, to item 0 from an uninitialized cursor, or NOTFOUND exactly at the end |
| Cursor.Cursor.Prev | src/nativeInterop/cinterop/c/mdb.c:6028-6107 | One item back, to the last one from an uninitialized cursor, or NOTFOUND exactly at the beginning |
| Cursor.Cursor.SetFromRoot | src/nativeInterop/cinterop/c/mdb.c:6195-6242 | The search from the root puts the cursor at the lower bound of the key and answers whether there is such an item |
| Cursor.Cursor.Set | src/nativeInterop/cinterop/c/mdb.c:6125-6242 | With its shortcuts for a positioned cursor the result and the position are those of the search from the root |
| Cursor.Cursor.LeafSearch | src/nativeInterop/cinterop/c/mdb.c:6200-6242 | The search in a leaf, with the step to the next leaf when all its items are below the key |
| Cursor.Cursor.Current | src/nativeInterop/cinterop/c/mdb.c:6245-6290 | What the cursor is at is the item its position tells |
| Cursor.Forward | src/nativeInterop/cinterop/c/mdb.c:5943-6025 | First, then next until NOTFOUND, visits exactly the contents in order |
| Cursor.Backward | src/nativeInterop/cinterop/c/mdb.c:6028-6107 | Last, then prev until NOTFOUND, visits them in the opposite order |
| Cursor.ItemsSorted | src/nativeInterop/cinterop/c/mdb.c:5943-6025 | What they visit is strictly sorted and is the map that the tree stands for |
| FreelistSave.SaveReserve | src/nativeInterop/cinterop/c/mdb.c:3211-3306 | Whatever the writes do to the lists, when the loop is left the records up to me_pglast are empty and have room for all of me_pghead and the loose pages, this transaction's own record lists exactly the pages freed, and all other records are as they were |
| FreelistSave.HeadRoomExact | src/nativeInterop/cinterop/c/mdb.c:3283-3292 | The amortized room of a record fills whole overflow pages; as many records of it as there are keys left hold the need if and only if the share of each does not fill its pages exactly with a remainder left over |
| FreelistSave.SaveFreelist | src/nativeInterop/cinterop/c/mdb.c:3140-3361 | mdb_freelist_save as a whole: the records up to me_pglast list the pages of me_pghead and the loose ones, each as often as these do; its own record lists the pages freed, among them the loose ones when there was no me_pghead; every list written is sorted and all other records are as they were |
| FreelistSave.FillRecords | src/nativeInterop/cinterop/c/mdb.c:3308-3356 | Filling the reserved records: those behind me_pglast are not reached, and the others list the ids given, each as often as given and none beyond its room |
| FreelistCommit.SavedAsModelled | src/nativeInterop/cinterop/c/mdb.c:3140-3361 | The records that these loops leave satisfy the condition of the protocol's save step, and the freeDB of that step is the one written |
| FreelistCommit.SaveCommits | src/nativeInterop/cinterop/c/mdb.c:3140-3361 | In every state of the protocol's invariant the writer can take that step: then every page number is in a tree or in exactly one record written, and no record written lists a page of a snapshot that may still be read when it is consumed |
| FreelistSave.Fill | src/nativeInterop/cinterop/c/mdb.c:3308-3356 | The fill loop stores every page of me_pghead exactly once, in order, within the room of each record, never reaching the transaction's own record, and leaves me_pghead as it was |
| FreelistSave.TakeRecord | src/nativeInterop/cinterop/c/mdb.c:3333-3347 | Borrowing the element in front for the length writes length and ids in one piece and is undone |
| FreelistSave.PartsSorted | src/nativeInterop/cinterop/c/mdb.c:3308-3356 | Every record is a sorted list |
| FreelistSave.RoomsInOrder | src/nativeInterop/cinterop/c/mdb.c:3308-3356 | The room reserved by key is the room the fill loop meets in key order |
| CopyWalk.Copier.Cwalk | src/nativeInterop/cinterop/c/mdb.c:9288-9441 | The compacting walk, with its stack of patched branch pages and its recursion into sub-databases, appends exactly the pages of the renumbered tree and returns its root |
| CopyWalk.Copier.ScanLeaf | src/nativeInterop/cinterop/c/mdb.c:9325-9381 | Overflow runs and sub-databases of a leaf are written before it and its nodes point to the copies |
| CopyWalk.CopyIsIsomorphic | src/nativeInterop/cinterop/c/mdb.c:9288-9441 | The copy differs from the original in page numbers only |
| CopyWalk.CopyIsContiguous | src/nativeInterop/cinterop/c/mdb.c:9288-9441 | The copied pages are numbered from the start on without a gap, each once, children before parents |
| CopyWalk.CopyIsHeld | src/nativeInterop/cinterop/c/mdb.c:9288-9441 | Read back from its root, the written file holds the copy: every page lies at the place its number says |
| CopyWalk.CopyMain | src/nativeInterop/cinterop/c/mdb.c:9515-9551 | The root computed in advance is the one reached, so that the copy succeeds, if and only if the page numbers of the source are conserved; the file is then an isomorphic database with no free page |
| DropWalk.Txn.Drop0 | src/nativeInterop/cinterop/c/mdb.c:10027-10119 | Emptying a database frees each of its own pages exactly once: tree pages, overflow runs and databases of duplicates, with the leaves skipped or left early where nothing is to be found |
| DropWalk.Txn.ScanLeaf | src/nativeInterop/cinterop/c/mdb.c:10053-10084 | What the nodes of one leaf refer to is freed, and the early exit misses nothing |
| DropWalk.Sibling | src/nativeInterop/cinterop/c/mdb.c:5893-5940 | The walk goes to the next page of the level, or finds it was the last |
| DropWalk.LeftBehind | src/nativeInterop/cinterop/c/mdb.c:10027-10119 | Without a search for databases of duplicates, what stays allocated is exactly the pages of the databases recorded by name: none if and only if there are none |
| DropWalk.DuplicatesFreed | src/nativeInterop/cinterop/c/mdb.c:10027-10119 | With that search nothing stays |
| Comparators.BitwiseCompare | src/commonMain/kotlin/ValComparers.kt:117-132 | The byte loop is the order by the first differing unsigned byte, then by size |
| Comparators.LexicographicalStringCompare | src/commonMain/kotlin/ValComparers.kt:143-161 | The same for the string comparison |
| Comparators.IntegerKeyCompare | src/commonMain/kotlin/ValComparers.kt:172-191 | Size first, then the first differing byte |
| Comparators.EveryComparerOrders | src/commonMain/kotlin/ValComparers.kt:117-276 | Every shipped comparison and every reverse is a total preorder |
| Comparators.ReverseIsConverse | src/commonMain/kotlin/ValComparers.kt:137-276 | No result is Int.MIN_VALUE, so that negation gives the exact converse |
| Comparators.SwapExact | src/commonMain/kotlin/ValComparers.kt:117-276 | With missing values, swapping the arguments turns the verdict round if and only if not both are missing |
| Comparators.MissingFirst | src/commonMain/kotlin/ValComparers.kt:117-276 | A missing value comes before every other one, the right one of two missing as well; in the reverse comparisons last |
| Comparators.ByteOrderIsBefore | src/commonMain/kotlin/ValComparers.kt:117-132 | The bitwise comparison is dictionary order on unsigned bytes, zero only on equal arrays |
| Comparators.IntegerKeyIsNumeric | src/commonMain/kotlin/ValComparers.kt:172-191 | On keys of one size the integer comparison is the order of big-endian unsigned numbers |
| Comparators.ZeroExact | src/commonMain/kotlin/ValComparers.kt:117-270 | Which arrays each comparison takes for equal: only equal ones, despite hash collisions and wrap-around, but for the one that looks at sizes only |
| Comparators.HashIsPolynomial | src/commonMain/kotlin/ValComparers.kt:257-258 | The content hash, wrapped around to 32 bits at every step, is the polynomial in 31 wrapped around once |
| Comparators.HashDecides | src/commonMain/kotlin/ValComparers.kt:248-270 | The hash comparison orders by the signed 32-bit hash first and by the bytes only among equal hashes |
| Comparators.SizeDecides | src/commonMain/kotlin/ValComparers.kt:203-234 | The integer comparison and the length comparison always give the same result: size first, then dictionary order of the bytes; the comparison of sizes alone puts the shorter array first and agrees with them wherever it decides |
| Comparators.HashesCollide | src/commonMain/kotlin/ValComparers.kt:248-270 | Hash collisions exist and are settled byte by byte |
| Comparators.BitwiseIsDefault | src/nativeInterop/cinterop/c/mdb.c:5307-5324 | The bitwise comparison agrees in sign with the engine's default for whatever memcmp may return |
| Comparators.RanksAgree | src/nativeInterop/cinterop/c/mdb.c:1803-1807 | Any total preorder on the keys in use is an order of ranks, which is how the tree operations see keys |

## Left out

- WRITEMAP, FIXEDMAP, NOLOCK and the NOSYNC modes: they change or weaken the protocol.
- DUPSORT sub-pages and sub-cursors, LEAF2 pages and MDB_MULTIPLE in the tree operations: a database maps a key to one value; the whole-tree walks do know databases of duplicates.
- Files, mmap, write batching, locks, semaphores, process liveness, lock-file names: writing, flushing and syncing are atomic steps of the protocol.
- Failing system calls and memory allocation, and MDB_MAP_FULL: every operation is modelled as it goes when they succeed.
- The Kotlin wrappers around environments, transactions and cursors: one-line delegation.
- Runs of several pages in the protocol: Mvcc allocates page numbers one by one; that a run is contiguous is the subject of PgHead.
- Memory order in the protocol: each load and store of a slot or of mti_txnid is a step that all processes see at once; weaker orders of the hardware and the compiler are not modelled.
- MidlSort.Sort: where a sum of positions overflows, C leaves the outcome undefined; the model stops there, with a permutation of the ids. NestedCommit.JoinSpill, NestedCommit.TxnLists.CommitInto and FreelistSave.SaveFreelist then say nothing of the list.
- FreelistSave.SaveFreelist: the changes that the writes to the freeDB make to the lists are given, as the comment at `mdb.c:3143-3146` limits them; whether the loop ends is not claimed, only that it stops for want of a possible change or for a list too long to sort.
- FreelistSave.SaveFreelist: the squashing of the dirty list, when loose pages join mt_free_pgs, is not modelled; the loose pages are sorted in a list of their own, not in the tail of me_pghead.
- NestedTxn: an overflow run is one entry of a dirty list, as in the source, and its pages count as one.
- SlottedPage.Page: the pointer array is kept apart from the bytes of the nodes, so that a pointer overwriting a node shows as lower passing upper.
- SlottedPage.Page.Add: the data of a node that goes to an overflow page are not copied; the node holds the page number.
- BTree: pages are values; update in place and aliasing between cursor stacks is not captured there, only in SlottedPage and SplitMove; what a split does to other cursors is in SplitCursors.
- BTree: data of the same size is overwritten in place, larger or smaller data replaces the node; reuse of an overflow page of sufficient size, MDB_APPEND, MDB_RESERVE and MDB_CURRENT are left out. Data of the same size on an overflow run keep the stored key, as in a run that is dirty; where the run is clean the source writes the node anew, with the key given.
- BTreeTheorems.PutRefines: MDB_PAGE_FULL is not excluded here, since the unsearched split can really fail; BTreeTotal says when it cannot.
- BTreeTheorems.DelRefines: the same holds for the separator that a node move may lengthen in the parent.
- BTreeKeys.SafeKeyExact: about one branch page with any legal keys; that puts can bring such a page about is not shown.
- BTreeTheorems.DbOk: md_overflow_pages is not among the counters, since a value may keep an overflow run longer than it needs (`mdb.c:6938-6977`), so that the counter depends on the past of each item.
- SplitCursors.PageSplit: cursors and pages are values, which page has room for a separator and where pages are cut is given; the acting cursor is one of the tracked ones, as for mdb_put, and tracked cursors reach down to the page that is split. Sub-cursors, uninitialized cursors and the copying of cursors' sub-pages are left out.
- Cursor.Cursor: C_DEL, and cursors that follow a change made through another cursor during rebalancing.
- CopyWalk.Copier: the two write buffers and the writer thread; the file is one sequence of pages in the order they are handed over.
- DropWalk: mdb_drop's update of the database record and of other cursors.
- Registration of custom comparers: only the shipped ones are modelled.
