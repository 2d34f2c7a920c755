# VClinic: the machinery under the value profilers, modelled in Dafny

VClinic builds value profilers on DynamoRIO. This project models the in-memory machinery below
and inside them, and proves what it is relied on for.

| file | what it models |
|---|---|
| `SplayTree`, `SplayHeap` | the top-down splay tree with dummy and spare node: on values, and relinking heap nodes in place |
| `CallingContext`, `ContextRuns` | one executed basic block as a step on the shared calling-context tree and its thread; all runs of any number of threads |
| `BatchedRuns`, `MemoRuns` | the buffered variant and the last-same-key memo, both against the direct machine |
| `CctBuilder` | the same as classes with loops over the block buffer, proved against those steps |
| `CallPaths`, `CallMatching` | what a context handle stands for, walks to the thread root and the comparison of call paths; matching of calls and returns |
| `MemRefBuffer` | the in-place compaction of pending memory references |
| `FramePool`, `MemoryCaches` | the paged object pool with per-thread frames and debris, as steps of any interleaving and as classes |
| `SharedPool` | the atomically indexed pool that grows under a lock |
| `ShadowSlots`, `ShadowInstall`, `ShadowMemory`, `ShadowRange` | the two-level shadow memory: address split, compare-and-swap installation, the page table as a flat map, the range initialiser |
| `PairCounts`, `ShadowNodes`, `LoadSpy`, `LoadTraces` | redundant loads: unrolled passes, all branches, and the meaning of the table over a trace |
| `DeadSpy`, `DeadTraces` | dead stores: byte states, the table over a trace, the merge at thread end |
| `RedSpy` | redundant stores: the pairing of records before and after |
| `HpcTrie`, `HpcPaths`, `HpcBuild`, `CctExport`, `HpcExport` | the exported trie: built from selected paths with metrics, or merged from a thread's whole tree; and the node counter both share |
| `StringTables`, `ProfileContexts`, `ProfileRuns` | string interning and encoding, the closed set of contexts of a profile, and the profile of a whole run |
| `Options`, `Arithmetic` | the optional value, powers of two and facts about products shared by the others |

`dafny verify dfyconfig.toml` checks everything.

How the model stands to the source:

* Where the source updates objects step by step, a class does the same and each method is proved
  against a function on values; what the source promises is then proved about that function over
  whole runs. `None`, a null result, or an out-parameter `exited` or `ok` stands for `*_EXIT_PROCESS`;
  where a member also uses it for an access to memory that is not there, it says so.  Assertions are
  taken as compiled out.
* A block step is one atomic step of its thread: the only thing threads share in it is the handle
  counter, which the source advances with one atomic addition. Nodes, tree nodes and trie nodes
  are named by their rank of creation where the source has a pointer.
* `dr_raw_mem_alloc` gives zero-filled memory and does not fail, and a section under a mutex is one
  atomic step.
* The flat map of `ShadowMemory` is told as the list of what made it -- pages created, values
  stored -- and `At` says what a cell holds after that.
* Counters and addresses are unbounded unless a member says otherwise: the end address of the range
  initialiser and the slot counters of `RedSpy` wrap, and the handle counter is bounded by its
  check. Context handles in pair keys are 32-bit values.

Where the code does not do what one would expect, the model follows the code:

* `MemRefBuffer`: with no reported reference in front, the pending references are copied onto
  themselves and then erased. `PendingSurvives` says exactly when they survive.
* `MemoRuns`: the check of the thread number against the table size lets the table size itself
  through. `TableFitsExactlyIf` says for how many threads all accesses stay inside.
* `SharedPool`: the growth rule relies on at most a page of threads being between the atomic
  increment and the test; `SafeExactlyUpToAPage` shows that it is safe exactly then. The smallest
  page the constructor accepts is one object short of the threads that are admitted
  (`AdmittedThreads`); the page size in use is not.
* `LoadSpy`: the test for one page also sends accesses that end with their page to the straddling
  branch; the result is the same. The table named "approximate" is filled by the same exact
  comparison of bytes as the other one.
* `RedSpy`: from the ninth store of an instruction on, nothing is compared.
* `HpcBuild`: the sign that marks leaves is right after the first call on a trie. A later call leaves
  it wrong at exactly the nodes that had a negative identifier before the call, and after a call that
  began with all signs right there always is one (`SignsAfterCall`, `NextCallIsWrong`).
* `HpcExport`: whole-tree exports and the custom builder share a counter of nodes that only the start
  of a thread and the first custom call reset. `WriteAllCct` and `CustomCount` say exactly when the
  count that is written is the number of nodes.
* `HpcTrie`: nothing checks the 32-bit counter of identifiers for overflow (`IdsFitExactlyIf`).
* `ProfileContexts`: a chain that repeats a handle before it meets a known context leaves a child that
  its parent link does not confirm; `LinkedExactlyIf` gives the exact condition. Chains taken from a
  calling-context tree never do that (`ProfileRuns`).

## Model

| member | source | states |
|---|---|---|
| `SplayTree.TurnShrinks` | src/drcctlib/splay_tree.cpp:36-74 | every round of the search loop makes the middle tree smaller, except the one that adds the spare, which leaves the key at the root: the loop ends |
| `SplayTree.UpdateInorder` | src/drcctlib/splay_tree.cpp:27-84 | on a search tree the result, read in order, is the old tree with the spare inserted at its sorted place, or the old tree itself if the key was there |
| `SplayTree.UpdateCorrect` | src/drcctlib/splay_tree.cpp:27-84 | the result is a search tree with the key at the root; every old key/node pair is kept; the spare is in it exactly when the key was absent |
| `SplayTree.UpdateIsCut` | src/drcctlib/splay_tree.cpp:27-84 | the loop over three trees computes the recursive cut of the tree at the key, with a rotation where the search goes the same way twice, and puts the key's node on top: the shape is exactly that |
| `SplayTree.WayIsHalved` | src/drcctlib/splay_tree.cpp:36-74 | splaying halves depths: every node passed on the way to the key, at depth d, ends at depth d/2 + 2 at most |
| `SplayHeap.StepLeft` | src/drcctlib/splay_tree.cpp:37-54 | one round towards smaller keys relinks the heap nodes into exactly the round of the tree-valued splay, on the same nodes |
| `SplayHeap.StepRight` | src/drcctlib/splay_tree.cpp:55-73 | the same towards larger keys |
| `SplayHeap.Close` | src/drcctlib/splay_tree.cpp:75-78 | the two partial trees and the middle are put together; the dummy and the holes do not occur in the result |
| `SplayHeap.SplayTreeUpdate` | src/drcctlib/splay_tree.cpp:27-84 | the pointer-relinking loop with dummy and spare node produces, in place, the tree-valued update of the old tree |
| `SplayHeap.SplayTreeUpdateTest` | src/drcctlib/splay_tree.cpp:86-146 | the counting variant builds the same tree and adds exactly one for the root and one per round, two steps the same way being one round; that is at most the resulting tree size |
| `SplayHeap.UpdateOnHeap` | src/drcctlib/splay_tree.cpp:27-84 | what a caller can read off the heap: key at the root, every old node with its key still in the tree, the spare used exactly when the key was absent, no link to the dummy |
| `SplayHeap.SplayTreeSize` | src/drcctlib/splay_tree.cpp:148-156 | the recursive size is the number of nodes of the tree on the heap |
| `CallingContext.PathDeterminesNode` | src/drcctlib/drcctlib.cpp:694-788 | two nodes with the same root and the same path of block keys are one node |
| `CallingContext.FoundCallee` | src/drcctlib/drcctlib.cpp:755-779 | a lookup that finds its key changes tree shapes only and moves to the callee with that key |
| `CallingContext.NewCallee` | src/drcctlib/drcctlib.cpp:767-779 | a lookup that does not find its key keeps tiling, roots and indexes, with one node more |
| `ContextRuns.CallerIsStackTop` | src/drcctlib/drcctlib.cpp:1598-1622 | the pointer chase finds the node of the abstract caller stack and follows no null parent, whatever the number of returns |
| `ContextRuns.RunRefinesStacks` | src/drcctlib/drcctlib.cpp:1598-1622 | in every run, for every thread, the parent chain of the current node is the stack that the block trace alone determines; the current node is the root exactly while the previous flag is the virtual root flag |
| `ContextRuns.BlockStopsOnlyWhenFull` | src/drcctlib/drcctlib.cpp:373-384 | a block ends the process exactly when its call path is new and its handles do not fit below the maximum |
| `ContextRuns.RunExtends` | src/drcctlib/drcctlib.cpp:554-576 | going on with a run never moves or takes back a node or a handle |
| `ContextRuns.NodeRange` | src/drcctlib/drcctlib.cpp:373-384 | a node's handle range is non-empty and lies between 2 and the counter |
| `ContextRuns.OwnerOfRange` | src/drcctlib/drcctlib.cpp:566-574 | a handle is in the range of its owner and of no other node |
| `ContextRuns.HandlesAreNames` | src/drcctlib/drcctlib.cpp:554-576 | in every reachable state, each handle from 2 up to the counter names one thread, one call path and one slot, and no two handles name the same |
| `ContextRuns.CanonicalHandles` | src/drcctlib/drcctlib.cpp:554-576 | at any two moments of any multi-threaded run, the current handles are equal if and only if thread, call path and slot are |
| `CallPaths.CurrentContext` | src/drcctlib/drcctlib.cpp:3134-3141 | the handle of a slot of the block a thread is in belongs to the thread's node and stands for exactly that instruction, called through the last instruction of every block on its stack |
| `CallPaths.CallThroughLastSlot` | src/drcctlib/drcctlib.cpp:349-371 | the caller of every instruction of a called block is the last instruction of the calling block |
| `CallMatching.MatchedCallsReturn` | src/drcctlib/drcctlib.cpp:1598-1622 | in every run, blocks in which direct or indirect calls and returns match leave a thread below the same callers as before them |
| `CallMatching.OneStep` | src/drcctlib/drcctlib.cpp:1598-1622 | a call adds the calling block, a return takes the innermost caller away, one at the outermost level stays there, any other block changes nothing |
| `CctBuilder.CctStore.BbNodeCreate` | src/drcctlib/drcctlib.cpp:554-576 | node creation advances the counter, points each of the new handles at the node, and ends the process exactly when the specification does |
| `CctBuilder.CctStore.NewCaller` | src/drcctlib/drcctlib.cpp:1598-1622 | the if-chain over the previous block's flags picks the caller node of the specification |
| `CctBuilder.CctStore.FindOrCreateCallee` | src/drcctlib/drcctlib.cpp:1656-1685 | lookup in the caller's tree, creation of a missing callee, new spare, new tree root: the specification's step |
| `CctBuilder.PtInit` | src/drcctlib/drcctlib.cpp:2099-2120 | a thread starts at a new root node with one handle, with the flag of a virtual root and an empty buffer; the process ends exactly if there is no handle left |
| `CctBuilder.PerThread.BeforeBbFirstInstr` | src/drcctlib/drcctlib.cpp:1563-1694 | one block in direct mode is one step of the specification, and the block-start callback gets the block's slot and reference counts |
| `CctBuilder.PerThread.GetContextHandle` | src/drcctlib/drcctlib.cpp:3134-3141 | the first handle of the node plus the slot; the process ends exactly if the block has no such slot |
| `CctBuilder.PerThread.RefreshEntry` | src/drcctlib/drcctlib.cpp:698-788 | one buffer entry: report the block that ends, then enter the next one |
| `CctBuilder.PerThread.FlushEntries` | src/drcctlib/drcctlib.cpp:694-788 | the loop over the buffer enters the buffered blocks in order and clears them |
| `CctBuilder.PerThread.RefreshBbCache` | src/drcctlib/drcctlib.cpp:668-802 | a flush writes back exactly the state after the buffered blocks, empties the buffer and resets the cursor to 1 |
| `CctBuilder.PerThread.AppendBlock` | src/drcctlib/drcctlib.cpp:1180-1227 | append, and flush when the entry was the first or the last one; the cursor stays inside the buffer |
| `CctBuilder.PerThread.InitStackCache` | src/drcctlib/drcctlib.cpp:647-666 | the very first block moves from entry 0 to entry 1 |
| `CctBuilder.PerThread.Refresh` | src/drcctlib/drcctlib.cpp:988-1000 | a refresh requested at any other moment is a flush |
| `CctBuilder.PerThread.EndThread` | src/drcctlib/drcctlib.cpp:1002-1011 | the thread end reports the last block |
| `CallPaths.CallerHandle` | src/drcctlib/drcctlib.cpp:363-371 | the caller handle is at least 1 and strictly smaller than the handle: every walk upwards ends |
| `CallPaths.SameCallPathIsEqualIps` | src/drcctlib/drcctlib.cpp:3397-3418 | the recursive comparison holds exactly when the two vectors of calling addresses are equal |
| `CallPaths.GetFullCallingIpVector` | src/drcctlib/drcctlib.cpp:3622-3642 | the loop returns the addresses of the handle's call path, innermost first; the process exits exactly for invalid handles, and null is dereferenced exactly for handle 1 |
| `CallPaths.GetCct` | src/drcctlib/drcctlib.cpp:3164-3194 | the list of contexts is the chain of callers, cut off after the given depth unless that is negative |
| `CallPaths.AncestorsFollowPath` | src/drcctlib/drcctlib.cpp:3164-3194 | the full list has one entry per block of the call path plus two, strictly decreasing, all of the same thread, each standing for a prefix of the path |
| `BatchedRuns.BStepKeepsBuffers` | src/drcctlib/drcctlib.cpp:1190-1222 | the buffer never holds more than it has room for and holds keys of blocks only |
| `BatchedRuns.FlushIsDirect` | src/drcctlib/drcctlib.cpp:694-788 | a flush is the direct machine run on the buffered blocks |
| `BatchedRuns.BatchedIsDirect` | src/drcctlib/drcctlib.cpp:668-802 | for every block trace and every placement of extra refreshes, the batched run is the direct run with each block taking effect at its flush: same tree, counter, current nodes and previous state |
| `BatchedRuns.EventIsDirect` | src/drcctlib/drcctlib.cpp:668-802 | the batched run ends the process exactly when the direct run does |
| `BatchedRuns.PendingCount` | src/drcctlib/drcctlib.cpp:1190-1222 | without extra refreshes, a thread that has executed n > 0 blocks has (n - 1) mod 255 pending: it flushes at the first block and then at every 255th |
| `BatchedRuns.BatchedReports` | src/drcctlib/drcctlib.cpp:694-702 | the callbacks made so far are, in order, those of the blocks that have been left |
| `BatchedRuns.EveryBlockIsReported` | src/drcctlib/drcctlib.cpp:1002-1011 | with the final flush and the thread-end callback there is one callback for the thread root and one for every block executed, in order, with its own first handle and slot count |
| `MemoRuns.TableFitsExactlyIf` | src/drcctlib/drcctlib.cpp:2190-2192 | over all runs, the accesses to the lists of last nodes stay within them exactly as long as at most 32 threads are started; the 33rd, numbered 32, is let through by the check |
| `MemoRuns.HitIsLookup` | src/drcctlib/drcctlib.cpp:739-755 | every hit whose parent matches is the node that the skipped lookup would return |
| `MemoRuns.MemoIsLastNode` | src/drcctlib/drcctlib.cpp:777-784 | the memo of a thread holds exactly the node at which it executed each block last, since the block was last analysed |
| `MemoRuns.AgainSkipsTree` | src/drcctlib/drcctlib.cpp:739-753 | executing a block again below the same caller goes to that node and leaves all trees as they are |
| `MemoRuns.ShapesDoNotMatter` | src/drcctlib/drcctlib.cpp:755-784 | two trees that index the same callees give the same node or both create one, whatever their shapes |
| `MemoRuns.MemoChangesOnlyShapes` | src/drcctlib/drcctlib.cpp:739-784 | over whole runs of all threads the memo changes tree shapes only: same nodes, handles and current contexts |
| `MemoRuns.EventAgrees` | src/drcctlib/drcctlib.cpp:739-784 | one event leaves the lists exactly if it is a block of thread 32; any other is possible with the memo exactly when it is without, with agreeing results |
| `MemRefBuffer.MoveRun` | src/drcctlib/drcctlib.cpp:954-967 | the leading run of filled entries moves unchanged to the front, entry by entry, also when source and target overlap |
| `MemRefBuffer.Compact` | src/drcctlib/drcctlib.cpp:946-976 | the whole compaction: run moved, everything up to its old end emptied, cursor at the number of entries kept; the erasing loop leaves the buffer exactly if the reported blocks own more references than it has entries |
| `MemRefBuffer.PendingSurvives` | src/drcctlib/drcctlib.cpp:954-976 | the pending references survive exactly when some reported block owned a reference or none is pending; what is behind them up to the old end is emptied, and the rest of the buffer is untouched |
| `MemRefBuffer.PendingLost` | src/drcctlib/drcctlib.cpp:954-976 | a case where they do not, in a buffer of full size: one reference recorded, none reported |
| `FramePool.FrameCountCovers` | src/drcctlib/memory_cache.h:281-284 | the frame table is long enough for any refill from debris, and not longer than needed |
| `FramePool.RefillCorrect` | src/drcctlib/memory_cache.h:185-239 | a refill gives at least the demanded number of objects in at most the frame table's length, moves objects without losing or doubling any but too small fragments, and asks for at most one new page |
| `FramePool.OpensPageExactlyIf` | src/drcctlib/memory_cache.h:185-239 | a refill comes from the current page exactly if that is long enough; otherwise it opens a page, or ends the process if none is left, exactly if all debris and the rest of the page, where large enough, are less than the demand |
| `FramePool.GetNextCounts` | src/drcctlib/memory_cache.h:320-339 | handing out an object moves just that object from the unused part to the user |
| `FramePool.HandsOutInOrder` | src/drcctlib/memory_cache.h:320-339 | a thread is handed the first of its unused objects without touching the pool; only one that has none left asks the pool, and the process ends exactly if then the page is too short, the leftovers are too small and all pages are in use |
| `FramePool.StepKeepsOwnership` | src/drcctlib/memory_cache.h:185-376 | every step of any thread keeps each allocated object in exactly one place |
| `FramePool.NoObjectTwice` | src/drcctlib/memory_cache.h:185-376 | over every interleaving, each object of each page is in exactly one of: handed out, a thread's unused part, debris, current page tail, discarded fragment; none is handed out twice |
| `MemoryCaches.MemoryCache.constructor` | src/drcctlib/memory_cache.h:98-130 | the pool starts with one page and no debris |
| `MemoryCaches.MemoryCache.InitNewPage2` | src/drcctlib/memory_cache.h:136-160 | a new page becomes the current one and its objects get their numbers; the process ends exactly when the page table is full |
| `MemoryCaches.NumbersAreNames` | src/drcctlib/memory_cache.h:242-254 | the number an object was initialised with leads back to its page and place: no two objects have the same |
| `MemoryCaches.MemoryCache.AddDebris` | src/drcctlib/memory_cache.h:172-183 | a fragment is kept exactly if it is not below the minimum size |
| `MemoryCaches.MemoryCache.InitSubCacheFrame` | src/drcctlib/memory_cache.h:185-239 | the refill with its page, debris and recursion cases computes the specified refill |
| `MemoryCaches.OpenTlsCache` | src/drcctlib/memory_cache.h:269-312 | a thread's cache starts with a filled frame table; the process ends exactly if a page is smaller than the demand or the pool is used up |
| `MemoryCaches.TlsMemoryCache.GetNextObject` | src/drcctlib/memory_cache.h:320-339 | cursor, frame change and refill hand out the specified object |
| `MemoryCaches.TlsMemoryCache.FreeUnuseObject` | src/drcctlib/memory_cache.h:341-362 | what is left is given back as debris where large enough, and the frame table is cleared |
| `SharedPool.LocateOfIndex` | src/drcctlib/memory_cache.h:526-540 | looking an index up inverts the numbering given to objects when their page was made |
| `SharedPool.IndexOfLocate` | src/drcctlib/memory_cache.h:526-540 | and the other way round; an index lies on page index / size at place index mod size |
| `SharedPool.OnePageSuffices` | src/drcctlib/memory_cache.h:515-521 | when a thread adds a page because its index is not below the bound, that one page is enough |
| `SharedPool.IndicesDistinctAndAllocated` | src/drcctlib/memory_cache.h:504-524 | with at most a page of threads between increment and test, over every interleaving, all returned indices differ and lie on pages that exist; with no thread there, so does the next index |
| `SharedPool.NoPageTooMany` | src/drcctlib/memory_cache.h:515-521 | over every interleaving a page is added only when the pages before it are used up, and the process ends exactly when the last index of the last page would be taken |
| `SharedPool.SafeExactlyUpToAPage` | src/drcctlib/memory_cache.h:504-524 | for every page size: all threads past their test have an index on a page that exists, in every interleaving, exactly if no more threads can be in flight than a page has objects |
| `SharedPool.OneMoreIsTooMany` | src/drcctlib/memory_cache.h:515-521 | with one thread more, for every page size, there is a run in which a thread gets an index whose page does not exist |
| `SharedPool.AdmittedThreads` | src/drcctlib/drcctlib.cpp:2211-2221 | thread numbers from 0 to the maximum are admitted: one thread too many for the smallest page the constructor of the pool accepts, but not for the page size in use |
| `ShadowInstall.SlotsAreStable` | src/drcctlib/shadow_memory.h:85-125 | over every interleaving a directory or table slot that is not null never changes |
| `ShadowInstall.SamePage` | src/drcctlib/shadow_memory.h:85-125 | two calls get the same page exactly when their addresses have the same two slots |
| `ShadowInstall.OnlyLosersAreFreed` | src/drcctlib/shadow_memory.h:100-106 | what is freed is freed once, by the thread that allocated it, and is neither returned nor installed |
| `ShadowInstall.CallsProgress` | src/drcctlib/shadow_memory.h:85-125 | a call can always go on, a reload never gives null, and each of its own steps brings its end nearer whatever other threads do |
| `ShadowInstall.DestructorFreesTheRest` | src/drcctlib/shadow_memory.h:68-83 | once no call is under way, the destructor's loops meet exactly the allocations not yet freed, each once |
| `ShadowSlots.SplitJoins` | src/drcctlib/shadow_memory.h:40-47 | the two slots and the offset put together give the address modulo 2^48 |
| `ShadowSlots.SameCellIff` | src/drcctlib/shadow_memory.h:40-47 | two addresses share a cell exactly when they agree modulo 2^48; below 2^48 the split is injective |
| `ShadowSlots.PageIsContiguous` | src/drcctlib/shadow_memory.h:40-47 | up to the end of a page, adding to the address is adding to the offset |
| `ShadowMemory.ShadowMemory.constructor` | src/drcctlib/shadow_memory.h:165-173 | a new shadow memory holds nothing |
| `ShadowMemory.ShadowMemory.GetOrCreateShadowBaseAddress` | src/drcctlib/shadow_memory.h:192-214 | the page of an address is found or made zero-filled; as a flat map nothing else changes |
| `ShadowMemory.ShadowMemory.GetOrCreateShadowAddress` | src/drcctlib/shadow_memory.h:216-221 | the result points at the cell of the address |
| `ShadowMemory.ShadowMemory.GetShadowAddress` | src/drcctlib/shadow_memory.h:232-240 | the lookup gives null exactly if the page was never made, and otherwise a pointer to the last value stored |
| `ShadowMemory.ShadowMemory.Store` | src/drcctlib/shadow_memory.h:216-221 | a store through such a pointer changes one cell of the flat map |
| `ShadowRange.InitShadowMemorySpace` | src/drcctlib/drcctlib.cpp:2306-2321 | the range initialiser sets exactly the cells of [addr, addr+len), over any number of pages, and ends; if the end does not fit 64 bits it sets nothing |
| `ShadowRange.CoversIsRange` | src/drcctlib/drcctlib.cpp:2306-2321 | below 2^48, the cells set are those of the addresses in the range and no other |
| `ShadowRange.RunFills` | src/drcctlib/drcctlib.cpp:2312-2319 | one page's run of stores extends the filled range, also when the page was new |
| `PairCounts.PairRoundTrip` | src/clients/deadspy/deadspy.cpp:215-221 | packing a pair of contexts into a 64-bit key and unpacking are inverse to each other, the old context being the high half |
| `PairCounts.AddTotal` | src/clients/loadspy/loadspy.cpp:199-206 | adding to one count adds the same to that count and to the sum, and nothing to any other count |
| `ShadowNodes.PassThere` | src/clients/loadspy/loadspy.cpp:221-340 | an unrolled pass changes the node of each of its bytes once |
| `ShadowNodes.PassElsewhere` | src/clients/loadspy/loadspy.cpp:221-340 | and no other node, except that pages may be made |
| `LoadSpy.OneContext` | src/clients/loadspy/loadspy.cpp:499-507 | one addition of the access length counts the same as one per byte if all bytes have one context |
| `LoadSpy.TwoPasses` | src/clients/loadspy/loadspy.cpp:481-540 | value pass and context pass together give the byte-wise memory, on one page or over a boundary |
| `LoadSpy.PerThread.AddTo` | src/clients/loadspy/loadspy.cpp:198-216 | the find-or-insert update adds to one count of one of the two tables |
| `LoadSpy.CheckWithinPage` | src/clients/loadspy/loadspy.cpp:487-511 | the same-page branch, which never indexes past its page |
| `LoadSpy.CheckStraddle` | src/clients/loadspy/loadspy.cpp:491-524 | the page-straddling branch |
| `LoadSpy.CheckNByteValueAfterRead` | src/clients/loadspy/loadspy.cpp:481-540 | for every address, length and shadow state, every branch gives the values, contexts and counts of handling each byte by itself |
| `LoadSpy.TraceUpdate` | src/clients/loadspy/loadspy.cpp:570-648 | every access, integer or floating point, of any size: loads that are compared change memory and one of the tables, other loads only add to the bytes loaded; floating point loads of one or two bytes are not expected |
| `LoadSpy.LoadLeaves` | src/clients/loadspy/loadspy.cpp:583-645 | after an integer load of a power of two of bytes up to 64, or a floating point load of 4, 8, or 16 to 64 bytes of such elements, memory holds its bytes and its context; any other access changes neither memory nor tables |
| `LoadSpy.RepeatCounts` | src/clients/loadspy/loadspy.cpp:583-645 | repeating such a load at once counts all its bytes, in the table of its kind |
| `LoadTraces.LastNodes` | src/clients/loadspy/loadspy.cpp:140-145 | after any trace of accesses, shadow memory holds for every byte the value and context of the last compared load, integer or floating point |
| `LoadTraces.TableOfTrace` | src/clients/loadspy/loadspy.cpp:481-540 | after any trace, each of the two tables counts exactly the bytes of its loads that repeat what was last loaded, each for the pair of last and present context |
| `LoadTraces.TotalOfTrace` | src/clients/loadspy/loadspy.cpp:570-648 | the counts of each table add up to its redundant bytes, the bytes loaded to the sizes of all loads, and the former are at most the latter |
| `DeadSpy.PerThread.ReportDead` | src/clients/deadspy/deadspy.cpp:231-239 | the count of the pair (last writer, writer) grows by the size |
| `DeadSpy.Record1ByteMemRead` | src/clients/deadspy/deadspy.cpp:248-254 | a read sets the read state where the page exists and makes no page |
| `DeadSpy.Record1ByteMemWrite` | src/clients/deadspy/deadspy.cpp:256-266 | a write reports the pair exactly if the byte is in the written state, and leaves the written state and the writer |
| `DeadSpy.RecordNByteMemWrite` | src/clients/deadspy/deadspy.cpp:274-278 | a write of several bytes is the sequence of its byte writes |
| `DeadSpy.TraceUpdate` | src/clients/deadspy/deadspy.cpp:281-299 | one access: byte events in order, and its size added to the bytes written if it is a write |
| `DeadTraces.StateIsLastAccess` | src/clients/deadspy/deadspy.cpp:248-278 | after any trace, a byte is in the written state, with its last writer, exactly if its last access was a write |
| `DeadTraces.TableIsCharge` | src/clients/deadspy/deadspy.cpp:231-299 | after any trace, byte-writes are charged to (previous writer, writer) exactly when the last access to the byte was a write |
| `DeadTraces.Accounting` | src/clients/deadspy/deadspy.cpp:231-299 | after any trace of accesses, each cell is in the written state, with its writer, exactly if the last access with an address in it was a write; the table charges each byte of a write to (last writer, writer) exactly in that case; totalBytesWrite is the sum of the table plus the bytes that found the read state |
| `DeadTraces.WritesAreConserved` | src/clients/deadspy/deadspy.cpp:256-299 | byte-writes are the charged ones plus those to bytes not last accessed by a write |
| `DeadSpy.InARow` | src/clients/deadspy/deadspy.cpp:268-299 | the effects of accesses one after the other are those of their byte events put together |
| `DeadTraces.WritesOfAccess` | src/clients/deadspy/deadspy.cpp:291-293 | the size a write adds to the bytes written is the number of its byte-writes |
| `DeadTraces.ChargedKeys` | src/clients/deadspy/deadspy.cpp:215-221 | all keys of a table built by a trace fit 64 bits, as the merge needs |
| `DeadTraces.Merge` | src/clients/deadspy/deadspy.cpp:377-395 | unpacking and merging at thread end gives every pair of contexts the count of its key, and keeps the sum |
| `DeadTraces.ClientThreadEnd` | src/clients/deadspy/deadspy.cpp:369-443 | the thread's sums are added to the global ones |
| `RedSpy.PerThread.TraceUpdate` | src/clients/redspy/redspy.cpp:1137-1187 | one memory record: snapshot into a slot, or comparison with a slot, with the byte-wide slot counters |
| `RedSpy.PerThread.CheckNByteValueAfterWrite` | src/clients/redspy/redspy.cpp:836-888 | the one-context, mixed-context and page-boundary branches count and set contexts as handling each byte by itself would |
| `RedSpy.OneWriter` | src/clients/redspy/redspy.cpp:849-858 | one addition of the size counts the same as one per byte if all bytes have one writer |
| `RedSpy.OneInstruction` | src/clients/redspy/redspy.cpp:1153-1186 | with up to 8 stores the j-th record after is compared with the j-th before and the counters return to zero; from the ninth on nothing is compared |
| `RedSpy.CountersReturn` | src/clients/redspy/redspy.cpp:1153-1186 | the slot counters wrap as bytes, but after any number of stores of an instruction, also 256 and more, both are back at zero and all bytes are added to the bytes written |
| `RedSpy.RunCounts` | src/clients/redspy/redspy.cpp:826-888 | after any run, the context of every cell is that of the last compared store that touched it, and the table counts each byte of an unchanged store for that context and the storing one; compared are the first eight stores of every instruction |
| `RedSpy.RunComparesAll` | src/clients/redspy/redspy.cpp:1153-1186 | over any run of instructions with up to 255 stores the profile is that of comparing each of the first eight with its own old bytes |
| `RedSpy.UnchangedAreCounted` | src/clients/redspy/redspy.cpp:836-888 | the counts grow by exactly the sizes of the stores that changed nothing |
| `HpcTrie.PathIsName` | src/drcctlib/drcctlib_hpcviewer_format.cpp:740-761 | no two trie nodes stand for the same path |
| `HpcTrie.CountPaths` | src/drcctlib/drcctlib_hpcviewer_format.cpp:713-738 | there are as many nodes as different paths |
| `HpcTrie.IdSource.NewId` | src/drcctlib/drcctlib_hpcviewer_format.cpp:704-711 | identifiers grow by at least two, other threads taking some in between |
| `HpcTrie.IdsFitExactlyIf` | src/drcctlib/drcctlib_hpcviewer_format.cpp:704-711 | in the 32 bits of the source the identifiers are these numbers exactly as long as fewer than 2^30 are taken |
| `HpcTrie.Trie.FindSameIp` | src/drcctlib/drcctlib_hpcviewer_format.cpp:740-761 | the search through the children finds the child with the address, or there is none |
| `HpcTrie.Trie.ConstructIpNode` | src/drcctlib/drcctlib_hpcviewer_format.cpp:713-738 | a new child with a fresh identifier, the parent's identifier, zero metrics, and one more in the node counter |
| `HpcPaths.WalkContext` | src/drcctlib/drcctlib_hpcviewer_format.cpp:885-897 | walking an address vector backwards from a node leads to the node of the longer path; only prefixes of it were made |
| `HpcPaths.HpcrunInsertPath` | src/drcctlib/drcctlib_hpcviewer_format.cpp:871-902 | one input adds the prefixes of its path and its values at the path's end, keeps all identifiers and changes nothing else; a zero handle ends the path, an empty list is ignored; the process ends exactly for inputs with a handle that is no context or with more values than there are metrics |
| `HpcPaths.PathsInARow` | src/drcctlib/drcctlib_hpcviewer_format.cpp:871-902 | the paths of lists of handles in a row follow each other; nothing after a zero handle matters, not even handles that are no contexts |
| `HpcPaths.UsableIs` | src/drcctlib/drcctlib_hpcviewer_format.cpp:871-902 | the process goes on exactly if every handle before the first zero is a context |
| `HpcBuild.BuildCustomCct` | src/drcctlib/drcctlib_hpcviewer_format.cpp:1204-1226 | one node per distinct prefix, each node's values the sums over the inputs that end there, totals conserved, identifiers different and negative exactly at leaves, each node with its parent's identifier |
| `HpcBuild.ResetLeafNodeId` | src/drcctlib/drcctlib_hpcviewer_format.cpp:904-914 | each leaf below a node, and no other node, changes the sign of its identifier, once |
| `HpcBuild.PrefixesAre` | src/drcctlib/drcctlib_hpcviewer_format.cpp:871-902 | the set of nodes' paths is the empty path and every prefix of an input |
| `HpcBuild.BuildOn` | src/drcctlib/drcctlib_hpcviewer_format.cpp:1166-1177 | a call on a trie built by earlier calls, any inputs: the trie holds all inputs so far, and the sign of a node is right after it exactly if its identifier was not negative before |
| `HpcBuild.SignsAfterCall` | src/drcctlib/drcctlib_hpcviewer_format.cpp:904-914 | exactly the nodes with a negative identifier before a call have the wrong sign after it: old leaves are flipped back, or keep the sign of a leaf with children below them |
| `HpcBuild.NextCallIsWrong` | src/drcctlib/drcctlib_hpcviewer_format.cpp:1166-1177 | a call that begins with all signs right always leaves a wrong one, whatever it inserts |
| `CctExport.CallPathStep` | src/drcctlib/drcctlib.cpp:3622-3642 | the call path of a context is its caller's path and its own address |
| `CctExport.MergeSlot` | src/drcctlib/drcctlib_hpcviewer_format.cpp:783-810 | one context: its child is found or made, and its callees are merged below it |
| `CctExport.TranverseIps` | src/drcctlib/drcctlib_hpcviewer_format.cpp:770-813 | the recursive merge of a splay tree of callees adds the call paths of all contexts below, and no others |
| `CctExport.ExportThread` | src/drcctlib/drcctlib_hpcviewer_format.cpp:1106-1142 | the trie's root-to-node paths are exactly the reversed calling-address vectors of the thread's contexts, and the node counter grows by their number |
| `HpcExport.PerThread.WriteAllCct` | src/drcctlib/drcctlib_hpcviewer_format.cpp:1106-1142 | the node count written is the number of nodes exactly if the thread's counter was at zero before |
| `HpcExport.PerThread.BuildCustom` | src/drcctlib/drcctlib_hpcviewer_format.cpp:1146-1177 | the custom trie holds the inputs of all calls; signs are right after the first call, and wrong somewhere after a call that began with right ones |
| `HpcExport.PerThread.CustomCount` | src/drcctlib/drcctlib_hpcviewer_format.cpp:1180-1199 | the count written with the custom trie is its number of nodes exactly if no whole tree was exported since it was begun |
| `StringTables.StringTable.AddString` | src/drcctlib/drcctlib_vscodeex_format.cpp:36-45 | indices are dense and injective; a known string keeps its index, a new one gets the next |
| `StringTables.StringTable.GetString` | src/drcctlib/drcctlib_vscodeex_format.cpp:59-74 | the string with the index, the empty string if there is none |
| `StringTables.Encode` | src/drcctlib/drcctlib_vscodeex_format.cpp:82-119 | the entries tile one buffer in the order of their indices, entry i being string i and a NUL |
| `StringTables.ReadBack` | src/drcctlib/drcctlib_vscodeex_format.cpp:82-119 | an entry read back as a C string is the string exactly if it has no NUL in it |
| `ProfileContexts.Profile.AddContext` | src/drcctlib/drcctlib_vscodeex_format.cpp:610-628 | the recursive insertion of a chain of callers |
| `ProfileContexts.LinkedExactlyIf` | src/drcctlib/drcctlib_vscodeex_format.cpp:610-628 | adding a chain keeps contexts closed under parents, with child lists the exact inverse of parent links, if and only if the links in front of its first known context repeat no handle |
| `ProfileContexts.RepeatedHandleBreaksLinks` | src/drcctlib/drcctlib_vscodeex_format.cpp:610-628 | a chain that breaks them |
| `ProfileContexts.ReadsBackExactlyIf` | src/drcctlib/drcctlib_vscodeex_format.cpp:610-628 | walking up from the first context of an agreeing chain gives the chain back under exactly the same condition |
| `ProfileRuns.ChainIsCct` | src/drcctlib/drcctlib.cpp:3164-3194 | the linked chain of a context has the handles of its list of callers |
| `ProfileRuns.ChainIps` | src/drcctlib/drcctlib.cpp:2737-2763 | the addresses along it are the calling addresses of the context, then one made of the thread's number, then 0 |
| `ProfileRuns.ProfileIsLinked` | src/drcctlib/drcctlib_vscodeex_format.cpp:610-628 | whatever contexts of a run are sampled, whenever and however deep, the profile stays closed under parents with child lists the inverse of parent links |
| `ProfileRuns.ProfileReadsBack` | src/drcctlib/drcctlib_vscodeex_format.cpp:610-628 | a profile of full chains taken at any moments of a run of any number of threads gives each of them back, and holds no other contexts |

## Left out

- CctBuilder.PerThread.RefreshBbCache: the slices of memory references passed to the block-end callback are not modelled; `MemRefBuffer` models what remains of that buffer afterwards.
- CctBuilder.CctStore.FindOrCreateCallee: the splay trees, their payloads and the object pools are fields holding values; that the in-place splay and the pools compute these values is proved in `SplayHeap` and `MemoryCaches`.
- SharedPool.IndicesDistinctAndAllocated: adding a page is one atomic step, although the source publishes the bound before the page pointer.
- SharedPool.SafeExactlyUpToAPage: for page tables of at least five entries (the one in use has 16); a shorter one can be used up before the bound matters.
- MemoryCaches.MemoryCache.InitSubCacheFrame: the two parallel vectors of fragment starts and sizes are one sequence of fragments.
- LoadSpy.TraceUpdate: floating point loads of one or two bytes, which are asserted not to occur, end with `ok` false; with assertions compiled out they would compare four bytes, not all of which belong to the operand.
- LoadTraces.TableOfTrace: traces of one thread, on the sequential form of shadow memory; the source shares the memory between threads, whose accesses may race.
- DeadTraces.TableIsCharge: the same.
- RedSpy.PerThread.TraceUpdate: integer memory operands only, contexts kept as the flat map from cells that `ShadowMemory` is proved to be. Approximate floating point comparison, register operands and records skipped for an unknown element size are not modelled.
- DeadTraces.ClientThreadEnd: the order in which pairs are printed is not modelled.
- CctExport.ExportThread: the 0/1 metric that marks leaves when the tree itself is the metric, and the sign of leaves that later gain children, are not claimed.
- HpcTrie.IdSource.NewId: identifiers are unbounded here; `IdsFitExactlyIf` says how far that holds in 32 bits.
- ProfileContexts.Profile.AddContext: the location of a context is its address; its function, source line and file are left out, as they come from symbol lookup and add find-or-insert tables only.
- Signal transfer and attach/detach unwinding, which move the current node without the previous-state fields.
- DynamoRIO instrumentation, register and TLS handling, symbol lookup, file and log output, the ARM exclusive-access filter and 32-bit variants.
- Weak memory ordering: every atomic operation is one step of an interleaving.
- The protobuf layout of the VS Code format and the binary layout of the hpcrun files.
- `src/vprofile`, the data-centric tables, and the naive clients, which repeat the ones modelled.
