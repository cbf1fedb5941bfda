# Verified models of StudyNotes

Dafny models of the self-contained algorithms of the StudyNotes repository, with proofs about them.
`dafny verify dfyconfig.toml` checks the whole project.

- **Packed radix tree** (`Bytes`, `NodeLayout`, `Heap`, `Radix*`). A path-compressed trie whose nodes are flat byte
  blocks: three 32-bit counts, the prefix, one first byte and one pointer per edge. The heap is a map from addresses to
  bytes; `realloc` may move any block. The refinement goes in four layers: bytes to nodes, nodes to a tree, tree to a
  multiset of keys, and histories of operations to histories on a multiset. Over every run the tree's live
  blocks are exactly the nodes reachable from the root, each on one path, and no other block is touched; the shape is a
  function of the multiset up to sibling order, and a traversal calls its function in the order of the edge paths.
- **Aho-Corasick automaton** (`Ac*`). Failure links built breadth first, and the search as it is written: it drops the
  byte of a mismatch and follows suffix links only there. The comment above `search` promises the number of words that
  occur. The code does not do that; `CompleteIffOneLetter` says for exactly which word sets it does, and `Search` says
  exactly what is counted.
- **Spin lock and coalescing queue** (`AsyncQueue`, `AsyncFair`). N producers and one consumer as an interleaved
  step system with a one-bit wake-up signal: mutual exclusion, conservation, order, no lost wake-up, no deadlock,
  bounded progress, and that every fair run consumes everything and answers every send.
- **0/1 knapsack in place** (`Knapsack`). The descending one-dimensional loop, its back pointers and the minimum search
  against subset sums over item positions, for all items and bounds; the plan is the earliest choice with its sum.
- **Base64 encoder** (`Base64`) against section 4 of RFC 4648, and **string splitter** (`StrSplit`).

Conventions of the models:

- Radix keys are nonempty C strings: `match` compares a key byte before it tests the length, so the buffer is the key
  followed by NUL, and no NUL is inside. `match` asserts that keys are nonempty.
- Key lengths fit the 32-bit header field; `LengthIsExact` shows that longer ones do not survive it.
- A reference count is a 32-bit word that wraps. `Insert` covers both sides: the tree stays valid exactly if the key was
  stored fewer than 2^32 - 1 times.
- An allocation succeeds; an insert requires room for two more blocks among the 64-bit addresses.
- The heap may hold blocks of others. Every operation leaves these as they are, so trees can share a heap.
- Words of the automaton and searched texts consist of the bytes 0 to 126, the slots of `next`, and the failure links
  are built after the last insert.
- The vector operations of the queue are not atomic: `push_back` reads the vector and later writes it back, `swap` takes
  it and later clears it. That nothing is lost in between is proved from the lock.
- The atomics are sequentially consistent. `uv_async_send` sets the wake-up bit and returns 0; the bit is cleared before
  the callback runs.
- The standalone `spin_lock.hpp` is the same exchange and store as the lock inside the benchmark; both are the lock
  steps of the queue model.

## Model

| member | source | states |
|---|---|---|
| NodeLayout.HeaderReads | Algorithm/radix-tree/radix_tree.hpp:9-19 | a block that starts with a packed header reads back the three counts, each modulo 2^32 |
| NodeLayout.LengthIsExact | Algorithm/radix-tree/radix_tree.cpp:131-132 | a prefix length survives its 32-bit header field if and only if it is below 2^32 |
| NodeLayout.EncodeReads | Algorithm/radix-tree/radix_tree.cpp:13-89 | the accessors read back exactly what was packed: the three counts and the prefix, first-byte and pointer chunks |
| NodeLayout.NodeAtReads | Algorithm/radix-tree/radix_tree.cpp:69-98 | slot i of the two edge chunks holds edge i's first byte and child pointer |
| NodeLayout.PointerChunkConcat | Algorithm/radix-tree/radix_tree.hpp:26-32 | the pointer chunk of a concatenation is the concatenation of the chunks |
| NodeLayout.NodeAtPacks | Algorithm/radix-tree/radix_tree.cpp:100-106 | writing one child pointer gives the packing of the same node with that pointer replaced |
| NodeLayout.EdgeAtPacks | Algorithm/radix-tree/radix_tree.cpp:108-112 | writing one edge gives the packing of the same node with that first byte and pointer replaced |
| NodeLayout.RefcountPacks | Algorithm/radix-tree/radix_tree.cpp:20-23 | writing a count n gives the packing of the same node with reference count n modulo 2^32 |
| NodeLayout.FilledPacks | Algorithm/radix-tree/radix_tree.cpp:54-89 | filling prefix, first bytes and pointers of a fresh block gives exactly the packed node, whatever the block held |
| NodeLayout.AppendedPacks | Algorithm/radix-tree/radix_tree.cpp:231-248 | resize, shift of the pointer chunk by one byte and set_edge_at decode to the old edges plus the new one |
| NodeLayout.ForkPacks | Algorithm/radix-tree/radix_tree.cpp:283-289 | the split node packs the first j prefix bytes, no key and exactly the two given edges |
| NodeLayout.KeyedFrontPacks | Algorithm/radix-tree/radix_tree.cpp:312-319 | the node kept in front packs the first j prefix bytes, one key and exactly the given edge |
| NodeLayout.AbsorbPacks | Algorithm/radix-tree/radix_tree.cpp:370-382 | the merge copies decode to the joined prefix with the child's key and edges, for every content of the bytes realloc leaves undefined |
| NodeLayout.DropLastPacks | Algorithm/radix-tree/radix_tree.cpp:432-442 | shifting the pointers left and shrinking decodes to the node without its last edge |
| Heap.RoomFor | Algorithm/radix-tree/radix_tree.cpp:140-141 | a heap with fewer blocks than addresses has a free address, so malloc can succeed |
| Heap.Heap.Malloc | Algorithm/radix-tree/radix_tree.cpp:140-141 | a new block of the requested size at any free address, contents arbitrary, other blocks untouched |
| Heap.Heap.Realloc | Algorithm/radix-tree/radix_tree.cpp:128-130 | the block may stay or move to any free address; the common part of its bytes survives, and no other block changes |
| Heap.Heap.Free | Algorithm/radix-tree/radix_tree.cpp:161-161 | removes exactly the named block, which must be live |
| Heap.Heap.SetRefcount | Algorithm/radix-tree/radix_tree.cpp:20-23 | changes only the reference count word of one block |
| Heap.Heap.SetPrefix | Algorithm/radix-tree/radix_tree.cpp:54-57 | changes only the prefix chunk of one block |
| Heap.Heap.SetFirstBytes | Algorithm/radix-tree/radix_tree.cpp:64-67 | changes only the chunk of first bytes of one block |
| Heap.Heap.SetNodePtrs | Algorithm/radix-tree/radix_tree.cpp:86-89 | changes only the pointer chunk of one block |
| Heap.Heap.SetNodeAt | Algorithm/radix-tree/radix_tree.cpp:100-106 | changes only one child pointer of one block |
| Heap.Heap.SetEdgeAt | Algorithm/radix-tree/radix_tree.cpp:108-112 | changes only one edge of one block |
| Heap.Heap.Resize | Algorithm/radix-tree/radix_tree.cpp:124-133 | the block may move, keeps its reference count word and common bytes, and gets the two new counts |
| Heap.Heap.MakeNode | Algorithm/radix-tree/radix_tree.cpp:135-148 | a new block with a packed header and room for its chunks |
| Heap.Heap.NewLeaf | Algorithm/radix-tree/radix_tree.cpp:228-229 | a new block that packs a leaf with one reference and the given prefix |
| Heap.Heap.AppendEdge | Algorithm/radix-tree/radix_tree.cpp:231-248 | the block becomes, possibly elsewhere, the packing of the node with one more edge |
| Heap.Heap.CopyTail | Algorithm/radix-tree/radix_tree.cpp:267-277 | a new block that packs the node with the first j prefix bytes cut off |
| Heap.Heap.Fork | Algorithm/radix-tree/radix_tree.cpp:283-289 | the block becomes, possibly elsewhere, the packing of the keyless front with two edges |
| Heap.Heap.KeepFront | Algorithm/radix-tree/radix_tree.cpp:312-319 | the block becomes, possibly elsewhere, the packing of the keyed front with one edge |
| Heap.Heap.Absorb | Algorithm/radix-tree/radix_tree.cpp:370-382 | the block becomes, possibly elsewhere, the packing of itself merged with the child |
| Heap.Heap.RemoveEdge | Algorithm/radix-tree/radix_tree.cpp:425-442 | the block becomes, possibly elsewhere, the packing of the node with slot i replaced by the last edge and the last dropped |
| RadixShape.OwnedReplace | Algorithm/radix-tree/radix_tree.cpp:250-255 | replacing a subtree by one with fresh addresses exchanges exactly the addresses of that subtree and shares none |
| RadixShape.HoldsReplace | Algorithm/radix-tree/radix_tree.cpp:292-292 | if one pointer of the parent is redirected to a rebuilt subtree and nothing else changed, memory holds the tree with that subtree replaced |
| RadixEdits.StageAppend | Algorithm/radix-tree/radix_tree.cpp:228-248 | after the leaf branch memory holds the node with a new last child and owns exactly one more block |
| RadixEdits.StageFork | Algorithm/radix-tree/radix_tree.cpp:266-289 | after the split memory holds the front with leaf and back half and owns exactly two more blocks |
| RadixEdits.StageFront | Algorithm/radix-tree/radix_tree.cpp:303-319 | after the keyed split memory holds the front over the back half and owns exactly one more block |
| RadixEdits.StageMerge | Algorithm/radix-tree/radix_tree.cpp:370-384 | after a merge memory holds the joined node, and the merged child and the leaf are no longer live |
| RadixEdits.StageRemove | Algorithm/radix-tree/radix_tree.cpp:425-445 | after a removal memory holds the parent without the leaf, which is no longer live |
| RadixEdits.Reunite | Algorithm/radix-tree/radix_tree.cpp:250-255 | once the parent's pointer is repaired the live blocks are again the nodes of the whole tree and the foreign blocks, which are untouched |
| RadixEdits.Complete | Algorithm/radix-tree/radix_tree.cpp:250-255 | a rebuilt subtree beside untouched blocks lacks exactly one pointer, the root's or the parent's, to be the whole tree again |
| RadixEdits.ReuniteInPlace | Algorithm/radix-tree/radix_tree.cpp:330-330 | a node rewritten at its old address needs no relinking |
| RadixEdits.InhabitsForeign | Algorithm/radix-tree/radix_tree.cpp:124-167 | the live blocks are the tree's nodes and the foreign blocks exactly when the foreign blocks are whatever the tree does not own |
| RadixKeys.KeysReplace | Algorithm/radix-tree/radix_tree.cpp:213-452 | replacing a subtree exchanges exactly the key occurrences of that subtree in the whole multiset |
| RadixKeys.CountAt | Algorithm/radix-tree/radix_tree.cpp:169-211 | a key that runs through a node occurs in the whole tree as often as below that node |
| RadixKeys.SomeKey | Algorithm/radix-tree/radix_tree.hpp:21-24 | below every node other than the root there is a stored key |
| RadixKeys.EachKeyOnce | Algorithm/radix-tree/radix_tree.cpp:463-478 | the traversal order lists every distinct stored key once and nothing else |
| RadixOrder.Listed | Algorithm/radix-tree/radix_tree.cpp:463-478 | the key of every node that holds one is in the traversal |
| RadixOrder.PathOrder | Algorithm/radix-tree/radix_tree.cpp:463-478 | one key is listed before another if and only if its edge path is lexicographically before the other's, a prefix first |
| RadixOrder.ListPrefixesFirst | Algorithm/radix-tree/radix_tree.cpp:470-477 | no listed key is a proper prefix of one listed earlier: a key comes before the keys that extend it |
| RadixBranches.KeysAppend | Algorithm/radix-tree/radix_tree.cpp:228-248 | the node with a new leaf denotes the old keys plus the new one |
| RadixBranches.KeysFork | Algorithm/radix-tree/radix_tree.cpp:260-289 | the split node denotes the old keys plus the new one |
| RadixBranches.KeysFront | Algorithm/radix-tree/radix_tree.cpp:303-319 | the keyed front denotes the old keys plus the new one |
| RadixBranches.KeysMerge | Algorithm/radix-tree/radix_tree.cpp:363-382 | a node merged with its child denotes the keys the child denoted below it |
| RadixBranches.KeysDrop | Algorithm/radix-tree/radix_tree.cpp:425-442 | moving the last child over slot e loses exactly the keys of child e |
| RadixBranches.FewKids | Algorithm/radix-tree/radix_tree.hpp:19-32 | at most 256 edges leave a node, so the edge count never overflows |
| RadixTree.RadixTree.constructor | Algorithm/radix-tree/radix_tree.cpp:152-155 | a new tree on any heap with a free address is valid and empty and leaves every other block as it was |
| RadixTree.RadixTree.MatchPrefix | Algorithm/radix-tree/radix_tree.cpp:184-188 | the inner loop stops at the first prefix byte that differs from the NUL-terminated key and never runs past the terminator |
| RadixTree.RadixTree.FindEdge | Algorithm/radix-tree/radix_tree.cpp:194-201 | finds the edge whose first byte is the next key byte, or shows that there is none |
| RadixTree.RadixTree.Match | Algorithm/radix-tree/radix_tree.cpp:169-211 | terminates; the matched bytes spell the way to the stop position, the next byte cannot be followed, and the returned handles and edge indices lead grandparent to parent to current; this needs no more of the shape than survives a wrapped count |
| RadixTree.MatchedCount | Algorithm/radix-tree/radix_tree.cpp:345-347 | at a stop position the key's multiplicity is the node's reference count if key and prefix are used up, and 0 otherwise |
| RadixTree.RadixTree.Relink | Algorithm/radix-tree/radix_tree.cpp:292-292 | set_node_at on the parent makes the live blocks the nodes of the tree with the subtree replaced, beside the untouched foreign ones |
| RadixTree.RadixTree.Link | Algorithm/radix-tree/radix_tree.cpp:250-255 | the same when the rebuilt node may be the root, whose pointer is then updated |
| RadixTree.RadixTree.InsertLeaf | Algorithm/radix-tree/radix_tree.cpp:224-258 | the node gets a leaf with the rest of the key; ownership is exact again |
| RadixTree.RadixTree.InsertFork | Algorithm/radix-tree/radix_tree.cpp:260-293 | the node is split in front of the mismatch with a leaf beside it; ownership is exact again |
| RadixTree.RadixTree.InsertFront | Algorithm/radix-tree/radix_tree.cpp:296-324 | the node is split where the key ends; ownership is exact again |
| RadixTree.RadixTree.SetRefs | Algorithm/radix-tree/radix_tree.cpp:330-330 | the node's stored count becomes the low 32 bits of n, for every n; nothing moves and nothing else changes |
| RadixTree.RadixTree.AddRef | Algorithm/radix-tree/radix_tree.cpp:330-331 | the stored count is incremented modulo 2^32; true exactly when it was 0 |
| RadixTree.RadixTree.DropRef | Algorithm/radix-tree/radix_tree.cpp:351-351 | the stored count is decremented |
| RadixTree.RadixTree.InsertAgain | Algorithm/radix-tree/radix_tree.cpp:326-331 | one more occurrence, or none left at all when the count wraps; true exactly when there was none |
| RadixTree.LeafAddedKeeps | Algorithm/radix-tree/radix_tree.cpp:224-258 | the leaf branch keeps the shape invariant and adds one occurrence of the key |
| RadixTree.ForkedKeeps | Algorithm/radix-tree/radix_tree.cpp:260-293 | the split branch keeps the shape invariant and adds one occurrence of the key |
| RadixTree.FrontedKeeps | Algorithm/radix-tree/radix_tree.cpp:296-324 | the keyed split keeps the shape invariant and adds one occurrence of the key |
| RadixTree.BumpedKeeps | Algorithm/radix-tree/radix_tree.cpp:326-331 | for every count, the increment adds one occurrence and keeps the shape invariant if the count is below 2^32 - 1, and otherwise forgets the key |
| RadixTree.WrappedKeeps | Algorithm/radix-tree/radix_tree.cpp:329-331 | a count that wraps to 0 takes all occurrences of its key away, and no other, and keeps what a match relies on |
| RadixTree.RadixTree.Insert | Algorithm/radix-tree/radix_tree.cpp:213-332 | adds one occurrence, or forgets the key if it was stored 2^32 - 1 times; the tree stays valid iff it was not, and readable in any case; true iff the key was absent; foreign blocks are untouched |
| RadixTree.RadixTree.Merge | Algorithm/radix-tree/radix_tree.cpp:363-384 | memory holds the node merged with its child, whose block is freed |
| RadixTree.RadixTree.Collapse | Algorithm/radix-tree/radix_tree.cpp:394-415 | memory holds the parent merged with the other child; both child blocks are freed |
| RadixTree.RadixTree.Prune | Algorithm/radix-tree/radix_tree.cpp:420-445 | memory holds the parent without the leaf, whose block is freed |
| RadixTree.RadixTree.EraseMerge | Algorithm/radix-tree/radix_tree.cpp:363-387 | the node is replaced by its merge with the only child; ownership is exact again |
| RadixTree.RadixTree.EraseCollapse | Algorithm/radix-tree/radix_tree.cpp:389-418 | the parent is replaced by its merge with the other child and the grandparent relinked; ownership is exact again |
| RadixTree.RadixTree.ErasePrune | Algorithm/radix-tree/radix_tree.cpp:420-451 | the parent loses the edge and is relinked, at the root too; ownership is exact again |
| RadixTree.DecreasedKeeps | Algorithm/radix-tree/radix_tree.cpp:351-354 | a count that stays positive keeps the invariant and removes one occurrence |
| RadixTree.UnkeyedKeeps | Algorithm/radix-tree/radix_tree.cpp:356-361 | a keyless node with two or more edges keeps the invariant and removes one occurrence |
| RadixTree.FusedKeeps | Algorithm/radix-tree/radix_tree.cpp:363-387 | merging with the only child keeps the invariant and removes one occurrence |
| RadixTree.CollapsedKeeps | Algorithm/radix-tree/radix_tree.cpp:389-418 | collapsing the parent keeps the invariant and removes one occurrence |
| RadixTree.PrunedKeeps | Algorithm/radix-tree/radix_tree.cpp:420-451 | where the collapse guard fails, dropping the edge keeps the invariant and removes one occurrence |
| RadixTree.MergeFits | Algorithm/radix-tree/radix_tree.cpp:370-372 | a merged prefix never overflows its 32-bit length, because some stored key contains it |
| RadixTree.RadixTree.Erase | Algorithm/radix-tree/radix_tree.cpp:334-452 | keeps the tree valid, removes one occurrence if there is one, returns true iff there was one, and leaves foreign blocks untouched |
| RadixTree.RadixTree.Contains | Algorithm/radix-tree/radix_tree.cpp:454-461 | true iff the key is in the multiset, also after a count has wrapped |
| RadixTree.RadixTree.Size | Algorithm/radix-tree/radix_tree.cpp:489-492 | the cardinality of the multiset, that is the sum of all reference counts |
| RadixTree.RadixTree.Apply | Algorithm/radix-tree/radix_tree.cpp:480-487 | calls the function on each distinct stored key exactly once, in the lexicographic order of the edge paths, so on a key before the keys that extend it; leaves the buffer empty; also after a count has wrapped |
| RadixTree.RadixTree.Destroy | Algorithm/radix-tree/radix_tree.cpp:164-167 | frees every block of the tree exactly once and leaves exactly the foreign ones |
| RadixWalk.VisitKeys | Algorithm/radix-tree/radix_tree.cpp:463-478 | calls the function on the node's own key first, if it holds one, then on the keys below in edge order, each behind what the buffer held; restores the buffer |
| RadixWalk.FreeNodes | Algorithm/radix-tree/radix_tree.cpp:157-162 | frees exactly the blocks of the subtree, each once, although the loop reads the node while its children go |
| RadixReach.FollowsShape | Algorithm/radix-tree/radix_tree.cpp:91-98 | following stored pointers along edge indices reaches exactly the nodes of the tree |
| RadixReach.NeverDangles | Algorithm/radix-tree/radix_tree.cpp:124-133 | no pointer path from the root ends in a block that is not live |
| RadixReach.NeverLeaks | Algorithm/radix-tree/radix_tree.cpp:157-167 | every live block that is not foreign is reached from the root |
| RadixReach.NeverShared | Algorithm/radix-tree/radix_tree.cpp:157-167 | no block is reached on two paths |
| RadixHistory.ValidIsReachable | Algorithm/radix-tree/radix_tree.cpp:124-167 | in every valid tree nothing dangles, leaks or is shared, and its blocks number at most twice the distinct keys plus one |
| RadixHistory.NoLongerMatch | Algorithm/radix-tree/radix_tree.cpp:169-211 | no stored key shares more bytes with the key than match reports |
| RadixHistory.SomeFullMatch | Algorithm/radix-tree/radix_tree.cpp:169-211 | some stored key shares exactly the reported number of bytes, so nkey is the longest common prefix |
| RadixHistory.LongestMatch | Algorithm/radix-tree/radix_tree.cpp:169-211 | the number of key bytes match reports is the longest prefix the key shares with a stored key, and 0 in an empty tree |
| RadixHistory.IncrementIsExact | Algorithm/radix-tree/radix_tree.cpp:329-331 | the 32-bit increment adds one occurrence if and only if the key's multiplicity is below 2^32 - 1 |
| RadixHistory.WrapForgets | Algorithm/radix-tree/radix_tree.cpp:329-331 | a tree over one key stored 2^32 - 1 times is well formed, and one more insert leaves no key in it |
| RadixHistory.LiveBlocks | Algorithm/radix-tree/radix_tree.cpp:124-148 | the live blocks are the foreign ones and the tree's, at most twice the distinct keys plus one |
| RadixBounds.AtMostTwiceTheKeys | Algorithm/radix-tree/radix_tree.cpp:260-323 | with n distinct keys, n at least 1, there are at most 2n - 1 nodes besides the root |
| RadixBounds.OwnedCount | Algorithm/radix-tree/radix_tree.cpp:157-162 | the number of blocks a tree owns is its number of nodes |
| RadixCanonical.Canonical | Algorithm/radix-tree/radix_tree.cpp:356-451 | two well-formed subtrees with the same keys are equal up to sibling order and addresses |
| RadixCanonical.CanonicalRoot | Algorithm/radix-tree/radix_tree.cpp:356-451 | two trees hold the same multiset if and only if they are equal up to sibling order and addresses |
| RadixHistory.Perform | Algorithm/radix-tree/radix_tree.cpp:213-461 | one operation does to the tree what it does to a multiset, answers alike, and leaves foreign blocks untouched, for every tree whose count of this key can grow |
| RadixHistory.Run | Algorithm/radix-tree/radix_tree.cpp:213-461 | every history of inserts, erases and queries from the empty tree, however long, ends in the multiset it describes, with the answers a multiset would give, if no insert meets a full count or a full address space |
| RadixHistory.TwoHistories | Algorithm/radix-tree/radix_tree.cpp:356-451 | two such histories end in the same shape if and only if they end in the same multiset |
| RadixHistory.InsertThenErase | Algorithm/radix-tree/radix_tree.cpp:213-452 | erasing a freshly inserted key restores the earlier shape, whichever branches fire |
| RadixHistory.PerformBeside | Algorithm/radix-tree/radix_tree.cpp:124-167 | an operation on one tree leaves another tree on the same heap valid, apart from it and with the same contents |
| AcWords.LongestIsLongest | Algorithm/ac_automation.cpp:61-69 | the recursively found suffix is the longest suffix that is a path of the trie |
| AcWords.FailIsLongest | Algorithm/ac_automation.cpp:61-69 | the failure string is the longest proper suffix that is a path of the trie |
| AcWords.FailChain | Algorithm/ac_automation.cpp:45-59 | the proper suffixes that are paths are the failure string and its own such suffixes, so the chain visits all of them |
| AcWords.LongestStep | Algorithm/ac_automation.cpp:65-69 | extending by a byte commutes with taking the longest suffix path |
| AcWords.ChainStart | Algorithm/ac_automation.cpp:45-47 | the failure string of a child is found from the failure string of its parent |
| AcBfs.BfsStep | Algorithm/ac_automation.cpp:76-88 | processing the head of the queue keeps the breadth-first invariant: order, frontier, and everything shorter done |
| AcBfs.BfsEnd | Algorithm/ac_automation.cpp:76-88 | when the queue is empty every path was processed |
| AcAutomaton.Trie.constructor | Algorithm/ac_automation.cpp:18-27 | a new node has no children, no failure link and neither flag |
| AcAutomaton.Automaton.constructor | Algorithm/ac_automation.cpp:150-152 | a new automaton is valid and holds no word |
| AcAutomaton.Automaton.InsertTree | Algorithm/ac_automation.cpp:29-42 | adds the word to the set, keeps one node per path with its letter, its level and its children, and marks nothing |
| AcAutomaton.Automaton.DoFindFailPtr | Algorithm/ac_automation.cpp:45-59 | walking the failure links of shorter paths returns the node of the child's longest proper suffix path, or the root |
| AcAutomaton.Automaton.WalkOn | Algorithm/ac_automation.cpp:76-88 | one turn of the queue keeps every queued and every processed path linked, and processes a new path |
| AcAutomaton.Automaton.BuildFailPtr | Algorithm/ac_automation.cpp:71-90 | afterwards every node but the root is linked to the node of its longest proper suffix path, for every set of words |
| AcAutomaton.Automaton.CheckAndCount | Algorithm/ac_automation.cpp:93-101 | marks the node if it is a word not marked before; counts it only then |
| AcAutomaton.Automaton.DrainChain | Algorithm/ac_automation.cpp:117-121 | marks exactly the words on the failure chain and ends at the root |
| AcAutomaton.Automaton.SearchStep | Algorithm/ac_automation.cpp:110-122 | one byte: on a match the child's word is marked; on a mismatch exactly the words that are proper suffixes of the path followed so far are marked, and the search goes on from the root |
| AcAutomaton.Automaton.Search | Algorithm/ac_automation.cpp:105-126 | marks exactly the words found in the segments of the text and returns the number newly marked |
| AcSearch.ChainIsSuffixes | Algorithm/ac_automation.cpp:117-121 | the failure chain of a path is the set of its proper suffixes that are paths |
| AcSearch.VisitsRest | Algorithm/ac_automation.cpp:109-123 | which words are checked from any node on, in terms of the rest of the text alone |
| AcSearch.VisitsFresh | Algorithm/ac_automation.cpp:109-123 | the checked words are the nonempty prefixes of the segments, and the suffixes of segments ended by a mismatch |
| AcSearch.FoundUnrolls | Algorithm/ac_automation.cpp:109-123 | being found in a text is being found in its first segment or behind its first mismatch |
| AcSearch.FoundAtBreak | Algorithm/ac_automation.cpp:109-123 | behind a path g a byte leads nowhere: counted are the nonempty prefixes of g, all suffixes of g, and what a fresh search of the rest counts, and nothing else |
| AcSearch.FoundInPath | Algorithm/ac_automation.cpp:109-116 | of a text that is a path exactly the nonempty prefixes are counted: suffixes at the end of the text are not |
| AcComplete.FoundOccurs | Algorithm/ac_automation.cpp:102-104 | every counted word occurs in the text |
| AcComplete.CompleteIffOneLetter | Algorithm/ac_automation.cpp:102-126 | the search counts every occurring word of every text if and only if all words are nonempty repetitions of one letter |
| AcComplete.MissesOverlap | Algorithm/ac_automation.cpp:109-123 | with words ab and bc, the text abc contains bc but bc is not counted |
| AcRuns.Build | Algorithm/ac_automation.cpp:150-159 | inserting any list of words and building the links gives a valid automaton of exactly these words |
| AcRuns.SearchAll | Algorithm/ac_automation.cpp:105-126 | over any sequence of searches each word is counted at most once, and exactly if one of them finds it |
| AcRuns.CountPatterns | Algorithm/ac_automation.cpp:150-163 | the count is the number of found words, at most the number of occurring ones, and equal to it for repetitions of one letter |
| AcRuns.FoundAmongOccurring | Algorithm/ac_automation.cpp:102-104 | the found words are among the occurring ones, and all of them for repetitions of one letter |
| AcRuns.BothCounted | Algorithm/ac_automation.cpp:117-121 | of a word and a proper suffix of it both are counted once a byte follows that continues neither |
| AcRuns.CountsSuffix | Algorithm/ac_automation.cpp:150-163 | the words she and he and the text sher: the search counts 2 |
| AsyncQueue.InitKeeps | Languages/cpp/benckmark01_inproc_communication/uv_async/benchmark_async_threads.cpp:53-56 | the invariant holds before the first step, for any number of producers |
| AsyncQueue.MutexKept | Languages/cpp/locks/spin_lock.hpp:21-30 | every step keeps mutual exclusion: the lock word is locked iff exactly one thread is between exchange and store |
| AsyncQueue.SnapshotsKept | Languages/cpp/benckmark01_inproc_communication/uv_async/benchmark_async_threads.cpp:75-94 | under mutual exclusion every step keeps: a thread between reading and writing the vector has seen it as it is |
| AsyncQueue.ConservedKept | Languages/cpp/benckmark01_inproc_communication/uv_async/benchmark_async_threads.cpp:73-99 | by mutual exclusion and these snapshots every step keeps the batches taken followed by the vector equal to the push history, and the total equal to what was counted, although push_back and swap are each two steps |
| AsyncQueue.LockIsNeeded | Languages/cpp/benckmark01_inproc_communication/uv_async/benchmark_async_threads.cpp:32-41 | with a lock that never waits, a run of two producers of one item each ends quiescent with two pushes and one item consumed |
| AsyncQueue.InOrderKept | Languages/cpp/benckmark01_inproc_communication/uv_async/benchmark_async_threads.cpp:104-122 | every step keeps each producer's pushes equal to 0, 1, 2 and so on |
| AsyncQueue.WakeUpKept | Languages/cpp/benckmark01_inproc_communication/uv_async/benchmark_async_threads.cpp:89-99 | every step keeps: a nonempty vector has a pending signal, a callback before its swap, or a producer about to send |
| AsyncQueue.StepKeeps | Languages/cpp/benckmark01_inproc_communication/uv_async/benchmark_async_threads.cpp:73-122 | every step keeps the whole invariant |
| AsyncQueue.RunKeeps | Languages/cpp/benckmark01_inproc_communication/uv_async/benchmark_async_threads.cpp:73-122 | every state of every run satisfies the invariant |
| AsyncQueue.QuiescentConsumedAll | Languages/cpp/benckmark01_inproc_communication/uv_async/benchmark_async_threads.cpp:73-122 | at quiescence everything pushed has been consumed and the total is producers times test count |
| AsyncQueue.ConsumedInOrder | Languages/cpp/benckmark01_inproc_communication/uv_async/benchmark_async_threads.cpp:73-99 | at any time what was consumed is a prefix of the push history and contains each producer's numbers in order, each at most once |
| AsyncQueue.StepWorks | Languages/cpp/benckmark01_inproc_communication/uv_async/benchmark_async_threads.cpp:32-41 | every step that is not a failed exchange lowers the remaining work |
| AsyncQueue.SomeoneMoves | Languages/cpp/benckmark01_inproc_communication/uv_async/benchmark_async_threads.cpp:32-41 | unless the system is quiescent some thread can take a step that is not a failed exchange: no deadlock |
| AsyncQueue.FewMoves | Languages/cpp/benckmark01_inproc_communication/uv_async/benchmark_async_threads.cpp:104-122 | no run takes more than producers times (12 times test count plus 1) steps other than failed exchanges |
| AsyncFair.FairRunConsumesAll | Languages/cpp/benckmark01_inproc_communication/uv_async/benchmark_async_threads.cpp:73-122 | in every endless run in which a thread that can move from some time on does move, a time comes from which on everything pushed has been consumed and counted |
| AsyncFair.SendWakes | Languages/cpp/benckmark01_inproc_communication/uv_async/benchmark_async_threads.cpp:96-98 | in every fair run each send is followed by a wake-up of the consumer |
| AsyncFair.FairMovesAgain | Languages/cpp/benckmark01_inproc_communication/uv_async/benchmark_async_threads.cpp:32-41 | in a fair run somebody moves again as long as something is left to do |
| AsyncFair.LivelyIsFair | Languages/cpp/benckmark01_inproc_communication/uv_async/benchmark_async_threads.cpp:32-41 | conversely a run in which somebody always moves again while something is left to do is fair |
| AsyncFair.FairRunsExist | Languages/cpp/benckmark01_inproc_communication/uv_async/benchmark_async_threads.cpp:73-122 | there is a fair run for any number of producers and items |
| AsyncQueue.StuckRunIsDone | Languages/cpp/benckmark01_inproc_communication/uv_async/benchmark_async_threads.cpp:73-122 | a run that can only spin has consumed everything |
| AsyncQueue.SignalStays | Languages/cpp/benckmark01_inproc_communication/uv_async/benchmark_async_threads.cpp:96-98 | a pending signal stays until the consumer wakes up |
| AsyncQueue.SendIsAnswered | Languages/cpp/benckmark01_inproc_communication/uv_async/benchmark_async_threads.cpp:96-98 | no state after a send is quiescent before a later wake-up, even if the vector was empty at the send |
| AsyncQueue.WakesAreSent | Languages/cpp/benckmark01_inproc_communication/uv_async/benchmark_async_threads.cpp:73-98 | in every run the consumer wakes up at most once per send |
| Knapsack.ReachableNone | Algorithm/动态规划/min_receipt_plan(01背包).cpp:18-24 | of no items only 0 is a sum |
| Knapsack.ReachableStep | Algorithm/动态规划/min_receipt_plan(01背包).cpp:25-38 | the two-dimensional recurrence: a sum of the first n + 1 items leaves item n out or takes it once |
| Knapsack.PackStep | Algorithm/动态规划/min_receipt_plan(01背包).cpp:29-37 | one turn of the descending loop moves one entry from the first n items to the first n + 1 |
| Knapsack.Table.constructor | Algorithm/动态规划/min_receipt_plan(01背包).cpp:18-24 | the initial table is right for no items |
| Knapsack.Table.ZeroOnePack | Algorithm/动态规划/min_receipt_plan(01背包).cpp:26-38 | the in-place loop turns the table of the first n items into that of the first n + 1: an entry holds V iff V is a subset sum and -1 otherwise, with its back pointer |
| Knapsack.Table.Plan | Algorithm/动态规划/min_receipt_plan(01背包).cpp:41-46 | from any reachable V the printed items are those of strictly increasing positions, sum exactly to V, and take no amount more often than the items hold it; among all choices with this sum theirs is the earliest, compared from the last position down |
| Knapsack.SpellsWithin | Algorithm/动态规划/min_receipt_plan(01背包).cpp:41-46 | the items at strictly increasing positions are a sub-multiset of the items |
| Knapsack.PackAll | Algorithm/动态规划/min_receipt_plan(01背包).cpp:56-58 | after all items the table is right for all of them |
| Knapsack.MinimumPlan | Algorithm/动态规划/min_receipt_plan(01背包).cpp:56-70 | found iff some subset sum lies between the two bounds; then it is the least one and the plan spells it with distinct items, the earliest such choice |
| Base64.ReadWrite | Languages/cpp/mail_wrapper/send_email.c:67-67 | reading a written symbol gives it back; the alphabet holds neither padding nor terminator |
| Base64.TableIs | Languages/cpp/mail_wrapper/send_email.c:67-67 | the source's table is Table 1 of RFC 4648 |
| Base64.Lookup | Languages/cpp/mail_wrapper/send_email.c:79-82 | the table look-up returns the symbol of Table 1 of RFC 4648 |
| Base64.EncodeAppend | Languages/cpp/mail_wrapper/send_email.c:77-86 | encode(a + b) is encode(a) + encode(b) whenever the length of a is a multiple of 3 |
| Base64.NoTerminator | Languages/cpp/mail_wrapper/send_email.c:88-105 | the encoded text holds no NUL, so the C string is exactly the text |
| Base64.UnpackPieces | Languages/cpp/mail_wrapper/send_email.c:77-106 | unpacking the six-bit pieces of an input gives the input |
| Base64.DecodesExactly | Languages/cpp/mail_wrapper/send_email.c:64-107 | a strict decoder answers s on exactly one text, the encoding of s: round trip both ways and no two inputs share a text |
| Base64.PiecesCutStream | Languages/cpp/mail_wrapper/send_email.c:77-106 | the pieces are the input's bits six at a time, most significant first, zero-filled and then padded; nothing else is |
| Base64.PadsBehind | Languages/cpp/mail_wrapper/send_email.c:97-103 | character i of a text is the padding = if and only if the input has no bit left for it |
| Base64.Vectors | Languages/cpp/mail_wrapper/send_email.c:64-107 | the encodings listed in section 10 of RFC 4648 for f, fo, foo and foobar, and one that needs + and / |
| Base64.EncodeGroup | Languages/cpp/mail_wrapper/send_email.c:79-82 | one turn of the loop writes the four characters of three bytes and changes nothing else |
| Base64.EncodeWhole | Languages/cpp/mail_wrapper/send_email.c:77-86 | the loop writes the encoding of all whole groups and changes nothing behind it |
| Base64.EncodeRest | Languages/cpp/mail_wrapper/send_email.c:88-105 | the last group with its padding and the terminator |
| Base64.Encoder | Languages/cpp/mail_wrapper/send_email.c:64-107 | returns -1 and writes nothing iff text and terminator do not fit outlen; otherwise writes exactly the encoding and a NUL, returns its length, and touches nothing behind; the first NUL is at the returned length, and = stands exactly where the input has no bits left |
| StrSplit.FindCharIsFind | Languages/cpp/15_zookeeper_multi_thread_demo/str_utils.h:26-31 | the one-character search agrees with the string search |
| StrSplit.PartsJoin | Languages/cpp/15_zookeeper_multi_thread_demo/str_utils.h:32-48 | joining the parts gives the string back, and every cut is at a leftmost occurrence |
| StrSplit.CleanUnique | Languages/cpp/15_zookeeper_multi_thread_demo/str_utils.h:32-48 | no two clean lists of parts join to the same string |
| StrSplit.PartsExactly | Languages/cpp/15_zookeeper_multi_thread_demo/str_utils.h:7-49 | the parts are the one clean list that joins back to the string |
| StrSplit.SplitJoin | Languages/cpp/15_zookeeper_multi_thread_demo/str_utils.h:7-49 | splitting undoes joining if and only if the list is clean |
| StrSplit.CleanChar | Languages/cpp/15_zookeeper_multi_thread_demo/str_utils.h:23-35 | for a one-character delimiter a list is clean iff it is nonempty and no part holds the character |
| StrSplit.AbsentIsNotEnough | Languages/cpp/15_zookeeper_multi_thread_demo/str_utils.h:36-43 | for a longer delimiter parts without it need not come back |
| StrSplit.NoDelimiter | Languages/cpp/15_zookeeper_multi_thread_demo/str_utils.h:7-49 | no part, kept or not, holds a nonempty delimiter |
| StrSplit.KeptAll | Languages/cpp/15_zookeeper_multi_thread_demo/str_utils.h:45-46 | keeping empty parts keeps all parts |
| StrSplit.KeptNonempty | Languages/cpp/15_zookeeper_multi_thread_demo/str_utils.h:31-46 | without empty parts exactly the nonempty parts are kept, in their order |
| StrSplit.KeptMeans | Languages/cpp/15_zookeeper_multi_thread_demo/str_utils.h:7-49 | what is kept joins back to the string if empty parts are kept, is the nonempty parts in order if not, is at most the string itself for an empty delimiter, and holds no other delimiter |
| StrSplit.FindOne | Languages/cpp/15_zookeeper_multi_thread_demo/str_utils.h:31-31 | the fast path's search answers what the general search would |
| StrSplit.TakePart | Languages/cpp/15_zookeeper_multi_thread_demo/str_utils.h:31-35 | one turn of either loop: the part in front of the delimiter is appended unless it is empty and unwanted |
| StrSplit.SplitAtChar | Languages/cpp/15_zookeeper_multi_thread_demo/str_utils.h:23-35 | the one-character loop collects the wanted parts in front of the last delimiter |
| StrSplit.SplitAtString | Languages/cpp/15_zookeeper_multi_thread_demo/str_utils.h:36-43 | the general loop collects the same for any nonempty delimiter |
| StrSplit.Split | Languages/cpp/15_zookeeper_multi_thread_demo/str_utils.h:7-49 | all parts, which join to the string and are never none, or exactly the nonempty ones of them in order; no part holds a nonempty delimiter, and an empty delimiter gives at most one part, which is the string |

## Left out

- RadixTree.RadixTree.Insert: keys of 2^32 bytes or more are excluded, because their length does not fit the header and the stored prefix would be cut; so are full address spaces, because the source asserts that allocation succeeds
- RadixTree.RadixTree.Erase: trees in which a count has wrapped are excluded, because nodes without key and branches break the shape its merges keep
- RadixHistory.InsertThenErase: keys of 2^32 bytes or more, and a key stored 2^32 - 1 times, which the insert forgets
- The width of `size_t`: `size_`, lengths and indices are unbounded natural numbers, since no reachable tree comes near 2^64.
- Keys with a NUL inside, or not followed by one: `match` may then read behind the key.
- `print`, `visit_child`, `show` and every `printf`: output only.
- The demo `main` bodies, except for the loops over the knapsack table.
- Bytes 127 and above or negative in words and texts: they index outside `next`.
- Memory orders, the timer, and the shutdown of the event loop in the queue benchmark.
- Several wake-ups between two callbacks are one signal; that the event loop runs a callback it can run is the fairness assumed of the consumer.
- The macros of the knapsack program are parameters; the amounts divided by 100 for printing are not modelled.
- The message printed when the base64 buffer is too small.
- Base64.Encoder: negative input lengths, for which the source reads outside its input, and lengths whose encoding overflows a C int, which is undefined, are excluded
- The SMTP client and its loop over 4096-byte chunks, which are not a multiple of 3 long.
- The `const CharT *` overload of the splitter, and `npos` as a number.
- Wrappers over libuv, curl, zmq, ZooKeeper, Kafka, brpc, epoll, eventfd, aio and System V IPC.
- The cluster manager and the ZooKeeper node demos, whose behaviour is decided by the client library.
- The QuantLib demo: dates and calendars of a library that is not part of the repository.
- Slides, scripts, build files and language-feature demos.
