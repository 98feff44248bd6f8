# Verified models of libsrsbsns containers

libsrsbsns is a C library of mutable data structures. This project models its
containers as Dafny classes with the same fields, links, loops and branches, and proves
each of them against a mathematical value: the linked search tree against a tree, the
hash map against a finite map, the ring buffer, the buffered reader and the deque
against sequences, the heap against a multiset, the graph against its set of edges.
What the library promises is then proved about those values, for all inputs and over
whole runs.

| file | models |
|---|---|
| `Prelude.dfy` | optional values for pointers that may be NULL; the comparator contract (a total preorder) |
| `Trees.dfy`, `SearchTrees.dfy` | trees as values: traversals, insertion, search, removal, rebalancing |
| `BinTree.dfy` | `bintree.c`: nodes with parent pointers, iterators without a stack |
| `DynArr.dfy`, `Graph.dfy`, `CallOrder.dfy`, `Traversal.dfy` | `dynarr.c` and `graph.c`: edge arrays, linking and dropping, both traversals and the order of their callbacks |
| `RingBuf.dfy`, `BufRd.dfy` | `ringbuf.c` and `bufrd.c`; read(2) is a stream that may deliver any chunk or fail |
| `HashTable.dfy`, `PtrList.dfy`, `HashMap.dfy` | `hashmap.c` on `ptrlist.c`: parallel key and value lists per bucket |
| `Heap.dfy` | `heap.c`: the array heap |
| `SplitQuoted.dfy` | `splitquoted` of `misc.c`: the in-place tokenizer |
| `Deque.dfy` | `deque.c` and the push and pop of `stack.c` |

Verify everything with `dafny verify dfyconfig.toml`.

How to read the classes: a ghost field or function gives the abstract value
(`Model()`, `Contents()`, `Elements()`, `t`), `Valid()` ties it to the real fields, and
each method's `ensures` gives the new value from the old one. Where a C function is long
its branches are separate methods, named after what they do. Callbacks of a traversal
are recorded in a log, so that "called exactly once" is a count and the order of the
calls is a property of the log.

## Where the code differs from what one would expect

The models follow the code.

- `bintree_remove` of a node with two children drops the left subtree of the
  predecessor (`libsrsbsns/bintree.c:231-240`), while `count` goes down by one only.
  `SearchTrees.RemExactIff` and `BinTrees.BinTree.Remove` say exactly when it happens,
  `SearchTrees.RemLosesAnElement` gives a concrete case.
- The traversal called BFS pops a stack (`libsrsbsns/graph.c:224-226`), so it goes on with
  the latest edge reported (`CallOrders.WorklistVisit`), not level by level. The depth-first one calls the node callback once per out-edge, so never
  on a node without out-edges (`libsrsbsns/graph.c:195-209`).
- Only the start node is checked for the traversal tag; a tag left over on another
  node hides what lies behind it, and one left over on an edge keeps it from being reported.
  `Traversals.DfsCompleteIff` and `Traversals.BfsCompleteIff` give the exact conditions;
  `Traversals.Drive` shows that a tagged edge always has a tagged source.
- The header suggests calling `splitquoted` without room first to learn the number of
  tokens (`include/libsrsbsns/misc.h:20`), but that call already cuts the input.
  `Tokenizers.SizingCallIff` says when the second call still finds the tokens.
- Growing a deque moves its contents towards the end that has been pushed to more, so that
  less room is left there. After some resizes there is none behind them, and a push to the
  back doubles the size several times: `Deques.OneDoublingIff` says when,
  `Deques.DoublesTwice` shows it, and by `Deques.GrowBack` it takes less than 20 places.
- An inserted element that compares equal replaces the stored one in the tree, while in
  the hash map an equal key keeps the spelling it was first stored with
  (`HashTables.RunKeepsFirstSpelling`).

## Model

| member | source | states |
|---|---|---|
| `SearchTrees.InsOrdered` | `libsrsbsns/bintree.c:111-159` | insertion into a search tree lists as: the elements below the new one, the new one, the elements above it; an equal element is replaced, and the order is kept |
| `SearchTrees.FindListing` | `libsrsbsns/bintree.c:161-186` | search finds an element that compares equal if there is one, and only then |
| `SearchTrees.RemListing` | `libsrsbsns/bintree.c:188-247` | removal deletes the match and one contiguous run of the in-order listing, the dropped left subtree of the predecessor, which sits right before the predecessor |
| `SearchTrees.RemKeepsOrder` | `libsrsbsns/bintree.c:188-247` | removal keeps the search order, also when it drops elements |
| `SearchTrees.RemExactIff` | `libsrsbsns/bintree.c:231-240` | removal is exactly set removal if and only if the match does not have two children with a predecessor that has a left child |
| `SearchTrees.RemSize` | `libsrsbsns/bintree.c:188-247` | how many elements are gone: none without a match, otherwise one plus the dropped ones |
| `SearchTrees.RemLosesAnElement` | `libsrsbsns/bintree.c:231-240` | concrete loss: insert 5, 3, 7, 1, remove 5, and 1 is gone too |
| `SearchTrees.DropMaxListing` | `libsrsbsns/bintree.c:222-240` | unlinking the rightmost node splits the listing into what stays, what its left subtree held, and itself |
| `SearchTrees.RemShape` | `libsrsbsns/bintree.c:188-247` | the tree after a removal, place by place: a match with at most one child gives way to it; one with two takes the element at the end of the right links of its left subtree, and that node goes with all it has on its left |
| `SearchTrees.RemPreOrder` | `libsrsbsns/bintree.c:188-247` | with at most one child the match is deleted from the preorder and nothing else changes; with two it is replaced there by the greatest element below it, which is deleted from its own place together with the dropped run |
| `SearchTrees.ListingsFixTree` | `libsrsbsns/bintree.c:432-452` | a tree without duplicates is known from its preorder and inorder listings |
| `SearchTrees.RunRefinesSortedList` | `libsrsbsns/bintree.c:111-247` | every run of insertions and removals keeps the order; as long as no removal drops a subtree it is the run of a sorted list |
| `SearchTrees.InsAtHole` | `libsrsbsns/bintree.c:118-156` | inserting an element whose search leads to a hole inserts at that hole |
| `SearchTrees.InsShape` | `libsrsbsns/bintree.c:111-159` | insertion leaves the tree as it is, but for a leaf where the search ends or an equal element that is replaced in its place |
| `SearchTrees.InsMidsBuildsMidTree` | `libsrsbsns/bintree.c:249-259` | inserting midpoints of an ordered range one at a time through the ordinary insertion builds exactly the recursive midpoint tree |
| `SearchTrees.MidTreeListing` | `libsrsbsns/bintree.c:249-259` | the midpoint tree lists as the range |
| `SearchTrees.MidTreeHeight` | `libsrsbsns/bintree.c:249-259` | its height h satisfies 2^(h-1) <= n < 2^h, and is 0 when it is empty |
| `SearchTrees.NoShorterTree` | `libsrsbsns/bintree.c:249-272` | no tree of n nodes is shorter than that |
| `SearchTrees.RebalanceIsMinimal` | `libsrsbsns/bintree.c:261-272` | rebalancing keeps the listing and makes the height minimal among all trees of that size |
| `Trees.PrePlug` | `libsrsbsns/bintree.c:432-441` | preorder around any subtree: what comes before it, its own preorder, what comes after |
| `Trees.InPlug` | `libsrsbsns/bintree.c:443-452` | the same for inorder |
| `Trees.PostPlug` | `libsrsbsns/bintree.c:454-463` | the same for postorder |
| `Trees.SizeBelowPow2` | `libsrsbsns/bintree.c:57-79` | a tree of height h has fewer than 2^h nodes |
| `Trees.HeightIsLongestWay` | `libsrsbsns/bintree.c:57-79` | the height is the number of nodes on the longest way down |
| `Trees.OrderSize` | `libsrsbsns/bintree.c:432-463` | all three traversals list every node |
| `BinTrees.BinTree.constructor` | `libsrsbsns/bintree.c:40-48` | a new tree is empty |
| `BinTrees.BinTree.DiscoverHeight` | `libsrsbsns/bintree.c:57-67` | the recursive walk computes the maximum depth below the node |
| `BinTrees.BinTree.GetHeight` | `libsrsbsns/bintree.c:69-79` | the height of the tree, 0 when empty |
| `BinTrees.BinTree.Clear` | `libsrsbsns/bintree.c:89-98` | empties the tree |
| `BinTrees.BinTree.Insert` | `libsrsbsns/bintree.c:111-159` | the linked nodes, parent pointers included, represent the inserted-into tree afterwards; NULL is refused; count stays the number of nodes |
| `BinTrees.BinTree.InsertBelowRoot` | `libsrsbsns/bintree.c:125-156` | the descent loop: attaches a leaf or overwrites an equal element, and counts only new nodes |
| `BinTrees.BinTree.NodeFind` | `libsrsbsns/bintree.c:161-179` | the search loop stops at the subtree whose root matches, or at NULL |
| `BinTrees.BinTree.FindElem` | `libsrsbsns/bintree.c:181-186` | the stored element that compares equal, or NULL if every element differs |
| `BinTrees.BinTree.Remove` | `libsrsbsns/bintree.c:188-247` | true iff there is a match; the nodes represent the tree with the match removed, parent and child links consistent; count drops by one, which is right if and only if nothing was dropped |
| `BinTrees.BinTree.RemoveNode` | `libsrsbsns/bintree.c:195-244` | the three cases are exhaustive, so the exit(2) branch is never reached, and each leaves consistent links |
| `BinTrees.BinTree.UnlinkLeaf` | `libsrsbsns/bintree.c:195-206` | a match without children is unlinked from its parent or the root |
| `BinTrees.BinTree.PromoteChild` | `libsrsbsns/bintree.c:207-221` | the only child takes the place of the match, with its parent pointer corrected |
| `BinTrees.BinTree.TakePredecessor` | `libsrsbsns/bintree.c:222-240` | the match takes over the predecessor's element and the predecessor is cut off with its left subtree, which with SearchTrees.RemPreOrder fixes the tree |
| `BinTrees.SwapWithPredecessor` | `libsrsbsns/bintree.c:222-240` | the walk to the rightmost node of the left subtree, the swap of the data, and the NULLed parent link |
| `BinTrees.BinTree.Collect` | `libsrsbsns/bintree.c:466-492` | writes exactly the chosen traversal and nothing beyond it; false and nothing written for an unknown order on a non-empty tree |
| `BinTrees.RTravPreorder` | `libsrsbsns/bintree.c:432-441` | writes the preorder of the subtree from index i on |
| `BinTrees.RTravInorder` | `libsrsbsns/bintree.c:443-452` | writes the inorder of the subtree from index i on |
| `BinTrees.RTravPostorder` | `libsrsbsns/bintree.c:454-463` | writes the postorder of the subtree from index i on |
| `BinTrees.BinTree.RBalance` | `libsrsbsns/bintree.c:249-259` | inserts the range midpoint first, keeping count and order |
| `BinTrees.BinTree.Balance` | `libsrsbsns/bintree.c:261-272` | same in-order listing, same count, minimal height, only new nodes |
| `BinTrees.BinTree.First` | `libsrsbsns/bintree.c:274-291` | stands on and returns the first element of the chosen traversal; NULL for an unknown one |
| `BinTrees.BinTree.FirstPostorder` | `libsrsbsns/bintree.c:325-337` | the descent to the first postorder leaf terminates there |
| `BinTrees.BinTree.FirstInorder` | `libsrsbsns/bintree.c:315-323` | the descent to the leftmost node terminates there |
| `BinTrees.BinTree.Next` | `libsrsbsns/bintree.c:293-306` | from position k of the traversal to position k + 1, or to the end |
| `BinTrees.BinTree.NextPreorder` | `libsrsbsns/bintree.c:339-375` | the preorder step by parent pointers |
| `BinTrees.BinTree.ClimbPreorder` | `libsrsbsns/bintree.c:353-371` | the nested climbing loops terminate at the parent of the next preorder node, or at the end |
| `BinTrees.BinTree.NextInorder` | `libsrsbsns/bintree.c:377-405` | the inorder step by parent pointers |
| `BinTrees.BinTree.ClimbInorder` | `libsrsbsns/bintree.c:388-401` | climbs until it comes from a left child, or to the end |
| `BinTrees.BinTree.NextPostorder` | `libsrsbsns/bintree.c:407-430` | the postorder step by parent pointers |
| `BinTrees.BinTree.IterateAll` | `libsrsbsns/bintree.c:274-430` | first followed by next until NULL yields exactly the traversal that collect writes, in every order |
| `BinTrees.Drive` | `libsrsbsns/bintree.c:40-247` | any run of insertions and removals on the linked tree is the run on tree values; while nothing is dropped it is the sorted-list reference and count is the size |
| `Graphs.SwapRemoveElements` | `libsrsbsns/graph.c:152-164` | moving the last edge into the gap removes exactly one occurrence |
| `Graphs.SwapRemovePlaces` | `libsrsbsns/graph.c:152-164` | the last edge comes to stand in the gap, all others keep their places |
| `Graphs.SwapRemoveNoDup` | `libsrsbsns/graph.c:152-164` | without duplicates, it removes exactly that edge |
| `Graphs.AddEdge` | `libsrsbsns/graph.c:143-150` | appends the edge, making the array when there is none |
| `Graphs.DelEdge` | `libsrsbsns/graph.c:152-164` | the array holds the edges with the dropped one replaced by the last |
| `Graphs.ScanFor` | `libsrsbsns/graph.c:105-116` | stops at the first edge to the wanted node |
| `Graphs.OthersKept` | `libsrsbsns/graph.c:86-164` | a change to one edge array leaves the arrays of all other nodes as they were |
| `Graphs.Graph.AllocNode` | `libsrsbsns/graph.c:37-48` | a new node without edges |
| `Graphs.Graph.LinkNode` | `libsrsbsns/graph.c:86-97` | the new edge is live, at the end of the source's out and the target's in; every live edge stays exactly once in each and nowhere else, self-loops and parallel edges included; the two arrays and their blocks are the old ones or new ones |
| `Graphs.Graph.DropEdge` | `libsrsbsns/graph.c:118-123` | the edge is gone from both arrays and only from there; the consistency of all others is kept; the arrays and their blocks are the old ones or new ones |
| `Graphs.Graph.LinkedConsistent` | `libsrsbsns/graph.c:86-97` | why linking keeps every edge exactly once in its two arrays |
| `Graphs.Graph.DroppedConsistent` | `libsrsbsns/graph.c:118-123` | why dropping does |
| `Graphs.Graph.FindEdge` | `libsrsbsns/graph.c:105-116` | the first edge to the target in array order, NULL only if no live edge leads there |
| `Graphs.Graph.UnlinkNode` | `libsrsbsns/graph.c:99-103` | exactly one edge is dropped: the first one to the target in array order |
| `Graphs.Graph.ObjectsNew` | `libsrsbsns/graph.c:86-164` | linking and dropping never let the graph take hold of an object that existed before and was not part of it |
| `Graphs.Drive` | `libsrsbsns/graph.c:37-164` | after any run of node allocations, links and drops every live edge is exactly once in its two arrays and nothing else is anywhere, and the live edges, with their ends and weights, are those of a multigraph that did the same |
| `Graphs.Graph.FanOut` | `libsrsbsns/graph.c:62-66` | the number of outgoing edges |
| `Graphs.Graph.FanIn` | `libsrsbsns/graph.c:68-72` | the number of incoming edges |
| `Traversals.DfsFrom` | `libsrsbsns/graph.c:189-212` | the recursion terminates on every finite graph and keeps the depth-first invariant: closed and reached tagged sets, the exact number of callbacks, and their order |
| `Traversals.TravDfs` | `libsrsbsns/graph.c:180-212` | with any tags left over: exactly the nodes reachable around tagged nodes are tagged; nf is called fan_out(n) times for each of them, ef once for each of their untagged out-edges, and all calls come in depth-first order |
| `Traversals.TravBfs` | `libsrsbsns/graph.c:214-247` | the worklist traversal terminates; exactly the nodes reachable around tagged nodes and edges are tagged, nf is called once for each, ef once for each of their untagged out-edges, and all calls come in worklist order |
| `Traversals.BfsLoop` | `libsrsbsns/graph.c:224-244` | the loop: each round shrinks the untagged edges or the stack |
| `Traversals.BfsEdge` | `libsrsbsns/graph.c:230-239` | an untagged edge is reported, tagged and its target pushed; a tagged one is passed over |
| `Traversals.DfsStep` | `libsrsbsns/graph.c:195-209` | one edge of the depth-first loop keeps the sets and the numbers of calls right |
| `Traversals.DfsRound` | `libsrsbsns/graph.c:197-209` | one round of the loop: edge callback unless tagged, node callback, then the visit of the target |
| `CallOrders.DepthFirstStep` | `libsrsbsns/graph.c:197-209` | after a round and the visit it leads to: per node the calls are, for each out-edge in array order, the edge if it was untagged and then the node; a node other than the start is entered directly after a call for a node with an edge to it; a target is entered at once unless tagged or entered before; the calls about two nodes never interleave |
| `CallOrders.OneDepthFirst` | `libsrsbsns/graph.c:189-212` | these four properties leave no choice: only one list of calls has them |
| `Traversals.WorkStep` | `libsrsbsns/graph.c:230-239` | one edge of the worklist loop keeps the invariant |
| `CallOrders.WorklistVisit` | `libsrsbsns/graph.c:224-228` | the next node visited is the target of the latest edge reported so far that leads to an untagged node |
| `CallOrders.WorklistReport` | `libsrsbsns/graph.c:230-239` | the untagged out-edges are reported in array order, right after their node |
| `CallOrders.OneByWorklist` | `libsrsbsns/graph.c:214-247` | node first, its untagged out-edges right behind it, latest target next: only one list of calls is like that |
| `Traversals.ReachedIff` | `libsrsbsns/graph.c:180-247` | a set that is closed under edges and all reached is exactly what can be reached |
| `Traversals.SameTags` | `libsrsbsns/graph.c:180-247` | both traversals tag the same nodes and edges and report the same edges, for every leftover tagging in which a tagged edge has a tagged source |
| `Traversals.ReachFollows` | `libsrsbsns/graph.c:189-247` | if tagged edges have tagged sources, they hide nothing from a traversal that tagged nodes do not hide |
| `Traversals.TagsStillFollow` | `libsrsbsns/graph.c:189-247` | a traversal keeps it that every edge carries no tag or that of its source |
| `Traversals.TagsFollowMeans` | `libsrsbsns/graph.c:166-247` | then, for every tag but 0, a tagged edge has a tagged source |
| `Traversals.Drive` | `libsrsbsns/graph.c:37-247` | over any run of allocations, links, drops and traversals with any tags drawn, the graph stays consistent and every edge carries no tag or that of its source, so that both traversals tag the same from there |
| `Traversals.DfsCompleteIff` | `libsrsbsns/graph.c:180-187` | every reachable node is newly tagged and visited once per out-edge, and each of their out-edges is reported once, if and only if no reachable node and none of their out-edges carries the tag beforehand |
| `Traversals.BfsCompleteIff` | `libsrsbsns/graph.c:214-222` | the same for the worklist traversal, which visits each node once |
| `Traversals.StaleTagHidesNode` | `libsrsbsns/graph.c:180-187` | concrete two-node graph where a stale tag hides a reachable node |
| `Traversals.TraverseDfs` | `libsrsbsns/graph.c:125-187` | the depth-first result on a consistent graph, which stays consistent |
| `Traversals.TraverseBfs` | `libsrsbsns/graph.c:125-247` | the worklist result on a consistent graph, which stays consistent |
| `Traversals.Traverse` | `libsrsbsns/graph.c:125-139` | the dispatch on the kind of traversal; an unknown kind visits nothing; nodes and edges that are not visited keep their tags |
| `Traversals.GraphFits` | `libsrsbsns/graph.c:86-123` | the live edges of a consistent graph are the edges a traversal meets |
| `DynArrays.Log2` | `libsrsbsns/dynarr.c:80-91` | the integer logarithm: 2^k <= n < 2^(k+1) |
| `DynArrays.SizeFor` | `libsrsbsns/dynarr.c:80-91` | the size chosen is a power of two strictly above the index and at most twice it |
| `DynArrays.DynArr.constructor` | `libsrsbsns/dynarr.c:24-34` | all cells of a new array count as used, NULL if nulling |
| `DynArrays.DynArr.NullRange` | `libsrsbsns/dynarr.c:110-115` | NULLs the range and nothing else |
| `DynArrays.DynArr.Resize` | `libsrsbsns/dynarr.c:117-136` | keeps as much of the contents as fits |
| `DynArrays.DynArr.ProvideIndex` | `libsrsbsns/dynarr.c:80-91` | grows to the chosen size only when the index lies outside; contents unchanged |
| `DynArrays.DynArr.Push` | `libsrsbsns/dynarr.c:72-78` | appends |
| `DynArrays.DynArr.Get` | `libsrsbsns/dynarr.c:93-98` | the cell, NULL past the used part of a nulling array; contents unchanged |
| `DynArrays.DynArr.Put` | `libsrsbsns/dynarr.c:100-108` | sets one cell, extending the used part |
| `DynArrays.DynArr.Truncate` | `libsrsbsns/dynarr.c:55-64` | the used part ends at the given index |
| `DynArrays.DynArr.FindRaw` | `libsrsbsns/dynarr.c:165-172` | the first index of the pointer, -1 if absent |
| `DynArrays.DynArr.First` | `libsrsbsns/dynarr.c:147-153` | the first cell, false when there is none |
| `DynArrays.DynArr.Next` | `libsrsbsns/dynarr.c:155-163` | the cell after the last one handed out, false at the end |
| `RingBuffers.RingAppend` | `libsrsbsns/ringbuf.c:136-150` | writing round the end at head appends to the bytes read from tail on |
| `RingBuffers.RingPieces` | `libsrsbsns/ringbuf.c:78-90` | the oldest n bytes lie in one piece, or in two when the end is in between |
| `RingBuffers.RingDrop` | `libsrsbsns/ringbuf.c:86-94` | advancing tail, round the end if need be, drops the oldest n bytes |
| `RingBuffers.RingBuf.constructor` | `libsrsbsns/ringbuf.c:27-41` | a new buffer is empty |
| `RingBuffers.RingBuf.Empty` | `libsrsbsns/ringbuf.c:50-54` | empty exactly when there are no contents, whatever head and tail are |
| `RingBuffers.RingBuf.Count` | `libsrsbsns/ringbuf.c:63-67` | the number of bytes held |
| `RingBuffers.RingBuf.Clear` | `libsrsbsns/ringbuf.c:56-61` | nothing is held any more |
| `RingBuffers.RingBuf.DoGet` | `libsrsbsns/ringbuf.c:69-97` | copies out the oldest min(num, held) bytes and nothing else; removes exactly them unless peeking; keeps the head, tail and num relation |
| `RingBuffers.RingBuf.Get` | `libsrsbsns/ringbuf.c:99-103` | takes a prefix off |
| `RingBuffers.RingBuf.Peek` | `libsrsbsns/ringbuf.c:105-109` | returns the same prefix and leaves the contents |
| `RingBuffers.RingBuf.Put` | `libsrsbsns/ringbuf.c:111-151` | appends all bytes, growing if they do not fit |
| `RingBuffers.RingBuf.Grow` | `libsrsbsns/ringbuf.c:113-134` | the doubling loop ends with enough room, and relocation from wrapped and unwrapped states keeps the contents |
| `RingBuffers.RingBuf.PutInto` | `libsrsbsns/ringbuf.c:136-150` | the one- or two-piece copy appends the bytes |
| `RingBuffers.NothingLost` | `libsrsbsns/ringbuf.c:69-151` | over clear-free runs, bytes got followed by bytes left are the bytes put |
| `RingBuffers.Drive` | `libsrsbsns/ringbuf.c:27-151` | any run of put, get, peek and clear on the buffer behaves like a byte queue |
| `BufferedReaders.LineLengthMeaning` | `libsrsbsns/bufrd.c:139-164` | the line length is that of the shortest prefix ending in a newline, or of everything |
| `BufferedReaders.Stream.Read` | `libsrsbsns/bufrd.c:166-175` | what read(2) may do: any non-empty chunk of what is left, 0 only at the end, or an error that consumes nothing |
| `BufferedReaders.BufRd.constructor` | `libsrsbsns/bufrd.c:29-43` | a new reader holds nothing |
| `BufferedReaders.BufRd.Buffered` | `libsrsbsns/bufrd.c:107-111` | true exactly when an ungot or buffered byte is held |
| `BufferedReaders.BufRd.ReadMore` | `libsrsbsns/bufrd.c:166-175` | what is read goes into the buffer; 0 only at the end of the stream |
| `BufferedReaders.BufRd.Read` | `libsrsbsns/bufrd.c:54-79` | the bytes delivered, in order, followed by what is pending afterwards, are what was pending before; fewer than asked for only if nothing stays held; read(2) is used only if nothing was held; -1 only for zero bytes or a read error; an ungot byte comes first |
| `BufferedReaders.BufRd.GetChar` | `libsrsbsns/bufrd.c:81-99` | the next pending byte, an ungot one first and once; -1 only at the end or on an error, with eof telling them apart |
| `BufferedReaders.BufRd.UngetChar` | `libsrsbsns/bufrd.c:128-136` | puts one byte in front of everything pending, unless one is there already |
| `BufferedReaders.BufRd.ReadLine` | `libsrsbsns/bufrd.c:143-160` | the loop takes a prefix that ends at the first newline, the end or an error, and stores what fits |
| `BufferedReaders.BufRd.GetLine` | `libsrsbsns/bufrd.c:139-164` | without a read error it consumes exactly the line whatever the chunking, returns its length and stores its first destsz - 1 bytes, NUL-terminated |
| `BufferedReaders.RunFollowsStream` | `libsrsbsns/bufrd.c:54-164` | through any run the replies show the stream from the reader's position on, which moves by the bytes taken less the bytes put back, and what is pending is the rest |
| `BufferedReaders.NothingLost` | `libsrsbsns/bufrd.c:54-164` | without put-backs and cut lines, the bytes of all replies followed by what is pending are what was pending at the outset |
| `BufferedReaders.UngotComesNext` | `libsrsbsns/bufrd.c:54-136` | a byte put back is delivered next and once: until some call takes bytes nothing changes and further put-backs are refused, and that call takes it first |
| `BufferedReaders.Drive` | `libsrsbsns/bufrd.c:54-164` | any run of reads, single bytes, lines and put-backs, with any chunking and any read errors, gets replies that fit the stream, with the bytes held after each; if only bytes just taken are put back every reply shows the stream in place, also behind lines cut short; if nothing is put back or cut short, bytes delivered, held and unread are the original stream |
| `HashTables.IndexInMeaning` | `libsrsbsns/ptrlist.c:219-236` | the first key of a bucket that equals the one looked for |
| `HashTables.PutKeepsOk` | `libsrsbsns/hashmap.c:99-121` | putting keeps keys in the bucket they hash to and pairwise unequal, and both lists of a bucket equally long |
| `HashTables.DelKeepsOk` | `libsrsbsns/hashmap.c:141-164` | so does deleting |
| `HashTables.GetPut` | `libsrsbsns/hashmap.c:99-139` | after a put, an equal key yields the new value and every other key what it yielded before |
| `HashTables.GetDel` | `libsrsbsns/hashmap.c:123-164` | after a deletion, an equal key yields nothing and every other key what it yielded before |
| `HashTables.GetEmpty` | `libsrsbsns/hashmap.c:32-84` | an empty map yields nothing |
| `HashTables.RunRefinesMap` | `libsrsbsns/hashmap.c:66-164` | after any run of puts, deletions and clears, every key yields what the last operation on an equal key left |
| `HashTables.StoredPut` | `libsrsbsns/hashmap.c:99-121` | a put of a new key stores its duplicate; a put of an equal key leaves the stored one |
| `HashTables.StoredDel` | `libsrsbsns/hashmap.c:141-164` | a deletion takes the stored key away and leaves every other one |
| `HashTables.RunKeepsFirstSpelling` | `libsrsbsns/hashmap.c:66-164` | after any run the key stored for a binding is the duplicate of the first key put since an equal one was last deleted or the map cleared |
| `HashTables.ListedKeysAreFirstSpellings` | `libsrsbsns/hashmap.c:66-250` | and these are the keys that an iteration lists |
| `HashTables.KeysLieWhereTheyHash` | `libsrsbsns/hashmap.c:99-121` | a key in bucket b hashes to b modulo the number of buckets |
| `HashTables.CountChanges` | `libsrsbsns/hashmap.c:116-162` | the number of entries goes up for a new key only and down for a present key only |
| `HashTables.EntryAt` | `libsrsbsns/hashmap.c:172-250` | the listing of all bindings, bucket by bucket: where each entry stands |
| `HashTables.EntriesAreBindings` | `libsrsbsns/hashmap.c:172-250` | the listing has every binding exactly once: pairwise unequal keys, each with the value a lookup gives, and every present key among them |
| `HashMaps.ListKept` | `libsrsbsns/hashmap.c:99-164` | a change to one bucket list leaves every other list as it was |
| `HashMaps.HashMap.constructor` | `libsrsbsns/hashmap.c:32-64` | a new map has no entries |
| `HashMaps.HashMap.Clear` | `libsrsbsns/hashmap.c:66-84` | no entries, count 0; an iteration going on is not stopped |
| `HashMaps.HashMap.Find` | `libsrsbsns/hashmap.c:114-114` | the position of an equal key in its bucket, or -1 |
| `HashMaps.HashMap.Get` | `libsrsbsns/hashmap.c:123-139` | what the table gives for the key |
| `HashMaps.HashMap.Put` | `libsrsbsns/hashmap.c:99-121` | the linked lists hold the updated table, count is the number of entries; NULL keys or values change nothing |
| `HashMaps.HashMap.Store` | `libsrsbsns/hashmap.c:114-120` | a new pair, with the duplicated key, goes to the front of both lists; an equal key has its value replaced in place |
| `HashMaps.HashMap.MakeLists` | `libsrsbsns/hashmap.c:109-112` | a bucket used for the first time gets two empty lists |
| `HashMaps.HashMap.Del` | `libsrsbsns/hashmap.c:141-164` | true iff the key was present; both lists lose the same position and count drops by one |
| `HashMaps.HashMap.Count` | `libsrsbsns/hashmap.c:166-170` | the number of bindings |
| `HashMaps.HashMap.SkipEmpty` | `libsrsbsns/hashmap.c:180-182` | skips missing and emptied buckets and nothing that holds an entry |
| `HashMaps.HashMap.First` | `libsrsbsns/hashmap.c:172-208` | hands out the first entry of the listing, or stops when there is none |
| `HashMaps.HashMap.Next` | `libsrsbsns/hashmap.c:210-250` | hands out the entry at the cursor and moves on by one, false at the end; when no iteration is going on it returns false and leaves the outputs alone |
| `HashMaps.HashMap.NextBucket` | `libsrsbsns/hashmap.c:219-248` | the first entry from a bucket on, or the end |
| `HashMaps.HashMap.IterateAll` | `libsrsbsns/hashmap.c:172-250` | first and then next until false yields every binding once, count in total |
| `HashMaps.Drive` | `libsrsbsns/hashmap.c:32-164` | any run of operations on the linked map is the run on tables, and the keys it lists are the duplicates of the first spellings |
| `PtrLists.PtrList.constructor` | `libsrsbsns/ptrlist.c:26-33` | a new list is empty |
| `PtrLists.PtrList.Count` | `libsrsbsns/ptrlist.c:42-55` | the number of elements |
| `PtrLists.PtrList.Clear` | `libsrsbsns/ptrlist.c:57-71` | the list is empty |
| `PtrLists.PtrList.Seek` | `libsrsbsns/ptrlist.c:94-98` | the walk stops at the position, or at the last node |
| `PtrLists.PtrList.Insert` | `libsrsbsns/ptrlist.c:73-112` | inserts before the position, at the end if it is negative or past the last element; NULL is refused; the chain stays a chain |
| `PtrLists.PtrList.Relinked` | `libsrsbsns/ptrlist.c:100-109` | hanging a node in between keeps the chain and all elements |
| `PtrLists.PtrList.Replace` | `libsrsbsns/ptrlist.c:114-133` | replaces the element at the position if there is one |
| `PtrLists.PtrList.Remove` | `libsrsbsns/ptrlist.c:135-161` | removes the position if there is one |
| `PtrLists.PtrList.Unlinked` | `libsrsbsns/ptrlist.c:153-156` | bypassing a node keeps the chain and all other elements |
| `PtrLists.PtrList.Get` | `libsrsbsns/ptrlist.c:163-180` | the element at the position, NULL past the end |
| `PtrLists.PtrList.FindEqFn` | `libsrsbsns/ptrlist.c:219-236` | the first position that the callback accepts, -1 if there is none |
| `Heaps.UpStep` | `libsrsbsns/heap.c:91-104` | one swap upwards leaves at most the parent out of order |
| `Heaps.DownStep` | `libsrsbsns/heap.c:106-126` | one swap with the lesser child leaves at most that child out of order |
| `Heaps.LesserChild` | `libsrsbsns/heap.c:110-121` | the child chosen is no greater than its sibling |
| `Heaps.RootIsLeast` | `libsrsbsns/heap.c:142-154` | in a heap the root is no greater than any slot |
| `Heaps.Heap.constructor` | `libsrsbsns/heap.c:30-44` | a new heap is empty |
| `Heaps.Heap.Clear` | `libsrsbsns/heap.c:46-50` | nothing is stored any more |
| `Heaps.Heap.Count` | `libsrsbsns/heap.c:59-63` | the number of elements |
| `Heaps.Heap.Resize` | `libsrsbsns/heap.c:65-81` | keeps the elements, refusing sizes too small for them |
| `Heaps.Heap.Swap` | `libsrsbsns/heap.c:83-89` | exchanges two slots |
| `Heaps.Heap.UpHeap` | `libsrsbsns/heap.c:91-104` | restores the heap order, keeping the elements |
| `Heaps.Heap.DownHeap` | `libsrsbsns/heap.c:106-126` | restores the heap order, keeping the elements |
| `Heaps.Heap.Insert` | `libsrsbsns/heap.c:128-140` | heap order kept, the element added to the stored multiset; NULL is refused |
| `Heaps.Heap.Remove` | `libsrsbsns/heap.c:142-154` | removes and returns a least element, NULL when empty; heap order kept |
| `Heaps.Drain` | `libsrsbsns/heap.c:142-154` | removing until empty yields a sorted permutation, for every total preorder and with duplicates |
| `Heaps.InsertedLessRemoved` | `libsrsbsns/heap.c:128-154` | over any run, stored at the outset plus inserted is stored at the end plus removed |
| `Heaps.Drive` | `libsrsbsns/heap.c:91-154` | any interleaving of inserts and removals: every removal returns a least element of what is stored at that moment, NULL only from an empty heap; what is stored at the end is what was there and inserted less what was removed |
| `Tokenizers.CutStep` | `libsrsbsns/misc.c:91-139` | one character of the state machine cuts the input as the token grammar does |
| `Tokenizers.StartsStep` | `libsrsbsns/misc.c:91-139` | one character of the state machine records the starts the grammar gives |
| `Tokenizers.AllPlaced` | `libsrsbsns/misc.c:90-139` | in the cut input, the strings at the recorded starts are the tokens of the original one |
| `Tokenizers.CStringMeaning` | `libsrsbsns/misc.c:90-92` | the string before the first NUL |
| `Tokenizers.SplitAgain` | `libsrsbsns/misc.c:90-139` | splitting what an earlier call left behind finds at most the first token |
| `Tokenizers.SizingCallIff` | `include/libsrsbsns/misc.h:20-21` | a first call without room, as the header suggests, counts right but uses the input up: a second call finds as many tokens if and only if the first reported at most one |
| `Tokenizers.SizingCallFails` | `include/libsrsbsns/misc.h:20-21` | concrete input where the second call finds fewer tokens |
| `Tokenizers.SplitUndoesRendering` | `libsrsbsns/misc.c:90-139` | any list of words free of space, tab, CR, LF and quotes and of quoted tokens, with runs of those four characters in between where two words meet, splits into exactly these tokens; a quote after a word starts a new token, and the last quote may be left open |
| `Tokenizers.EveryInputIsRendered` | `libsrsbsns/misc.c:90-139` | every input is such a rendering, so that this is what splitting means for all of them |
| `Tokenizers.Record` | `libsrsbsns/misc.c:99-135` | stores the position if there is room and counts it either way |
| `Tokenizers.Consume` | `libsrsbsns/misc.c:91-139` | the switch does one step of the machine |
| `Tokenizers.SplitLoop` | `libsrsbsns/misc.c:90-139` | the loop cuts the whole input and counts all tokens, whatever the room |
| `Tokenizers.SplitQuoted` | `libsrsbsns/misc.c:78-142` | the strings at the stored positions are the first dest_nelem tokens of the original input; the count does not depend on dest_nelem; nothing after the terminator changes; -1 and no effect above INT_MAX |
| `Deques.Bias` | `libsrsbsns/deque.c:105-109` | within [-0.9, 0.9], positive exactly when more has been pushed to the front than to the back, negative exactly when less |
| `Deques.BiasCases` | `libsrsbsns/deque.c:105-109` | clamped exactly when twenty times the surplus of front pushes exceeds nine times the size either way; otherwise bias times size is twice the surplus |
| `Deques.OffsetBounds` | `libsrsbsns/deque.c:104-112` | for every bias the contents fit, with room in front whenever there is spare room |
| `Deques.MorePushedMoreShifted` | `libsrsbsns/deque.c:105-114` | the more pushes lean to the front, the further to the front the contents are moved, and the less room is left there |
| `Deques.RoomBehindIff` | `libsrsbsns/deque.c:105-114` | the offset is not 0, so that there is room behind, exactly under a condition on whole numbers: the sizes, the count and the two push counters |
| `Deques.GrowBack` | `libsrsbsns/deque.c:82-84` | the size the grow loop of a push to the back ends with and the offset then: room on both sides, and more than one doubling only below 20 places, ending at 76 at most |
| `Deques.OneDoublingIff` | `libsrsbsns/deque.c:82-84` | a push to a full back doubles the size once if and only if that condition holds for twice the size |
| `Deques.DoublesTwice` | `libsrsbsns/deque.c:76-124` | concrete deque of size 1 where the second push to the back doubles twice, from 2 to 8 |
| `Deques.Deque.constructor` | `libsrsbsns/deque.c:23-34` | a new deque is empty |
| `Deques.Deque.Clear` | `libsrsbsns/deque.c:46-53` | nothing is held any more |
| `Deques.Deque.Count` | `libsrsbsns/deque.c:55-59` | the number of elements |
| `Deques.Deque.Resize` | `libsrsbsns/deque.c:91-124` | false iff the contents do not fit; otherwise the same contents in a new block with 0 <= back <= front <= nelem, and back is not 0 exactly under the condition above |
| `Deques.Deque.PushFront` | `libsrsbsns/deque.c:61-74` | appends at the front, doubling the size at most once |
| `Deques.Deque.PushBack` | `libsrsbsns/deque.c:76-89` | prepends at the back; the grow loop terminates after exactly the doublings it takes until the offset is not 0 |
| `Deques.Deque.PopFront` | `libsrsbsns/deque.c:135-147` | takes the element at the front off |
| `Deques.Deque.PopBack` | `libsrsbsns/deque.c:149-161` | takes the element at the back off |
| `Deques.Deque.PeekFront` | `libsrsbsns/deque.c:163-167` | the element at the front |
| `Deques.Deque.PeekBack` | `libsrsbsns/deque.c:169-173` | the element at the back |
| `Deques.Deque.Shrink` | `libsrsbsns/deque.c:126-133` | same contents in a block of countfac times their number; factors below 1 are refused |
| `Deques.Deque.First` | `libsrsbsns/deque.c:175-182` | the end the iteration starts from |
| `Deques.Deque.Next` | `libsrsbsns/deque.c:184-192` | the neighbour in either direction, NULL past the ends |
| `Deques.Drive` | `libsrsbsns/deque.c:23-161` | any run of pushes, pops, clears and shrinks behaves like a sequence |
| `Deques.Stack.Push` | `libsrsbsns/stack.c:41-45` | the new top |
| `Deques.Stack.Pop` | `libsrsbsns/stack.c:47-51` | takes the top off, NULL when empty |

## Left out

- NULL handles: every class method has a receiver, so the checks for a NULL tree, map,
  list or deque are not modelled. NULL elements, keys and results are.
- Memory: allocation never fails, nothing is freed, and `free` of a removed key or node
  is not modelled.
- Integer widths: sizes and counts are unbounded; overflow of `size_t` and of `1 << n`
  in `dynarr.c` is not modelled. The `int` returned by `splitquoted` and the byte
  conversion in `bufrd.c` are.
- Floating point: the bias of the deque and the factor of a shrink are real numbers, and
  `log2` is its integer floor; rounding is not modelled.
- Calls the code does not guard are preconditions: the first element and rebalancing of an
  empty tree, the next element after the end of a tree iteration, a ring buffer of size 0,
  truncation of an array past its capacity, looking for an edge from a node that never had
  one, unlinking without an edge in between, line buffers of size 0, inputs of
  `splitquoted` without a terminator.
- Rebalancing a tree whose count is already wrong, after a removal that dropped elements,
  reads cells that were never written; the model requires the count to be right.
- Iteration while a tree or a deque is being changed. For the hash map the cursor is
  defined in every state, so a step after a change is covered too.
- BinTrees.BinTree.Remove: where nodes are relinked in place all links are modelled, but not that
  a removed node's memory is gone, because nothing is freed.
- HashMaps.HashMap.Next: output pointers that are themselves NULL are not modelled, because they
  only suppress a store.
- The choice of a traversal tag by `rand()` and the callbacks' user pointer; the tag is a
  parameter that differs from 0 and from the start node's tag, and a callback cannot
  change the graph.
- Node elements, node and edge attributes, and edge weights beyond their storing.
- Duplicating a key in the hash map yields an equal key; a key duplicator that fails is not
  modelled.
- The file descriptor of the buffered reader, `bufrd_canread` and its select(2) call.
- All dump and statistics functions, the dispose functions, `dynarr_clear`, `dynarr_shrink`,
  `dynarr_findfn`, `dynarr_findeqfn`, `ptrlist_findraw`, `ptrlist_findfn`, `ptrlist_first`
  and `ptrlist_next`: printing, freeing, and loops over the same fields that end at a
  different test.
- The rest of the library: addresses, sockets, logging, string maps and lists, time
  conversion and the small string functions.
