# Verified models of algorithms and protocols from a C/C++ study collection

The repository is a collection of C and C++ programs: data structures, server building blocks, text
filters, a TELNET client and small algorithms. This project models the ones with the most intricate
behaviour and proves what they are meant to do. `dafny verify dfyconfig.toml` checks all of it.

| files | what they model |
|---|---|
| `RedBlackShape`, `RedBlackLinks`, `RedBlackRelink`, `RedBlackInsert`, `RedBlackErase`, `RedBlackSplice`, `RedBlackRemove`, `RedBlackTree` | the red-black tree on heap nodes with parent links |
| `HuffmanTrees`, `Huffman`, `HuffmanOptimal` | the Huffman builder over an array with holes |
| `HttpSpec`, `HttpParser` | the incremental HTTP request parser that overwrites its buffer |
| `ThreadPool`, `ThreadPoolRuns` | the thread pool, as a state machine over the steps of its threads |
| `TimeWheel`, `TimeWheelRuns`, `TimeHeap`, `TimerList`, `TimerListRuns`, `TimerAgreement`, `TimerAgreementRuns` | the three timer containers, and runs of requests to them |
| `Tabs` | entab and detab |
| `BlankStrip` | the blank stripper with a bounded queue |
| `UncommentSpec`, `Uncomment` | the comment remover with trigraphs and escaped newlines |
| `TelnetTables`, `Telnet` | the TELNET client's state machines |
| `LinkedLoop`, `Maze`, `Checksum` | loop detection, maze search, the Internet checksum |

Code that changes things in place is modelled in place: tree nodes, list nodes, arrays and buffers are
heap objects, and each method is proved against a mathematical description of the state. Ghost
parameters carry that description. The lemmas are about the descriptions.

How the models read the sources:

- The red-black tree is described by a shape and a one-hole path around it, so that an invariant can say
  "correct except at this node" while the rebalancing loops move the node.
- Keys are compared by their difference, an `int`. Overflow is undefined in C, so the operations report in
  `overflow` that the difference does not fit, and say nothing further.
- A node field of type `char` holds the Huffman weights, and the model keeps that width. For weights that are
  not negative the result is optimal if and only if no sum overflows while four or more trees are left: an
  overflow then makes the heaviest tree look lightest and sink too deep, while in the last two rounds what is
  stored no longer decides anything. Adding up all weights but the two largest is a simple check that suffices.
- The HTTP verdict is defined on the bytes received, line by line. The parser works on a buffer in which
  line ends and blanks have been overwritten, and is proved to return the verdict for every way of
  cutting the stream into chunks.
- In the timing wheel a timer is described by its countdown, the number of ticks before the one that
  fires it.
- A full timer heap doubles its capacity, which gives no room if the capacity is zero. The operations and runs
  of the heap report exactly when they would touch memory outside the array.
- In the runs of the wheel and of the list, a request names a timer by the position of the request that
  added it.
- `adjust_timer` of the list only moves a timer towards the end. `AdjustTimer` says exactly when the list
  is sorted afterwards.
- The blank stripper promises the ideal result after repeated passes. The model defines the ideal on
  whole lines, and says exactly when a pass fails.
- The comment remover is proved to be the composition of three passes. Its stack stores characters in a
  signed type in which the byte 255 reads as end of file. The model keeps that: such a byte ends the text
  when it has to be looked at twice, and `Reach` says exactly where. The source's list of trigraphs lacks
  the one for `~`, and so does the model. A quote right behind a slash does not open a literal in the source,
  and `CommentMissed` shows what follows from that.
- The TELNET tables are compiled from the transition lists by the modelled `FsmInit`; the rules they are
  compared with are written from the protocol (RFC 854, RFC 855, RFC 856 and RFC 1091). Messages to the
  server and output to the terminal are logs. The terminal's name is null until the server asks for the option;
  a subnegotiation that asks for it earlier makes the source print a null pointer, which the log records.
- The maze search is modelled for every grid size and every stack that can hold the grid's cells.
- The checksum register has 32 bits, and words are read low byte first.

## Model

| member | source | states |
|---|---|---|
| `RedBlackRelink.RotateLeft` | src/data_struct/btree/rbtree.c:88-120 | a left rotation rewrites the links of the three nodes involved, and of the parent, and no other link or colour; the new root is the risen child exactly when the node had no parent |
| `RedBlackRelink.RotateRight` | src/data_struct/btree/rbtree.c:122-147 | the mirror image for a right rotation |
| `RedBlackRelink.RotateLeftAt` | src/data_struct/btree/rbtree.c:88-120 | seen as a tree inside a larger tree, the links describe the rotated tree: every parent link, child link and the root pointer agree with it |
| `RedBlackRelink.RotateRightAt` | src/data_struct/btree/rbtree.c:122-147 | the same for a right rotation |
| `RedBlackLinks.RotatedLeftOrder` | src/data_struct/btree/rbtree.c:88-120 | a rotation keeps the in-order sequence of nodes |
| `RedBlackLinks.RotatedRightOrder` | src/data_struct/btree/rbtree.c:122-147 | a rotation keeps the in-order sequence of nodes |
| `RedBlackLinks.Up` | src/data_struct/btree/rbtree.c:149-299 | moving the place of attention from a node to its parent changes neither the links nor the colour invariants nor the order that the rest of the tree has to satisfy |
| `RedBlackInsert.InsertStepLeft` | src/data_struct/btree/rbtree.c:155-178 | one turn of the insertion loop under a left parent, through a red uncle or one or two rotations: from a tree that is wrong only in one red node under a red parent to one that is wrong only higher up, or right; the nodes and their order are kept |
| `RedBlackInsert.InsertStepRight` | src/data_struct/btree/rbtree.c:179-202 | the mirror image |
| `RedBlackInsert.InsertRebalance` | src/data_struct/btree/rbtree.c:149-206 | the loop ends, and leaves a well linked red-black tree with a black root, the same nodes and the same order |
| `RedBlackErase.HasSibling` | src/data_struct/btree/rbtree.c:208-299 | a node that is one black too light always has a sibling, so the loop never follows a null sibling |
| `RedBlackErase.RedSiblingLeft` | src/data_struct/btree/rbtree.c:215-222 | a red sibling is rotated away: the same imbalance, one level lower, with a black sibling |
| `RedBlackErase.BlackNephews` | src/data_struct/btree/rbtree.c:223-229 | a black sibling without red children is painted red: the imbalance moves one level up |
| `RedBlackErase.InnerLeft` | src/data_struct/btree/rbtree.c:232-241 | a red inner nephew is rotated to the outside |
| `RedBlackErase.OuterLeft` | src/data_struct/btree/rbtree.c:242-250 | a red outer nephew ends the imbalance |
| `RedBlackErase.EraseStepLeft` | src/data_struct/btree/rbtree.c:213-252 | one turn of the removal loop for a left child: the result is a correct tree, or the same imbalance closer to the root or at a red node; the nodes and their order are kept |
| `RedBlackErase.EraseStepRight` | src/data_struct/btree/rbtree.c:253-292 | the mirror image |
| `RedBlackErase.EraseRebalance` | src/data_struct/btree/rbtree.c:208-299 | the loop ends, and leaves a well linked red-black tree with a black root, the same nodes and the same order |
| `RedBlackTree.SearchAuxiliary` | src/data_struct/btree/rbtree.c:301-327 | the walk ends at the node with the key, or at the empty place where it belongs with its parent in `save`, unless a difference of keys on the way is not what 32 bits keep of it, which is reported exactly then |
| `RedBlackTree.IntIsKept` | src/data_struct/btree/rbtree.c:308 | a difference fits an `int` exactly if wrapping it around to 32 bits leaves it as it is |
| `RedBlackTree.WrongTurn` | src/data_struct/btree/rbtree.c:308 | the largest key and a search for -1: the difference overflows, and wrapped around it would send the search to the wrong side |
| `RedBlackTree.CloseKeysFit` | src/data_struct/btree/rbtree.c:308 | for keys less than 2^31 apart no search overflows |
| `RedBlackTree.Search` | src/data_struct/btree/rbtree.c:359-362 | finds a node exactly when the key is in the stored map, and that node holds the map's value, unless a difference of keys overflows |
| `RedBlackTree.FoundOrNot` | src/data_struct/btree/rbtree.c:301-327 | at the place where the search stops, the key is present exactly if the place is not empty |
| `RedBlackTree.NewLeaf` | src/data_struct/btree/rbtree.c:337-355 | the new red leaf is linked in at the place of a failed search |
| `RedBlackTree.Insert` | src/data_struct/btree/rbtree.c:329-357 | every valid tree becomes a valid tree whose map has the new binding, or is unchanged if the key was there; an overflow in the search is reported exactly when it happens |
| `RedBlackRemove.Successor` | src/data_struct/btree/rbtree.c:374-380 | the walk to the leftmost node of the right subtree |
| `RedBlackRemove.UnlinkOnly` | src/data_struct/btree/rbtree.c:432-463 | a node with at most one child is taken out: the order of the rest is kept, and the place is one black too light exactly if the node was black |
| `RedBlackRemove.UnlinkTwo` | src/data_struct/btree/rbtree.c:374-431 | a node with two children is replaced by its successor, including the case where the successor is its own right child |
| `RedBlackTree.RemovedKey` | src/data_struct/btree/rbtree.c:364-470 | taking the node out removes exactly its key from the map and keeps the keys in order |
| `RedBlackTree.Erase` | src/data_struct/btree/rbtree.c:364-470 | every valid tree becomes a valid tree whose map is the old one without the key; an overflow in the search is reported exactly when it happens |
| `RedBlackTree.Run` | src/data_struct/btree/rbtree.c:329-470 | over any run of insertions and removals from the empty tree, the tree is valid and holds what the same operations make of a map; the run ends early exactly where a difference of keys overflows, which never happens for keys less than 2^31 apart |
| `HuffmanTrees.SwapShorter` | src/data_struct/btree/HuffmanTree.cpp:11-27 | exchanging a lighter weight with a heavier one that lies deeper does not lengthen the paths |
| `HuffmanTrees.DeepestSiblings` | src/data_struct/btree/HuffmanTree.cpp:11-27 | every tree with two leaves has two sibling leaves at its greatest depth |
| `HuffmanTrees.MergeTwoSmallest` | src/data_struct/btree/HuffmanTree.cpp:11-27 | from any tree over some weights there is one over the weights with the two smallest merged, shorter by at least their sum |
| `Huffman.ChosenSmallest` | src/data_struct/btree/HuffmanTree.cpp:12-22 | the two scans choose two different trees such that no third one is lighter than either |
| `Huffman.Choose` | src/data_struct/btree/HuffmanTree.cpp:12-22 | the two loops over the array with holes compute that choice |
| `Huffman.RoundRoots` | src/data_struct/btree/HuffmanTree.cpp:23-26 | a round replaces two weights by their stored sum and keeps all leaves |
| `Huffman.MergeRound` | src/data_struct/btree/HuffmanTree.cpp:12-26 | one turn of the outer loop on the array |
| `HuffmanOptimal.RoundsOptimal` | src/data_struct/btree/HuffmanTree.cpp:11-27 | if no sum overflows while four or more trees are left, the remaining rounds add no more path length than any tree over the current weights has |
| `HuffmanOptimal.AlikeRounds` | src/data_struct/btree/HuffmanTree.cpp:11-27 | trees with the same stored weight and the same sum of leaves are merged alike and add the same to the path length |
| `HuffmanOptimal.RoundsImproved` | src/data_struct/btree/HuffmanTree.cpp:24-26 | if a sum overflows while four or more trees are left, some tree with the same leaves is shorter than the one the rounds end with |
| `Huffman.BuiltLeaves` | src/data_struct/btree/HuffmanTree.cpp:3-30 | the leaves of the result are exactly the input weights, as they are stored |
| `HuffmanOptimal.BuiltOptimal` | src/data_struct/btree/HuffmanTree.cpp:3-30 | if the weights fit, no tree over the same weights has a shorter weighted path length than the result; negative weights are allowed |
| `HuffmanOptimal.OptimalExactly` | src/data_struct/btree/HuffmanTree.cpp:3-30 | for weights that are not negative, the result is an optimal tree over them if and only if each fits the node field and so does every sum merged while four or more trees are left |
| `HuffmanOptimal.InRangeFits` | src/data_struct/btree/HuffmanTree.cpp:3-30 | it is enough that the weights fit and that all but the two largest add up to at most 127 |
| `Huffman.BuiltWeight` | src/data_struct/btree/HuffmanTree.cpp:24 | whatever the weights, the root holds what a `char` keeps of their sum, which is the sum exactly if it fits |
| `Huffman.CreateHuffman` | src/data_struct/btree/HuffmanTree.cpp:3-30 | the program returns that tree for two weights or more |
| `HuffmanOptimal.OverflowNotOptimal` | src/data_struct/btree/HuffmanTree.cpp:24 | for the weights 100, 100, 100, 100 a sum does not fit the field, and a shorter tree is given |
| `HttpParser.ParseLine` | src/Linux High Perfermance Server Program/codes/8/8-3httpparser.cpp:18-50 | the scan for a line end, with the bytes it overwrites, for every buffer content and every pair of indices |
| `HttpParser.ParseRequestLine` | src/Linux High Perfermance Server Program/codes/8/8-3httpparser.cpp:52-99 | accepts or rejects the string in the buffer as the declarative request line does, and writes only inside that string |
| `HttpParser.ParseTarget` | src/Linux High Perfermance Server Program/codes/8/8-3httpparser.cpp:71-98 | the same for the part after the method |
| `HttpParser.CheckUrl` | src/Linux High Perfermance Server Program/codes/8/8-3httpparser.cpp:84-93 | the test of the URL in the buffer accepts exactly an absolute path, or the scheme and something with a slash in it |
| `HttpParser.StartsAtLineFeed` | src/Linux High Perfermance Server Program/codes/8/8-3httpparser.cpp:38-47 | a scan that starts at a line feed behind a carriage return finds a complete line, except at the second byte of the buffer |
| `HttpSpec.UrlParts` | src/Linux High Perfermance Server Program/codes/8/8-3httpparser.cpp:84-93 | looking at the first characters accepts exactly the URLs made of those parts |
| `HttpSpec.SameTextIs` | src/Linux High Perfermance Server Program/codes/8/8-3httpparser.cpp:61-87 | a comparison that ignores case identifies equal characters and the two cases of one letter, and nothing else |
| `HttpParser.ParseHeaders` | src/Linux High Perfermance Server Program/codes/8/8-3httpparser.cpp:101-119 | an empty line completes the request and every other header is passed over |
| `HttpSpec.AcceptsIsValid` | src/Linux High Perfermance Server Program/codes/8/8-3httpparser.cpp:52-99 | cutting the line from the left accepts exactly the lines that consist of GET, blanks, a valid URL, blanks and HTTP/1.1 |
| `HttpSpec.VerdictStable` | src/Linux High Perfermance Server Program/codes/8/8-3httpparser.cpp:210-240 | once there is a decision, more bytes do not change it |
| `HttpSpec.AcceptedIsRequest` | src/Linux High Perfermance Server Program/codes/8/8-3httpparser.cpp:121-167 | a text is accepted exactly when it is a valid request line, header lines and an empty line, each ended by carriage return and newline |
| `HttpSpec.WaitsForMore` | src/Linux High Perfermance Server Program/codes/8/8-3httpparser.cpp:121-167 | the parser waits for more exactly if what it has is the beginning of a request: part of a line, or a valid request line, headers that are not empty, and part of a line |
| `HttpSpec.OtherwiseBad` | src/Linux High Perfermance Server Program/codes/8/8-3httpparser.cpp:121-167 | every other text is answered with a bad request |
| `HttpParser.Connection.ParseOne` | src/Linux High Perfermance Server Program/codes/8/8-3httpparser.cpp:125-158 | one turn of the loop keeps what has been consumed consistent with the bytes received, although they are overwritten in place |
| `HttpParser.Connection.ParseContent` | src/Linux High Perfermance Server Program/codes/8/8-3httpparser.cpp:121-167 | the code returned is the verdict on everything received so far |
| `HttpParser.Connection.Receive` | src/Linux High Perfermance Server Program/codes/8/8-3httpparser.cpp:212-225 | receiving one more chunk gives the verdict on all chunks together |
| `HttpParser.Serve` | src/Linux High Perfermance Server Program/codes/8/8-3httpparser.cpp:210-240 | however the stream is cut into chunks and wherever it is closed, the decision is the verdict on exactly the bytes that arrive and fit the buffer |
| `HttpParser.DecidedEarly` | src/Linux High Perfermance Server Program/codes/8/8-3httpparser.cpp:220-240 | once there is a verdict, what arrives later would not change it |
| `ThreadPool.NextInv` | src/Linux High Perfermance Server Program/codes/15/15-3threadpool.h:70-114 | every step of every thread keeps the lock, counting, queue and hand-over invariants |
| `ThreadPool.RunInv` | src/Linux High Perfermance Server Program/codes/15/15-3threadpool.h:70-114 | they hold after every interleaving of any number of appenders and workers |
| `ThreadPool.RunsAreSafe` | src/Linux High Perfermance Server Program/codes/15/15-3threadpool.h:70-114 | accepted requests are the taken ones followed by the queue; the queue length is the semaphore count plus the workers past the wait plus the appenders that have not posted yet, and at most the limit plus one |
| `ThreadPool.MutualExclusion` | src/Linux High Perfermance Server Program/codes/15/15-3threadpool.h:73-80 | no two threads are between lock and unlock |
| `ThreadPool.WokenFindsWork` | src/Linux High Perfermance Server Program/codes/15/15-3threadpool.h:98-104 | a worker past the wait never finds the queue empty |
| `ThreadPool.TakenExactlyOnce` | src/Linux High Perfermance Server Program/codes/15/15-3threadpool.h:105-112 | each request taken is processed, or in the hands of exactly one worker |
| `ThreadPool.RefusedOnlyWhenFull` | src/Linux High Perfermance Server Program/codes/15/15-3threadpool.h:74-78 | a thread is about to refuse only while the queue holds one more than the limit |
| `ThreadPool.NoDeadlock` | src/Linux High Perfermance Server Program/codes/15/15-3threadpool.h:70-114 | while requests are queued and a worker is in its loop, some thread can take a step |
| `ThreadPoolRuns.AppendAnswers` | src/Linux High Perfermance Server Program/codes/15/15-3threadpool.h:70-83 | over every run, `append` has answered true exactly if one step of its thread has added its request to the accepted ones, and false exactly if its size test found more requests than the limit; no other step of its thread has added anything |
| `ThreadPoolRuns.AcceptedWerePassedIn` | src/Linux High Perfermance Server Program/codes/15/15-3threadpool.h:70-83 | over every run, the accepted requests are the requests of different calls of `append` |
| `ThreadPoolRuns.ProcessedOnce` | src/Linux High Perfermance Server Program/codes/15/15-3threadpool.h:105-112 | over every run, exactly the finished requests that are not null have been processed, each once |
| `ThreadPoolRuns.LeavesOnlyWhenStopped` | src/Linux High Perfermance Server Program/codes/15/15-3threadpool.h:96 | over every run, a worker has left its loop only if the pool was stopped |
| `ThreadPoolRuns.AppendNotStuck` | src/Linux High Perfermance Server Program/codes/15/15-3threadpool.h:70-83 | as long as a call of `append` has not returned, some thread can take a step |
| `TimeWheel.PushFront` | src/Linux High Perfermance Server Program/codes/11/11-5tw_timer.h:73-84 | a new timer becomes the head of its slot, and the slot stays a doubly linked list |
| `TimeWheel.Unlink` | src/Linux High Perfermance Server Program/codes/11/11-5tw_timer.h:94-111 | a timer is taken out at the head or inside, and the slot stays a doubly linked list |
| `TimeWheel.TickSlot` | src/Linux High Perfermance Server Program/codes/11/11-5tw_timer.h:113-151 | the loop over the current slot fires the timers without turns left, in list order, takes a turn from the others and relinks the slot |
| `TimeWheel.CountdownPlaced` | src/Linux High Perfermance Server Program/codes/11/11-5tw_timer.h:62-72 | slot and turns are chosen so that the countdown is the number of ticks |
| `TimeWheel.CountdownTicked` | src/Linux High Perfermance Server Program/codes/11/11-5tw_timer.h:113-153 | moving the current slot on, and taking a turn in it, lowers every countdown by one |
| `TimeWheel.TicksForIs` | src/Linux High Perfermance Server Program/codes/11/11-5tw_timer.h:62-70 | a timeout is as many whole ticks as fit into it, and one if none does |
| `TimeWheel.Wheel.constructor` | src/Linux High Perfermance Server Program/codes/11/11-5tw_timer.h:36-42 | an empty wheel |
| `TimeWheel.Wheel.AddTimer` | src/Linux High Perfermance Server Program/codes/11/11-5tw_timer.h:56-86 | a negative timeout is refused; otherwise exactly the new timer is added, with its ticks as countdown |
| `TimeWheel.Wheel.DelTimer` | src/Linux High Perfermance Server Program/codes/11/11-5tw_timer.h:87-112 | exactly the given timer is removed, and null is ignored |
| `TimeWheel.Wheel.Tick` | src/Linux High Perfermance Server Program/codes/11/11-5tw_timer.h:113-153 | fires exactly the timers whose countdown is zero, each once, and lowers every other countdown by one |
| `TimeWheel.CountsDown` | src/Linux High Perfermance Server Program/codes/11/11-5tw_timer.h:56-153 | over any run of additions, removals and ticks, a timer that is left alone is present exactly while no more ticks have passed than it was given |
| `TimeWheel.FiresOnce` | src/Linux High Perfermance Server Program/codes/11/11-5tw_timer.h:56-153 | a timer added with k ticks is fired by the tick after k others and by no other |
| `TimeWheelRuns.FiresOnTime` | src/Linux High Perfermance Server Program/codes/11/11-5tw_timer.h:56-153 | in the trace of a run, a tick fires a timer that was added and not removed before it if and only if exactly as many ticks have passed as its timeout asks for |
| `TimeWheelRuns.Perform` | src/Linux High Perfermance Server Program/codes/11/11-5tw_timer.h:56-153 | one request to the wheel changes the countdowns as its step says, and a tick fires exactly the timers at zero |
| `TimeWheelRuns.Serve` | src/Linux High Perfermance Server Program/codes/11/11-5tw_timer.h:56-153 | any sequence of requests to the wheel itself keeps it valid, leaves the countdowns of the run, and fires every timer on time: by the tick its timeout asks for and by no other |
| `TimeHeap.PercolateDown` | src/Linux High Perfermance Server Program/codes/11/11-6time_heap.h:166-187 | sinking a timer extends the heap order to its place, and rearranges the timers |
| `TimeHeap.PercolateUp` | src/Linux High Perfermance Server Program/codes/11/11-6time_heap.h:98-109 | a new timer rises through the hole to a heap of the old timers and the new one |
| `TimeHeap.FirstIsLeast` | src/Linux High Perfermance Server Program/codes/11/11-6time_heap.h:120-127 | no timer of a heap expires before the first |
| `TimeHeap.GrownHasRoom` | src/Linux High Perfermance Server Program/codes/11/11-6time_heap.h:94-98 | doubling makes room for one more timer exactly when the capacity is not zero |
| `TimeHeap.Heap.constructor` | src/Linux High Perfermance Server Program/codes/11/11-6time_heap.h:37-49 | an empty heap of the given capacity |
| `TimeHeap.Heap.FromArray` | src/Linux High Perfermance Server Program/codes/11/11-6time_heap.h:50-77 | refused exactly when the timers do not fit; otherwise a heap of exactly the given timers |
| `TimeHeap.Heap.Resize` | src/Linux High Perfermance Server Program/codes/11/11-6time_heap.h:188-206 | twice the capacity and the same timers |
| `TimeHeap.Heap.AddTimer` | src/Linux High Perfermance Server Program/codes/11/11-6time_heap.h:88-110 | a heap of the old timers and the new one, with the capacity doubled if it was full; the array is overrun exactly for capacity zero; null changes nothing |
| `TimeHeap.Heap.DelTimer` | src/Linux High Perfermance Server Program/codes/11/11-6time_heap.h:111-119 | cancelling takes away the callback and leaves the heap as it is |
| `TimeHeap.Heap.Top` | src/Linux High Perfermance Server Program/codes/11/11-6time_heap.h:120-127 | an earliest timer, or null exactly for the empty heap |
| `TimeHeap.Heap.PopTimer` | src/Linux High Perfermance Server Program/codes/11/11-6time_heap.h:128-140 | exactly the first timer is removed, and the rest is a heap |
| `TimeHeap.Heap.Tick` | src/Linux High Perfermance Server Program/codes/11/11-6time_heap.h:141-162 | fires, in order of expiry, each timer that is due and not cancelled as often as it was in the heap, and keeps exactly the timers that are not due; an unallocated first place is read exactly for capacity zero |
| `TimeHeap.Perform` | src/Linux High Perfermance Server Program/codes/11/11-6time_heap.h:88-162 | an addition puts in exactly its timer, a pop takes out exactly one earliest timer, a tick takes out exactly the due ones and fires those that are live, and a cancellation moves nothing; the array is left exactly if it has no entries and the operation needs one |
| `TimeHeap.Run` | src/Linux High Perfermance Server Program/codes/11/11-6time_heap.h:88-162 | over any run of additions, cancellations, pops and ticks the heap order holds, the timers change from step to step exactly as each operation says, and every tick fires, in order of expiry, exactly the due timers that were live at the start and were not cancelled since; with capacity zero the run ends at the first operation that needs an entry, and otherwise it is complete |
| `TimeHeap.StaysUntilDue` | src/Linux High Perfermance Server Program/codes/11/11-6time_heap.h:88-162 | in a run, a timer stays while nothing is popped and no tick finds it due |
| `TimeHeap.FiresWhenDue` | src/Linux High Perfermance Server Program/codes/11/11-6time_heap.h:141-162 | in a run, the first tick that finds a timer due fires it if and only if it was not cancelled, and removes it |
| `TimerList.Splice` | src/Linux High Perfermance Server Program/codes/11/11-2lst_timer.h:149-169 | linking a timer in between two neighbours or at the end, with the tail pointer |
| `TimerList.Unlink` | src/Linux High Perfermance Server Program/codes/11/11-2lst_timer.h:94-117 | taking a timer out, alone, at the head, at the tail or inside |
| `TimerList.InsertedSorted` | src/Linux High Perfermance Server Program/codes/11/11-2lst_timer.h:146-171 | inserting behind all timers that expire no later keeps the list sorted |
| `TimerList.DueAreFirst` | src/Linux High Perfermance Server Program/codes/11/11-2lst_timer.h:119-143 | in a sorted list a timer is due exactly if it is among the leading ones |
| `TimerList.List.AddAfter` | src/Linux High Perfermance Server Program/codes/11/11-2lst_timer.h:146-171 | the walk puts the timer before the first later one after the starting place |
| `TimerList.List.AddTimer` | src/Linux High Perfermance Server Program/codes/11/11-2lst_timer.h:43-62 | the timer goes behind all that expire no later, so that equal expiries stay in order of arrival; null changes nothing |
| `TimerList.List.AdjustTimer` | src/Linux High Perfermance Server Program/codes/11/11-2lst_timer.h:63-87 | after one expiry was changed, the list is sorted again exactly when the timer does not expire before its predecessor; then it is where adding it anew would put it, and otherwise nothing moves |
| `TimerList.List.Extend` | src/Linux High Perfermance Server Program/codes/11/11-2lst_timer.h:63-87 | putting a timer off always leads back to a sorted, well linked list |
| `TimerList.EarlierStaysBehind` | src/Linux High Perfermance Server Program/codes/11/11-2lst_timer.h:63-87 | three timers at 1, 5 and 7, the last brought forward to 3 and adjusted by the program: nothing moves, and the list is not sorted |
| `TimerList.List.DelTimer` | src/Linux High Perfermance Server Program/codes/11/11-2lst_timer.h:88-118 | exactly the given timer is removed; null changes nothing |
| `TimerList.List.Tick` | src/Linux High Perfermance Server Program/codes/11/11-2lst_timer.h:119-143 | fires exactly the due timers in order, and keeps exactly the others, well linked |
| `TimerListRuns.Perform` | src/Linux High Perfermance Server Program/codes/11/11-2lst_timer.h:43-171 | one request to the list changes its entries as its step says and fires exactly the entries that are due |
| `TimerListRuns.Serve` | src/Linux High Perfermance Server Program/codes/11/11-2lst_timer.h:43-171 | any sequence of additions, extensions, removals and ticks keeps the list valid, leaves the entries of the run, and each tick fires exactly the entries that are due then, in order |
| `TimerListRuns.RunSorted` | src/Linux High Perfermance Server Program/codes/11/11-2lst_timer.h:43-171 | over any run of such steps the expiries stay sorted |
| `TimerListRuns.StaysUntilDue` | src/Linux High Perfermance Server Program/codes/11/11-2lst_timer.h:43-171 | a timer stays as long as no step removes it, puts it off or finds it due |
| `TimerListRuns.FiresWhenDue` | src/Linux High Perfermance Server Program/codes/11/11-2lst_timer.h:119-143 | the first tick that finds a timer due fires and removes it, whatever else happened before |
| `TimerAgreement.SplitOnce` | src/Linux High Perfermance Server Program/codes/11/11-2lst_timer.h:119-143 | there is one way to split expiries into the due ones in order and the others |
| `TimerAgreement.TickBoth` | src/Linux High Perfermance Server Program/codes/11/11-6time_heap.h:141-162 | if the live timers of a heap have the expiries of a list, with any number of cancelled timers beside them, then a tick of each fires the same sequence of expiries and leaves the same ones live |
| `TimerAgreementRuns.SameExpiries` | src/Linux High Perfermance Server Program/codes/11/11-6time_heap.h:111-162 | the live timers of the heap and the timers of the list have the same expiries whenever they are the same timers, in whatever order |
| `TimerAgreementRuns.FireBoth` | src/Linux High Perfermance Server Program/codes/11/11-6time_heap.h:141-162 | a tick of both containers fires exactly the timers that are waiting and due, each once, at the same expiries in the same order |
| `TimerAgreementRuns.ServeBoth` | src/Linux High Perfermance Server Program/codes/11/11-6time_heap.h:88-162 | from an empty heap and an empty list, over any run of additions, cancellations and ticks, both hold exactly the timers that are waiting, and every tick fires exactly the due ones in both, at the same expiries in the same order |
| `Tabs.NextTabIs` | example/C Programming Code/KRX51101.C:510-518 | the next tab stop is the first column behind this one that is a multiple of the width |
| `Tabs.NextTabSame` | example/C Programming Code/KRX51101.C:510-518 | there is no tab stop between a column and its next tab stop |
| `Tabs.Flush` | example/C Programming Code/KRX51101.C:537-561 | pending blanks are written as tabs and spaces of exactly their width; the loop ends |
| `Tabs.Tab` | example/C Programming Code/KRX51101.C:526-606 | the loop writes the marks of the text at their columns, for entab and detab, with and without the flag for initial blanks |
| `Tabs.WrittenRead` | example/C Programming Code/KRX51101.C:526-606 | reading back what was written gives the same characters with the same blanks in front, backspaces included |
| `Tabs.ConvertedTwice` | example/C Programming Code/krx51100.c:526-606 | converting with any flags what was converted with any others is converting the original: detab after entab is detab, entab after detab is entab |
| `Tabs.ExpandedHasNoTab` | example/C Programming Code/krx51100.c:537-545 | detab leaves no tab |
| `Tabs.EntabShortest` | example/C Programming Code/KRX51101.C:547-561 | without the flag for initial blanks, entab writes one of the shortest texts that show the same |
| `Tabs.ColumnsKept` | example/C Programming Code/KRX51101.C:526-606 | on a screen with these tab stops, every character stays in its column, whatever the flags |
| `Tabs.EntabbedBefore` | example/C Programming Code/KRX51101.C:537-561 | with the flag for initial blanks, those in front of the first visible character of a line are written as entab writes them |
| `Tabs.ExpandedBehind` | example/C Programming Code/KRX51101.C:537-545 | and those behind it as detab writes them, up to the end of the line |
| `Tabs.NextLine` | example/C Programming Code/KRX51101.C:576-580 | a newline begins a new line |
| `BlankStrip.TrimmedIs` | example/C Programming Code/krx11801.c:1-7 | what is trimmed off a line is its longest tail of spaces and tabs |
| `BlankStrip.StripLine` | example/C Programming Code/krx11801.c:1-7 | the ideal drops a line of spaces and tabs with its newline, and keeps every other line, trimmed |
| `BlankStrip.StripIs` | example/C Programming Code/krx11801.c:1-7 | reading character by character gives the ideal: every line trimmed, blank lines dropped |
| `BlankStrip.PassKeeps` | example/C Programming Code/krx11801.c:47-85 | a pass does not change the ideal of its text |
| `BlankStrip.PassWrites` | example/C Programming Code/krx11801.c:47-93 | a pass that does not fail writes the ideal |
| `BlankStrip.PassShortens` | example/C Programming Code/krx11801.c:62-73 | a pass that fails drops at least a whole queue of blanks |
| `BlankStrip.PassFails` | example/C Programming Code/krx11801.c:50-52 | a pass fails exactly when some line ends in more blanks than the queue holds |
| `BlankStrip.PassedRight` | example/C Programming Code/krx11801.c:15-21 | the three laws of one pass, for every text |
| `BlankStrip.QueueEnds` | example/C Programming Code/krx11801.c:28-34 | what the two indices into the ring say about the queue |
| `BlankStrip.Pass` | example/C Programming Code/krx11801.c:36-93 | the program with its ring of 1001 characters is that pass |
| `BlankStrip.StripAll` | example/C Programming Code/krx11801.c:15-21 | running passes until one succeeds ends, with exactly the ideal of the text |
| `UncommentSpec.StepCount` | example/C Programming Code/krx12311.c:373-543 | no step of the innermost automaton gains or loses a newline |
| `UncommentSpec.DecodedCount` | example/C Programming Code/krx12311.c:203-298 | decoding trigraphs keeps the newlines of the part that is read |
| `UncommentSpec.SplicedCount` | example/C Programming Code/krx12311.c:333-361 | taking out a backslash-newline pair leaves its newline owed |
| `UncommentSpec.LinesKept` | example/C Programming Code/krx12311.c:14-16 | for every text and every setting of the flags, as many newlines are written as are read; the line count is kept if and only if no newline stands in the part that is not read, and there is no such part exactly if no byte 255 has to be looked at twice |
| `UncommentSpec.LineLost` | example/C Programming Code/krx12311.c:14-16 | a backslash, a byte 255 and a newline: the newline is lost |
| `UncommentSpec.TrigraphTable` | example/C Programming Code/krx12311.c:235-275 | the eight trigraphs and what they stand for |
| `UncommentSpec.DecodedSpelled` | example/C Programming Code/krx12311.c:203-298 | the trigraph reader undoes the spelling of characters as trigraphs |
| `UncommentSpec.SplicedBroken` | example/C Programming Code/krx12311.c:333-361 | the backslash layer undoes breaking lines with backslash and newline, anywhere |
| `UncommentSpec.Meaning` | example/C Programming Code/krx12311.c:302-546 | so what is written for a text is what the automaton makes of its characters, however they were spelled and broken |
| `UncommentSpec.OtherKept` | example/C Programming Code/krx12311.c:374-391 | a character that is no slash and no quote is written behind the newlines that are owed |
| `UncommentSpec.SlashKept` | example/C Programming Code/krx12311.c:467-479 | a slash with a character behind it that is neither star nor slash is written with it, and the program goes on behind both |
| `UncommentSpec.SlashBeforeSlash` | example/C Programming Code/krx12311.c:467-479 | without the C99 flag, a slash before a slash is written, and the second may start a comment |
| `UncommentSpec.CommentReplaced` | example/C Programming Code/krx12311.c:467-524 | a comment, with lines broken anywhere in it, becomes one blank, or its newlines if it or the text before it owes some, and the program behind it is handled as if it stood alone |
| `UncommentSpec.LineCommentReplaced` | example/C Programming Code/krx12311.c:526-541 | with the C99 flag a comment to the end of the line becomes the newline, and those taken out of it |
| `UncommentSpec.LiteralKept` | example/C Programming Code/krx12311.c:393-465 | a string or character literal is copied, whatever it holds, up to the first quote that is not escaped; newlines taken out of it are owed |
| `UncommentSpec.OpenAtEnd` | example/C Programming Code/krx12311.c:545-546 | at the end of the text a slash is written, an open comment is dropped but for its newlines, and an open literal is written as far as it goes |
| `UncommentSpec.CommentMissed` | example/C Programming Code/krx12311.c:467-479 | behind a slash a quote opens no literal: after a division by the character constant of a double quote, comments are kept |
| `UncommentSpec.PlainKept` | example/C Programming Code/krx12311.c:302-546 | a text without slash and star together, with the C99 flag without two slashes together, and without escaped newlines, comes out unchanged, divisions and literals included |
| `Uncomment.State.PushBack` | example/C Programming Code/krx12311.c:188-192 | three of the four slots are enough |
| `Uncomment.State.GetL0` | example/C Programming Code/krx12311.c:203-298 | the resumable trigraph reader gives the next token of the decoded text, with at most two characters left for later, and makes progress |
| `Uncomment.State.NextChar` | example/C Programming Code/krx12311.c:317-328 | a character from the stack or the input is the next token, and the stack then has room |
| `Uncomment.ReadItem` | example/C Programming Code/krx12311.c:333-361 | one character through the backslash layer is the next item of the spliced text, or waits; progress is made unless the text is over |
| `Uncomment.HandleChar` | example/C Programming Code/krx12311.c:363-543 | one character, or the end, in the automaton with its owed newlines |
| `Uncomment.Process` | example/C Programming Code/krx12311.c:302-546 | the single pass ends, writes what three passes over the whole text would, and keeps the lines |
| `TelnetTables.FsmInit` | src/telnet_client/fsminit.c:15-40 | for every list of at most 255 transitions, each table entry is the last explicit match, else the first wildcard, else the end of the list |
| `TelnetTables.GovernsOne` | src/telnet_client/fsminit.c:15-40 | there is exactly one such entry |
| `TelnetTables.TtGoverned` | src/telnet_client/ttfsm.c:18-50 | for every state and byte the list leads where the protocol asks, and never to the entry that aborts |
| `TelnetTables.SubGoverned` | src/telnet_client/subfsm.c:14-25 | the same for the nested list |
| `Telnet.Client.constructor` | src/telnet_client/fsmbuild.c:20-31 | the tables hold the governing entries, both machines are at their start, and no terminal name is known |
| `Telnet.Client.TtWrite` | src/telnet_client/ttwrite.c:17-32 | driven by the tables, the loop does to the session what the rules say byte by byte, and the nested machine is at its start outside subnegotiation |
| `Telnet.Client.TakeByte` | src/telnet_client/ttwrite.c:23-31 | one byte |
| `Telnet.Client.SubOpt` | src/telnet_client/subopt.c:18-29 | one byte of a subnegotiation by the nested table, telling the name that is known, or none |
| `Telnet.Client.TtPutC` | src/telnet_client/ttputc.c:16-65 | a character for the terminal, in binary mode as it is, otherwise with carriage return and line feed in either order as one line end |
| `Telnet.TextShown` | src/telnet_client/ttputc.c:16-65 | outside binary mode, text is shown piece by piece without a reply: printable characters as they are, line ends as one, control characters by capability, or themselves if the terminal lacks it |
| `Telnet.CharacterShown` | src/telnet_client/ttputc.c:29-63 | one character after any other: a carriage return or line feed held back is shown by its capability if this one does not complete a line end |
| `Telnet.EscapeShown` | src/telnet_client/ttputc.c:39-58 | outside binary mode a doubled escape byte shows nothing of its own |
| `Telnet.SynchDrops` | src/telnet_client/ttputc.c:26-27 | in a synch nothing is shown, and each mark takes one off |
| `Telnet.Client.DoEcho` | src/telnet_client/do_echo.c:17-56 | the echo option is switched and confirmed unless it is already as asked |
| `Telnet.Client.DoNoGa` | src/telnet_client/do_noga.c:15-33 | the same for suppressing go-ahead |
| `Telnet.Client.DoTxBinary` | src/telnet_client/do_txbinary.c:16-32 | the same for receiving binary |
| `Telnet.Client.WillTxBinary` | src/telnet_client/will_txbinary.c:16-32 | the same for sending binary |
| `Telnet.Client.WillTermType` | src/telnet_client/will_termtype.c:20-45 | a request for the terminal type is agreed to exactly if it was before or a name is known; then both directions end up binary, having sent one message for each switch that changed, and otherwise it is refused and nothing changes; ending it leaves the binary paths; a request for what is already so changes nothing |
| `Telnet.ReceivedSound` | src/telnet_client/subend.c:15-20 | after every byte stream the nested machine is at its start whenever the client is outside a subnegotiation, and the terminal type is agreed on only when its name is known |
| `Telnet.WillAnswered` | src/telnet_client/ttfsm.c:40-43 | WILL and WONT, byte by byte: echo, suppressing go-ahead and binary are switched and confirmed if they change; where the terminal cannot be set the state that stays is told; every other option is refused |
| `Telnet.DoAnswered` | src/telnet_client/ttfsm.c:45-47 | DO and DONT, byte by byte: binary and the terminal type are switched and confirmed if they change, and every other option is refused |
| `Telnet.CommandIgnored` | src/telnet_client/ttfsm.c:26-33 | every other command without an option changes nothing |
| `Telnet.BlockAnswered` | src/telnet_client/subfsm.c:14-25 | a subnegotiation does nothing but tell the terminal name, once, if its first two bytes ask for it |
| `Telnet.AnsweredOnce` | src/telnet_client/do_txbinary.c:16-32 | announcing binary transmission, or its end, is answered exactly if it changes something; announcing it again changes nothing and is not answered |
| `Telnet.SwitchSettles` | src/telnet_client/do_noga.c:15-33 | each switched option ends up as asked for, confirmed by one message exactly if it was not so before; asking again changes nothing |
| `Telnet.EchoSettles` | src/telnet_client/do_echo.c:17-56 | asking again for echo changes nothing if and only if the terminal can be set or the option already is as asked; otherwise it is refused and stays |
| `Telnet.EchoRefusedAgain` | src/telnet_client/do_echo.c:17-56 | while the terminal cannot be set, every repetition is refused again with the same message |
| `Telnet.TermTypeAgreed` | src/telnet_client/will_termtype.c:20-45 | a request for the terminal type succeeds, and settles, if and only if it was agreed before or a name is known; then the option and both binary paths are on, with one message for each that was not and nothing else changed; otherwise it is refused |
| `Telnet.TermTypeRefusedAgain` | src/telnet_client/will_termtype.c:28-37 | without a name, every repetition is refused again with the same message |
| `Telnet.TermTypeEnded` | src/telnet_client/will_termtype.c:20-45 | taking it back ends the option and leaves the binary paths; asking again changes nothing |
| `Telnet.OneLineEnd` | src/telnet_client/ttputc.c:29-34 | carriage return and line feed, in either order, show as one line end |
| `Telnet.OneReplyPerRequest` | src/telnet_client/subtermtype.c:15-28 | over every byte stream, each name, and the null name too, is told exactly once for each subnegotiation, finished or not, whose first two bytes ask for it while it is the name known |
| `Telnet.NullPassedOn` | src/telnet_client/subtermtype.c:24 | over every byte stream, a null name is passed on if and only if a block asks while no name is known, that is before the server has asked for the option, or at any time if the environment has no name; otherwise the terminal's name is told exactly once for each block that asks |
| `Telnet.BeforeOfferIs` | src/telnet_client/will_termtype.c:29-31 | the part of the stream before the option is asked for is the longest one that does not ask for it |
| `Telnet.NullAtOnce` | src/telnet_client/subtermtype.c:24 | a subnegotiation that asks for the terminal type right after the start gets a null name, whatever the environment holds |
| `Telnet.ReplyIsOneBlock` | src/telnet_client/subtermtype.c:15-28 | the reply reads as one subnegotiation with the option, the answer and the name if and only if the name does not hold the escape byte |
| `Telnet.ReplyBytes` | src/telnet_client/subtermtype.c:20-26 | the reply, byte by byte |
| `Telnet.SoPutC` | src/telnet_client/soputc.c:14-39 | a byte for the server: doubled if it is the escape byte in binary mode; otherwise seven bits of it, or interrupt process, erase character, erase line or abort output for the keys set to them, in that order |
| `Telnet.SendAll` | src/telnet_client/soputc.c:17-22 | a sequence of bytes in binary mode |
| `Telnet.BinaryRoundTrip` | src/telnet_client/soputc.c:17-22 | whatever is sent in binary mode is shown as it was sent, without a reply and with the machine back at its start |
| `LinkedLoop.TwiceLoops` | src/data_struct/linked_list/loop.c:45 | a node at two places of the walk means that the list never ends |
| `LinkedLoop.AtMostAll` | src/data_struct/linked_list/loop.c:50-65 | a walk through different nodes is no longer than there are nodes |
| `LinkedLoop.Settles` | src/data_struct/linked_list/loop.c:69-70 | after some number of steps the walk is over, or is where it will be after twice as many |
| `LinkedLoop.HasLoop` | src/data_struct/linked_list/loop.c:46-67 | ends, and answers yes exactly if the list never ends |
| `LinkedLoop.HasLoop2` | src/data_struct/linked_list/loop.c:71-93 | ends, and answers yes exactly if the list never ends |
| `LinkedLoop.BothWays` | src/data_struct/linked_list/loop.c:46-93 | the two answers are the same |
| `Maze.DistinctFit` | src/linux_c_o_p/12_3.c:6 | no more cells can be pushed than the grid has, so the stack does not overflow |
| `Maze.AdjacentIs` | src/linux_c_o_p/12_3.c:71-82 | the neighbours of a cell are the four cells one step away |
| `Maze.Search.constructor` | src/linux_c_o_p/12_3.c:24-49 | the open cells are those that hold zero, no cell has a predecessor, and the stack is empty |
| `Maze.Search.Visit` | src/linux_c_o_p/12_3.c:51-57 | an open new cell is marked, gets its predecessor and is pushed; it is pushed this once |
| `Maze.Search.Expand` | src/linux_c_o_p/12_3.c:71-82 | afterwards every open neighbour of the cell has been pushed |
| `Maze.Search.PathBack` | src/linux_c_o_p/12_3.c:85-90 | the walk over predecessors ends, and what it prints is a path from the goal back to the start |
| `Maze.SearchedAll` | src/linux_c_o_p/12_3.c:91-92 | when nothing waits and the goal was not met, no path leads to it |
| `Maze.Search.Run` | src/linux_c_o_p/12_3.c:59-95 | for every grid and every layout of walls, the search ends, pushes no cell twice, and reports a path exactly if there is one |
| `Checksum.FoldIs` | src/ping/ping_win32.cpp:136-138 | two folds of a 32-bit sum leave no carry: a number below 65536 that differs by a multiple of 65535 and is zero for zero only |
| `Checksum.SumFits` | src/ping/ping_win32.cpp:126-135 | up to 131074 bytes the 32-bit sum does not overflow |
| `Checksum.SumOverflows` | src/ping/ping_win32.cpp:126-135 | one byte more, and it can |
| `Checksum.ComputeChecksum` | src/ping/ping_win32.cpp:124-139 | the loop computes the folded complement of the sum as the register keeps it, for every size |
| `Checksum.StampedIsZero` | src/ping/ping_win32.cpp:353-356 | with its checksum in place of an aligned zero word, a packet has checksum zero |
| `Checksum.ChangeIsSeen` | src/ping/ping_win32.cpp:124-139 | changing one aligned word leaves the checksum as it was if and only if the word stays the same, or one form of zero takes the place of the other in a packet with something else in it |
| `Checksum.OddIsPadded` | src/ping/ping_win32.cpp:130-135 | a packet of odd length has the checksum of the packet with a zero byte behind it |
| `Checksum.SumJoined` | src/ping/ping_win32.cpp:126-131 | the sum of a packet cut at a word is the sum of its parts |
| `Checksum.Stamp` | src/ping/ping_win32.cpp:353-356 | clearing the field and storing the checksum makes the checksum of the packet zero and changes nothing else |

## Left out

- OptimalExactly: for negative weights, which a frequency never is, only `BuiltOptimal` is proved, that fitting weights give an optimal tree.
- CreateHuffman: for fewer than two weights the source returns a pointer that was never assigned, so nothing is said about the result.
- RunsAreSafe: the semaphore wait and the locks are taken as succeeding; creating and detaching threads, their failures, and the release of the pool while workers still use it are not modelled.
- Serve: what the parser prints, the Host header's value, and socket errors are not modelled.
- AddTimer: memory release, the timers' callbacks and user data, and callbacks that change the container they are called from are not modelled for the wheel, the heap and the list.
- Tab: a list of tab stops in place of a common width, option parsing, and columns beyond the range of `unsigned long` are not modelled.
- Process: the warnings and the line numbers in them are not modelled.
- FsmInit: lists of more than 255 transitions, whose indices do not fit the table's bytes, are excluded.
- TtWrite: once a null name has been passed on the source's behaviour is undefined; the model then goes on with the next byte.
- TtPutC: sending characters to a script file, and the contents of terminal capabilities, are not modelled.
- HasLoop: positions are unbounded integers.
- The keyboard-input machine of the TELNET client, script files, terminal modes and connection set-up: terminal and network effects.
- Sockets, event loops, process pools, signals and file handling of the server programs: operating-system effects with little logic behind them.
- The second HTTP connection class (`codes/15/15-5http_conn.cpp`): its parser is a variant of the one modelled here.
- The other text exercises, the array and singly linked lists, the hash functions, generated code and scripts: short computations without state, with little to prove beyond what their code says.
