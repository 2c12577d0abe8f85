# libutl: its containers, modelled in Dafny

libutl is a C++ container library with three lock-based or lock-free structures shared between threads, and a vendored
entropy mixer. This project models, in Dafny, the parts whose correctness is least visible in the code, and proves what
the library promises of them:

- **Red/black tree** (`TreeShape`, `BinTreeNode`, `RBtreeNode`, `RBtree`). Real nodes with parent links, one shared and
  mutable leaf, rotations, position-swapping removal, both fix-up loops, searches and iterators. A ghost tree and a
  zipper (`Ctx`) say what the links spell out; each pointer change is shown to be a change of that tree. The proof says
  where the shared leaf's overwritten parent link still matters: `RemoveFixup` relies on it being the parent of the
  subtree that is one black node short, and the rotations that could disturb it do not.
- **RingBuffer** (`Tickets`, `RingBufferSteps`, `RingBufferRuns`, `RingBufferHistory`, `RingBufferOverrun`,
  `RingBuffer`). An interleaved step system over any number of threads and any capacity. What each call does to the
  slots and what it returns, conservation, the bound on reservations, and that no enqueuer is stuck hold in every run.
  That `_countLB` does not wrap, that `count()` is a lower bound, and that calls do not deadlock hold exactly for up to
  1,000,001 threads, or no capacity. For calls that do not overlap, a class refines a bounded queue.
- **ObjectRegistry** (`ObjectRegistry`, `ObjectRegistryRuns`, `ObjectRegistryHistory`). Reference counts under a
  read/write lock whose upgrade releases the lock first: each call adds or drops exactly its own reference, no entry is
  destroyed too early, and none whose last reference was dropped stays.
- **ConcurrentQueue** (`ConcurrentQueue`, `ConcurrentQueueRuns`, `ConcurrentQueueHistory`). A step system over a heap of
  nodes whose addresses are reused: linearizability of whole runs, no access to freed nodes although `_tail` may point to
  one, no leaks.
- **seed_seq_fe** (`Words`, `SeedSeq`). `param()` is the inverse of `seed()`, in both directions; every word of an input of
  any length matters, and all states occur equally often.
- **Containers**: `List` and its merge sort (`ListNode`, `ListSort`, `List`), `BitArray` (with `Bits`), `Deque`, `Heap`,
  `Hashtable`, `ObjectCache`. `Arithmetic`, `Counting` and `Objects` are shared.

Objects are values with an address, compared by an ordering that is any total preorder. Machine words are numbers with
explicit wrap-around where the code relies on it. A step system is a function from a state, a thread and a choice of the
scheduler to the next state; atomics and locks are sequentially consistent.

Where the code does not do what its interface suggests, the model follows the code and the contract gives the exact
condition:

- from 1,000,002 threads on, `RingBuffer::_countLB` can wrap around and calls can deadlock (`RingBufferOverrun.WrapIff`,
  `CountIff`, `DrainIff` and `NoDeadlockIff`);
- `param()` with zero mixing rounds does not undo `seed()` (`SeedSeq.ComesBackIff`);
- `List::sort` may leave the sentinel's `prev` wrong (`List.Sort`, `List.SortMisleads`), and `List::addBefore` at the front
  and `List::moveBefore` of the front node leave `_front` wrong;
- `BitArray::setSize` on an array initialized with no values has no number of bits (`BitArray.SizeWithoutBits`);
- the comment in `Deque::grow` that all blocks are in use when it is called is not true of blocks that hold objects
  (`Deque.GrowsFrontTouching`).

## Model

| member | source | states |
|---|---|---|
| TreeShape.Node.RotateLeft | ucc/BinTreeNode.cpp:271-298 | at the level of pointers, rotating left changes exactly the links of the node, its right child, that child's left child (which may be the shared leaf) and the parent |
| TreeShape.Node.RotateRight | ucc/BinTreeNode.cpp:302-329 | the mirror image |
| TreeShape.Node.SwapWith | ucc/BinTreeNode.cpp:195-267 | two nodes trade places and colours: every link of every node follows the exchange, both when one is the other's child and when they are apart |
| BinTreeNode.RotateLeft | ucc/BinTreeNode.cpp:271-298 | the links spell out the rotated tree, in an unchanged context; the shared leaf's parent link survives unless the inner subtree is empty |
| BinTreeNode.RotateRight | ucc/BinTreeNode.cpp:302-329 | the mirror image |
| BinTreeNode.TradePlaces | ucc/BinTreeNode.cpp:137-150 | the node to be removed and its successor exchange positions in the tree; no object moves from one node to another |
| BinTreeNode.Hang | ucc/BinTree.cpp:167-178 | a new node hung into an empty place makes exactly that place a one-node subtree |
| BinTreeNode.Unhang | ucc/BinTreeNode.cpp:152-174 | a node with an empty side is replaced by its only child, and the child's parent link, also when the child is the shared leaf, is the former parent |
| BinTreeNode.ChildSide | ucc/RBtreeNode.cpp:86-90 | with the shared leaf's parent link set by the removal, and a sibling that is a real node, the node at the focus is a left child or a right child, and never looks like both |
| BinTreeNode.LeftMost | ucc/BinTreeNode.cpp:32-40 | the first node of the subtree in order |
| BinTreeNode.RightMost | ucc/BinTreeNode.cpp:182-191 | the last node of the subtree in order |
| BinTreeNode.Next | ucc/BinTreeNode.cpp:44-80 | the in-order successor, null exactly at the last node; climbing and descending through real links |
| BinTreeNode.Prev | ucc/BinTreeNode.cpp:84-120 | the in-order predecessor, null exactly at the first node |
| BinTreeNode.NextThenPrev | ucc/BinTreeNode.cpp:44-120 | from a node, stepping to the next and then back to the previous returns to that node (stated on what Next and Prev promise) |
| BinTreeNode.PrevThenNext | ucc/BinTreeNode.cpp:44-120 | from a node, stepping to the previous and then on to the next returns to that node |
| BinTreeNode.Remove | ucc/BinTreeNode.cpp:124-178 | the requested node itself leaves the tree; the order of all other nodes stays, and the child that moved up points to its new parent |
| BinTreeNode.RotLShape | ucc/BinTreeNode.cpp:271-298 | a heap that differs by a left rotation's pointer changes has the rotated tree's shape, node by node |
| BinTreeNode.RenamedShape | ucc/BinTreeNode.cpp:195-267 | a heap in which two nodes have traded places has the shape of the tree with the two renamed |
| BinTreeNode.TradeInorder | ucc/BinTreeNode.cpp:137-150 | after the exchange with the successor, dropping the node gives the same sequence as dropping it before |
| BinTreeNode.UnhangInorder | ucc/BinTreeNode.cpp:152-174 | taking a node with an empty side out of the tree takes exactly that node out of the sequence |
| RBtreeNode.UncleRecoloredAdded | ucc/RBtreeNode.cpp:23-29 | recolouring parent, uncle and grandparent leaves at most the grandparent red under a red parent, and keeps black heights and order |
| RBtreeNode.LoweredLeftAdded | ucc/RBtreeNode.cpp:34-39 | turning an inner grandchild into an outer one keeps the state of the repair, and makes the next case apply |
| RBtreeNode.LiftedLeftAdded | ucc/RBtreeNode.cpp:40-43 | recolouring and rotating the grandparent ends the violation and keeps black heights and order |
| RBtreeNode.AddFixupLeft | ucc/RBtreeNode.cpp:18-45 | one round of the loop for a left parent moves strictly nearer to the root, keeps the order, and leaves at most one red-red pair |
| RBtreeNode.AddFixupRight | ucc/RBtreeNode.cpp:46-68 | the mirror image |
| RBtreeNode.AddFixup | ucc/RBtreeNode.cpp:10-70 | rebalancing after an insertion ends with a red/black tree of the same nodes in the same order, whatever the tree |
| RBtreeNode.LackingSibling | ucc/RBtreeNode.cpp:88-93 | where a subtree is one black node short, the sibling is not the shared leaf, so the side of the short node is never in doubt |
| RBtreeNode.SunkLeftLacking | ucc/RBtreeNode.cpp:94-102 | a red sibling is rotated above the parent: the new sibling is black and the subtree is short as before |
| RBtreeNode.SiblingRedLacking | ucc/RBtreeNode.cpp:103-109 | with two black nephews the sibling turns red and the parent's subtree is the one that is short |
| RBtreeNode.SiblingTurnedLeftLacking | ucc/RBtreeNode.cpp:113-119 | a red inner nephew is turned outward without changing what is missing |
| RBtreeNode.RaisedLeftRedBlack | ucc/RBtreeNode.cpp:120-124 | with a red outer nephew the last rotation makes good the missing black node: the tree is red/black again, in the same order |
| RBtreeNode.SinkLeft | ucc/RBtreeNode.cpp:97-101 | this rotation does not disturb the shared leaf's parent link, on which the rest of the round relies |
| RBtreeNode.RemoveFixupLeft | ucc/RBtreeNode.cpp:90-126 | one round for a left child ends with a red/black tree, or leaves a smaller measure and the short node's parent link right |
| RBtreeNode.RemoveFixupRight | ucc/RBtreeNode.cpp:127-158 | the mirror image |
| RBtreeNode.RemoveFixup | ucc/RBtreeNode.cpp:74-161 | rebalancing after a removal, which may start at the shared leaf, ends with a red/black tree of the same nodes in the same order |
| RBtreeNode.LackingPainted | ucc/RBtreeNode.cpp:160 | at the root, or at a red node, painting the node black makes good what is missing |
| RBtreeNode.UnhangRedBlack | ucc/BinTreeNode.cpp:152-174 | taking out a red node with an empty side keeps the rules; taking out a black one leaves its child exactly one black node short |
| RBtreeNode.RenamedRedBlack | ucc/RBtreeNode.cpp:165-176 | because the colours are exchanged too, trading places keeps every red/black rule |
| RBtree.RBtree.constructor | ucc/RBtree.cpp:97-106 | the tree starts with only the sentinel, black, and is empty as a collection |
| RBtree.RBtree.FindInsertionPoint | ucc/BinTree.cpp:386-438 | for inserting, the empty place before everything not less than the key, or null exactly when an equal object exists and equals are not allowed; otherwise the first node not less than the key, never null |
| RBtree.RBtree.FindFirstMatch | ucc/BinTree.cpp:338-382 | from a matching node, the first matching node in order |
| RBtree.RBtree.FindLastMatch | ucc/BinTree.cpp:479-523 | from a matching node, the last matching node in order |
| RBtree.RBtree.FindNode | ucc/BinTree.cpp:527-576 | null exactly when nothing matches, and otherwise any, the first or the last match, as asked |
| RBtree.SearchSides | ucc/BinTree.cpp:386-438 | comparing one node settles the whole sequence on one side of it, including duplicates |
| RBtree.HoleLowerBound | ucc/BinTree.cpp:386-438 | where a search for the insertion point ends, the nodes before are all less and those after are not |
| RBtree.RBtree.ResetRoot | ucc/RBtree.cpp:81-93 | from any node of the tree, the real root is found again and painted black, with the leaf |
| RBtree.RBtree.HangAndFix | ucc/BinTree.cpp:167-187 | one new node appears at the found place of the order, every other node keeps its place, and the tree is red/black with a black root |
| RBtree.RBtree.Add | ucc/BinTree.cpp:152-190 | rejects exactly when an equal object exists and the tree is not a multiset; otherwise the object is put before all equal ones, and all invariants hold |
| RBtree.RBtree.Insert | ucc/BinTree.cpp:194-224 | the object goes right before the iterator's node, and all invariants hold, if it fits there and, in a tree that is no multiset, has no equal |
| RBtree.RBtree.HoleBefore | ucc/BinTree.cpp:203-214 | hanging left of a node, or right of its predecessor, is the place right before it |
| RBtree.RBtree.RemoveNode | ucc/BinTree.cpp:580-618 | for any node but the sentinel: exactly this node goes, all others keep their objects and order, and every red/black rule holds |
| RBtree.RBtree.RemoveKey | ucc/BinTree.cpp:240-252 | removes the first match, or in a tree that is no multiset the only one, so that none is left; and reports false exactly when there is none |
| RBtree.OnlyMatch | ucc/BinTree.cpp:240-252 | a tree that is no multiset has no two equal objects, so a match is the only one, and taking it out leaves none |
| RBtree.RBtree.RemoveIt | ucc/BinTree.cpp:256-279 | the iterator moves to the removed node's successor, which stands where the removed node stood |
| RBtree.RBtree.Begin | ucc/BinTree.h:208-211 | the first node in order |
| RBtree.RBtree.End | ucc/BinTree.h:230-233 | the sentinel |
| RBtree.RBtree.Forward | ucc/BinTreeIt.cpp:36-57 | dist places forward in order, and no further than the sentinel |
| RBtree.RBtree.Reverse | ucc/BinTreeIt.cpp:75-96 | dist places back in order, and no further than the first node; so it undoes Forward |
| RBtree.HeightBound | ucc/RBtree.h:17-20 | 2 to the height is at most (n + 2) squared for n objects and the sentinel: the height is at most 2 log2(n + 2) |
| RBtree.AddedSorted | ucc/BinTree.cpp:152-190 | a node put where the search ended keeps the sequence sorted, with the sentinel last |
| RBtree.AddedHeld | ucc/BinTree.cpp:152-190 | the sequence of objects gains the new one before everything that is not less |
| RBtree.WithoutSorted | ucc/BinTree.cpp:580-618 | taking any object's node out keeps the sequence sorted, ending in the sentinel |
| RBtree.SentinelRight | ucc/BinTree.cpp:583-590 | a root that is an object's node has a real right child, because of the sentinel |
| Tickets.WrapKeepsSlot | ucc/RingBuffer.h:169 | masking a position that has wrapped around the word names the same slot as the unbounded position would |
| Tickets.NineDivides | ucc/RingBuffer.h:169 | 9 is invertible modulo every power of two |
| Tickets.SlotsDistinct | ucc/RingBuffer.h:199 | two tickets less than a full round apart never share a slot |
| Tickets.WindowVisits | ucc/RingBuffer.h:169-176 | in a window of at most one round every slot is visited at most once |
| RingBufferSteps.EnqTicketStep | ucc/RingBuffer.h:169 | taking an enqueue ticket keeps the upper part of the invariant, and the lower part too where it holds, for every interleaving |
| RingBufferSteps.EnqStoreStep | ucc/RingBuffer.h:170-176 | a successful compare-exchange fills exactly one slot with exactly one value; a failing one changes nothing |
| RingBufferSteps.DeqTakeStep | ucc/RingBuffer.h:200-205 | a successful exchange takes exactly one value out of exactly one slot |
| RingBufferSteps.DeqReserveStep | ucc/RingBuffer.h:192-196 | the reservation of a dequeue always keeps the upper part of the invariant, and it keeps the lower part if and only if _countLB is not already zero |
| RingBufferSteps.StepInv | ucc/RingBuffer.h:157-210 | every atomic step of every thread keeps the upper part of the invariant (slots, tickets, _countUB), even after a wrap; and the whole invariant, except exactly the decrement of _countLB from zero |
| RingBufferSteps.InitInv | ucc/RingBuffer.h:105-137 | the buffer starts in the invariant |
| RingBufferRuns.RunUpper | ucc/RingBuffer.h:157-210 | every state of every run, with any number of threads and whether _countLB has wrapped or not, satisfies the upper part of the invariant |
| RingBufferRuns.Conservation | ucc/RingBuffer.h:157-210 | in every such state: stored values are those taken plus those in slots; the filled slots are at most the reservations, which are at most _countUB and never exceed _countMax; the tail is never more than _countMax ahead of the head |
| RingBufferRuns.SpareStep | ucc/RingBuffer.h:192-196 | even when all threads are about to reserve a dequeue or to back out of one, some published value is not reserved; every step from a state that satisfies the invariant keeps this |
| RingBufferRuns.UnderflowNeeds | ucc/RingBuffer.h:192-196 | for _countLB to wrap, 1,000,000 threads must be backing out, and there must be at least 1,000,002 threads and some capacity |
| RingBufferRuns.RunInv | ucc/RingBuffer.h:157-210 | in every run with at most 1,000,001 threads, or no capacity, or fewer than 1,000,000 threads backing out at once, every state satisfies the invariant |
| RingBufferRuns.Safety | ucc/RingBuffer.h:44-50 | while the whole invariant holds: count() is at most the filled slots, which are at most _countUB, and the head is never past the tail |
| RingBufferRuns.BlockedEnqueuer | ucc/RingBuffer.h:170-176 | in every run, an enqueuer that finds its slot full has a dequeuer with a ticket for that slot whose next step empties it |
| RingBufferRuns.BlockedDequeuer | ucc/RingBuffer.h:200-205 | while the whole invariant holds, a dequeuer that finds its slot empty has an enqueuer with a ticket for that slot whose next step can fill it |
| RingBufferRuns.StepWork | ucc/RingBuffer.h:157-210 | every step that changes the state, other than a new call, brings some call strictly nearer to its return |
| RingBufferRuns.NoDeadlock | ucc/RingBuffer.h:157-210 | while the whole invariant holds and a call is under way, some thread can take a step that does so |
| RingBufferRuns.Drain | ucc/RingBuffer.h:157-210 | from every state that satisfies the whole invariant there is a schedule without new calls that brings all calls to return; it lets a thread that backs out go first where _countLB would wrap |
| RingBufferRuns.QuietCounts | ucc/RingBuffer.h:44-50 | with no call under way, _countUB is exactly the number of values held, and so is count() while the whole invariant holds |
| RingBufferHistory.CallDone | ucc/RingBuffer.h:155-210 | in every run, with any number of threads: an enQ that returns true has put exactly its caller's value into exactly one slot, a deQ that returns true has taken exactly the value it returns out of exactly one slot, each strictly between call and return; one that returns false has changed no slot, and has read _countUB >= _countMax, or _countLB at its offset or below |
| RingBufferHistory.LoneEnq | ucc/RingBuffer.h:155-181 | an enQ that overlaps with no other call returns true exactly when fewer than _countMax values are held |
| RingBufferHistory.LoneDeq | ucc/RingBuffer.h:185-210 | a deQ that overlaps with no other call, in a state that satisfies the whole invariant, returns true exactly when a value is held |
| RingBufferHistory.LoneReturns | ucc/RingBuffer.h:155-210 | a call that overlaps with no other one comes nearer to its return with every step, while the whole invariant holds |
| RingBufferOverrun.Overrun | ucc/RingBuffer.h:190-196 | for every number of threads from 1,000,002 up and every capacity, a run in which _countLB wraps, after which count() exceeds the capacity |
| RingBufferOverrun.WrapIff | ucc/RingBuffer.h:190-196 | there is a run in which _countLB wraps around if and only if there are at least 1,000,002 threads and the capacity is not zero |
| RingBufferOverrun.CountIff | ucc/RingBuffer.h:44-50 | count() never exceeds the number of values in the slots, in any reachable state, if and only if there are at most 1,000,001 threads or no capacity |
| RingBufferOverrun.Deadlock | ucc/RingBuffer.h:187-210 | with 1,000,002 threads or more and any capacity, a run to a state in which a dequeuer waits at an empty slot, nobody enqueues, and no schedule without new calls lets the dequeuer return |
| RingBufferOverrun.DrainIff | ucc/RingBuffer.h:157-210 | from every reachable state the calls under way can all be brought to return, if and only if there are at most 1,000,001 threads or no capacity |
| RingBufferOverrun.NoDeadlockIff | ucc/RingBuffer.h:157-210 | in every reachable state with a call under way some thread can take an effective step, if and only if there are at most 1,000,001 threads or no capacity |
| RingBuffer.RingBuffer.constructor | ucc/RingBuffer.h:102-137 | the number of slots is a power of two, at least the capacity and less than twice it |
| RingBuffer.RingBuffer.EnQ | ucc/RingBuffer.h:155-181 | for calls that do not overlap: fails exactly when the queue holds _countMax values, and otherwise appends |
| RingBuffer.RingBuffer.DeQ | ucc/RingBuffer.h:185-210 | fails exactly when the queue is empty, and otherwise removes and returns its first value |
| RingBuffer.RingBuffer.Count | ucc/RingBuffer.h:44-50 | the number of values in the queue |
| RingBuffer.RingBuffer.ForEach | ucc/RingBuffer.h:214-226 | visits exactly the contents, in first-in first-out order, and ends although positions wrap around the word |
| RingBuffer.Enqueued | ucc/RingBuffer.h:169-176 | the slot of the next ticket is empty, and storing there keeps every other ticket's slot |
| RingBuffer.Dequeued | ucc/RingBuffer.h:199-205 | the slot of the oldest ticket holds the first value, and emptying it makes it the free slot one round later |
| ObjectRegistry.StepInv | ucc/ObjectRegistry.cpp:161-216 | every step of every thread keeps the invariant, with the lock upgrade as a release followed by an acquire |
| ObjectRegistry.RemDropStep | ucc/ObjectRegistry.cpp:202-203 | the first decrement ends the call exactly when another reference that is not in transit remains; otherwise it opens the window in which the count is one too low |
| ObjectRegistry.RemDropAgainStep | ucc/ObjectRegistry.cpp:209-215 | under the write lock nobody is in that window, so the count is exactly the number of references, and the entry is to be erased exactly when this was the last one |
| ObjectRegistry.AddInsertStep | ucc/ObjectRegistry.cpp:168-186 | the second search under the write lock makes the new entry the only one of its class |
| ObjectRegistry.RemFindStep | ucc/ObjectRegistry.cpp:196-199 | searching for the object that is being removed finds the very entry that the reference is to |
| ObjectRegistry.EraserFree | ucc/ObjectRegistry.cpp:212-215 | when an entry is about to be erased, neither clients nor calls under way refer to it |
| ObjectRegistry.Referenced | ucc/ObjectRegistry.cpp:202-206 | a reference keeps its entry in existence, and its count above zero outside the window |
| ObjectRegistry.LocksKept | uts/RWlock.h:105-290 | readers and a writer exclude each other across every acquire, release and upgrade |
| ObjectRegistryRuns.RunInv | ucc/ObjectRegistry.cpp:161-216 | every state of every run, with any number of threads, satisfies the invariant, and every reference a client holds is to an entry that exists |
| ObjectRegistryRuns.ReferencesExist | ucc/ObjectRegistry.cpp:161-216 | every reference is to an existing entry; the count is the references less the threads between the first decrement and the increment; and no two entries are equivalent |
| ObjectRegistryRuns.DestroysUnreferenced | ucc/ObjectRegistry.cpp:212-215 | an entry is only ever destroyed when no client and no call under way refers to it |
| ObjectRegistryRuns.NoUseAfterDestroy | ucc/ObjectRegistry.cpp:161-216 | no step touches a destroyed entry, and no decrement finds the count at zero |
| ObjectRegistryRuns.AddReturnsEquivalent | ucc/ObjectRegistry.cpp:161-187 | when add() is about to return, the entry that it returns exists and has the key that the call carries |
| ObjectRegistryHistory.AddDone | ucc/ObjectRegistry.cpp:161-187 | in every run, every call of add() that returns has added exactly one reference, to an entry that exists at its return and has the key that was passed, and its caller is given exactly this reference |
| ObjectRegistryHistory.RemoveDone | ucc/ObjectRegistry.cpp:191-216 | in every run, every call of remove() that returns was given a reference that a client held, and has dropped exactly this one and no other |
| ObjectRegistryRuns.IdleEntries | ucc/ObjectRegistry.cpp:191-216 | with no call under way the entries are exactly those that clients refer to, with exact counts: dropping the last reference destroyed the entry |
| ObjectRegistryRuns.NoDeadlock | ucc/ObjectRegistry.cpp:161-216 | whenever a call is under way, some thread can take a step that brings its call strictly nearer to its return |
| ObjectRegistryRuns.Drain | ucc/ObjectRegistry.cpp:161-216 | from every reachable state there is a schedule without new calls that brings all calls to return, after which the entries are exactly those that clients hold references to, with exact counts: dropping the last reference does get an entry destroyed |
| ConcurrentQueue.InitInv | ucc/ConcurrentQueue.h:69-75 | the constructor's one dummy node satisfies the invariant |
| ConcurrentQueue.StepInv | ucc/ConcurrentQueue.h:92-150 | every step of every thread keeps the invariant, including when freed addresses are handed out again |
| ConcurrentQueue.LinksInv | ucc/ConcurrentQueue.h:107 | linking a new node extends the chain from the head by exactly that node, even while the head moves |
| ConcurrentQueue.AdvancesInv | ucc/ConcurrentQueue.h:141 | advancing the head hands exactly the old dummy node to the thread that will free it |
| ConcurrentQueue.DeletesInv | ucc/ConcurrentQueue.h:147 | freeing that node touches neither the chain nor any other thread's node |
| ConcurrentQueueRuns.RunInv | ucc/ConcurrentQueue.h:92-150 | every state of every run satisfies the invariant |
| ConcurrentQueueRuns.NoFreedAccess | ucc/ConcurrentQueue.h:92-150 | no step reads, writes or frees a node that is not allocated |
| ConcurrentQueueRuns.DanglingTail | ucc/ConcurrentQueue.h:107-108 | a reachable state in which _tail points to a freed node: the previous property is not empty |
| ConcurrentQueueRuns.Linearizes | ucc/ConcurrentQueue.h:92-150 | linking a node appends the caller's value to the abstract queue, reading next takes its front or finds it empty, and no other step changes it |
| ConcurrentQueueRuns.ReturnsTaken | ucc/ConcurrentQueue.h:140-149 | the value that a successful deQ returns is the one it took from the abstract queue |
| ConcurrentQueueHistory.FifoHistory | ucc/ConcurrentQueue.h:92-150 | in every run, the steps that link a node or read next form, in their order, a legal history of a sequential first-in first-out queue that starts empty and leads to exactly the values that are contained |
| ConcurrentQueueHistory.CallLinearized | ucc/ConcurrentQueue.h:92-150 | in every run, every call that returns has exactly one step in that history, strictly between its call and its return: enQ's appends the value that was passed, a successful deQ's takes the value that is returned, and a failing deQ's finds the queue empty |
| ConcurrentQueueRuns.NoLeak | ucc/ConcurrentQueue.h:92-150 | with no call under way the allocated nodes are exactly those of the queue and its dummy, and _tail points to the last |
| ConcurrentQueueRuns.NoDeadlock | ucc/ConcurrentQueue.h:98-104 | whenever a call is under way, some thread can take a step that brings its call strictly nearer to its return |
| ConcurrentQueueRuns.Drain | ucc/ConcurrentQueue.h:92-150 | from every reachable state there is a schedule without new calls that brings all calls to return, after which the allocated nodes are exactly those of the queue and its dummy |
| ConcurrentQueueRuns.ForEach | ucc/ConcurrentQueue.h:154-166 | visits exactly the abstract queue, in order |
| ConcurrentQueueRuns.Destroy | ucc/ConcurrentQueue.h:79-88 | frees every node, each of them once |
| Words.XorShiftTwice | include/randutils.hpp:228 | shifting by half the width and xoring undoes itself |
| Words.OddInverse | include/randutils.hpp:340-341 | every odd word has order dividing 2^32, so its power 2^32 - 1 is its inverse |
| Words.PowTruncated | include/randutils.hpp:347 | an exponent may be truncated to a word when the base is odd, so any number of components is covered |
| SeedSeq.FastExp | include/randutils.hpp:230-244 | repeated squaring computes the power, wrapping around the word |
| SeedSeq.UnhashHash | include/randutils.hpp:305-311 | the reverse of hash() undoes it, given the constant after it |
| SeedSeq.UnmixMix | include/randutils.hpp:312-316 | the reverse of mix() undoes it, given its second argument |
| SeedSeq.UnrowsRows | include/randutils.hpp:326-329 | the nested loops run backwards undo the nested loops |
| SeedSeq.AllHashes | include/randutils.hpp:346-347 | seeding makes count squared hashes, the number that param() starts from |
| SeedSeq.UnfilledFilled | include/randutils.hpp:318-325 | undoing the fill gives back the input, followed by the zeros it was padded with |
| SeedSeq.UnmixedMixedWords | include/randutils.hpp:338-374 | one round of param() undoes one mixing of any input no longer than the state |
| SeedSeq.MixedWordsUnmixed | include/randutils.hpp:338-374 | and mixing undoes one round of param(), from any state |
| SeedSeq.ParamAfterSeed | include/randutils.hpp:338-376 | for every number of components, every number of rounds from one up and every input no longer than the state, param() after seed() returns the input padded with zeros |
| SeedSeq.SeedAfterParam | include/randutils.hpp:280-296 | seed() after param() returns the state: with exactly count words, seeding is a bijection |
| SeedSeq.SeedInjective | include/randutils.hpp:330-332 | with any fixed further words, and any rounds, no two choices of the words that fill the state give the same seeded state |
| SeedSeq.SeedOnto | include/randutils.hpp:172-178 | and every state is the outcome of some choice: so all states occur equally often for inputs longer than the state |
| SeedSeq.EveryWordMatters | include/randutils.hpp:195-197 | varying any one word of an input, however long it is, and however many components and rounds there are, varies the seeded state |
| SeedSeq.FurtherWordSpreads | include/randutils.hpp:330-332 | varying a word beyond the number of components varies every component of the mixed state |
| SeedSeq.WordReachesAll | include/randutils.hpp:326-329 | an input word influences only its own component before its turn as a source in the nested loops, and every component after it |
| SeedSeq.HashReachesLow | include/randutils.hpp:305-311 | hash() takes a difference in the upper half of a word into the lower half |
| SeedSeq.MixReachesLow | include/randutils.hpp:312-316 | and so does mix() for its first argument |
| SeedSeq.NoRounds | include/randutils.hpp:287-288 | with zero mixing rounds, and any number of components, some input that fills the state does not come back, as seed() still mixes once |
| SeedSeq.LastChanges | include/randutils.hpp:326-329 | mixing two inputs that differ only in the last component but one gives states that differ in the last component |
| SeedSeq.ComesBackIff | include/randutils.hpp:280-289 | param() after seed() gives back every input that is no longer than the state if and only if there is a mixing round, or no component |
| SeedSeq.SeedSeqFe.MixEntropy | include/randutils.hpp:301-333 | the in-place loops compute the mixed words, whatever the length of the input |
| SeedSeq.SeedSeqFe.Seed | include/randutils.hpp:280-289 | the state after the input has been mixed and stirred |
| SeedSeq.SeedSeqFe.Stir | include/randutils.hpp:291-296 | the state mixed into itself |
| SeedSeq.SeedSeqFe.Param | include/randutils.hpp:337-376 | the backward loops compute the inverse, so after seeding with at most count words they return them, padded |
| ListNode.ListNode.AddAfter | ucc/ListNode.cpp:10-20 | a chain of doubly linked nodes gains exactly this node, right behind the given one |
| ListNode.ListNode.AddBefore | ucc/ListNode.cpp:24-34 | or right before it |
| ListNode.ListNode.Remove | ucc/ListNode.cpp:38-50 | the chain loses exactly this node, which is left unlinked |
| ListSort.MergedSorted | ucc/List.cpp:532-568 | merging two sorted sequences gives a sorted one |
| ListSort.MergedClass | ucc/List.cpp:543 | equal objects keep their order, those of the first sequence before those of the second |
| ListSort.InsertionSorts | ucc/List.cpp:488-528 | sorting by insertion is a stable sort |
| ListSort.MergeSorts | ucc/List.cpp:612-626 | merging stable sorts of two halves is a stable sort of the whole |
| List.List.PushFront | ucc/List.cpp:271-278 | the new node becomes the first |
| List.List.PushBack | ucc/List.cpp:282-292 | the new node becomes the last before the sentinel |
| List.List.AddBefore | ucc/List.cpp:255-267 | the links are right in every case; the list stays valid if and only if the node is not added at the front, where _front is set to the wrong node |
| List.List.RemoveNode | ucc/List.cpp:631-650 | exactly that node goes, and the front follows |
| List.List.MoveBefore | ucc/List.cpp:73-103 | the node goes to its new place; the list stays valid if and only if it was not the front node that moved back |
| List.List.FindSuccessor | ucc/List.cpp:503-521 | the search from the right stops behind the last object that is not greater |
| List.List.InsertionSort | ucc/List.cpp:488-528 | the in-place loop leaves the nodes fully linked in the order of a sort by insertion |
| List.List.Merge | ucc/List.cpp:532-568 | two chains become one, forward and backward links included; only the sentinel's prev is not touched |
| List.List.Middle | ucc/List.cpp:578-605 | the walk from both ends counts the nodes and ends with n/2 + 1 of them on the left |
| List.List.MergeSort | ucc/List.cpp:572-627 | the chain is a stable sort of the nodes, with every prev link right but the sentinel's, which points to the last node of the part sorted last |
| List.List.Sort | ucc/List.cpp:57-69 | the list is a stable sort of the original nodes, with the objects in ascending order of the ordering itself; it is fully valid if and only if some node of the part that is sorted last was not below any node |
| List.BackRightIff | ucc/List.cpp:565-567 | the sentinel points back to the last node of the sorted list exactly when that part has such a node |
| List.FirstIsGreatest | ucc/List.cpp:607-627 | with more than 16 nodes, the first of them above all others, it has none |
| List.SortMisleads | ucc/List.cpp:57-69 | a list of 17 objects whose sentinel points to the wrong node after sorting |
| Bits.BitShl | ucc/BitArray.cpp:204 | which bits a left shift leaves, those beyond the word being lost |
| BitArray.MaskBits | ucc/BitArray.cpp:188-192 | the mask of a value inside one word has exactly the bits of the value's place |
| BitArray.GetSameValue | ucc/BitArray.cpp:186-195 | masking and shifting one word reads exactly the value's bits |
| BitArray.GetSpanValue | ucc/BitArray.cpp:196-207 | combining two words reads exactly the bits of a value that spans them |
| BitArray.SetSameWritten | ucc/BitArray.cpp:228-237 | writing into one word changes the value's bits and no others |
| BitArray.SetSpanWritten | ucc/BitArray.cpp:238-252 | writing across two words changes the value's bits and no others |
| BitArray.WrittenContents | ucc/BitArray.cpp:212-253 | changing the bits of one value changes that value and no other |
| BitArray.ContentsUniform | ucc/BitArray.cpp:260-272 | filling all words with zeros or ones makes every value zero or the greatest |
| BitArray.BitArray.constructor | ucc/BitArray.cpp:123-137 | the word array is as long as the values need, and all values are zero; with no values there is no number of bits |
| BitArray.BitArray.Get | ucc/BitArray.cpp:171-208 | the value at the index, for 1 to 63 bits per value, with both words inside the array |
| BitArray.BitArray.Set | ucc/BitArray.cpp:212-253 | the value at the index becomes val and every other value stays |
| BitArray.BitArray.SetAll | ucc/BitArray.cpp:257-279 | every value becomes val, by either shortcut as by the loop |
| BitArray.BitArray.SetSize | ucc/BitArray.cpp:141-167 | values that remain are kept, and those beyond the old words are zero; the array is still one of values if and only if it has a number of bits or no values, which an array initialized with no values lacks |
| BitArray.SizeWithoutBits | ucc/BitArray.cpp:126-127 | an array that was initialized with no values has none of the values that setSize() gives it a size for |
| Deque.MaskAround | ucc/Deque.cpp:63 | masking with the number of blocks less one goes around the ring |
| Deque.FullAtBack | ucc/Deque.cpp:150-155 | the condition for growing at the back holds exactly when the position behind the last object would meet the begin |
| Deque.FullAtFront | ucc/Deque.cpp:117-123 | the condition for growing at the front holds exactly when the begin would enter the block of that position |
| Deque.GrowsBackTouching | ucc/Deque.cpp:272 | when pushBack() grows the ring, every block has an object in it |
| Deque.GrowsFrontTouching | ucc/Deque.cpp:272 | when pushFront() grows it, every block has an object in it if and only if the end position is not at the start of a block |
| Deque.GrowsEmpty | ucc/Deque.cpp:117-123 | the first pushFront() on a new deque grows from one block to two, although no block has an object in it |
| Deque.MappedGrown | ucc/Deque.cpp:287-304 | the block pointers copied from the begin block on, with new blocks behind them, hold the same slots in the same order |
| Deque.Deque.Get | ucc/Deque.cpp:55-65 | the object at that index of the queue |
| Deque.Deque.PushBack | ucc/Deque.cpp:134-158 | appends, or turns an equal object away unless the collection is a multiset; unused slots stay null, and the number of blocks doubles exactly when the ring is full up to its last slot |
| Deque.Deque.PushFront | ucc/Deque.cpp:106-130 | likewise at the front; the number of blocks doubles exactly when the begin would enter the block of the end position |
| Deque.Deque.PopFront | ucc/Deque.cpp:205-217 | removes and returns the first object, and null exactly when there is none |
| Deque.Deque.PopBack | ucc/Deque.cpp:221-233 | removes and returns the last object, and null exactly when there is none |
| Deque.Deque.RemoveFront | ucc/Deque.cpp:172-184 | removes the first object, if any |
| Deque.Deque.RemoveBack | ucc/Deque.cpp:188-201 | removes the last object, if any |
| Deque.Deque.Grow | ucc/Deque.cpp:269-308 | called with the end in the last block of the ring: twice the blocks, in ring order from the begin block on, the queue unchanged and its end where it was behind the begin |
| Deque.Deque.AdvanceEnd | ucc/Deque.cpp:149-156 | the end moves on by one slot, and the blocks double exactly where it would catch up with the begin |
| Deque.Deque.RetreatBegin | ucc/Deque.cpp:116-123 | the begin moves back by one slot, and the blocks double exactly where it would run into the end's block |
| Heap.RootGreatest | ucc/Heap.cpp:119-129 | the root is a greatest object |
| Heap.MovedUp | ucc/Heap.cpp:237-242 | moving the hole up leaves only the moved object possibly too great |
| Heap.MovedDown | ucc/Heap.cpp:264-265 | moving the hole down to the greater child leaves only the moved object possibly too small |
| Heap.ReplacedOrder | ucc/Heap.cpp:212-225 | with the last object put in a removed one's place, one direction of repair suffices, and it is the one chosen |
| Heap.Heap.SwapUp | ucc/Heap.cpp:230-244 | restores the heap order upward and keeps the contents |
| Heap.Heap.SwapDown | ucc/Heap.cpp:248-268 | restores the heap order downward and keeps the contents |
| Heap.Heap.Add | ucc/Heap.cpp:34-51 | adds one object, or turns an equal one away unless the heap is a multiset |
| Heap.Heap.RemoveIdx | ucc/Heap.cpp:198-226 | removes exactly the object at the index, wherever it is, and keeps the heap order |
| Heap.Heap.Pop | ucc/Heap.cpp:118-129 | removes and returns a greatest object, and null exactly when there is none |
| Heap.Heap.Remove | ucc/Heap.cpp:132-142 | removes an object equal to the key, and reports false exactly when there is none |
| Heap.PopsDescend | ucc/Heap.cpp:118-129 | popping until the heap is empty yields its contents in descending order |
| Heap.PopAll | ucc/Heap.cpp:118-129 | popping until nothing is left empties the heap and gives all its objects, in descending order |
| Hashtable.OnlySlot | ucc/Hashtable.cpp:604-641 | looking only into the slot that the hash names finds an equal object exactly when a scan of the whole table would |
| Hashtable.FindInsertionPoint | ucc/dlist.cpp:334-357 | the first object not below the key, or the last one; equal exactly when the list has an equal one |
| Hashtable.AddToSlot | ucc/Hashtable.cpp:151-197 | an object becomes a list of at least two, and lists grow in order, unless there is an equal object and the table is not a multiset |
| Hashtable.NotYetThere | ucc/Hashtable.cpp:573-594 | while the table is rehashed no object meets an equal one, so none is turned away |
| Hashtable.Hashtable.Find | ucc/Hashtable.cpp:604-641 | agrees with a scan of everything in the table, and locates an equal object |
| Hashtable.Hashtable.Add | ucc/Hashtable.cpp:140-201 | adds one object, or turns an equal one away unless the table is a multiset; every object stays in the slot that its hash names; the table grows first exactly when it has reached its limit, to the next size and its limit |
| Hashtable.Hashtable.RemoveAt | ucc/Hashtable.cpp:645-670 | removes exactly that object; a list left with one object becomes that object |
| Hashtable.Hashtable.Remove | ucc/Hashtable.cpp:374-384 | removes an object equal to the key, and reports false exactly when there is none |
| Hashtable.Hashtable.Grow | ucc/Hashtable.cpp:549-600 | rehashes everything without loss, duplication or recursive growth, into the first size of the list that is large enough, and does nothing if the table is that large |
| Hashtable.Hashtable.Rehome | ucc/Hashtable.cpp:587-593 | the objects of one old slot are all added to the new table |
| ObjectCache.UsedNow | ucc/ObjectCache.cpp:98-107 | moving the object that is used now to the front keeps the list in order of last use |
| ObjectCache.AgreeRemoved | ucc/ObjectCache.cpp:143-164 | taking an object out of both table and list keeps them in agreement, back-pointers included |
| ObjectCache.CachedIff | ucc/ObjectCache.cpp:36-50 | a key is in the table exactly when an object with that key is in the list |
| ObjectCache.ObjectCache.AccessNode | ucc/ObjectCache.cpp:98-107 | the object moves to the front and is recorded as used now, unless the cache is frozen |
| ObjectCache.ObjectCache.AddCache | ucc/ObjectCache.cpp:111-139 | adds an object in front unless its key is cached, and records its use; a full cache first drops the object whose last recorded use is furthest back |
| ObjectCache.ObjectCache.Access | ucc/ObjectCache.cpp:15-32 | a cached object moves to the front, another one is added, either is recorded as used now, and a frozen cache ignores both |
| ObjectCache.ObjectCache.Find | ucc/ObjectCache.cpp:35-50 | finds exactly the cached keys; what it finds moves to the front and is recorded as used now, unless caller or cache says otherwise |
| ObjectCache.ObjectCache.RemoveCache | ucc/ObjectCache.cpp:142-164 | removes the object with that key and no other, and reports false exactly when there is none |

## Left out

- RingBuffer is not claimed to be a first-in first-out queue for overlapping calls: two operations on one slot may exchange values.
- RingBuffer.RingBuffer.constructor: the capacity is at most 2^63, since the doubling loop of the code does not end above that.
- RingBuffer, ConcurrentQueue: C++ memory orders weaker than sequential consistency, and the race on `next` that they allow.
- RingBuffer: the value that stands for an empty slot is never enqueued, by type; `& _mask` is written as a remainder.
- RingBuffer: 2^62 threads or more, with which _countUB could wrap as well.
- ObjectRegistry: the tree of entries is a map with an arbitrary matching search, as the red/black tree promises; counts above 2^64 references.
- Ownership: who deletes contained objects, and the objects' own contents, which no container changes.
- BinTreeIt::set, HeapIt::set and DequeIt::set, which replace an object in place; serialization, copying, stealing and clearing of containers.
- BinTreeBfsIt: it does not visit the sentinel's left subtree when the sentinel is not the root.
- RBtree.RBtree.RemoveNode: does not model removing the sentinel, which no caller does.
- List.List.Sort: does not model sorting an empty list, where the code follows a null pointer; other sorting algorithms.
- List.List.FindSuccessor: starts from nodes that have no predecessor before the first, as in every call that mergeSort() makes.
- Hashtable: the lists of a slot are sequences of objects, so the link surgery in dlist.cpp, which is that of ListNode, is not repeated; the load limit is computed without floating-point rounding, and that the sizes are primes is not claimed.
- Hashtable: addOrFind, whose result is unset on some paths, addOrUpdate, excise and the iterator.
- ObjectCache: the hash table is a map from keys to cached objects, as Hashtable.Find and Hashtable.Add promise; the dirty flag is not modelled, and the capacity is at least one.
- BitArray: that a value exposed by a growing setSize() is zero if some of its bits are in the last old word, which stale padding bits may prevent; compare(), which sees those bits.
- Deque, Heap: iterators; Heap's array grows by one slot at a time instead of by Vector's increment.
- SeedSeq: words of other widths than 32 bits, where seeding keeps a 32-bit hash constant and param() does not; generate(), which is one-way; the rest of randutils.hpp.
- SeedSeq.SeedSeqFe.Stir: reads a copy of the state, as each word is read just before the same word is overwritten.
- Array, Vector, SkipList, streams, sockets, timers and the application framework.
