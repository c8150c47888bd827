# TSL: data structures, allocators and the megaqueue ring, modelled in Dafny

TSL is a low-level C library for trading systems. This project models its intrusive red-black
tree, slab allocator, log-structured allocator, megaqueue ring, fixed heap, deadline timers,
chained hash table and circular lists, and proves what callers rely on: invariants that every
operation keeps, exact effects on the contents, and safety over every run.

Check it with `dafny verify dfyconfig.toml`.

## How the model is built

| component | files | shape |
|---|---|---|
| red-black tree | `RbSpec`, `RbOps`, `RbTheorems`, `RbLinks`, `RbTree` | Tree values with a zipper for the position of a loop; the rebalancing as functions on them, with the colour, black-height and in-order proofs; memory snapshots that say when node fields spell out a tree; a class that rewrites `left`, `right`, `parent` and `color` of node objects in `while` loops and is proved equal to the functions. |
| slab allocator | `SlabSpec`, `SlabState`, `SlabKeeps`, `SlabRuns`, `Slab` | Pages as addresses, free-list links as words in the memory that clients write too, one class with its page pool and any number of allocators. Every method promises one of the steps of `SlabRuns`, whose theorems are about all runs of such steps. |
| megaqueue | `Megaqueue`, `MegaqueueCalls`, `MegaqueueProgress` | A state machine in which every load and every store of `head`, `tail` and `_delete`, and every access to a word of a slot, is a step of its own; unbounded history counters beside the wrapped ones. What it never does wrong is proved over all interleavings, and so is what each call answers; what it gets done is proved by runs in which one thread works alone. |
| log-structured allocator | `LogSpec`, `LogTheorems`, `LogAlloc` | The header bytes of every cell and the log head; regions are what one meets by following the headers from cell 0. |
| fixed heap, timers | `HeapSpec`, `HeapTheorems`, `FixedHeap`, `TimerSpec`, `Timers` | Sifting as functions on sequences; an array sifted in place; the timer manager over it and over a circular list of its timers' entries. |
| lists, hash table | `Lists`, `HashSpec`, `HashTable` | Entries with `prev` and `next` fields rewritten in place; the table is an array of such lists, and is compared with one scan of everything inserted and not deleted. |
| shared | `Arith`, `Results` | Remainders, powers of two and bit masks; optional values and result codes. |
| callers | `Clients` | Methods that make a tree, a slab class, a log, a timer manager and a hash table and use them, so that what the contracts ask of callers can be had. |

A method that changes state is proved equal to a function of the old state (or to a relation on
it); the theorems are about those functions. Callbacks (comparisons, hashes, a timer's function),
clocks and memory contents handed over by the operating system are parameters.

## Where code and documentation disagree, or a promise fails

- A node may be inserted uninitialised according to `tsl/rbtree.c:47`, but insertion never clears
  `left` and `right` (`tsl/rbtree.c:404-454`). `RbLinks.AttachLinks` shows that the
  result is a tree exactly when both arrive clear, and `RbTree.SingleLinks` that the first node of a
  tree needs its parent link clear too.
- `rb_tree_new_ex` does not set `rightmost` (`tsl/rbtree.c:129-131`), so what is said about it
  starts with the first insertion.
- `allocator_new` counts pages as if they had no header. `Slab.NewPromise` says for which item
  sizes the requested number of items is there anyway; `Slab.NewPromiseBroken` has one for which
  it is not. When the pool runs dry it keeps the pages it has taken: `Slab.SlabClass.New` says that
  then, and only then, the whole pool is lost.
- `allocator_new` does not store its flags. The model has "may not grow" as a field fixed at creation.
- The wrap of `logalloc_alloc` writes over the headers behind the log head without looking at
  them, even when the allocation then fails. `LogSpec.WrapExact` says exactly when that loses
  nothing; `LogTheorems.WrapOverlap` has a run after which a region in use is handed out again.
- The number of cells of `logalloc_alloc` ignores the two header bytes of a region.
  `LogAlloc.PayloadFits` says exactly for which sizes the client's bytes stay inside their cells.
- `logalloc_reference` answers "busy" for a free region where `tsl/logalloc.h:110-111` says "invalid",
  and `logalloc_free` leaves the caller's pointer as it is, against `tsl/logalloc.h:124`.
- `fixed_heap_remove_item` only sifts down. `HeapTheorems.RemoveHeap` says exactly when the
  result is a heap; `HeapTheorems.RemoveBreaks` has one that is not.
- The timers' comparison cuts a 64-bit difference down to 32 bits. `TimerSpec.WindowExact` gives
  the exact window in which it is right; `TimerSpec.FarApart` has a due timer that does not fire.
- Arming on a full heap fails but leaves the timer in the live list, and arming a live timer destroys
  the list: list and heap agree afterwards exactly when there was room and the timer was not live
  (`Timers.TimerManager.AddTimer`). `TimerClient.ArmOnFull` and `TimerClient.ArmTwice` have the two failures.
- `timer_manager_fire_next` answers "empty" after the last firing, though it fired.
- `ht_find` answers "not found" when a comparison fails, whatever the failure. `HashSpec.SearchExact`
  says exactly when the first node that the comparison accepts is found all the same.
- `list_splice` takes the head of an empty list for an item, so that it joins the items of both
  lists exactly when neither is empty (`Lists.Splice`).
- Using `megaqueue_read_advance` together with `megaqueue_delete_advance` lets the counters cross in
  every ring that can hold a message (`Megaqueue.BoundedExactly`).

## Model

| member | source | states |
|---|---|---|
| `RbTheorems.FindCorrect` | tsl/rbtree.c:169-211 | On a sorted tree a search returns the node stored under the key, and fails exactly when there is none. |
| `RbTheorems.InsertCorrect` | tsl/rbtree.c:395-458 | Inserting a new key keeps red-black, sorted and duplicate-free, and adds exactly that node, between all smaller and all greater keys. |
| `RbTheorems.InsertDuplicate` | tsl/rbtree.c:421-427 | A duplicate key leaves the tree as it was. |
| `RbOps.InsertFixKeepsOrder` | tsl/rbtree.c:325-393 | Rebalancing after an insertion keeps the in-order sequence of nodes. |
| `RbOps.InsertFixRedBlack` | tsl/rbtree.c:325-393 | Rebalancing a tree whose only fault is a red node under a red parent gives a red-black tree. |
| `RbOps.RotationKeepsOrder` | tsl/rbtree.c:260-322 | A rotation keeps the in-order sequence. |
| `RbTheorems.RemoveCorrect` | tsl/rbtree.c:719-789 | Removing any member keeps every invariant and leaves the in-order sequence minus exactly that node. |
| `RbOps.RemoveFixKeepsOrder` | tsl/rbtree.c:640-717 | Rebalancing after a removal keeps the in-order sequence. |
| `RbOps.RemoveFixRedBlack` | tsl/rbtree.c:640-717 | Rebalancing a subtree that is one black short gives a red-black tree. |
| `RbOps.RotateSiblingInv` | tsl/rbtree.c:651-663 | In the removal loop the sibling is never missing; rotating a red one up leaves a black sibling and the same deficit. |
| `RbTheorems.RemoveAtOrder` | tsl/rbtree.c:730-778 | Taking out a node, or putting its successor in its place, drops exactly that entry. |
| `RbTheorems.HeightBound` | tsl/rbtree.c:188-199 | A red-black tree of n nodes has height at most 2 log2(n + 1). |
| `RbTheorems.StepBound` | tsl/rbtree.c:188-199 | A descent in a red-black tree of n nodes takes at most twice log2(n + 1) steps, the logarithm rounded down. |
| `RbTheorems.EveryRun` | tsl/rbtree.c:395-789 | Over every run of insertions and removals the invariants hold and the tree holds exactly the entries of a finite map. |
| `RbTheorems.EveryRunFinds` | tsl/rbtree.c:169-211 | Over every run a search agrees with that map. |
| `RbLinks.RotateLinks` | tsl/rbtree.c:260-322 | The pointer writes of a rotation turn fields that spell out a tree into fields that spell out the rotated one. |
| `RbLinks.AttachLinks` | tsl/rbtree.c:429-447 | Hanging a node in an empty place gives a tree exactly when it arrives with clear child links. |
| `RbTree.SingleLinks` | tsl/rbtree.c:406-412 | The first node makes up the tree exactly when it arrives with all three links clear. |
| `RbLinks.BypassLinks` | tsl/rbtree.c:742-768 | Linking a node's only child to its parent gives the tree without the node. |
| `RbLinks.SwapLinks` | tsl/rbtree.c:601-638 | The pointer writes of the node swap put one node in the place of the other. |
| `RbTree.RbTree.constructor` | tsl/rbtree.c:120-134 | The tree is empty and valid; `rightmost` holds what the memory held. |
| `RbTree.RbTree.RotateLeft` | tsl/rbtree.c:261-290 | The exact field writes of a left rotation. |
| `RbTree.RbTree.RotateRight` | tsl/rbtree.c:293-322 | The exact field writes of a right rotation. |
| `RbTree.RbTree.Rotate` | tsl/rbtree.c:260-322 | Either rotation turns the subtree at its position into the rotated one, the rest of the tree as before. |
| `RbTree.RbTree.RecolourUp` | tsl/rbtree.c:355-364 | Red uncle: the recoloured subtree, two levels up. |
| `RbTree.RbTree.TurnInner` | tsl/rbtree.c:366-373 | Inner node: rotated to the outer side. |
| `RbTree.RbTree.TurnOuter` | tsl/rbtree.c:375-385 | Outer node: recoloured and rotated above the grandparent. |
| `RbTree.RbTree.InsertRound` | tsl/rbtree.c:340-386 | One round keeps the loop invariant, leads to the same final tree and comes closer to the root. |
| `RbTree.RbTree.InsertRebalance` | tsl/rbtree.c:325-393 | The loop ends with the fields spelling out the rebalanced tree. |
| `RbTree.RbTree.Find` | tsl/rbtree.c:169-211 | The node under the key, or not found; one step for each level down to where the key is or would be, which are at most 2 log2(n + 1). |
| `RbTree.RbTree.Insert` | tsl/rbtree.c:395-458 | The node fields spell out the tree with the node inserted, parent links included, and `rightmost` is the last node; a duplicate is answered "busy" with nothing changed. |
| `RbTree.RbTree.FindOrInsert` | tsl/rbtree.c:460-531 | Same tree, `rightmost` and result node as a search followed by an insertion when nothing was found; otherwise the candidate is as it was and may be offered again. |
| `RbTree.RbTree.Minimum` | tsl/rbtree.c:537-547 | The first node, in order, of a subtree. |
| `RbTree.RbTree.Maximum` | tsl/rbtree.c:549-559 | The last node, in order, of a subtree. |
| `RbTree.RbTree.SuccessorAt` | tsl/rbtree.c:561-578 | The in-order successor of the node at a position. |
| `RbTree.RbTree.PredecessorAt` | tsl/rbtree.c:580-597 | The in-order predecessor of the node at a position. |
| `RbTree.RbTree.FindSuccessor` | tsl/rbtree.h:310-339 | The exact next node in order, or null behind the last. |
| `RbTree.RbTree.FindPredecessor` | tsl/rbtree.h:344-372 | The exact previous node in order, or null before the first. |
| `RbTree.RbTree.Walk` | tsl/rbtree.h:274-339 | Going from the minimum through successors visits every node once, in key order, and ends. |
| `RbTree.RbTree.GetRightmost` | tsl/rbtree.h:257-269 | From the first insertion on: the greatest node, or null when the tree is empty. |
| `RbTree.RbTree.RotateRedSibling` | tsl/rbtree.c:653-663 | Removal, red sibling: rotated above the parent. |
| `RbTree.RbTree.BlackSibling` | tsl/rbtree.c:651-663 | Removal: after a red sibling is rotated up, the sibling is a black node and never null, and the deficit is the same. |
| `RbTree.RbTree.LiftToParent` | tsl/rbtree.c:665-676 | Removal, black nephews: the deficit moves up to the parent. |
| `RbTree.RbTree.RotateNearNephew` | tsl/rbtree.c:678-694 | Removal, red near nephew only: rotated above the sibling. |
| `RbTree.RbTree.RotateFarNephew` | tsl/rbtree.c:696-709 | Removal, red far nephew: the sibling is rotated above the parent and the deficit is gone. |
| `RbTree.RbTree.RemoveRound` | tsl/rbtree.c:650-712 | One round keeps the invariant of parent, side and deficit and the same final tree, and comes closer to the end. |
| `RbTree.RbTree.RemoveRebalance` | tsl/rbtree.c:640-717 | The loop ends with the fields spelling out the rebalanced tree. |
| `RbTree.RbTree.Bypass` | tsl/rbtree.c:742-768 | The node is out of its place; its child, the child's parent and the side are known. |
| `RbTree.RbTree.SwapNode` | tsl/rbtree.c:601-638 | The successor's node stands in the place of the removed one, with its colour. |
| `RbTree.RbTree.RemoveLinks` | tsl/rbtree.c:730-782 | The fields spell out the tree without the node; `rightmost` moves to the predecessor when it was the node. |
| `RbTree.RbTree.Remove` | tsl/rbtree.c:719-789 | The whole removal: the tree without exactly the node, `rightmost` the last node, and the node's links clear. |
| `SlabSpec.CarveTest` | tsl/alloc/allocator.c:494-499 | The end-of-page test of lazy carving succeeds exactly below the page's capacity. |
| `SlabSpec.InitOk` | tsl/alloc/allocator.c:275-299 | A fresh page has its capacity free and a one-element list ending in the carve marker. |
| `SlabSpec.PopOk` | tsl/alloc/allocator.c:483-507 | Taking a returned item keeps header, links and meaning of the page in agreement. |
| `SlabSpec.CarveOk` | tsl/alloc/allocator.c:490-507 | Carving the next item keeps them in agreement. |
| `SlabSpec.PushOk` | tsl/alloc/allocator.c:535-540 | Returning an item keeps them in agreement. |
| `SlabSpec.TakeLive` | tsl/alloc/allocator.c:483-507 | Handing out makes exactly one item live, and it was not. |
| `SlabSpec.GiveLive` | tsl/alloc/allocator.c:535-540 | Returning makes exactly that item not live. |
| `SlabSpec.ClientWriteOk` | tsl/alloc/allocator.c:483-507 | Whatever a client writes anywhere into its item, the free list stays intact. |
| `SlabSpec.AllFreeExact` | tsl/alloc/allocator.c:542-542 | The free count equals the capacity exactly when no item of the page is live. |
| `SlabSpec.FullExact` | tsl/alloc/allocator.c:509-509 | The free count is 0 exactly when all `max_items` distinct items are live. |
| `SlabState.LiveInside` | tsl/alloc/allocator.c:483-515 | A live item lies inside its page, clear of the header. |
| `SlabState.LiveDisjoint` | tsl/alloc/allocator.c:483-515 | Live items, of whatever allocators, are disjoint byte ranges. |
| `SlabState.MaskFindsPage` | tsl/alloc/allocator.c:530-533 | Masking the address of a live item gives its own page. |
| `SlabState.FirstEnough` | tsl/alloc/allocator.c:464-475 | The first page of the list has a free item exactly when any page of the allocator has. |
| `SlabKeeps.TakenKept` | tsl/alloc/allocator.c:483-505 | The writes of handing out an item, the mark on the next uncarved one included, touch no live item. |
| `SlabKeeps.GivenKept` | tsl/alloc/allocator.c:535-538 | The write of returning an item touches no other live item. |
| `SlabKeeps.AcquiredKeeps` | tsl/alloc/allocator.c:407-430 | Growing changes no item size, growth flag, live item's owner or data, and loses no page. |
| `SlabRuns.DeletesExact` | tsl/alloc/allocator.c:583-603 | The page at which deletion stops shows exactly whether anything is held from the allocator. |
| `SlabRuns.StepGood` | tsl/alloc/allocator.c:328-614 | Every call keeps the held addresses exactly the live items, and every word clients have written into them. |
| `SlabRuns.EveryRun` | tsl/alloc/allocator.c:328-614 | In every run of new, alloc, free, delete and client writes, over any number of allocators, the addresses handed out and not returned are exactly the live items, each still at its address, with every word written into them still there. |
| `SlabRuns.EveryRunDisjoint` | tsl/alloc/allocator.c:453-559 | In every run what clients hold lies inside a page, clear of its header, and is pairwise disjoint. |
| `SlabRuns.EveryRunConserves` | tsl/alloc/allocator.c:156-201 | In every run each page is in the pool, without live items, or in exactly one allocator's list, unless and only unless a failed creation has lost it. |
| `Slab.SlabClass.constructor` | tsl/alloc/allocator.c:112-154 | All pages are in the pool and no allocator exists. |
| `Slab.SlabClass.AddSlab` | tsl/alloc/allocator.c:318-324 | The first page of the pool becomes a fresh page at the front of one allocator's list, all else as before. |
| `Slab.SlabClass.Grow` | tsl/alloc/allocator.c:407-430 | Fails with no effect exactly when the pool is empty; otherwise one page moves. |
| `Slab.SlabClass.Prepare` | tsl/alloc/allocator.c:464-481 | Looking at the first page only, and growing when it is full, finds a free item exactly when one can be had; item sizes, flags, live items and their data stay as they are, and no page is lost. |
| `Slab.SlabClass.UnlinkItem` | tsl/alloc/allocator.c:483-507 | The head of the free list is handed out, carving the next item when needed; only this page changes. |
| `Slab.SlabClass.Alloc` | tsl/alloc/allocator.c:453-519 | Succeeds exactly when a page has a free item, or the allocator may grow, the pool has a page and items fit; then exactly one new item is live, all others stay at their addresses with their data, and the new one comes from the first page if that has a free item and else from the pool's first page; no page is lost; a failure without growth changes nothing; no other allocator changes. |
| `Slab.SlabClass.ClientWrite` | tsl/alloc/allocator.c:483-515 | A client's write of any aligned word of a live item changes that word and nothing else. |
| `Slab.SlabClass.Free` | tsl/alloc/allocator.c:521-559 | Exactly that item is no longer live, all others stay at their addresses with their data, and no page is lost; its page goes to the pool exactly when it was the last live item there and the allocator has another page, and to the front of the allocator's list otherwise; no other allocator changes. |
| `Slab.SlabClass.ReleaseFree` | tsl/alloc/allocator.c:571-614 | Pages without live items go to the pool from the front on, up to the first page in use; the allocator's item size and flag stay. |
| `Slab.SlabClass.Delete` | tsl/alloc/allocator.c:571-614 | Releases a prefix of the pages, in order, none of which has a live item; succeeds with all of them gone, or is "busy" with the next page in use: it succeeds exactly when nothing is held from the allocator. No live item, item size or other allocator changes, and no page is lost. |
| `Slab.SlabClass.New` | tsl/alloc/allocator.c:328-404 | Succeeds exactly when an item fits into a page without header and the pool has the pages; takes exactly those, with as many free items as their capacity; loses exactly the whole pool when that has too few pages, and nothing otherwise; no live item changes. |
| `Slab.SlabClass.GiveUp` | tsl/alloc/allocator.c:376-404 | A creation that ran out of pages leaves all pages of the pool behind, lost to the pool and to every allocator. |
| `Slab.PagesLeast` | tsl/alloc/allocator.c:347-373 | The number of pages is the least that holds the requested items with, to a page, as many as fit into it without a header. |
| `Slab.NewPromise` | tsl/alloc/allocator.c:347-373 | A new allocator has at least the requested number of items, for every number, exactly when a page loses no item to its header (`New` states the number of free items it leaves). |
| `Slab.NewPromiseBroken` | tsl/alloc/allocator.c:347-373 | 256 items of 16 bytes are given one page with 252. |
| `Megaqueue.FullExact` | tsl/megaqueue/megaqueue_priv.h:9-18 | The full test is true exactly when all slots but one are in use. |
| `Megaqueue.EmptyExact` | tsl/megaqueue/megaqueue_priv.h:20-29 | The empty test is true exactly when nothing was unread as the head was loaded. |
| `Megaqueue.DeleteExact` | tsl/megaqueue/megaqueue_priv.h:31-40 | The delete test is true exactly when nothing was to be deleted as the tail was loaded. |
| `Megaqueue.ProducerAnswers` | tsl/megaqueue/megaqueue_priv.h:45-97 | The last load of the full test decides, with nothing else changed: a call for a slot gets slot `heads` modulo the ring, and an advance goes on, exactly when fewer than all slots but one are in use; else "no space". |
| `Megaqueue.ReaderAnswers` | tsl/megaqueue/megaqueue_priv.h:99-175 | The last load of the empty test decides, with nothing else changed: a call for a message gets slot `tails` modulo the ring, and an advance goes on, exactly when a message was unread as the head was loaded; else "empty". |
| `Megaqueue.DeleterAnswers` | tsl/megaqueue/megaqueue_priv.h:180-201 | A deletion goes on exactly when a message was read and not given back as the tail was loaded. |
| `Megaqueue.ProducerSlotFree` | tsl/megaqueue/megaqueue_priv.h:45-71 | The slot the producer writes never holds a message that is unread or not given back. |
| `Megaqueue.ReaderSlotCurrent` | tsl/megaqueue/megaqueue_priv.h:99-122 | The slot the reader reads holds the next message in order. |
| `Megaqueue.Publishes` | tsl/megaqueue/megaqueue_priv.h:76-97 | The store of the head publishes exactly one message and keeps the invariant. |
| `Megaqueue.Delivers` | tsl/megaqueue/megaqueue_priv.h:154-175 | The store of the tail ends exactly one message and keeps the invariant. |
| `Megaqueue.GivesBack` | tsl/megaqueue/megaqueue_priv.h:127-149 | The store of the delete counter by the legacy reader keeps the invariant. |
| `Megaqueue.Deletes` | tsl/megaqueue/megaqueue_priv.h:180-201 | The store of the delete counter by the deleter keeps the invariant. |
| `Megaqueue.StepKeepsInv` | tsl/megaqueue/megaqueue_priv.h:9-201 | Every single load, store or slot access by any thread keeps the invariant. |
| `Megaqueue.HeldAdvanceSucceeds` | tsl/megaqueue/megaqueue_priv.h:76-97 | A producer that was given a slot never finds the ring full when it advances. |
| `Megaqueue.HeldReadAdvanceSucceeds` | tsl/megaqueue/megaqueue_priv.h:127-175 | A reader that was given a slot never finds the ring empty when it advances. |
| `Megaqueue.EveryRunBounded` | tsl/megaqueue/megaqueue_priv.h:9-201 | Under every interleaving delete <= tail <= head <= delete + object_count - 1, with the shared counters as their remainders; with a deleter, and in legacy mode without one. |
| `Megaqueue.EveryRunDelivers` | tsl/megaqueue/megaqueue_priv.h:45-201 | Under every interleaving the reader gets exactly the published messages, uncorrupted and in order, and whole when it reads every word; each word it gets is the one the producer wrote there, if it wrote any. |
| `MegaqueueCalls.CallStages` | tsl/megaqueue/megaqueue_priv.h:45-201 | Under every interleaving a call goes through its loads and stores in order, and is over after at most five steps of its own. |
| `MegaqueueCalls.AskAnswer` | tsl/megaqueue/megaqueue_priv.h:45-71 | Under every interleaving `megaqueue_next_slot` gives the slot behind the last message exactly when there was room at its last load. |
| `MegaqueueCalls.AdvanceAnswer` | tsl/megaqueue/megaqueue_priv.h:76-97 | Under every interleaving `megaqueue_advance` goes on exactly when there was room at its second load. |
| `MegaqueueCalls.AdvancePublishes` | tsl/megaqueue/megaqueue_priv.h:87-91 | When it does, its fourth step publishes one message: what is in the slot behind the last one, as the producer wrote it. |
| `MegaqueueCalls.ReadAskAnswer` | tsl/megaqueue/megaqueue_priv.h:99-122 | Under every interleaving `megaqueue_read_next_slot` gives the slot of the next message exactly when one was unread as it loaded the head. |
| `MegaqueueCalls.ReadSees` | tsl/megaqueue/megaqueue_priv.h:20-29 | What the reader sees of the head is how many messages were published when it loaded it. |
| `MegaqueueCalls.ReadAdvanceAnswer` | tsl/megaqueue/megaqueue_priv.h:127-175 | Under every interleaving passing a message goes on exactly when one was unread as it loaded the head. |
| `MegaqueueCalls.ReadAdvancePasses` | tsl/megaqueue/megaqueue_priv.h:138-143 | When it does, its fourth step ends one message. |
| `MegaqueueCalls.ReadAdvanceGivesBack` | tsl/megaqueue/megaqueue_priv.h:142-143 | In legacy mode its fifth step gives that message's slot back. |
| `MegaqueueCalls.DeleteAnswer` | tsl/megaqueue/megaqueue_priv.h:180-201 | Under every interleaving a deletion goes on exactly when a message was read and not given back as it loaded the tail. |
| `MegaqueueCalls.DeleteGivesBack` | tsl/megaqueue/megaqueue_priv.h:191-195 | Its first step sees how many messages were read; its fourth gives one slot back. |
| `MegaqueueProgress.ProducerPublishes` | tsl/megaqueue/megaqueue_priv.h:45-97 | From every reachable state between the producer's calls, with room, a producer alone can publish any message as the next one. |
| `MegaqueueProgress.ReaderGetsAll` | tsl/megaqueue/megaqueue_priv.h:99-175 | From every reachable state between the reader's calls, a reader alone can get all published messages, whole and in order. |
| `MegaqueueProgress.DeleterGivesAllBack` | tsl/megaqueue/megaqueue_priv.h:180-201 | From every reachable state between the deleter's calls, a deleter alone can give back every message that was read. |
| `MegaqueueProgress.SentIsReceived` | tsl/megaqueue/megaqueue_priv.h:45-175 | A message sent is received whole, behind all that was published before it. |
| `Megaqueue.MixedCrosses` | tsl/megaqueue/megaqueue_priv.h:124-201 | With read_advance and delete_advance together, in a ring of any size above one, there is a run in which the delete counter overtakes the tail. |
| `Megaqueue.BoundedExactly` | tsl/megaqueue/megaqueue_priv.h:124-201 | In a ring of any size above one, all runs keep the counters in bounds exactly when the two are not used together. |
| `LogSpec.ScanStops` | tsl/alloc/logalloc.c:206-227 | The scan stops at a boundary: behind enough free regions, or at a region in use. |
| `LogSpec.LeftoverFits` | tsl/alloc/logalloc.c:242-255 | What remains is at most 254 cells, or reaches to the end and is written as 0. |
| `LogSpec.MarkedTiling` | tsl/alloc/logalloc.c:234-255 | Marking a region and its remainder keeps the headers tiling all cells, with the log head on a boundary. |
| `LogSpec.MarkedRegions` | tsl/alloc/logalloc.c:234-255 | Marking adds exactly one region in use. |
| `LogSpec.WrapTiling` | tsl/alloc/logalloc.c:194-199 | The wrap keeps the headers tiling all cells. |
| `LogSpec.WrapExact` | tsl/alloc/logalloc.c:194-199 | The wrap keeps every region in use exactly when nothing behind the log head is in use. |
| `LogSpec.RegionsDisjoint` | tsl/alloc/logalloc.c:152-260 | Regions in use do not overlap. |
| `LogSpec.UniqueBounds` | tsl/alloc/logalloc.c:206-227 | The headers determine the regions. |
| `LogSpec.CountChanged` | tsl/alloc/logalloc.c:262-306 | A new reference count changes that region's count and nothing else. |
| `LogSpec.InteriorWrite` | tsl/alloc/logalloc.c:238-238 | What clients write into cells behind a region's first does not matter. |
| `LogTheorems.AllocSucceeds` | tsl/alloc/logalloc.c:152-231 | An allocation succeeds exactly when the request is at most 255 cells and all cells, the cell at the log head is free and no region in use reaches into the wanted cells. |
| `LogTheorems.AllocTiles` | tsl/alloc/logalloc.c:152-260 | Every allocation leaves headers that tile the cells, with exactly the new region added and, on a wrap, those behind the log head forgotten. |
| `LogTheorems.AllocHead` | tsl/alloc/logalloc.c:177-241 | A failing allocation leaves the log head, and all headers unless it wraps; a successful one starts at the log head, or at cell 0 exactly when the request does not fit behind it, and moves the log head behind the new region. |
| `LogTheorems.LogOrder` | tsl/alloc/logalloc.c:152-306 | In every run of calls whatsoever, failing and wrapping ones included, the next region starts right behind the one allocated last, or at cell 0 exactly when it does not fit there. |
| `LogTheorems.StepMatches` | tsl/alloc/logalloc.c:152-306 | Every allocation, reference, free and client write keeps the regions in use, with their reference counts, equal to what clients hold by their own count. |
| `LogTheorems.EveryRun` | tsl/alloc/logalloc.c:152-306 | In every run whose wraps happen with nothing held behind the log head, the headers tile the cells and the regions in use, with their reference counts, are exactly what clients hold by their own count. |
| `LogTheorems.EveryRunDisjoint` | tsl/alloc/logalloc.c:152-306 | In every such run what clients hold never overlaps. |
| `LogTheorems.ReferenceExact` | tsl/alloc/logalloc.c:262-281 | Where a region starts, a reference succeeds exactly when clients hold at least one and at most 254, and then one more is held; otherwise it is "busy" and nothing changes. |
| `LogTheorems.FreeExact` | tsl/alloc/logalloc.c:283-306 | Where a region starts, a free succeeds exactly when clients hold a reference, and then one less is held; otherwise it is "invalid" and nothing changes. |
| `LogTheorems.EveryRunAnswers` | tsl/alloc/logalloc.c:262-306 | In every such run, the number of references that clients hold decides what reference and free answer. |
| `LogTheorems.EveryRunAllocates` | tsl/alloc/logalloc.c:152-260 | In every such run, what clients hold and where the last region ends decide what an allocation answers, and where its region is. |
| `LogTheorems.WrapOverlap` | tsl/alloc/logalloc.c:194-199 | A run of allowed calls on a new log after which a failing allocation lets a held cell be handed out again. |
| `LogAlloc.CellsFor` | tsl/alloc/logalloc.c:171-172 | The least number of cells with at least that many bytes. |
| `LogAlloc.PayloadFits` | tsl/alloc/logalloc.c:171-172 | The client's bytes, behind the two header bytes, stay inside their cells exactly when the size modulo the cell size is neither 0 nor within two bytes of it. |
| `LogAlloc.LogAlloc.constructor` | tsl/alloc/logalloc.c:73-125 | One region, free to the end; the other cells hold what the memory held. |
| `LogAlloc.LogAlloc.Gather` | tsl/alloc/logalloc.c:206-227 | The scan loop stays inside the cells and computes the scan function. |
| `LogAlloc.LogAlloc.WriteRemainder` | tsl/alloc/logalloc.c:246-254 | The remainder loop runs exactly once and writes the one header. |
| `LogAlloc.LogAlloc.WorkingHead` | tsl/alloc/logalloc.c:188-201 | The wrap's writes and the working log head. |
| `LogAlloc.LogAlloc.TakeCells` | tsl/alloc/logalloc.c:203-255 | Gathering and marking as the functions say, with the headers still tiling the cells. |
| `LogAlloc.LogAlloc.Alloc` | tsl/alloc/logalloc.c:152-260 | The whole allocation: result, headers and log head as the function says, for every size. |
| `LogAlloc.LogAlloc.Reference` | tsl/alloc/logalloc.c:262-281 | One more reference, or "busy" at 0 and at 255. |
| `LogAlloc.LogAlloc.Free` | tsl/alloc/logalloc.c:283-306 | One reference less, or "invalid" at 0. |
| `HeapSpec.SiftUpHeap` | tsl/fixed_heap.h:119-132 | Sifting up the one entry that may outrank its parent gives a heap, for any total preorder. |
| `HeapSpec.SiftDownHeap` | tsl/fixed_heap.h:140-166 | Sifting down the one entry that its children may outrank gives a heap. |
| `HeapSpec.TopGreatest` | tsl/fixed_heap.h:223-240 | The first entry of a heap is a greatest one. |
| `HeapTheorems.PushCorrect` | tsl/fixed_heap.h:174-191 | Pushing keeps heap order and adds exactly the item. |
| `HeapTheorems.PopCorrect` | tsl/fixed_heap.h:196-218 | Popping delivers a greatest item, drops exactly it and keeps heap order. |
| `HeapTheorems.RemoveBag` | tsl/fixed_heap.h:245-276 | Removing drops exactly one occurrence. |
| `HeapTheorems.RemoveHeap` | tsl/fixed_heap.h:265-272 | Removing keeps heap order exactly when the moved last entry does not outrank the hole's parent. |
| `HeapTheorems.RemoveBreaks` | tsl/fixed_heap.h:265-272 | A heap of six numbers that removing one breaks. |
| `HeapTheorems.HeapSorts` | tsl/fixed_heap.h:174-218 | Pushing any items and popping them all delivers the same items, greatest first. |
| `FixedHeap.FixedHeap.constructor` | tsl/fixed_heap.c:35-58 | An empty heap of the given capacity. |
| `FixedHeap.FixedHeap.Insert` | tsl/fixed_heap.h:119-132 | The sift-up loop, in place, computes the sift-up function. |
| `FixedHeap.FixedHeap.Heapify` | tsl/fixed_heap.h:140-166 | The sift-down loop, in place, computes the sift-down function and leaves unused slots alone. |
| `FixedHeap.FixedHeap.Push` | tsl/fixed_heap.h:174-191 | "No space" with nothing changed exactly when full; otherwise the pushed heap. |
| `FixedHeap.FixedHeap.Pop` | tsl/fixed_heap.h:196-218 | "Empty" exactly when there is no entry; otherwise the first entry, the heap without it, and the freed slot cleared. |
| `FixedHeap.FixedHeap.PeekHead` | tsl/fixed_heap.h:223-240 | The first entry, or "empty". |
| `FixedHeap.FixedHeap.RemoveItem` | tsl/fixed_heap.h:245-276 | The first occurrence is removed; "not found" with nothing changed exactly when there is none. |
| `TimerSpec.LaterIs` | tsl/timer.c:39-46 | Through both conversions only the low 32 bits of the difference of deadlines matter. |
| `TimerSpec.PairExact` | tsl/timer.c:39-46 | Two timers compare correctly both ways exactly when their distance modulo 2^32 is 0 < d < 2^31, or they are equal. |
| `TimerSpec.WindowExact` | tsl/timer.c:39-46 | All distances up to w compare correctly exactly when w < 2^31. |
| `TimerSpec.AddExact` | tsl/timer.c:104-122 | Arming a timer that is not live puts it on the list, and on the heap exactly when that has room; then, and only then, it succeeds and the live list stays equal to the heap. |
| `TimerSpec.FireCorrect` | tsl/timer.h:143-184 | Fires at most one timer: exactly when one is due, the one with the least deadline, never early; tells the least deadline then armed; "empty" exactly after the last firing. |
| `TimerSpec.FarApart` | tsl/timer.c:39-46 | Two timers 2^31 ns apart of which the due one does not fire. |
| `TimerSpec.EveryRun` | tsl/timer.h:143-184 | In every run of arms and fires, arms by timer functions included, the live list holds exactly the heap's timers, and every timer armed has fired once or is still live. |
| `TimerSpec.FireAccounts` | tsl/timer.h:143-184 | With deadlines however far apart, as long as the function arms no live timer and there is room, an attempt still fires at most one timer, the head of the heap exactly when that is due, forgets none, and tells the deadline of the head afterwards. |
| `TimerSpec.EveryRunAccounts` | tsl/timer.h:143-184 | In every run that never arms a live timer or on a full heap, whatever the deadlines, every timer armed has fired once or is live and in the heap. |
| `TimerSpec.FiresInOrder` | tsl/timer.h:143-184 | When all timers are due, firing one by one fires each once, in the order of deadlines. |
| `Timers.DeadlineFor` | tsl/timer.c:124-133 | The deadline modulo 2^64, exact when it does not overflow. |
| `Timers.TimerManager.constructor` | tsl/timer.c:48-83 | Nothing armed; the live list, around a head of its own, empty. |
| `Timers.TimerManager.AddTimer` | tsl/timer.c:104-122 | A timer that is not live is linked in, through the entry that comes with it, at the end of the live list and pushed on the heap if there is room. Whatever the timer, the links afterwards are a list of exactly the heap's timers if and only if it was not live and there was room. |
| `Timers.TimerManager.LinkTimer` | tsl/timer.c:113-113 | Linking in the entry of a live timer leaves links that are no list. |
| `Timers.TimerManager.Arm` | tsl/timer.c:124-138 | A timer that is not live, armed for so many microseconds from now. |
| `Timers.TimerManager.ArmAt` | tsl/timer.c:140-152 | A timer that is not live, armed for the given time. |
| `Timers.TimerManager.PopTimer` | tsl/timer.h:161-169 | The timer at the head of the heap is off the heap and unlinked from the live list through its own links. |
| `Timers.TimerManager.FireNext` | tsl/timer.h:143-184 | One attempt to fire, whose function arms timers that are not live: heap, links of the live list, status, next deadline and the timer fired as the function says. |
| `TimerClient.ArmTwice` | tsl/timer.c:104-122 | A timer armed while it is live, after which the links are no list of the heap's timers. |
| `TimerClient.ArmOnFull` | tsl/timer.c:104-122 | A timer armed on a full heap: "invalid", and the live list has a timer that the heap has not. |
| `Lists.Init` | tsl/list.h:168-172 | An entry alone is an empty list. |
| `Lists.Add` | tsl/list.h:174-184 | Links an entry in at any place, links both ways consistent; touches only it and its neighbours. |
| `Lists.InsertAt` | tsl/list.h:190-194 | Inserted right behind the given entry. |
| `Lists.Append` | tsl/list.h:200-204 | Inserted at the end; an entry that is an item already leaves broken links. |
| `Lists.BrokenNoList` | tsl/list.h:174-204 | Such links are no list of anything. |
| `Lists.Prepend` | tsl/list.h:210-214 | Inserted at the front. |
| `Lists.Del` | tsl/list.h:216-234 | Exactly that item is gone, its links poisoned. |
| `Lists.Splice` | tsl/list.h:236-270 | Whatever the target, one of the heads or not, it heads the items of both lists, in order, exactly when neither list is empty; an empty list's head is taken for an item, unless it is the target itself, whose links then are no list of the items. |
| `Lists.NotTheItems` | tsl/list.h:243-254 | A target that heads an empty operand does not head the items of both lists. |
| `Lists.Empty` | tsl/list.h:275-279 | True exactly for the list without items. |
| `Lists.IsLast` | tsl/list.h:281-285 | True exactly for the last item. |
| `Lists.Forward` | tsl/list.h:103-106 | The walk along `next` meets exactly the items in order, and ends. |
| `Lists.Backward` | tsl/list.h:78-81 | The walk along `prev` is the reverse of the forward walk. |
| `Lists.Unique` | tsl/list.h:47-54 | The links determine the items. |
| `Lists.Sweep` | tsl/list.h:144-165 | A walk with look-ahead may delete what it meets: exactly the others remain, in order. |
| `HashSpec.Offset` | tsl/hash_table.c:118-120 | The masked hash is a bucket, for any positive number of buckets. |
| `HashSpec.OffsetIsRemainder` | tsl/hash_table.c:118-118 | With a power of two of buckets it is the remainder of the hash. |
| `HashSpec.BucketEnough` | tsl/hash_table.c:153-189 | Scanning the one bucket gives the same answer as scanning everything inserted and not deleted. |
| `HashSpec.SearchEarliest` | tsl/hash_table.c:153-189 | With a comparison that never fails and accepts only equal hashes, the earliest inserted live match is found, and nothing only if there is none. |
| `HashSpec.SearchExact` | tsl/hash_table.c:153-189 | Whatever the comparison, the first node it accepts is found exactly when that node has the key's hash and no comparison with an earlier node of that hash fails. |
| `HashSpec.SearchIs` | tsl/hash_table.c:153-189 | Whatever the comparison and the nodes, what is found is a node of the key's hash that is accepted, with every earlier one of that hash refused, and nothing only if there is none. |
| `HashSpec.DeleteCommutes` | tsl/hash_table.c:191-201 | Deleting from the bucket is deleting from what was inserted. |
| `HashTable.HashTable.constructor` | tsl/hash_table.c:49-82 | All buckets are empty lists. |
| `HashTable.AppendIn` | tsl/hash_table.c:146-147 | Appending to one of an array of disjoint lists appends to that list and leaves the others alone. |
| `HashTable.DeleteIn` | tsl/hash_table.c:197-197 | Deleting an entry through its own links takes it out of its list and leaves the others alone. |
| `HashTable.HashTable.GetBucket` | tsl/hash_table.c:99-128 | Bucket and hash of a key, or the failure of the hash. |
| `HashTable.HashTable.Insert` | tsl/hash_table.c:130-151 | Any node that is not in the table becomes the last inserted, with its hash; every bucket is a list of exactly its part of the insertions, in order, linked both ways. |
| `HashTable.HashTable.Find` | tsl/hash_table.c:153-189 | Walking one bucket's links gives the answer of a scan of everything inserted and not deleted, and "not found" also when a comparison fails. |
| `HashTable.HashTable.Delete` | tsl/hash_table.c:191-201 | The node is unlinked through its own links; every bucket is a list of exactly the others, in order; its links are poisoned and its hash is 0. |

## Left out

- `logalloc_prepare_region` and `logalloc_finalize_region`: their search condition is inverted and an exact fit never sets the count, so that no invariant describes them.
- Bytes inside a cell: the runs of the log-structured allocator are modelled in cells, so that they are about clients whose bytes stay inside their cells (`LogAlloc.PayloadFits`); rounding the cell size to a power of two is taken as done.
- `timer_disarm`: it changes a key inside the heap without sifting.
- A timer's function may arm timers but not call into firing itself.
- Timers.TimerManager.Arm: requires that the timer is not live, because the code destroys the live list otherwise (`Timers.TimerManager.AddTimer` states both sides).
- Timers.TimerManager.ArmAt: requires the same.
- Timers.TimerManager.FireNext: requires the same of what the timer's function arms.
- TimerSpec.EveryRunAccounts: requires the same of everything armed, and room in the heap.
- TimerSpec.EveryRun: requires the deadlines armed at one time to be less than 2^31 ns apart and room in the heap, because the code loses the order, or the agreement of list and heap, without them (`TimerSpec.FarApart`, `TimerSpec.AddExact`); what is left without the first is `TimerSpec.EveryRunAccounts`.
- TimerSpec.FireCorrect: requires the same window; what is left without it is `TimerSpec.FireAccounts`.
- LogTheorems.StepMatches: requires the same of each call as `LogTheorems.EveryRun` does.
- LogTheorems.EveryRunAnswers: requires the same of the run as `LogTheorems.EveryRun` does.
- LogTheorems.EveryRunAllocates: requires the same of the run and of the allocation.
- LogTheorems.EveryRunDisjoint: requires the same of the run as `LogTheorems.EveryRun` does.
- LogTheorems.EveryRun: requires that nothing behind the log head is held when an allocation wraps, because the code loses the property without it (`LogSpec.WrapExact`, `LogTheorems.WrapOverlap`).
- RbTree.RbTree.Insert: requires clear child links (and a clear parent link for the first node), because the code gives a tree exactly then (`RbLinks.AttachLinks`, `RbTree.SingleLinks`).
- RbTree.RbTree.FindOrInsert: requires the same of its candidate.
- Keys of the tree's node objects are integers under any strict total order; the theorems on tree values have any key type.
- The slab allocator's page lists are sequences; that the intrusive lists behave like sequences is `Lists`.
- The way from a list entry to the hash node that contains it, and from a timer to its entry, which the original finds by adding or subtracting an offset, is a map that the table and the manager keep; whoever arms a timer hands over its entry. A timer's deadline is part of its value in the heap.
- `allocator_squeeze` (a stub), huge-page classes beside normal ones, statistics counters, and the system calls that map pages or shared memory.
- Spin locks and weak memory order: locked sections are atomic, loads and stores sequentially consistent.
- Null-argument checks, `rb_tree_traverse`, `rb_tree_destroy`, `rb_tree_empty`, `fixed_heap_resize`, `ht_cleanup` and deletion of heaps, queues and timer managers, which would only add easy members.
- Murmur hash bodies, reference counts, the offload, work queue, logger, configuration, worker thread, CPU mask, time and panic code.
