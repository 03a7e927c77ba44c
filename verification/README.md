# Verified model of alib4c's containers

alib4c is a C utility library. This project models five of its components and proves what they
are for:

- the blocking queue (`a/to_do/queue.c`), over every interleaving of threads: no wake-up is lost,
  items come out in order and once, and the shutdown ends when the threads inside their waits have
  run, whatever else runs in between;
- the chained hash table (`a/hash.c`) and the binary search tree (`a/bintree.c`): where their
  callbacks are consistent they answer, over every run, as one and the same dictionary; the table
  loses or double-frees no key or value under any callbacks, the tree exactly when no removal throws
  out a node with something below it, so under every comparator that orders the keys;
- the binary heap (`a/pot.c`): it keeps its order over every run and sorts, and loses an element to
  slot 0 of its array exactly when that element comes before what the slot held at the beginning;
- the text codecs (`a/to_do/util.c`): exactly which strings survive a round trip;
- below them, the one-at-a-time hash and the XOR folding (`a/hash.c`) and the narrowing pointer
  comparators (`a/collect.c`).

`dafny verify dfyconfig.toml` checks everything.

## How it is built

Each component is modelled twice. A `...spec` module gives every operation as a function on
values (a chain is a sequence, a tree a datatype, the queue a record), together with the runs of a
script of operations; the theorems are about these. A class module (`HashTable`, `BinTree`, `Pot`,
`Queue`) has the source's own form: nodes with pointers, arrays, fields changed in place, the
source's loops and recursion. Each of its methods is proved to change the value of the object
exactly as the function does, for arbitrary callbacks.

| file | contents |
|---|---|
| `words.dfy`, `xorfold.dfy`, `joat.dfy` | machine words, the bucket number, the hash |
| `dictionary.dfy` | the reference both containers are measured by: the last value stored |
| `hashspec.dfy`, `hashmap.dfy`, `hashruns.dfy`, `hashowner.dfy`, `hashtable.dfy` | the hash table |
| `treespec.dfy`, `treemap.dfy`, `treeruns.dfy`, `treecircle.dfy`, `bintree.dfy` | the tree |
| `agreement.dfy`, `collect.dfy` | table and tree against each other; the comparators |
| `potspec.dfy`, `potproofs.dfy`, `pot.dfy` | the heap |
| `queuespec.dfy`, `queueproofs.dfy`, `queuehistory.dfy`, `queue.dfy` | the queue |
| `codec.dfy` | the codecs |

What stands outside the code is a parameter. Whether an allocation succeeds is a flag of the
operation. A free callback is a flag that says whether it is set, and a record of its calls. A
signal wakes a nonempty set of sleepers that the schedule chooses, if anybody sleeps; a sleeper may
also wake by itself, and a newcomer may take the mutex first. A `void *` is a number below 2^64 with
0 for NULL. The swap macro of `a/util.h.in` is an exchange of two places, which `Words.XorSwap`
justifies.

Where the code differs from what one would expect, the code is followed and the difference is
stated with its exact condition:

- an element inserted into the heap that comes before slot 0 ends up in slot 0, and the content of
  slot 0 enters the heap in its place; the order holds all the same, but the contents are what was
  inserted and not removed exactly when no element comes before the first content of slot 0
  (`PotProofs.InsertExact`, `PotProofs.HeapInvariant`, `PotProofs.RunExact`);
- the tree frees a node that its splice throws out but not what hangs below it
  (`TreeRuns.OwnershipExact`); the library's own comparators let this happen, and let the tree forget
  a key that it stores, on keys spread over more than a half circle (`Collect.SpreadKeysLost`);
- the bytes a growing heap asks for wrap exactly for requests above 2^60, long before the doubling
  loop fails to end (`PotProofs.BytesFit`, `PotProofs.DoublingTerminates`);
- `q_close` wakes one sleeper, so it releases everybody only when at most one slept
  (`QueueProofs.CloseReleasesAtMostOne`, `QueueProofs.CloseLeavesASleeper`);
- `num` is 32 bits wide: it is exactly at the multiples of 2^32 items that they can all be stranded
  (`QueueProofs.StrandedExactly`);
- the two comparators are one function, and order a set of keys exactly when the keys modulo 2^32 lie
  on a half circle that starts at one of them (`Collect.OrdersIntptr`); a gapless window, exactly when
  it spans less than 2^31 (`Collect.WindowIntptr`);
- unescaping undoes escaping exactly on strings without a backslash (`Codec.EscapeRoundTrip`);
- on a duplicate the hash table keeps the old key and the tree takes the new one
  (`HashOwner.PutKeepsOldKey`, `TreeRuns.PutTakesNewKey`);
- the `count` of the hash table counts puts (`HashRuns.CountIsPuts`).

## Model

| member | source | states |
|---|---|---|
| QueueProofs.EveryReachableState | a/to_do/queue.c:94-226 | in every state that any interleaving reaches: `waiting` is the number of threads inside the wait, `num` the number of items modulo 2^32, no wake-up is lost, the queue is FIFO, and a shutdown nobody reopened keeps draining |
| QueueProofs.NoItemIsStranded | a/to_do/queue.c:111-115 | while a dequeuer sleeps unsignalled, there are at least as many signalled ones on their way as items, exactly when there are fewer than 2^32 items |
| QueueProofs.StrandedExactly | a/to_do/queue.c:106-131 | a state with n items, a sleeping dequeuer and none on its way is reachable exactly when n is a multiple of 2^32 |
| QueueProofs.FullCircleStrands | a/to_do/queue.c:111-131 | the schedule that reaches it |
| QueueProofs.HeadIsThere | a/to_do/queue.c:132-140 | a dequeuer that passes the loop never dereferences a NULL head |
| QueueProofs.Fifo | a/to_do/queue.c:106-111 | the accepted items are the delivered ones followed by the chain, and after deinit by the leftovers; only the data of leftovers that ask for it is freed |
| QueueHistory.EveryStateForetold | a/to_do/queue.c:94-226 | in every reachable state the flag, the items accepted, delivered and left, who sleeps, who has been signalled and where deinit is are what the schedule alone says, without any counter |
| QueueHistory.StepSeen | a/to_do/queue.c:94-226 | every step does with the counters `num`, `waiting` and `watching` what it would do with the chain and the sets of threads |
| QueueHistory.AskExact | a/to_do/queue.c:126-147 | a dequeuer that holds the mutex takes the head whenever there is an item modulo 2^32, open or closed, and waits exactly in an open queue without one |
| QueueHistory.ClosedQueueDrains | a/to_do/queue.c:126-147 | in a closed queue with fewer than 2^32 items, amid any steps but an opening, those who ask get exactly the items left, in order |
| QueueHistory.FreedExactly | a/to_do/queue.c:71-78 | deinit frees the data of exactly the leftovers that ask for it, each once, and no NULL |
| QueueProofs.ShutdownNeverStuck | a/to_do/queue.c:158-177 | until deinit is over, a woken dequeuer or the signalled deinit can run, and nobody sleeps unsignalled |
| QueueProofs.DeinitIsNotForgotten | a/to_do/queue.c:134-145 | even after a reopening, deinit sleeps unsignalled only while some dequeuer is inside its wait |
| QueueProofs.WaitingOnlyFalls | a/to_do/queue.c:126-131 | after deinit has closed the queue no step but a reopening makes a thread wait |
| QueueProofs.NobodyWaitsAtTheEnd | a/to_do/queue.c:171-177 | when deinit leaves its loop no thread is inside a condition wait |
| QueueProofs.ShutdownEnds | a/to_do/queue.c:126-177 | amid any steps but a reopening, `waiting` falls by one for each thread that leaves its wait; the next step of deinit is its last exactly when all that were waiting have left, and deinit is then signalled to take it |
| QueueProofs.QuietShutdownEnds | a/to_do/queue.c:171-177 | with no other steps between, every order of wake-ups finishes the shutdown within a bounded number of steps |
| QueueProofs.CloseReleasesAtMostOne | a/to_do/queue.c:206-215 | a close that wakes one thread leaves nobody asleep exactly when at most one slept |
| QueueProofs.CloseLeavesASleeper | a/to_do/queue.c:206-215 | a reachable closed queue in which one dequeuer sleeps and nobody is left to wake it |
| Queue.Queue.constructor | a/to_do/queue.c:80-92 | a new queue is empty and open |
| Queue.Queue.Enque | a/to_do/queue.c:94-118 | the linked nodes and counters change as the accepted or rejected enqueue of the model |
| Queue.Queue.Dequeue | a/to_do/queue.c:120-151 | entry into the loop: sleep, or the head's data, or NULL when closed and empty |
| Queue.Queue.Resume | a/to_do/queue.c:126-151 | the same from a wake-up on, genuine or spurious |
| Queue.Queue.Deinit | a/to_do/queue.c:153-177 | closes, wakes everybody, and sleeps or frees the leftovers |
| Queue.Queue.DeinitResume | a/to_do/queue.c:171-193 | from a wake-up on: sleeps again or frees the leftovers |
| Queue.Queue.SetOpen | a/to_do/queue.c:206-226 | q_close and q_open as the model's steps |
| HashRuns.TableRefinesDictionary | a/hash.c:193-334 | over every run: chains well placed, load bound kept, and every lookup answers with the last value put for an equal key |
| HashRuns.AnswersAreLatest | a/hash.c:283-325 | get and remove return the last value put for an equal key, else NULL |
| HashRuns.OnlyLookupsCrash | a/hash.c:296-317 | whatever the callbacks, a run fails only by a lookup while there is no table |
| HashRuns.OnePlace | a/hash.c:200-213 | a live key is in one chain, the one of its reduced hash, and there once |
| HashRuns.CountIsPuts | a/hash.c:277-280 | `count` is the number of successful puts since the last clean, whatever was replaced or removed |
| HashRuns.PutSucceeds | a/hash.c:261-281 | whatever the callbacks, a put succeeds exactly when its item can be allocated and, if there are no puts yet or as many as buckets, a table of at most 2^30 buckets too |
| HashRuns.LookupExact | a/hash.c:167-175 | whatever the callbacks, a lookup succeeds exactly when an item in the bucket of the folded hash has both the hash and an equal key |
| HashRuns.LoadBound | a/hash.c:217-281 | whatever the callbacks, live entries <= puts <= buckets <= max(1, 2 puts), and at most 2^30 buckets, after failed puts too |
| HashMap.ExtendPreserves | a/hash.c:217-259 | growing keeps the entries and every answer and frees nothing; a failed allocation changes nothing |
| HashMap.RehashLinksAll | a/hash.c:249-256 | every node of the old table is linked once, never through the duplicate branch |
| HashMap.AddItemLookup | a/hash.c:193-215 | after add_item the key has the new value and every other key its old one |
| HashOwner.OwnershipConserved | a/hash.c:79-334 | over every run, whatever hash and equality say, with multiplicity: each key put is stored or was freed once, each value is stored, freed once, or was returned, and every remove and delete brings one NULL into play |
| HashOwner.NothingLeftAfterClean | a/hash.c:150-165 | after a clean everything put was freed or returned |
| HashOwner.FailedPut | a/hash.c:261-277 | a put without the memory it needs fails, keeps every entry and frees nothing |
| HashOwner.NullCallbacksSilent | a/hash.c:79-87 | a callback that is NULL is never called |
| HashOwner.FreeAllCalls | a/hash.c:109-119 | freeing chains passes their keys and their values on in chain order |
| HashOwner.PutKeepsOldKey | a/hash.c:202-211 | in every reachable state a put on an equal key with the memory it may need succeeds, keeps the old key with the new value, frees the new key and the old value, growth included |
| HashTable.Table.constructor | a/hash.c:121-133 | a new table is empty |
| HashTable.Table.ListFind | a/hash.c:167-175 | the first matching item of the linked chain |
| HashTable.Table.ListRemove | a/hash.c:177-191 | the first matching item is unlinked, from the table or from its predecessor |
| HashTable.Table.AddItem | a/hash.c:193-215 | the linked table changes as the model's |
| HashTable.Table.Extend | a/hash.c:217-259 | relinking in place gives the model's grown table |
| HashTable.Table.Put | a/hash.c:261-281 | the linked table and the status are the model's, for either outcome of both allocations |
| HashTable.Table.Get | a/hash.c:283-301 | the model's answer |
| HashTable.Table.Remove | a/hash.c:303-325 | the model's table, answer and calls of the callbacks |
| HashTable.Table.Delete | a/hash.c:327-334 | the model's table and calls |
| HashTable.Table.FreeItem | a/hash.c:79-87 | the callbacks that are set get key and value, and the item is cleared |
| HashTable.Table.ListFree | a/hash.c:109-119 | every item of a chain is freed in order |
| HashTable.Table.Clean | a/hash.c:150-165 | everything freed, no table left |
| Joat.OneByteNeverCollides | a/hash.c:34-51 | two strings of equal length that differ in one byte have different hashes |
| Joat.MixBijective | a/hash.c:43-45 | a round is a bijection of 32-bit words, with its inverse |
| Joat.FinishBijective | a/hash.c:47-49 | so is the finaliser |
| Joat.AbsorbInjective | a/hash.c:41-46 | different running values stay different over any bytes |
| Joat.KnownHashes | a/hash.c:34-51 | the empty string hashes to 0, leading zero bytes change nothing, and "a" hashes to 0xca2e9442 |
| Joat.HashJoat | a/hash.c:34-51 | the loop computes the hash |
| XorFold.ReduceBelow | a/hash.c:135-148 | the folded hash is a bucket number |
| XorFold.ReduceIdentity | a/hash.c:135-148 | a hash below 2^bits is its own bucket |
| XorFold.ReduceLinear | a/hash.c:142-146 | folding x xor y is folding x xor folding y |
| XorFold.ReduceShifted | a/hash.c:142-146 | folding does not see a move by one digit, so every digit of the hash counts |
| XorFold.HashReduce | a/hash.c:135-148 | the loop terminates and folds, for widths 0 to 31 |
| Words.XorSwap | a/util.h.in:42-54 | three exclusive ors exchange two places |
| TreeRuns.TreeRefinesDictionary | a/bintree.c:58-183 | over every run on keys the comparator orders: strict search order, and every lookup answers with the last value put for an equal key |
| TreeRuns.AnswersAreLatest | a/bintree.c:105-160 | get and remove return the last value put for an equal key, else NULL |
| TreeRuns.EverythingAccounted | a/bintree.c:49-183 | over every run and for every comparator, with multiplicity: each key put is stored, was freed, or was dropped below a node thrown out; each value likewise, or was returned; the NULLs that removals pass are counted too |
| TreeRuns.OwnershipExact | a/bintree.c:75-89 | for every comparator: each key put is stored or was freed once, and each value is stored, freed once, or was returned, exactly when no removal throws out a node with something below it |
| TreeRuns.OrderedNeverDrops | a/bintree.c:143-150 | on keys that the comparator orders no removal does |
| TreeRuns.OwnershipConserved | a/bintree.c:49-183 | so there nothing is ever lost or freed twice |
| TreeRuns.NothingLeftAfterAxe | a/bintree.c:170-183 | for every comparator: after axe nothing is stored, and everything put was freed or returned exactly when no removal dropped anything |
| TreeRuns.PutSucceeds | a/bintree.c:92-103 | a put succeeds exactly when its node can be allocated, else changes nothing; a new key frees nothing |
| TreeRuns.RemoveReturns | a/bintree.c:124-155 | for every comparator a removal returns what a get would have answered |
| TreeRuns.AxeBackwards | a/bintree.c:170-177 | axe frees each node after those below it, the right ones first |
| TreeRuns.NullCallbacksSilent | a/bintree.c:49-56 | a callback that is NULL is never called |
| TreeCircle.LosesAKey | a/bintree.c:143-150 | under a comparator that leads round on four keys, a removal leaves a key in the tree that get answers with NULL |
| TreeCircle.DropsAKey | a/bintree.c:75-89 | three operations later a removal drops a key that is neither stored nor freed |
| TreeRuns.PutTakesNewKey | a/bintree.c:75-89 | a put on an equal key stores the new key and value and frees the old ones |
| TreeMap.RemoveDeletesOne | a/bintree.c:124-155 | removal deletes exactly the key that compares equal, or nothing |
| TreeMap.RemoveSorted | a/bintree.c:143-150 | removal keeps the strict search order and never takes node_put's equal-key branch |
| TreeMap.SpliceSmaller | a/bintree.c:58-74 | hanging a whole subtree of smaller keys below keeps the order and all keys |
| TreeMap.PutSorted | a/bintree.c:58-90 | putting a key keeps the order |
| TreeMap.PutFind | a/bintree.c:58-90 | the put key has the new value and every other key its old one |
| TreeMap.RemoveFind | a/bintree.c:124-155 | the removed key is gone and every other key has its value |
| BinTree.Tree.constructor | a/bintree.c:23-31 | a new tree is empty |
| BinTree.Tree.NodeFree | a/bintree.c:49-56 | the callbacks that are set get key and value |
| BinTree.Tree.NodePut | a/bintree.c:58-90 | the linked tree changes as the model's, for a subtree as for a node |
| BinTree.Tree.Put | a/bintree.c:92-103 | the model's tree and status |
| BinTree.Tree.NodeGet | a/bintree.c:105-117 | the model's lookup |
| BinTree.Tree.Get | a/bintree.c:119-122 | the model's answer |
| BinTree.Tree.NodeRemove | a/bintree.c:124-155 | the linked tree, value and calls are the model's |
| BinTree.Tree.Remove | a/bintree.c:157-160 | the model's tree and answer |
| BinTree.Tree.Delete | a/bintree.c:162-168 | the model's tree and calls |
| BinTree.Tree.NodeAxe | a/bintree.c:170-177 | right subtree, left subtree and root are freed in this order |
| BinTree.Tree.Axe | a/bintree.c:179-183 | everything freed, no tree left |
| Agreement.TableAndTreeAgree | a/hash.c:261-325 | driven by the same operations, table and tree give the same answers |
| Collect.CloseIntptr | a/collect.c:23-26 | on keys less than 2^31 apart the comparator is the difference, and a total order |
| Collect.CloseUintptr | a/collect.c:33-36 | the same for unsigned keys |
| Collect.SameComparator | a/collect.c:23-36 | both comparators narrow the plain difference, so they agree on all keys |
| Collect.OrdersIntptr | a/collect.c:23-26 | on any key set it is an order exactly when the keys modulo 2^32 lie on a half circle that starts at one of them |
| Collect.OrdersUintptr | a/collect.c:33-36 | the same for the unsigned comparator |
| Collect.WindowIntptr | a/collect.c:23-26 | on a gapless window it is an order exactly when the window spans less than 2^31 |
| Collect.WindowUintptr | a/collect.c:33-36 | the same for unsigned keys |
| Collect.IntptrTree | a/bintree.c:62 | over such keys the tree is a dictionary of the keys themselves |
| Collect.UintptrTree | a/bintree.c:62 | the same for unsigned keys |
| Collect.HalfCircleTree | a/bintree.c:62 | over any keys that the comparator orders the tree is a dictionary of the keys modulo 2^32 |
| Collect.SpreadKeysLost | a/collect.c:23-36 | with either comparator and the keys 0, 0x99999999, 0xcccccccd, 0x33333334 the tree forgets a stored key, and drops one that is neither stored nor freed |
| Collect.FarKeysCollide | a/collect.c:23-26 | two keys are one to the tree exactly when they lie a multiple of 2^32 apart |
| PotProofs.HeapInvariant | a/pot.c:94-154 | the heap order holds over every interleaving, whatever slot 0 holds at the beginning, and nothing in the heap ever comes before slot 0 |
| PotProofs.RunExact | a/pot.c:94-154 | the contents are what was inserted and not removed exactly when no element inserted comes before the first content of slot 0, and exactly when none ousted what slot 0 held at its time |
| PotProofs.SlotsConserved | a/pot.c:94-154 | over every interleaving and for any `before`, slot 0, the contents and what was removed are together the first content of slot 0 and what was inserted |
| PotProofs.SlotZeroIsFirst | a/pot.c:98-102 | slot 0 always holds one of these elements, which none of them is before |
| PotProofs.InsertExact | a/pot.c:94-104 | an insertion keeps the heap order; an element that comes before slot 0 takes its place and the content of slot 0 is added instead, any other element is added itself |
| PotProofs.BubbleDownOrders | a/pot.c:106-123 | bubble_down repairs a violation at its start though it always walks to a leaf |
| PotProofs.RemoveTopExact | a/pot.c:141-154 | a removal takes out one element, which none is before, and keeps the order; from an empty heap it returns 0 and changes nothing |
| PotProofs.TiesStay | a/pot.c:98-121 | equivalent elements do not overtake each other: an insertion rises, and a right child or a lower element is preferred, only on a strict comparison |
| PotProofs.DrainSorts | a/pot.c:141-154 | draining a heap yields a sorted permutation of its contents |
| PotProofs.HeapSorts | a/pot.c:125-154 | inserting any elements and draining yields them in order, always; and yields exactly them exactly when none comes before slot 0 |
| PotProofs.DoublingTerminates | a/pot.c:78-83 | in 64 bits the doubling loop ends exactly for requests up to 2^63 |
| PotProofs.BytesFit | a/pot.c:82-85 | the bytes asked for fit a `size_t` exactly for capacities and requests up to 2^60 |
| PotProofs.DoubledPow2 | a/pot.c:82-83 | capacities stay powers of two |
| Pot.Heap.constructor | a/pot.c:49-59 | an empty heap with room for the request |
| Pot.Heap.Resize | a/pot.c:69-92 | contents kept; capacity at least request and `num`, below twice the larger when the loop runs |
| Pot.Heap.BubbleUp | a/pot.c:94-104 | the loop is the model's, slot 0 included |
| Pot.Heap.BubbleDown | a/pot.c:106-123 | the loop is the model's |
| Pot.Heap.Insert | a/pot.c:125-134 | in bounds, the model's slots, in heap order again |
| Pot.Heap.RemoveTop | a/pot.c:141-154 | the model's slots, in heap order again, and element, which no other is before; 0 when empty |
| Codec.DecodeEncode | a/to_do/util.c:77-110 | decoding the hex of any bytes gives them back |
| Codec.EncodeDecode | a/to_do/util.c:77-110 | encoding the decoded string gives its lower-case form exactly for hex strings of even length |
| Codec.HexOrdered | a/to_do/util.c:85 | the hex of a byte is two lower-case digits, and the pairs are in the order of the bytes |
| Codec.PairIsRead | a/to_do/util.c:105 | any pair of characters, digits or not, is read as strtoul reads it in base 16 |
| Codec.Mem2Hex | a/to_do/util.c:77-90 | the loop writes the hex and a NUL, or nothing for no bytes |
| Codec.Hex2Mem | a/to_do/util.c:92-110 | the loop decodes, or dies where the model does |
| Codec.UnescapeEscape | a/to_do/util.c:29-60 | unescaping an escaped string gives it without its backslashes |
| Codec.EscapeRoundTrip | a/to_do/util.c:29-60 | the pair is a round trip exactly on strings without a backslash |
| Codec.EscapeGuards | a/to_do/util.c:36-41 | every colon gets its backslash right in front of it: taking these away gives back any string |
| Codec.EscapeInjective | a/to_do/util.c:36-41 | different strings have different escaped forms |
| Codec.EscapeLength | a/to_do/util.c:35 | one more character for every colon, so within 2n + 1 |
| Codec.UnescapeDrops | a/to_do/util.c:47-60 | all backslashes go, every other character stays |
| Codec.EscapeColon | a/to_do/util.c:29-45 | the loop stays in its buffer and escapes |
| Codec.UnescapeJoin | a/to_do/util.c:47-60 | what stays keeps its order |
| Codec.UnescapeColon | a/to_do/util.c:47-60 | compaction in place |

## Left out

- Threads: a thread name is below 2^32 - 1, so `waiting` does not wrap; more threads than that inside
  one wait are not modelled.
- q_deinit is called once. Two concurrent calls, and calls after it has finished, are not modelled,
  nor is `q_num`, which only reads.
- The conditions of pthread calls failing, `die`, and the node leaked by a rejected enqueue.
- Pot.Heap.Resize: assumes that the reallocation succeeds and that requests are at most 2^60, the
  exact bound below which the byte count does not wrap; the heap after a failed reallocation and
  `a_pot_cleanup` are left out.
- Pot.Heap.constructor: the same bound on the initial size.
- BinTree.Tree.NodeFree: the release of the node itself, which nothing links to any more, is not
  recorded.
- `item_free` does not release the node and `node_put` on equal keys does not release the children of
  the node it frees: nodes are not counted, only keys and values are.
- A table of more than 2^30 buckets: `1 << bits` is an `int`, and the allocation is taken to fail.
- The error code of a failed put is one failure status; the error stack of `a/error.c` is not part of
  this model.
- `a_hash_joat_ptrval`, `a_hash_ptrval`, `a_collect_cmp_str` and the `eq` functions: one call each.
- NULL arguments that the initialisers refuse: `a_hash_init`, `a_bintree_init` and `a_pot_init`.
- `clip_at_colon`: its loop never ends on an ordinary colon, so there is nothing to promise.
- `a/list.c`, `a/old/vec.c` and the rest of the library: lists without a property beyond their links,
  and I/O and formatting helpers.
