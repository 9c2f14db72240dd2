# Verified model of the c-cplusplus-review data structures and graph algorithms

This project is a Dafny model of the generic C containers in the repository, and of the graph
searches built on them:

- the indexed min-heaps `heap` (with a pluggable element-to-index table) and `heap_uint32`
  (with a chaining table as its index);
- the open-addressing hash table `ht_muloa`, which uses multiplication hashing, double-hashing
  probes and placeholders for removed entries;
- the chaining hash table `ht_div_uint32`, which hashes by division over a list of primes;
- the circular doubly linked list `dll`;
- the growable `stack` and `queue`;
- the overflow-safe word arithmetic of `utilities-mod`;
- the adjacency lists of `graph`;
- `bfs`, `dfs` and `dijkstra`, the last together with its default index table `ht_default`.

## How the model is organised

Each C file is one Dafny module. Code that changes state in place stays imperative:

- containers are classes whose fields the methods reassign;
- fixed buffers are arrays;
- the C loops are `while` and `for` loops with invariants;
- linked nodes are objects with `next` and `prev` fields.

Each class is specified by an abstract value:

| class | abstract value |
|---|---|
| stack, queue | the sequence of its elements |
| heaps | the map from element to priority, with the min-heap order on the priority array as invariant |
| hash tables | the map from key to element, with the table layout as invariant |
| list | the sequence of its (key, element) pairs from the head |

`ht_muloa` reads exactly `key_size` bytes of every key it is given, so its search, insert, remove and
delete require keys of the table's `keySize`.

Each method states the new state in terms of the old one. Its partner properties are proved as lemmas:

- heap order;
- the index invariant: slot `i` holds the element that the index maps to `i`;
- probe-sequence distinctness;
- chain placement;
- shortest paths;
- DFS stamps, against a recursive reference search.

Word arithmetic in `utilities-mod` uses 64-bit words (`Word`, values below 2^64), with the
shifts, halves and wrap-around written out.

The graph searches are stated over `Paths`, the walks in an adjacency list, and each has a
result predicate:

- `BfsResult`: a vertex is reached iff a walk to it exists, and `dist` is the length of a shortest walk.
- `DijkstraResult`: `dist` is the cost of a cheapest walk.
- `DfsResult`:
  - the `2n` pre and post stamps are exactly `0 .. 2n - 1`;
  - `pre[start] == 0`;
  - `pre[u] < post[u]` for every `u`;
  - every edge leads to a vertex stamped before its source finishes;
  - a vertex without edges gets `post == pre + 1`;
  - the intervals `[pre[u], post[u]]` of two vertices are disjoint or nested;
  - a vertex is reachable from `start` iff `pre[x] <= post[start]`.

  `Dfs.Dfs` is also proved to leave exactly the stamps of `DfsRecursive.DepthFirst`, the recursion
  that the stack of (u, vi) pairs emulates, so the order of restarts and of each neighbour list is
  part of the result.

## Model

| member | source | states |
|---|---|---|
| Stack.GrownCount | data-structures/stack/stack.c:123-133 | the grown capacity is strictly larger, at most count_max, and is either double the old one or count_max |
| Stack.Stack.Init | data-structures/stack/stack.c:45-58 | init fails (the program exits) exactly when init_count exceeds count_max; otherwise the stack is empty with the given capacity |
| Stack.Stack.Grow | data-structures/stack/stack.c:123-133 | exits iff the capacity is already count_max, otherwise doubles or caps it; the elements are unchanged |
| Stack.Stack.Push | data-structures/stack/stack.c:63-69 | the element goes on top; the buffer grows only when full, and the push fails only when full at count_max; num_elts <= count is kept |
| Stack.Stack.Pop | data-structures/stack/stack.c:76-82 | on an empty stack nothing changes and the output keeps its value; otherwise the top element is removed and returned |
| Stack.Stack.First | data-structures/stack/stack.c:89-92 | None iff the stack is empty, otherwise the top element |
| Stack.Stack.Free | data-structures/stack/stack.c:98-107 | every stored element is handed to free_elt exactly when one is given |
| Stack.PushAllPopAll | data-structures/stack/stack-main.c:77-79 | pushing a sequence and then popping until empty yields it reversed (LIFO) |
| Queue.Queue.Init | data-structures/queue/queue.c:42-56 | init fails exactly when init_count exceeds count_max; otherwise the queue is empty with no popped slots |
| Queue.Queue.Grow | data-structures/queue/queue.c:125-135 | exits iff the capacity is already count_max, otherwise doubles or caps it; the live window is unchanged |
| Queue.Queue.Move | data-structures/queue/queue.c:143-148 | compacts the live window to the front of the buffer, keeping its order, and sets num_popped_elts to 0 |
| Queue.Queue.Push | data-structures/queue/queue.c:61-67 | the element goes to the back; num_popped_elts + num_elts <= count is kept, and growth happens only when the buffer is full |
| Queue.Queue.Pop | data-structures/queue/queue.c:74-84 | on an empty queue nothing changes; otherwise the front element is removed and returned, and the window is moved once at least half the buffer is popped |
| Queue.Queue.First | data-structures/queue/queue.c:91-94 | None iff the queue is empty, otherwise the front element |
| Queue.Queue.Free | data-structures/queue/queue.c:100-109 | every live element is handed to free_elt exactly when one is given |
| Queue.PushAllPopAll | data-structures/queue/queue-test.c:76-78 | pushing a sequence and then popping until empty yields it in the same order (FIFO) |
| Queue.FirstWhilePushingAndPopping | data-structures/queue/queue-test.c:102-122 | all elements are pushed, then all popped: before the first push the front is None, and before and after every later push it is the first element; before pop i it is element i, after it element i + 1, or None after the last pop; the queue ends empty with count >= the number of elements |
| Queue.PushWatchingFront | data-structures/queue/queue-test.c:102-111 | pushing xs leaves exactly xs queued, with the front None before the first push and the first element before and after every other push |
| Queue.PopWatchingFront | data-structures/queue/queue-test.c:112-122 | popping a queue holding xs until empty sees element i in front before pop i and element i + 1, or None after the last, after it; count is unchanged |
| Queue.PopWatched | data-structures/queue/queue-test.c:113-119 | one pop removes the front element, which was in front before it, and leaves the next element, or None, in front |
| HeapOrder.Swap | data-structures/heap/heap.c:190-201 | the two positions exchange their contents and every other position is unchanged |
| HeapOrder.RootIsMin | data-structures/heap/heap.c:157-166 | in a min-heap the root priority is at most every other priority |
| HeapOrder.UpStep | data-structures/heap/heap.c:234-251 | swapping a too-small entry with its parent moves the single violation of heap order one level up |
| HeapOrder.UpDone | data-structures/heap/heap.c:234-251 | once the entry is not smaller than its parent, the only remaining possible violation is below it |
| HeapOrder.DownStep | data-structures/heap/heap.c:257-289 | swapping an entry with its smaller child moves the violation one level down |
| HeapOrder.DownDone | data-structures/heap/heap.c:257-289 | once the entry is not larger than its children, the array is a min-heap |
| HeapOrder.PopStart | data-structures/heap/heap.c:157-166 | moving the last entry to the root and dropping the old root leaves a single violation at the root |
| HeapOrder.IndexedSwap | data-structures/heap/heap.c:197-198 | a swap that re-points both indices keeps "the index maps the element at slot i to i" |
| HeapOrder.IndexedPush | data-structures/heap/heap.c:113-116 | writing at slot num_elts and indexing it there adds the element with its priority |
| HeapOrder.IndexedDropLast | data-structures/heap/heap.c:162-164 | dropping the last slot and its index entry removes exactly that element |
| HeapOrder.IndexedSetPty | data-structures/heap/heap.c:144-146 | overwriting a slot's priority stores the new priority for that element |
| Heap.Heap.Init | data-structures/heap/heap.c:75-95 | init exits exactly when init_count exceeds HEAP_COUNT_MAX; otherwise the heap is empty |
| Heap.Heap.Search | data-structures/heap/heap.c:128-135 | the element's current priority, or None when it is not in the heap |
| Heap.Heap.Push | data-structures/heap/heap.c:110-118 | adds the element with its priority and raises num_elts by one; grows only when full, and exits only when full at count_max |
| Heap.Heap.Append | data-structures/heap/heap.c:111-117 | with room, the element is added with its priority and heap order is restored |
| Heap.Heap.Update | data-structures/heap/heap.c:144-149 | the element's priority becomes the new one and num_elts is unchanged |
| Heap.Heap.Pop | data-structures/heap/heap.c:157-166 | on an empty heap nothing changes, outputs included; otherwise it returns an element of minimal priority and removes it from heap and index |
| Heap.Heap.Free | data-structures/heap/heap.c:172-182 | every stored element is handed to free_elt when one is given |
| Heap.Heap.Swap | data-structures/heap/heap.c:190-201 | exchanges two slots and re-points both elements' indices |
| Heap.Heap.HalfSwap | data-structures/heap/heap.c:207-211 | copies one slot onto another and re-points the copied element's index |
| Heap.Heap.Grow | data-structures/heap/heap.c:218-229 | exits iff the capacity is already count_max, otherwise doubles or caps it; contents and index are unchanged |
| Heap.Heap.HeapifyUp | data-structures/heap/heap.c:234-251 | from one violation at slot i going up, restores order above i, keeping contents and index consistent |
| Heap.Heap.HeapifyDown | data-structures/heap/heap.c:257-289 | from one violation at slot i going down, yields a min-heap, keeping contents and index consistent |
| Heap.Heap.LastChild | data-structures/heap/heap.c:278-284 | with a single child, only the left child is compared, and the entry ends no larger than its children |
| Heap.Heap.DownLoop | data-structures/heap/heap.c:262-277 | the two-child loop moves the hole down past every smaller child and stops with the held entry no larger than both children, or with fewer than two children below |
| Heap.Heap.Settle | data-structures/heap/heap.c:285-286 | writing the held entry into the final hole and indexing it there gives a min-heap with a consistent index |
| Heap.PushAllPopAll | data-structures/heap/heap-test.c:691-693 | popping everything pushed yields each element once, with its own priority, in non-decreasing priority order |
| HeapUint32.HeapUint32.Init | data-structures/heap-uint32/heap-uint32.c:55-86 | init fails its assertion exactly when the initial size exceeds 2^32 - 2; otherwise the heap is empty |
| HeapUint32.HeapUint32.Search | data-structures/heap-uint32/heap-uint32.c:116-123 | the element's current priority, or None when it is not in the heap |
| HeapUint32.HeapUint32.Push | data-structures/heap-uint32/heap-uint32.c:99-107 | adds the element with its priority; grows only when full, and aborts only when full at 2^32 - 2 |
| HeapUint32.HeapUint32.Update | data-structures/heap-uint32/heap-uint32.c:131-138 | the update aborts iff the element is absent; otherwise it stores the new priority |
| HeapUint32.HeapUint32.Pop | data-structures/heap-uint32/heap-uint32.c:145-155 | an empty heap is unchanged; otherwise it returns and removes an element of minimal priority |
| HeapUint32.HeapUint32.DropRoot | data-structures/heap-uint32/heap-uint32.c:151-154 | swapping the root to the end and removing it from the index takes out exactly the root element |
| HeapUint32.HeapUint32.Free | data-structures/heap-uint32/heap-uint32.c:161-174 | every stored element is handed to free_elt when one is given |
| HeapUint32.HeapUint32.Swap | data-structures/heap-uint32/heap-uint32.c:195-210 | exchanges both element and priority and re-inserts both indices |
| HeapUint32.HeapUint32.Grow | data-structures/heap-uint32/heap-uint32.c:217-228 | aborts iff the size is already 2^32 - 2, otherwise doubles or caps it; contents unchanged |
| HeapUint32.HeapUint32.HeapifyUp | data-structures/heap-uint32/heap-uint32.c:234-245 | from one violation going up, restores order above the slot |
| HeapUint32.HeapUint32.HeapifyDown | data-structures/heap-uint32/heap-uint32.c:251-278 | from one violation going down, yields a min-heap |
| HeapUint32.HeapUint32.LastChild | data-structures/heap-uint32/heap-uint32.c:272-277 | with a single child, only the left child is compared, and the result is a min-heap |
| HeapUint32.HeapUint32.RootFacts | data-structures/heap-uint32/heap-uint32-main.c:413-414 | the root holds a minimal priority of all stored elements, so successive pops are non-decreasing |
| HtMuloa.RdcKeyDef | data-structures/ht-muloa/ht-muloa.c:398-415 | the loops compute the reduced key: the leading remainder bytes read big-endian and shifted one byte further, plus each following 8-byte word, all modulo 2^64 |
| HtMuloa.ConvertStdKey | data-structures/ht-muloa/ht-muloa.c:420-430 | a key of at most the word size is read directly as a little-endian word, and a longer key is reduced |
| HtMuloa.AdjustDist | data-structures/ht-muloa/ht-muloa.c:435-445 | the probe step is always odd: 1 for 0, otherwise dist or dist - 1 |
| HtMuloa.ClearLow | data-structures/ht-muloa/ht-muloa.c:253 | a stored fval has its low bit cleared, so it never equals the placeholder marker |
| HtMuloa.StoredProbe | data-structures/ht-muloa/ht-muloa.c:343-345 | probing with the stored fval visits the same slots as probing with the key's hash |
| HtMuloa.ProbesDistinct | data-structures/ht-muloa/ht-muloa.c:452-475 | the first 2^lc probes of a key are pairwise distinct, so a probe sequence reaches every slot |
| HtMuloa.ProbesOccupied | data-structures/ht-muloa/ht-muloa.c:452-475 | n occupied probe positions mean at least n occupied slots |
| HtMuloa.MulAlphaExact | data-structures/ht-muloa/ht-muloa.c:482-488 | the split multiply-and-shift equals floor(n * alpha_n / 2^log_alpha_d) modulo 2^64 |
| HtMuloa.MulAlphaUnitFactor | data-structures/ht-muloa/ht-muloa.c:482-488 | with log_alpha_d = 0 and alpha_n <= 1, the high word of the product is 0 and mul_alpha is n * alpha_n |
| HtMuloa.MaxSumBound | data-structures/ht-muloa/ht-muloa.c:206-207 | max_sum is count - 1 when alpha is 1, and floor(count * alpha) otherwise; either way it is below count |
| HtMuloa.Reinsert | data-structures/ht-muloa/ht-muloa.c:567-581 | a live entry is placed at its first null probe slot, and the table then also maps its key to its element |
| HtMuloa.TableListing | data-structures/ht-muloa/ht-muloa.c:315-328 | the live slots list every stored key once, each with its element |
| HtMuloa.FreeSlots | data-structures/ht-muloa/ht-muloa.c:315-328 | the elements handed to free_elt are those of the live slots, in slot order |
| HtMuloa.HtMuloa.constructor | data-structures/ht-muloa/ht-muloa.c:191-223 | an empty table whose size is the first power of two with max_sum >= min_num (or the largest size), with 0 <= max_sum < count |
| HtMuloa.HtMuloa.GrowTo | data-structures/ht-muloa/ht-muloa.c:203-208 | the size doubles until max_sum reaches min_num or the largest size is reached |
| HtMuloa.HtMuloa.IncrCount | data-structures/ht-muloa/ht-muloa.c:526-534 | doubles count iff below the largest size, and keeps max_sum < count |
| HtMuloa.HtMuloa.SearchSlot | data-structures/ht-muloa/ht-muloa.c:452-475 | finds a key iff it is stored, at the slot of its recorded probe number |
| HtMuloa.HtMuloa.Search | data-structures/ht-muloa/ht-muloa.c:270-277 | the key's last inserted element, or None when it is absent |
| HtMuloa.HtMuloa.Put | data-structures/ht-muloa/ht-muloa.c:236-256 | a present key gets the new element with num_elts unchanged, its old element handed to free_elt exactly when one is given; a new key adds exactly one to num_elts and hands nothing over |
| HtMuloa.HtMuloa.Insert | data-structures/ht-muloa/ht-muloa.c:230-264 | the key maps to the new element afterwards, and growth or cleaning restores the load invariant; a present key's old element is handed to free_elt exactly when one is given |
| HtMuloa.HtMuloa.Vacate | data-structures/ht-muloa/ht-muloa.c:285-295 | a present key's slot becomes a placeholder: num_elts falls by one and num_phs rises by one |
| HtMuloa.HtMuloa.Remove | data-structures/ht-muloa/ht-muloa.c:285-295 | returns the element of a present key and removes the key; an absent key changes nothing |
| HtMuloa.HtMuloa.Delete | data-structures/ht-muloa/ht-muloa.c:301-309 | removes a present key and replaces its entry by the placeholder; its element is handed over exactly when the key was present and free_elt is given; an absent key changes nothing |
| HtMuloa.HtMuloa.Free | data-structures/ht-muloa/ht-muloa.c:315-328 | with free_elt, each stored element is handed over exactly once, in slot order; without it, none is |
| HtMuloa.HtMuloa.Grow | data-structures/ht-muloa/ht-muloa.c:499-518 | keeps every live entry, sets num_phs to 0, and doubles the size until the load fits or the largest size is reached |
| HtMuloa.HtMuloa.Clean | data-structures/ht-muloa/ht-muloa.c:542-560 | keeps every live entry at the same size and sets num_phs to 0 |
| HtMuloa.HtMuloa.Rebuild | data-structures/ht-muloa/ht-muloa.c:503-516 | reinserting every live entry of the old slots gives the same map in a fresh table without placeholders |
| HtDivUint32.Hash | data-structures/ht-div-uint32/ht-div-uint32.c:183-186 | the slot index is always less than count |
| HtDivUint32.FindIsSearch | data-structures/dll/dll.c:165-181 | looking up a key in a chain gives the element of the first node with that key |
| HtDivUint32.FindRemoveAt | data-structures/ht-div-uint32/ht-div-uint32.c:142-151 | removing a key's node from a chain of distinct keys makes exactly that key absent |
| HtDivUint32.TablePrepend | data-structures/ht-div-uint32/ht-div-uint32.c:113-114 | prepending a new key to its hash slot's chain keeps the table consistent and adds the key |
| HtDivUint32.TableRemove | data-structures/ht-div-uint32/ht-div-uint32.c:145-149 | deleting the found node removes exactly that key from the table |
| HtDivUint32.HtDivUint32.constructor | data-structures/ht-div-uint32/ht-div-uint32.c:74-92 | an empty table with count_ix 0, count 1543 and all chains empty |
| HtDivUint32.HtDivUint32.HashIndex | data-structures/ht-div-uint32/ht-div-uint32.c:183-186 | the key's slot is its value modulo count |
| HtDivUint32.HtDivUint32.Search | data-structures/ht-div-uint32/ht-div-uint32.c:125-134 | the key's element, or None when it is absent |
| HtDivUint32.HtDivUint32.Insert | data-structures/ht-div-uint32/ht-div-uint32.c:99-119 | a new key raises num_elts by one and a present key's element is replaced, the old one handed to free_elt exactly when one is given; the table grows while the load exceeds alpha and count_ix < PRIMES_COUNT - 1 |
| HtDivUint32.HtDivUint32.Place | data-structures/ht-div-uint32/ht-div-uint32.c:109-118 | the key maps to the new element at the same size; a present key's old element is handed to free_elt exactly when one is given |
| HtDivUint32.HtDivUint32.Remove | data-structures/ht-div-uint32/ht-div-uint32.c:142-151 | a present key's element is copied out and num_elts falls by one; an absent key leaves the output unchanged |
| HtDivUint32.HtDivUint32.Delete | data-structures/ht-div-uint32/ht-div-uint32.c:157-164 | a present key is removed and its element handed to free_elt |
| HtDivUint32.HtDivUint32.Free | data-structures/ht-div-uint32/ht-div-uint32.c:170-176 | every stored element is handed to free_elt |
| HtDivUint32.HtDivUint32.Grow | data-structures/ht-div-uint32/ht-div-uint32.c:193-218 | at the last prime nothing changes; otherwise every node moves to the next prime size and the map and num_elts are restored |
| HtDivUint32.HtDivUint32.MoveChains | data-structures/ht-div-uint32/ht-div-uint32.c:207-214 | draining the old chains reinserts all their entries into the new table |
| HtDivUint32.HtDivUint32.CopyReinsert | data-structures/ht-div-uint32/ht-div-uint32.c:224-231 | an absent key is prepended to its chain without a search, and num_elts rises by one |
| HtDivUint32.ReinsertOneKey | data-structures/ht-div-uint32/ht-div-uint32-main.c:583-590 | re-inserting one key 100000 times leaves count at 1543 and num_elts at 1 |
| HtDivUint32.ReinsertThenDelete | data-structures/ht-div-uint32/ht-div-uint32-main.c:589-593 | the re-inserted key is found, and after deleting it the table is empty and the search finds nothing |
| Dll.KeyIndex | data-structures/dll/dll.c:165-181 | the position of the first pair with the key, or the length when there is none |
| Dll.EltIndex | data-structures/dll/dll.c:234-251 | the position of the first pair whose element compares equal, or the length |
| Dll.KeyIndexFound | data-structures/dll/dll.c:165-181 | the key is found iff it is among the list's keys |
| Dll.LinkedRotate | data-structures/dll/dll.c:113 | starting a circle one node later gives the same circle |
| Dll.UnlinkedCircle | data-structures/dll/dll.c:273-274 | linking a node's neighbours to each other leaves the circle without that node |
| Dll.Dll.constructor | data-structures/dll/dll.c:56-58 | the empty list has a null head |
| Dll.Dll.Prepend | data-structures/dll/dll.c:123-134 | on an empty list the node becomes a one-node self-loop; otherwise it is spliced in before the head. Either way it becomes the head |
| Dll.Dll.Append | data-structures/dll/dll.c:140-143 | the node becomes the last pair, and the head's prev; a non-empty list keeps its head |
| Dll.Dll.Rotate | data-structures/dll/dll.c:142 | advancing the head moves the first pair to the back |
| Dll.Dll.PrependNew | data-structures/dll/dll.c:80-101 | a new node with the given key and element becomes the first pair |
| Dll.Dll.AppendNew | data-structures/dll/dll.c:107-114 | a new node with the given key and element becomes the last pair |
| Dll.Dll.SearchKey | data-structures/dll/dll.c:165-181 | null iff no pair has the key (in particular on an empty list), otherwise the first such node; the circle is restored afterwards |
| Dll.Dll.SearchUqKey | data-structures/dll/dll.c:196-215 | with unique keys, null iff the key is absent, otherwise its node |
| Dll.Dll.SearchElt | data-structures/dll/dll.c:234-251 | null iff no element compares equal, otherwise the first such node; the circle is restored |
| Dll.WalkToKey | data-structures/dll/dll.c:172-178 | on the circle cut open after its last node, stops at the first node with the key, or at null when no node has it |
| Dll.WalkToElt | data-structures/dll/dll.c:242-248 | on the circle cut open after its last node, stops at the first node whose element compares equal, or at null when none does |
| Dll.Dll.Walk | data-structures/dll/dll-test.c:371-382 | following next from the head for k nodes visits the first k pairs of the list, in order |
| Dll.Dll.Remove | data-structures/dll/dll.c:261-277 | unlinks the node; removing the only node empties the list, removing the head moves head to its successor |
| Dll.Dll.Delete | data-structures/dll/dll.c:296-320 | as remove, and the node's element is handed to free_elt when one is given |
| Dll.Dll.Free | data-structures/dll/dll.c:326-338 | every element is handed to free_elt in order from the head, and head becomes null |
| Dll.AppendAll | data-structures/dll/dll-test.c:362-378 | appending pairs one by one lists them in order from the head |
| Dll.PrependAll | data-structures/dll/dll-test.c:353-378 | prepending pairs one by one lists them in reverse order from the head |
| UtilitiesMod.PowMod | utilities/utilities-mod/utilities-mod.c:24-37 | square-and-multiply gives a^k mod n, which is 0 when n = 1 |
| UtilitiesMod.MulMod | utilities/utilities-mod/utilities-mod.c:43-67 | the split multiplication gives (a * b) mod n without overflow |
| UtilitiesMod.Redouble | utilities/utilities-mod/utilities-mod.c:57-64 | doubling 32 times with sum_mod gives x * 2^32 mod n |
| UtilitiesMod.SumMod | utilities/utilities-mod/utilities-mod.c:73-87 | (a + b) mod n, computed without overflowing a word |
| UtilitiesMod.ReducedSum | utilities/utilities-mod/utilities-mod.c:78-86 | the branch on the reduced operands yields exactly (a + b) mod n |
| UtilitiesMod.MemMod | utilities/utilities-mod/utilities-mod.c:96-110 | the little-endian value of the bytes, modulo n |
| UtilitiesMod.MulModPowTwo | utilities/utilities-mod/utilities-mod.c:118-128 | a * b modulo 2^64 |
| UtilitiesMod.ProductWords | utilities/utilities-mod/utilities-mod.c:134-151 | the high word, the shifted overlap and the low half-product add up to a * b |
| UtilitiesMod.MulExt | utilities/utilities-mod/utilities-mod.c:134-151 | the high and low words satisfy h * 2^64 + l = a * b, and the low word is mul_mod_pow_two |
| UtilitiesMod.RepresentUint | utilities/utilities-mod/utilities-mod.c:156-165 | for n > 0, n = u * 2^k with u odd; for n = 0, k = 64 and u = 0 |
| UtilitiesMod.PowTwo | utilities/utilities-mod/utilities-mod.c:170-173 | 2^k for k below the word width |
| Graph.BaseInit | data-structures/graph/graph.c:32-39 | n vertices, 0 edges and empty edge arrays |
| Graph.AdjLst.constructor | data-structures/graph/graph.c:60-81 | one empty list per vertex, and weight lists only when wt_size > 0 |
| Graph.AdjLst.DirBuild | data-structures/graph/graph.c:107-116 | each edge (u, v) appends v to u's list in edge order, and num_es grows by the edge count |
| Graph.AdjLst.UndirBuild | data-structures/graph/graph.c:121-132 | each edge is appended in both directions, and num_es grows by twice the edge count |
| Graph.AdjLst.AddDirEdge | data-structures/graph/graph.c:140-153 | the edge is added, with its weight, exactly when the coin comes up |
| Graph.AdjLst.AddUndirEdge | data-structures/graph/graph.c:161-176 | both directions are added exactly when the coin comes up |
| Graph.DirListEdges | data-structures/graph/graph.c:107-116 | y is in x's built list iff some edge goes from x to y |
| Graph.UndirListEdges | data-structures/graph/graph.c:121-132 | y is in x's built list iff some edge joins x and y, in either direction |
| Graph.UndirSymmetric | data-structures/graph/graph.c:121-132 | the undirected build is symmetric |
| Graph.RandDir | data-structures/graph/graph.c:184-198 | every ordered pair x != y is asked once; x's list holds, in increasing order, the y whose coin came up |
| Graph.RandUndir | data-structures/graph/graph.c:206-219 | every unordered pair is asked once, and its edge is added in both directions |
| Graph.RandListMembers | data-structures/graph/graph.c:184-198 | a random list is increasing and holds exactly the other vertices whose coin came up |
| Graph.RandUndirSymmetric | data-structures/graph/graph.c:206-219 | the random undirected graph is symmetric |
| Graph.DirSample | data-structures/graph/graph-test.c:71-79 | the 5-vertex sample gives the expected directed lists, and weights alongside |
| Graph.UndirSample | data-structures/graph/graph-test.c:166-182 | the 5-vertex sample gives the expected undirected lists, and weights alongside |
| Bfs.Bfs | graph-algorithms/bfs/bfs.c:39-61 | prev[start] = start, dist[start] = 0 and unreached vertices keep prev = NR and dist = 0; a reached vertex's prev has an edge to it with dist one less; each vertex is enqueued at most once |
| Bfs.Drain | graph-algorithms/bfs/bfs.c:49-59 | the queue loop ends with a BFS result |
| Bfs.Visit | graph-algorithms/bfs/bfs.c:51-58 | scanning u's list discovers each unreached neighbour at distance dist[u] + 1 |
| Bfs.Look | graph-algorithms/bfs/bfs.c:53-57 | the neighbour at position i, when unreached, gets dist[u] + 1 and prev = u and is queued; a reached one is left alone; either way the BFS invariant moves from position i to i + 1 |
| Bfs.BfsShortestPaths | graph-algorithms/bfs/bfs.c:39-61 | a vertex is reached iff a walk from start leads to it, and dist is the length of a shortest walk |
| Bfs.BfsComplete | graph-algorithms/bfs/bfs-test.c:284-292 | on a complete graph every other vertex has dist 1 and prev = start |
| Dfs.NextUvi | graph-algorithms/dfs/dfs.c:98-107 | the first unexplored neighbour index >= vi, or num_elts when there is none |
| Dfs.Dfs | graph-algorithms/dfs/dfs.c:38-57 | pre and post are exactly the stamps of DfsRecursive.DepthFirst (the recursion the stack emulates, restarted from start .. n - 1 and then 0 .. start - 1, each list in its order); they form a DfsResult: 0 .. 2n - 1 used once each, pre[start] = 0, pre[u] < post[u], every neighbour reached before its source finishes, post = pre + 1 without edges, intervals disjoint or nested, and x reachable from start iff pre[x] <= post[start] |
| Dfs.Sweep | graph-algorithms/dfs/dfs.c:46-55 | a sweep over lo .. hi - 1 leaves the stamps of the recursive restart over that range, in increasing vertex order |
| Dfs.Search | graph-algorithms/dfs/dfs.c:60-89 | searching from an unreached u leaves the stamps of the recursive Explore(u), with pre[u] = c and every earlier stamp kept |
| Dfs.Visit | graph-algorithms/dfs/dfs.c:47-49 | one pass of the outer loop searches from i exactly when i is unreached, leaving Explore(i)'s stamps, and otherwise changes nothing |
| Dfs.RunFrom | graph-algorithms/dfs/dfs.c:70-88 | pushing (u, 0) after previsiting u and draining the stack ends in the state the stack was on its way to |
| Dfs.SearchStart | graph-algorithms/dfs/dfs.c:68-72 | previsiting an unreached u keeps the counter invariant with (u, 0) as the only stack entry and puts the search on its way to Explore(u) |
| Dfs.Drain | graph-algorithms/dfs/dfs.c:73-88 | the loop empties the stack and ends in the state the stack was on its way to |
| Dfs.Advance | graph-algorithms/dfs/dfs.c:74-87 | one pass pops (u, vi) and finds the first unreached neighbour at a position r >= vi: with none, post[u] = c and the entry is dropped; otherwise that neighbour v gets pre[v] = c and (u, r), (v, 0) are pushed |
| Dfs.RefStart | graph-algorithms/dfs/dfs.c:68-72 | previsiting u and pushing (u, 0) puts the stack on its way to Explore(u) |
| Dfs.RefRetreat | graph-algorithms/dfs/dfs.c:76-78 | finishing a top vertex with no unreached neighbour left keeps the stack on its way to the same result |
| Dfs.RefDescend | graph-algorithms/dfs/dfs.c:79-86 | previsiting the next unreached neighbour and pushing it keeps the stack on its way to the same result |
| Dfs.RefStep | graph-algorithms/dfs/dfs.c:74-87 | each pass of the loop keeps the stack on its way to the same result |
| Dfs.ExploreSkipOne | graph-algorithms/dfs/dfs.c:98-107 | exploring u's list from vi is exploring its first unreached neighbour at r, then the list from r |
| Dfs.DfsStep | graph-algorithms/dfs/dfs.c:74-87 | each pass keeps the counter invariant: every counter value records one stamp, and the stack holds the reached, unfinished vertices |
| Dfs.DfsDone | graph-algorithms/dfs/dfs.c:38-57 | once every vertex is reached, pre[start] = 0 and the stack is empty, the stamps are a counter's: 0 .. 2n - 1 once each, pre < post, neighbours reached before finishing |
| Dfs.DfsComplete | graph-algorithms/dfs/dfs.c:38-57 | the recursive search's stamps, once a counter's, are a DfsResult: intervals disjoint or nested, and reachable from start iff stamped no later than post[start] |
| DfsRecursive.ExploreFromSkip | graph-algorithms/dfs/dfs.c:98-107 | exploring a list from j equals exploring it from k when the neighbours at j .. k - 1 are already reached, the positions next_uvi skips |
| DfsRecursive.ExploreSound | graph-algorithms/dfs/dfs.c:60-89 | exploring an unreached v keeps earlier stamps, stamps only vertices reachable from v and within the counter values it uses, finishes each with its neighbours reached, and keeps intervals disjoint or nested |
| DfsRecursive.ExploreFromSound | graph-algorithms/dfs/dfs.c:73-88 | exploring u's list from j reaches every neighbour at j or later, with the same guarantees as ExploreSound |
| DfsRecursive.RestartSound | graph-algorithms/dfs/dfs.c:46-55 | restarting over a range reaches every vertex of it and keeps the stamps given before |
| DfsRecursive.WalkReached | graph-algorithms/dfs/dfs.c:73-88 | when every reached vertex is finished, every vertex on a walk from a reached vertex is reached |
| DfsRecursive.DepthFirstSound | graph-algorithms/dfs/dfs.c:38-57 | the recursive search reaches every vertex with pre[start] = 0, keeps intervals disjoint or nested, and x is reachable from start iff pre[x] <= post[start] |
| Dijkstra.Dijkstra | graph-algorithms/dijkstra/dijkstra.c:68-125 | dist is the cost of a cheapest walk from start to each reached vertex, prev[start] = start, and unreached vertices keep prev = NR |
| Dijkstra.Settle | graph-algorithms/dijkstra/dijkstra.c:102-119 | the heap loop ends with a Dijkstra result |
| Dijkstra.Relax | graph-algorithms/dijkstra/dijkstra.c:104-118 | scanning u's list relaxes every edge from u |
| Dijkstra.Scan | graph-algorithms/dijkstra/dijkstra.c:105-117 | the neighbour at position i is discovered when unreached, lowered when its distance exceeds the sum, and left alone otherwise; either way the Dijkstra invariant moves from position i to i + 1 |
| Dijkstra.Discover | graph-algorithms/dijkstra/dijkstra.c:108-111 | an unreached neighbour gets the sum, is pushed and gets prev = u |
| Dijkstra.Lower | graph-algorithms/dijkstra/dijkstra.c:112-116 | a reached neighbour with a larger distance is lowered to the sum, its heap priority updated and prev set to u |
| Dijkstra.DijkstraShortestPaths | graph-algorithms/dijkstra/dijkstra.c:68-125 | no walk to a vertex is cheaper than its dist, and every reached vertex has a walk costing exactly dist |
| Dijkstra.DijkstraUniform | graph-algorithms/dijkstra/dijkstra-test.c:578-579 | with every weight equal to w, dijkstra reaches the same vertices as bfs, and dist equals w times the bfs dist |
| Dijkstra.HtDefault.constructor | graph-algorithms/dijkstra/dijkstra.c:127-142 | one empty slot per vertex |
| Dijkstra.HtDefault.Insert | graph-algorithms/dijkstra/dijkstra.c:144-151 | the vertex is stored with the element |
| Dijkstra.HtDefault.Search | graph-algorithms/dijkstra/dijkstra.c:153-159 | the stored element, or None after no insert or after a remove |
| Dijkstra.HtDefault.Remove | graph-algorithms/dijkstra/dijkstra.c:161-166 | the slot is reset to NR and the stored element is copied out |
| Dijkstra.HtDefault.Free | graph-algorithms/dijkstra/dijkstra.c:168-178 | the elements handed to free_elt are those of the stored vertices, one per stored vertex, in increasing slot order |

## Left out

- Memory: malloc, realloc and free are not modelled, and neither are allocation failure or freeing the tables themselves.
- Growth replaces an array by a fresh one, and the `*_free` functions return the sequence of elements they would hand to `free_elt`.
- Byte-level layout is not modelled. Elements and priorities are typed values rather than blocks of `elt_size` and `pty_size` bytes, so `memcpy` becomes assignment.
- Comparator callbacks (`cmp_pty`, `cmp_wt`, `cmp_key`) are not modelled.
  - Priorities and weights are integers ordered by `<=`.
  - Keys are compared by equality.
  - `dll_search_elt` keeps its `cmp_elt` as a function parameter.
- `heap`'s pluggable index table is not modelled on its own. The heap keeps the index as a map; `dijkstra`'s default table is modelled separately as `Dijkstra.HtDefault`.
- `heap_uint32`'s `ht_div_uint32` index is a map in the model. The field names differ between heap.h and heap.c, and that difference is not modelled.
- `dijkstra`'s `ht` parameter is not modelled: the model always uses the default table. `ht_default_init` declares six parameters, one more than the five of `heap_ht_init`, through which heap.c:94 calls it. So `cmp_key` receives NULL, `free_elt` receives the context pointer, and `context`, which `ht_default_init` reads `num_vts` from, receives no argument. The model's `Dijkstra.HtDefault` constructor takes the vertex count directly, so this mismatch is not modelled.
- `dijkstra` gives the heap a null `free_elt`, and nothing is stored when its heap is freed. `Dijkstra.HtDefault.Free` therefore only returns the elements, one per stored vertex in slot order, that a given `free_elt` would receive.
- Bfs.Bfs, Dijkstra.Dijkstra: `prev` is stated only as some valid predecessor (an edge from a vertex one level closer, or the last edge of a cheapest walk), not as the particular one the C picks (the first discoverer in queue order, or the last strictly lowering relaxation); the C promises no particular choice.
- Weights are natural numbers, and `add_wt` is exact addition, so a weight sum cannot overflow.
- `graph_free`, `adj_lst_free` and `stack_free`/`heap_free` deallocation are left out; the adjacency lists' per-vertex stacks are sequences.
- `bern` in `graph.c` is a coin oracle parameter, a function from the call number to a boolean.
- The random generators behind it are not part of this model.
- `dll_ptr` (pointer arithmetic inside a node) is not modelled.
- `ht_div_uint32` chains are sequences of (key, element) pairs rather than `dll` nodes. The `dll` module proves the list operations those chains use.
- `ht_div_uint32`'s `num_elts` is not capped at 2^32.
- The `float alpha` comparison in `ht_div_uint32_insert` is modelled as an exact rational comparison `num_elts * alpha_d > alpha_n * count`.
- HtMuloa.HtMuloa.Insert: requires that the table is not full (`num_elts + num_phs < count`).
  - The C code probes forever once the largest size is full.
  - Init's load factor must be at most 1 (`alpha_n <= 2^log_alpha_d`).
- The 8-byte words of a long key are read little-endian, as on the machines the code targets.
- The `rdc_key` callback of `ht_muloa` is not modelled; the model always uses the default reduction `rdc_key_def`.
- `is_overflow`, `build_prime` and `find_build_prime`, which assemble `ht_muloa`'s hash multipliers `fprime` and `sprime`, are not modelled. The model fixes the multipliers to their value on a 64-bit `size_t`, `HtMuloa.FPRIME` and `HtMuloa.SPRIME`.
- `mul_alpha` with `log_alpha_d = 0` shifts a word by 64, which is undefined in C. The model gives `h << 64` the value 0 (the bits shifted out of a 64-bit word). Init only accepts `alpha_n <= 2^log_alpha_d`, so with `log_alpha_d = 0` the factor `alpha_n` is 0 or 1, its high word is 0, and the shifted term is 0 in every reading of the shift (`HtMuloa.MulAlphaUnitFactor`).
- `represent_uint(0)` is defined in the model as k = 64 and u = 0, without the shift the C code would perform.
- Dfs.Dfs: requires `2 * num_vts < SIZE_MAX`, so that the counter and the NR marker cannot meet.
- Bfs.Bfs: requires `num_vts <= SIZE_MAX`, the queue's maximum count.
- The sample dist/prev and pre/post tables of bfs-test.c (lines 76-128) and dfs-test.c (lines 65-78), and the complete-graph stamps of dfs-test.c (lines 255-263), are not evaluated in the model. `Dfs.Dfs` is proved equal to `DfsRecursive.DepthFirst`, which fixes the stamps on any given graph, but the model does not compute them for those graphs.
- Concurrency variants, timing drivers and the test programs' printing are not modelled.
