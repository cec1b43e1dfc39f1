# A verified model of the lab0-c string queue

This project models `queue.c` of lab0-c. The queue is a circular doubly-linked list of C strings. It is built on the Linux-kernel `struct list_head` API. A queue is a sentinel head node. Each element (`element_t`) embeds a `list_head` and points to a heap copy of its string. The model covers three things:

- every queue operation: create, free, insert and remove at both ends, size, delete-middle, delete-duplicates, swap pairs, reverse, merge and merge sort;
- the list primitives those operations use;
- the C string handling they depend on.

Memory is an arena of node slots held by the class `Queue.Heap`:

- a pointer is a slot index, and NULL is `NIL`;
- the fields `next`, `prev` and `value` hold every slot's links and string;
- a ghost set `live` records what `malloc` has handed out and `free` has not taken back.

Every operation rewires the links in place, one assignment at a time, as the C code does. Loops carry their invariants.

The predicate `Heap.Ring(h, ids)` says that head `h` and the element slots `ids` form a well-formed ring, in order. Each operation states the sequence its ring holds afterwards as a pure function of the sequence before. Lemmas about those functions then state what the queue promises.

| module | file | contents |
|---|---|---|
| `CStrings` | `cstrings.dfy` | C strings, `strcmp`, `strnlen`, `strncpy`, how a payload is stored and copied out |
| `Spec` | `spec.dfy` | pure sequence functions the operations are proved against, and their properties |
| `Rings` | `rings.dfy` | the ring shape over link arrays, and what each kind of relinking does to it |
| `Queue` | `queue.dfy` | the heap, the list primitives and the queue operations |

Common ideas in the contracts:

- **`Keeps(nx0, pv0, nx, pv, S)`**: only the links of the slots in `S` changed. This is the frame that lets callers keep their other rings.
- **`Vals(value, ids)`**: the strings of the nodes `ids`.
- **`Ordered(value, ids)`**: those strings are non-decreasing under `strcmp`. `OrderedIffSorted` ties it to `Sorted(Vals(value, ids))`.

## Model

| member | source | states |
|---|---|---|
| CStrings.Strcmp | queue.c:325 | the comparison is -1, 0 or 1, and 0 exactly when the two strings are equal |
| CStrings.LeTotal | queue.c:325-336 | any two strings are ordered one way or the other by `strcmp(a, b) <= 0` |
| CStrings.LeTransitive | queue.c:325-336 | the order used by merge and sort is transitive |
| CStrings.StrcmpAntisymmetric | queue.c:325 | swapping the arguments negates the comparison |
| CStrings.Strnlen | queue.c:84 | the length is capped at the bound and equals either the string length or the bound |
| CStrings.Strncpy | queue.c:90 | exactly n characters are written: the source, then terminators for the rest |
| CStrings.CStr | queue.c:158-160 | a buffer is read up to its first terminator, and the result is a prefix that holds no terminator |
| CStrings.InsertedBuffer | queue.c:84-90 | as written, the payload buffer has `strnlen(s, 1024) + 1` characters |
| CStrings.InsertedBufferTerminatedIff | queue.c:84-90 | as written, the stored payload is terminated if and only if the input has at most 1024 characters |
| CStrings.InsertedBufferLongInput | queue.c:84-90 | a 1025-character input leaves an unterminated payload |
| CStrings.TerminatedBuffer | queue.c:83-90 | the intended payload buffer has the same size, is terminated, and reads back as the input cut to 1024 characters |
| CStrings.Stored | queue.c:83-90 | corrected payload: an element keeps exactly the first `strnlen(s, 1024)` characters of the input, a C string of at most 1024 characters, and the whole input when it is short enough |
| CStrings.CopyOut | queue.c:157-161 | the caller's buffer has exactly `bufsize` characters, and the last one is the terminator |
| CStrings.CopyOutReadsBack | queue.c:157-161 | the caller reads back the removed string cut to `bufsize - 1` characters |
| CStrings.StoredReadsBack | queue.c:150-163 | round trip: a string of at most 1024 characters that is inserted and then removed reads back as itself, cut to `bufsize - 1` |
| Queue.CopyOutTo | queue.c:157-161 | after the copy-out, `sp[0..bufsize)` is exactly `CopyOut(v, bufsize)`, and the rest of `sp` is untouched |
| Queue.CopyString | queue.c:158 | the loop writes `strncpy`'s n characters into the array and nothing beyond them |
| Queue.Heap.AllocSlot | queue.c:20-21 | a new slot is appended with NULL links and becomes live |
| Queue.Heap.Malloc | queue.c:20-23 | allocation either fails and changes nothing, or hands out a fresh live slot |
| Queue.Heap.Free | queue.c:42 | only the slot's liveness changes |
| Queue.Heap.ReleaseElement | queue.c:188-192 | the element slot stops being live, and no link or string changes |
| Queue.Heap.InitListHead | queue.c:24 | the head becomes an empty ring that points to itself |
| Queue.Heap.ListEmpty | queue.c:36 | `list_empty` is true if and only if the ring holds no element |
| Queue.Heap.ListIsSingular | queue.c:346 | `list_is_singular` is true if and only if the ring holds exactly one element |
| Queue.Heap.ListAdd | queue.c:96 | the node is inserted right after the given position, and only the links of the ring and the new node change |
| Queue.Heap.ListAddTail | queue.c:132 | the node is inserted right before the given position |
| Queue.Heap.ListDel | queue.c:156 | the k-th element leaves the ring, and exactly two links change |
| Queue.Heap.ListMove | queue.c:261 | the node leaves its ring and lands after the given position, either in another ring or in the same ring |
| Queue.Heap.ListSplice | queue.c:317 | the spliced ring's elements come first, then the target's; splicing an empty ring changes nothing |
| Queue.Heap.NewQueue | queue.c:18-27 | `q_new` returns NULL and changes nothing, or returns a fresh live empty queue |
| Queue.Heap.FreeQueue | queue.c:30-43 | every node of the queue, head included, stops being live; a NULL queue changes nothing |
| Queue.Heap.FreeTurn | queue.c:36-41 | one loop iteration frees the first remaining element and keeps the loop invariant |
| Queue.Heap.NewElement | queue.c:77-90 | on success a fresh live element holds `Stored(s)`; on failure no live slot and no link changes |
| Queue.Heap.InsertHead | queue.c:61-98 | fails on NULL or uninitialised heads; otherwise the queue becomes the new element followed by the old elements, with strings `[Stored(s)] + old strings`; the only string that changes is the new slot's, so every other queue keeps its strings |
| Queue.Heap.InsertTail | queue.c:107-134 | the same, with the new element appended at the tail and the strings of every other slot unchanged |
| Queue.Heap.RemoveHead | queue.c:150-163 | returns NULL exactly for a NULL or empty queue; otherwise unlinks and returns the first element, keeps it live, and fills `sp` with `CopyOut` of its string |
| Queue.Heap.RemoveTail | queue.c:169-182 | the same for the last element |
| Queue.Heap.Size | queue.c:198-209 | the count is 0 for NULL and otherwise the number of elements |
| Queue.Heap.DeleteMid | queue.c:219-235 | fails exactly on NULL or empty; otherwise the queue becomes `WithoutMiddle` of its elements, and only the element at index n/2 is freed |
| Queue.Heap.DeleteDup | queue.c:246-267 | as written: fails exactly on NULL or empty; otherwise only the first element stays, and all the others are freed |
| Queue.Heap.NewQueueBeside | queue.c:254 | the temporary `dup_strs` queue is a fresh empty ring, and the queue being deduplicated is unchanged |
| Queue.Heap.DeleteDupTurn | queue.c:257-264 | as written, each iteration moves the current node to `dup_strs`, because it compares against the first element, which equals `val` |
| Queue.Heap.DupMove | queue.c:261 | the node is moved to the front of `dup_strs`, so that queue holds the moved nodes in reverse order |
| Queue.Heap.FreeDuplicates | queue.c:265 | `q_free(dup_strs)` frees every moved node and the temporary head, and leaves the queue's first element alone |
| Queue.Heap.DeleteDupIntended | queue.c:237-245 | corrected: on a sorted queue, exactly the elements whose string occurs once remain, in order (`Uniques`), and exactly the others are freed |
| Queue.Heap.DedupLoop | queue.c:257-264 | the corrected loop leaves `Uniques` of the queue and frees the rest |
| Queue.Heap.DedupAdvance | queue.c:257-264 | one iteration of the corrected loop extends the kept prefix to `Uniques` of one more element |
| Queue.Heap.DedupTurn | queue.c:257-264 | a node is kept exactly when it differs from both neighbours, and is otherwise unlinked and freed |
| Queue.Heap.DedupUnlink | queue.c:261 | one node leaves the ring and stops being live |
| Queue.Heap.Swap | queue.c:272-283 | the queue becomes `PairsSwapped` of its elements; NULL changes nothing |
| Queue.Heap.SwapPair | queue.c:278-282 | one iteration swaps the next pair and moves the cursor past it |
| Queue.Heap.SwapStep | queue.c:280-281 | `list_move(node, tmp)` exchanges two adjacent elements |
| Queue.Heap.Reverse | queue.c:292-305 | the queue becomes the reverse of its elements, by swapping each node's links; NULL or empty changes nothing |
| Queue.Heap.MergeTwoLists | queue.c:311-338 | when the right list is sorted, the left ring becomes `Merge` of the two lists, and the right head is left empty whenever the left was non-empty |
| Queue.Heap.MergeTurn | queue.c:321-337 | one outer iteration inserts the next right node at its merge position |
| Queue.Heap.MergeScan | queue.c:325-331 | the scan stops at the first left node greater than the right node, or at the last left node; every node before it is at most the right node |
| Queue.Heap.MergeMove | queue.c:332-336 | the right node moves before the scanned node when that one is greater, and otherwise after it |
| Queue.Heap.Sort | queue.c:344-369 | the queue becomes `MergeSort` of its elements; NULL, empty and single-element queues are unchanged |
| Queue.Heap.FindMiddle | queue.c:348-352 | the slow pointer stops at the last node of the first half |
| Queue.Heap.StackHead | queue.c:354 | `LIST_HEAD(right)` gives an empty ring in a fresh slot |
| Queue.Heap.SplitOff | queue.c:354-363 | the ring splits into its first m elements and the rest, the rest headed by `right` |
| Queue.Heap.SortHalves | queue.c:365-366 | the two recursive calls sort each half in place |
| Queue.Heap.MergeHalves | queue.c:368 | merging the sorted halves gives `MergeSort` of the whole queue |
| Queue.Heap.DropStackHead | queue.c:354-369 | the stack head goes away at return, and the queue is unaffected |
| Spec.OrderedIffSorted | queue.c:339-343 | a node sequence is ordered if and only if its strings are sorted |
| Spec.Reversed | queue.c:292-305 | element i of the reverse is element n-1-i |
| Spec.ReversedInvolution | queue.c:292-305 | reversing twice restores the queue |
| Spec.ValsReversed | queue.c:292-305 | the reversed queue holds the reversed strings |
| Spec.PairsSwapped | queue.c:272-283 | swapping pairs keeps the length |
| Spec.PairsSwappedAt | queue.c:272-283 | odd positions take their left neighbour, even positions their right neighbour, and a trailing odd element stays |
| Spec.PairsSwappedPermutes | queue.c:272-283 | swapping pairs permutes the elements |
| Spec.PairsSwappedInvolution | queue.c:272-283 | swapping pairs twice restores the queue |
| Spec.ValsPairsSwapped | queue.c:272-283 | the swapped queue holds the pair-swapped strings |
| Spec.WithoutMiddle | queue.c:211-218 | one element fewer; the elements before index n/2 are unchanged, and those after it shift down by one |
| Spec.WithoutMiddlePermutes | queue.c:211-218 | what remains, plus the element at index n/2, is the original multiset |
| Spec.WithoutMiddleExamples | queue.c:215 | of six elements the one at index 3 goes; of one element, none remains |
| Spec.ValsWithoutMiddle | queue.c:211-218 | the strings of the remaining nodes are the original strings without the middle one |
| Spec.Merge | queue.c:307-338 | the merge has as many nodes as both inputs together |
| Spec.MergePermutes | queue.c:307-338 | the merge is a permutation of the two inputs together |
| Spec.MergeOrdered | queue.c:307-338 | merging two sorted lists gives a sorted list |
| Spec.MergeSnoc | queue.c:321-337 | appending a node no smaller than the right list inserts it after every merged node that is at most it, which is where the C loop puts it |
| Spec.MergeEmptyLeft | queue.c:314-319 | merging into an empty left list gives the right list unchanged, which is what the early `list_splice` produces |
| Spec.MergeOfOrderedConcat | queue.c:307-338 | when all of the left list is at most all of the right list, the merge is their concatenation |
| Spec.Half | queue.c:348-352 | the split point leaves two non-empty halves, the first of them the larger by at most one |
| Spec.MergeSort | queue.c:344-369 | the sort is a permutation of its input nodes |
| Spec.MergeSortOrdered | queue.c:339-369 | the sorted queue is in non-decreasing `strcmp` order |
| Spec.MergeSortPermutes | queue.c:339-369 | the sorted queue holds the same multiset of strings |
| Spec.MergeSortOfOrdered | queue.c:339-369 | sorting a sorted queue leaves it as it is |
| Spec.MergeSortIdempotent | queue.c:339-369 | sorting twice is the same as sorting once |
| Spec.Uniques | queue.c:237-245 | keeps only nodes of the input, each with a valid string |
| Spec.UniquesMembers | queue.c:237-245 | a node is kept if and only if its string occurs exactly once |
| Spec.CountOnceIffNeighboursDiffer | queue.c:243-244 | in a sorted queue, a string occurs once if and only if it differs from both neighbours |
| Spec.SortedOnceIffNeighboursDiffer | queue.c:243-244 | that holds at every position of a sorted queue |
| Spec.UniquesExample | queue.c:237-245 | from [a, a, b, c, c], deleting duplicates leaves only the node of b |
| Spec.DeleteDupCounterexample | queue.c:256-264 | for the sorted queue ["a", "b"], the intended result keeps both nodes, while the code as written keeps only the first |
| Rings.LinkInvariant | queue.c:36 | in a ring, `next[prev[y]] == y` and `prev[next[y]] == y` for every node |
| Rings.WalkReturns | queue.c:206-207 | following `next` from the head visits the elements in order and is back at the head after n+1 steps |
| Rings.EmptyIff | queue.c:36 | the head points to itself if and only if the ring is empty; `next == prev` at a non-self head if and only if it holds one element |
| Rings.Insert | queue.c:96 | rewiring four links around a position inserts the node there |
| Rings.Delete | queue.c:156 | rewiring two links around an element removes it |
| Rings.Splice | queue.c:317 | rewiring four links puts one ring's elements before another's |
| Rings.Split | queue.c:357-363 | the six assignments split a ring into its first m elements and a second ring holding the rest |
| Rings.ReverseStep | queue.c:298-304 | one do-while iteration swaps one more node's links and advances along the old order |
| Rings.ReverseLinks | queue.c:298-304 | once every node has its links swapped, the ring holds the elements reversed |
| Rings.SwapDone | queue.c:278 | when the loop guard fails, every pair has been swapped |

## Left out

- Queue.Heap.NewElement: for an input longer than 1024 characters the code stores `InsertedBuffer(s)`, 1025 characters with no terminator, so any later `strcmp` or `strncpy` of that payload reads past the buffer. The model instead stores the corrected `Stored(s)`, the first 1024 characters (first finding).
- Queue.Heap.InsertHead: stores the corrected `Stored(s)` through `NewElement`. For an input longer than 1024 characters the code as written stores the unterminated `InsertedBuffer(s)` (queue.c:84-90).
- Queue.Heap.InsertTail: stores the corrected `Stored(s)` through `NewElement`. For an input longer than 1024 characters the code as written stores the unterminated `InsertedBuffer(s)` (queue.c:120-126).
- CStrings.Stored: is the corrected payload `s[..1024]`. For an input longer than 1024 characters, what queue.c:84-90 actually stores is `InsertedBuffer(s)`, which is unterminated.
- The arena itself, built by `Queue.Heap.constructor`, stands for the C heap. It has no counterpart in queue.c.
- Allocation failure is a nondeterministic choice inside `Queue.Heap.Malloc`. Nothing models how much memory is left.
- Queue.Heap.DeleteDup: the `q_new()` at queue.c:254 is taken to succeed. The code does not check its result, and a NULL there would be dereferenced.
- Queue.Heap.Size: returns the unbounded length. The `int` counter of `q_size` can overflow past 2^31 - 1 elements, and that is not modelled.
- Queue.Heap.Sort: the stack-allocated `right` head of `q_sort` is an arena slot that is appended for the call and truncated away at return.
- Queue.Heap.MergeTwoLists: requires only the right list to be sorted. The result is stated as `Merge` of the two lists, which is sorted when both are (`Spec.MergeOrdered`). On ties the left node comes first, as the code does.
- Queue.Heap.MergeTwoLists: after the early splice of a non-empty right list into an empty left list, the right head's own links are stale. The model states nothing about that head, and the code never reads it again.
- Queue.Heap.RemoveHead: `bufsize == 0` with a non-NULL `sp` writes `sp[-1]` in the code. The model requires `bufsize >= 1` whenever `sp` is given.
- Queue.Heap.RemoveTail: the same `bufsize >= 1` requirement.
- Queue.Heap.DeleteDupIntended: models the documented behaviour with a loop that compares each node with its neighbours. It is a rewrite of the loop, not a one-token fix of the code as written.
- Queue.Heap.InsertHead: a head whose `next` or `prev` is NULL is rejected, as the code does. Any other ill-formed head is excluded by the precondition.
- Queue.Heap.InsertTail: the same treatment of ill-formed heads.
- Queue.Heap.DeleteDup: returns false for an empty queue as well as for NULL. The code's `return NULL` converts to false there, although the header comment names only the NULL case.
- Strings are sequences of characters. Bytes, encodings and the 8-bit `char` range are not modelled.
- `list.h` and `harness.h` are not part of this model. The list primitives are modelled from their kernel behaviour: `list_add`, `list_add_tail`, `list_del`, `list_move`, `list_splice`, `list_empty` and `list_is_singular`. The test harness's allocation checks are left out.
- The `element_t` pointer is the node's slot, so `list_entry` is the identity. An element's string and its node are a single slot, and freeing the string and freeing the node are a single step.
- `create_node` (queue.c:49-52) is `Malloc`.

## Findings

| source | as written | input that shows it | evidently intended | confidence | as-written member | corrected member |
|---|---|---|---|---|---|---|
| queue.c:84-90 | the buffer is `strnlen(s, 1024) + 1` characters and is filled by `strncpy` with no terminator written afterwards, so an input longer than 1024 characters leaves 1025 characters and no terminator | a string of 1025 copies of 'a' | the stored payload is the first 1024 characters of the input followed by a terminator | not executed | CStrings.InsertedBufferLongInput | CStrings.TerminatedBuffer |
| queue.c:259 | each iteration reads the string of `head->next`, the first element, instead of the current node, so every later node matches `val` and is moved to `dup_strs` | the sorted queue ["a", "b"] | every node whose string occurs more than once is removed, and all others stay | not executed | Queue.Heap.DeleteDup | Queue.Heap.DeleteDupIntended |

The second finding is exhibited by `Spec.DeleteDupCounterexample`. The first is exhibited by `CStrings.InsertedBufferTerminatedIff`. Inserting elements uses the corrected behaviour: `Queue.Heap.NewElement` stores `Stored(s)`, which is read from `TerminatedBuffer`.

The intent of the first finding is set by the comment at queue.c:83: the longest string an element keeps is 1024 characters, excluding the terminator. The queue methods store that corrected payload. The code as written is kept only in `CStrings.InsertedBuffer` and the lemmas about it.
