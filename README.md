# lab0-c queue, modelled in Dafny

This project models `queue.c` of lab0-c. That file is a string queue built on the Linux kernel's
intrusive, circular, doubly linked `struct list_head`. Every queue operation is link surgery on
that ring, and the model keeps that form.

- **The links.** An arena (`Lists.Arena`) holds three `seq` fields indexed by node number: `next`,
  `prev` and `value`. Its methods reassign these fields as the C code rewrites pointers.
- **The meaning of the links.** A ghost map `rings` gives, for every live sentinel (list head), the
  ordered entries of its ring. An entry is a node number plus its string.
- **The invariant.** `Valid()` says three things:
  - every ring is linked correctly in both directions;
  - no node belongs to two places;
  - every entry's string is the one stored in its node.
- **Stack list heads.** The auxiliary heads that `q_reverseK`, `mergeTwoLists` and `q_sort` declare
  on the stack are fresh arena slots. They are dropped from `rings` when the C function returns.
- **The list.h primitives.** `list_add`, `list_add_tail`, `list_del`, `list_move`,
  `list_move_tail`, `list_cut_position`, `list_splice_init` and `list_splice_tail_init` are
  `Lists.Arena` methods. Each is proved to perform the sequence operation it stands for on `rings`
  and to preserve `Valid()`. Payloads only grow (`Lists.Grown`): every `Queue` method keeps the
  string of every existing slot. This includes an element that a removal handed back to the caller,
  which in C keeps its `value` until `q_release_element`. list.h is not part of this model; these
  methods restate the kernel's documented behaviour of those primitives.
- **The queue functions.** Each `queue.c` function is a method of module `Queue`. A `NULL` head is
  `None`. Each loop is a `while` loop; where it pays, the loop body is a helper method. Each method
  is proved against a pure specification function in module `QueueSpec`:
  - `Reverse` for `q_reverse`;
  - `SwapPairs` for `q_swap`;
  - `ReverseK` for `q_reverseK`;
  - `DeleteDup` for `q_delete_dup`;
  - `Survivors` for `q_ascend` and `q_descend`;
  - `Merge` for `mergeTwoLists`;
  - `MergeSort` for `q_sort`.
- **What is proved about the specification functions.** The properties the source promises are
  lemmas:
  - sorting is ordered, a permutation and stable;
  - merging is ordered, a permutation, and stable with ties resolved to the left;
  - reversal in groups of k is an involution, and `q_swap` is reversal in groups of 2;
  - `q_delete_dup` keeps exactly the entries with no equal neighbour;
  - `q_ascend`/`q_descend` leave a sorted subsequence that ends with the last entry.
- **Strings.** `strcmp` is modelled in `Strings.StrCmp`: it returns the difference of the first
  differing characters, with the terminator counted as 0. C promises only the sign, and this value
  is one conforming choice; the model relies only on the sign. It is tied to a lexicographic order
  `Leq`, which is proved to be a total order.

Files:

| file | contents |
|---|---|
| `strings.dfy` | C strings, `strcmp`, the `snprintf` truncating copy |
| `rings.dfy` | ring positions, link invariants and how single link rewrites preserve them |
| `lists.dfy` | the arena and the list.h primitives |
| `queue_spec.dfy` | the specification functions and their properties |
| `queue_steps.dfy` | loop-state shapes and the small lemmas that step them |
| `queue.dfy` | the `queue.c` functions |

## Model

| member | source | states |
|---|---|---|
| Queue.New | queue.c:15-24 | q_new returns a fresh head whose queue is empty; no other queue changes |
| Queue.Free | queue.c:27-37 | q_free of NULL does nothing; otherwise the queue is gone and every other queue is unchanged |
| Queue.InsertHead | queue.c:40-58 | false and no change on NULL; otherwise true and a new entry holding a copy of s is first, the rest unchanged |
| Queue.InsertTail | queue.c:61-79 | false and no change on NULL; otherwise true and a new entry holding s is last, the rest unchanged |
| Queue.CopyOut | queue.c:89-91 | the snprintf copy writes the string cut to bufsize-1 characters plus a terminator and leaves the rest of the buffer alone |
| Queue.RemoveHead | queue.c:82-93 | NULL or empty gives NULL and no change; otherwise it returns the first element, the queue loses exactly that entry, and sp receives the truncated copy when sp is non-NULL and bufsize > 0; the returned element keeps its string, and so does every other slot; both removals delegate to the shared body Queue.RemoveEnd |
| Queue.RemoveTail | queue.c:96-107 | the same for the last element; like RemoveHead it delegates to the shared body Queue.RemoveEnd |
| Queue.InsertHeadRemoveHead | queue.c:40-93 | q_insert_head then q_remove_head hands back the inserted element holding `s`, and every queue is as it was before (LIFO at the head) |
| Queue.InsertTailRemoveHead | queue.c:61-93 | on an empty queue, q_insert_tail of `s` then `t` followed by two q_remove_head calls yields `s` and then `t` (FIFO), and the queue is empty again |
| Queue.Size | queue.c:110-121 | q_size is the number of entries, 0 for NULL |
| Queue.FindMiddle | queue.c:130-135 | the slow/fast walk stops on entry (n-1)/2 |
| Queue.DeleteMid | queue.c:124-140 | false on NULL/empty; otherwise true and exactly entry (n-1)/2 is removed |
| Queue.DupStep | queue.c:151-167 | one iteration of the safe walk removes the entry iff it equals its successor or the previous one was removed as a duplicate |
| Queue.DeleteDup | queue.c:143-169 | false on NULL/empty; otherwise true and the queue becomes DeleteDup of the old one |
| Queue.SwapAt | queue.c:179-184 | list_move(node, node->next) swaps pair p and leaves the walk on the next pair |
| Queue.Swap | queue.c:172-185 | the queue becomes SwapPairs of the old one; NULL/empty unchanged |
| Queue.MoveToFront | queue.c:194-196 | moving the i-th original entry to the front advances the reversal by one entry |
| Queue.Reverse | queue.c:188-197 | the queue becomes its reverse; NULL/empty unchanged |
| Queue.ReverseSegment | queue.c:215-217 | cut, reverse and splice back reverse exactly the entries between prev and node |
| Queue.ReverseBlock | queue.c:212-218 | when the count reaches k, the block just completed is reversed in place |
| Queue.ReverseKStep | queue.c:211-219 | one iteration counts the entry and reverses a completed block, with prev after it |
| Queue.ReverseBlocks | queue.c:206-220 | the loop leaves the queue as ReverseK of the original |
| Queue.ReverseK | queue.c:200-221 | the queue becomes ReverseK(q, k); with k <= 0 or k > n it is unchanged |
| Queue.PruneStep | queue.c:301-314 | one step of the backward scan deletes the node iff it lies strictly beyond the running extreme, else updates the extreme |
| Queue.Prune | queue.c:296-314 | the backward scan leaves Survivors of the queue |
| Queue.Ascend | queue.c:293-316 | only entries not greater than every later entry remain; returns their count; 0 on NULL/empty |
| Queue.Descend | queue.c:320-343 | only entries not smaller than every later entry remain; returns their count |
| Queue.TakeLeft | queue.c:249-252 | moving the left front to the scratch tail extends the merged prefix by that entry |
| Queue.TakeRight | queue.c:253-257 | the same for the right front |
| Queue.MergeLoop | queue.c:246-259 | the loop ends with one side exhausted, the scratch list a prefix of Merge(l, r), and size its length |
| Queue.MergeFinish | queue.c:260-264 | the remainders are appended in order, left first, and the result moves back to left |
| Queue.MergeTwoLists | queue.c:232-266 | left becomes Merge(left, right), right becomes empty, and the result is the total count |
| Queue.Halve | queue.c:274-284 | the split puts the first (n+1)/2 entries in left and the rest in right |
| Queue.Join | queue.c:287-288 | the merged halves go back under head and the stack heads disappear |
| Queue.Sort | queue.c:269-289 | the queue becomes MergeSort of the old one, which is sorted, a permutation and stable |
| Queue.MergeAll | queue.c:347-358 | q_merge returns the lone queue's size when exactly one context is chained, otherwise 0 |
| Lists.Arena.NewHead | queue.c:206-207 | INIT_LIST_HEAD of a new head adds an empty ring and nothing else |
| Lists.Arena.ListAdd | queue.c:56 | list_add inserts the node right after the anchor, at ring position k |
| Lists.Arena.ListAddTail | queue.c:77 | list_add_tail appends the node to the ring |
| Lists.Arena.ListDel | queue.c:88 | list_del removes exactly the node's entry from its ring |
| Lists.Arena.ListMove | queue.c:195 | list_move removes the node and reinserts it after the anchor |
| Lists.Arena.ListMoveTail | queue.c:251 | list_move_tail removes the node and appends it to another ring |
| Lists.Arena.ListCutPosition | queue.c:215 | list_cut_position moves the entries after `from` up to and including `node` to an empty head |
| Lists.Arena.ListSpliceInit | queue.c:217 | list_splice_init inserts a whole ring after the anchor and empties its head |
| Lists.Arena.ListSpliceTailInit | queue.c:261 | list_splice_tail_init appends a whole ring and empties its head |
| Lists.Arena.EmptyIff | queue.c:84 | list_empty(head) holds iff the ring is empty |
| Rings.RingSymmetric | queue.c:301-302 | in every ring `next[prev[i]] == i` and `prev[next[i]] == i`, so the backward walk through `prev` visits the ring that `next` defines; `Lists.Arena.Valid` keeps every ring so after each operation |
| Strings.StrCmp | queue.c:156 | strcmp is 0 iff the strings are equal and <= 0 iff the first is lexicographically no greater; C promises only the sign, and the value (the difference of the first differing characters) is one conforming choice |
| Strings.FirstDiff | queue.c:156 | the first differing position: the strings agree before it and differ at it |
| Strings.LeqTotal | queue.c:249 | the strcmp order is total |
| Strings.LeqTransitive | queue.c:249 | the strcmp order is transitive |
| Strings.LeqAntisymmetric | queue.c:249 | the strcmp order is antisymmetric |
| Strings.LeqReflexive | queue.c:249 | the strcmp order is reflexive |
| Strings.Truncated | queue.c:90 | the snprintf output is non-empty, at most bufsize long and terminated |
| Strings.ReadTerminated | queue.c:90 | reading a C string back stops at the first terminator |
| Strings.TruncatedReadsBack | queue.c:89-91 | the caller reads back the first min(len, bufsize-1) characters of the removed string |
| QueueSpec.TakesLeft | queue.c:249 | `strcmp(s1, s2) * (1 - 2 * (!descend)) >= 0` holds iff s1 may precede s2 in the requested order |
| QueueSpec.StrCmpSign | queue.c:249 | strcmp is non-negative iff the second string is no greater than the first |
| QueueSpec.OrderedTotal | queue.c:249 | the merge order is total |
| QueueSpec.OrderedTransitive | queue.c:249 | the merge order is transitive |
| QueueSpec.OrderedReflexive | queue.c:249 | the merge order is reflexive |
| QueueSpec.LeqAntisymmetricOrdered | queue.c:249 | two strings each ordered before the other are equal |
| QueueSpec.ReverseIndex | queue.c:188-197 | the reversal has the same length, and entry i is original entry n-1-i |
| QueueSpec.ReverseInvolutive | queue.c:188-197 | reversing twice restores the queue |
| QueueSpec.ReversePermutes | queue.c:188-197 | reversal keeps the same entries |
| QueueSpec.SwapPairsIndex | queue.c:172-185 | after q_swap entry i is the original entry at its pair mate, and an odd last entry stays |
| QueueSpec.SwapPairsInvolutive | queue.c:172-185 | swapping twice restores the queue |
| QueueSpec.SwapPairsSplit | queue.c:179-184 | swapping works pair by pair on an even-length prefix |
| QueueSpec.SwapPairsIsReverseK | queue.c:172-221 | q_swap equals q_reverseK with k = 2 |
| QueueSpec.FullBlocks | queue.c:211-219 | the complete blocks cover a multiple of k with fewer than k entries left |
| QueueSpec.ReverseKLength | queue.c:200-221 | q_reverseK keeps the length |
| QueueSpec.ReverseKBlock | queue.c:211-219 | every complete block of k entries is reversed |
| QueueSpec.ReverseKRest | queue.c:211-220 | the incomplete last block is left as it was |
| QueueSpec.ReverseKPermutes | queue.c:200-221 | q_reverseK keeps the same entries |
| QueueSpec.ReverseKInvolutive | queue.c:200-221 | applying q_reverseK twice with the same k restores the queue |
| QueueSpec.ReverseKSplit | queue.c:211-219 | blocks are reversed independently across a multiple-of-k boundary |
| QueueSpec.MiddleBalanced | queue.c:130-135 | the middle index splits the queue as evenly as possible, the extra entry going to the right, and middle+1 = (n+1)/2 |
| QueueSpec.InsertRemove | queue.c:88 | a fact about the sequence operations in which the ListDel and ListAdd contracts are stated: removing an entry and reinserting it at its position restores the sequence |
| QueueSpec.RemoveInsert | queue.c:56 | the converse fact about those sequence operations: inserting an entry and removing it again restores the sequence |
| QueueSpec.ThinMembers | queue.c:151-167 | an entry survives q_delete_dup iff neither neighbour holds an equal string |
| QueueSpec.ThinSubsequence | queue.c:151-167 | q_delete_dup only removes entries |
| QueueSpec.SortedLonely | queue.c:143-169 | on a sorted queue an entry survives iff no other entry holds its string |
| QueueSpec.ExtremeBound | queue.c:301-313 | a string precedes the running minimum (maximum) iff it precedes every entry scanned so far |
| QueueSpec.ExtremeIsBelow | queue.c:301-313 | the running extreme precedes every entry scanned |
| QueueSpec.ExtremeMember | queue.c:301-313 | the running extreme is the string of some scanned entry |
| QueueSpec.SurvivorsBelow | queue.c:293-316 | a bound on all entries bounds the survivors |
| QueueSpec.SurvivorsSorted | queue.c:293-343 | after q_ascend (q_descend) the queue is in ascending (descending) order |
| QueueSpec.SurvivorsKeepLast | queue.c:293-343 | the last entry of a non-empty queue always survives |
| QueueSpec.SurvivorsSubset | queue.c:293-343 | q_ascend/q_descend only remove entries |
| QueueSpec.MergeLength | queue.c:246-265 | the merge has \|l\| + \|r\| entries, the count mergeTwoLists returns |
| QueueSpec.MergePermutes | queue.c:246-264 | the merge holds exactly the entries of both lists |
| QueueSpec.MergeSorted | queue.c:246-264 | merging two sorted lists gives a sorted list |
| QueueSpec.MergeBelow | queue.c:246-264 | a bound on both inputs bounds the merge |
| QueueSpec.MergeStable | queue.c:249 | among equal strings, the left list's entries come first, in their order, then the right list's |
| QueueSpec.TiesAppend | queue.c:260-263 | appending a remainder appends its equal-string entries |
| QueueSpec.TiesNone | queue.c:249 | a list with no entry equal to v contributes no ties |
| QueueSpec.MergeSortPermutes | queue.c:269-289 | q_sort keeps the same entries |
| QueueSpec.MergeSortSorted | queue.c:269-289 | q_sort leaves the queue in the requested order |
| QueueSpec.MergeSortStable | queue.c:269-289 | q_sort keeps equal strings in their original relative order |

## Left out

- Allocation failure: `malloc` returning `NULL` in q_new, q_insert_head and q_insert_tail cannot
  happen in the model, because allocating an arena slot always succeeds. Those `NULL`/false
  returns are not modelled.
- Deallocation: `free` and `q_release_element` are not modelled. In q_free, q_delete_mid,
  q_delete_dup, q_ascend and q_descend, the released nodes only leave every ring; their slots stay
  in the arena.
- Queue.Free: the elements of the freed queue are not tracked after the call. The contract says
  only that the queue's head leaves `rings`.
- Queue.Size: returns an unbounded integer. The C `int` counter would overflow past `INT_MAX`
  entries, and that overflow is not modelled.
- Queue.ReverseK: the `int count` of q_reverseK is also unbounded. For k > 0 it never exceeds k.
  For k <= 0 it is never reset and counts up to the queue's length, which overflows only past
  `INT_MAX` entries, as in Queue.Size.
- Queue.MergeTwoLists: the `int` size is also unbounded. The early return for two empty lists is
  taken before the stack head is set up. That head is invisible to callers, so the observable
  result is the same.
- Queue.Sort: the C code dereferences `head` without a `NULL` check. The model therefore takes a
  live head, not an optional one.
- Queue.RemoveHead, Queue.RemoveTail: the caller must supply a buffer at least `bufsize` long, as
  `snprintf` requires. The copy is modelled only for the `%s` format that the code uses.
- Queue.MergeAll: q_merge performs no merge for two or more queues; it returns 0. The model follows
  that code, not the merge of all queues into one sorted queue that the comment at
  queue.c:345-346 announces. The chain of `queue_contex_t` entries is
  modelled as a sequence of optional queue heads, one per context. `container_of`/`list_entry`
  are therefore not modelled.
- The string contents behind `char *` are values (`seq<char>` without the terminator). Aliasing
  between a removed element's string and the caller's buffer is not modelled.
- The test harness, the command interpreter and anything beyond `queue.c` are not part of this
  model.

## Notes

- q_ascend deletes a node when its string is strictly greater than the running minimum of the
  nodes to its right. So on `[5, 3, 4, 2, 1]` only `[1]` survives. q_descend is the mirror image.
  `QueueSpec.Survivors` states this rule: an entry survives iff it is ordered before every entry
  to its right.
- q_delete_mid is declared `bool`, and it returns `NULL` (false) on a NULL or empty queue.
