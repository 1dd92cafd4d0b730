# lab0-c queue, modelled in Dafny

This project models the string queue of lab0-c's `queue.c`. A queue is a
circular, doubly linked list headed by a sentinel `list_head`. Each element
(`element_t`) holds a heap-allocated C string. The model covers creating,
clearing, inserting at either end, removing from either end (with the
copy-out into the caller's buffer), counting, deleting the middle element
and deleting every run of duplicate strings.

Modules:

- `CString` (`cstring.dfy`): the C library functions the queue calls
  (`strlen`, `strncpy`, `strncmp`) on character sequences. A Dafny `char`
  stands for one C byte, so lengths and the `bufsize - 1` truncation count
  bytes, as in C. A stored string is its bytes followed by exactly one NUL.
- `List` (`list.dfy`): the list engine. The heap is an arena: the class
  `ListHead` has `next` and `prev` link sequences and a `value` payload
  sequence, indexed by slot. Slot 0 (`Head`) is the sentinel. The ghost
  fields `Nodes` and `Contents` are the element slots in list order and
  their strings. `Valid()` says that walking `next` from the head visits
  `Nodes` once each and comes back, that `prev` walks the same cycle
  backwards, and that each slot holds the string of its position. The
  methods `Add`, `AddTail` and `DelInit` rewire the links the way
  `list_add`, `list_add_tail` and `list_del_init` do. Slots outside the
  list (elements handed to a caller by a removal, or not linked yet) are
  framed: `KeepsDetached` says their links and payloads are unchanged, and
  `OnlyDeletes` says in addition that elements only left the list and had
  their payloads released.
- `QueueSpec` (`queue_spec.dfy`): what the operations do to the sequence
  of strings. It defines `RemoveAt`, `MidIndex` and duplicate removal, run
  by run (`DeleteDups`). `KeepIsolated` is an independent reference that
  works element by element. The two are proved equal.
- `Queue` (`queue.dfy`): the `q_*` functions, as methods with the same
  loops and branches. A NULL queue is a null `ListHead?`. Each method is
  proved against the functions of `QueueSpec`.

Delete-middle removes the element at 0-based index ⌊n/2⌋, the middle as
the problem cited at queue.c:141 defines it: the fast/slow walk at
queue.c:145-149 stops there, so for two elements it deletes the second
(`QueueSpec.MidIndex`, `Queue.MiddleNode`).

## Model

| member | source | states |
|---|---|---|
| CString.StrLen | queue.c:44 | strlen is the index of the first NUL: every character before it is not NUL |
| CString.CStringOf | queue.c:44-50 | the string a buffer holds, up to and including its first NUL, is a well-formed C string and a prefix of the buffer |
| CString.StrNCpy | queue.c:50 | strncpy writes exactly n characters: those of the source before its terminator, then NULs |
| CString.StrNCmp | queue.c:181 | strncmp of two equal strings is zero |
| CString.StrNCmpExact | queue.c:178-181 | with a bound at least the length of the first string plus its NUL, strncmp is zero exactly when the two strings are equal |
| CString.StrNCmpShortBoundMatches | queue.c:178-181 | a bound one shorter than that makes two different strings ("ab", "abc") compare equal, which is why the code adds one to strlen |
| CString.WholeCopy | queue.c:44-50 | copying strlen(str) + 1 characters with strncpy duplicates the C string exactly |
| CString.CopyOutReadsBack | queue.c:92-95 | after the copy-out, the caller's buffer reads back as the payload truncated to min(strlen, bufsize - 1) characters |
| CString.StrNCpyInto | queue.c:93 | strncpy into the caller's array fills its first n positions and leaves the rest unchanged |
| QueueSpec.RemoveAt | queue.c:150 | deleting one element keeps the others in order and removes exactly that element from the multiset |
| QueueSpec.MidIndex | queue.c:145-149 | the deleted index is in range and has as many elements after it as before, or one fewer |
| QueueSpec.MidIndexUnique | queue.c:139-153 | only index ⌊n/2⌋ has that balance |
| QueueSpec.RunLength | queue.c:181-185 | the front run has a length between 1 and n, all its elements are equal, and the element after it differs |
| QueueSpec.DeleteDupsKeepsIsolated | queue.c:156-200 | duplicate removal keeps exactly the elements with no equal neighbour, in order |
| QueueSpec.DeleteDupsSplit | queue.c:175-197 | duplicate removal never looks across a boundary between two different elements |
| QueueSpec.DeleteDupsOfRun | queue.c:162-163 | a single run is kept when it has one element and dropped when it has more |
| QueueSpec.DeleteDupsNoRuns | queue.c:156-200 | a queue with no two equal neighbours is left as it is |
| QueueSpec.DeleteDupsExample | queue.c:158 | [a, a, b, c, c] becomes [b] |
| QueueSpec.DeleteDupsRunStep | queue.c:186-196 | keeping a run of one, or cutting out a longer run, takes the outer loop from one run boundary to the next |
| QueueSpec.DeleteDupsFinish | queue.c:175 | when the outer loop stops, with at most one element left to scan, the queue holds the result of duplicate removal |
| QueueSpec.Cut | queue.c:189-193 | cutting out d elements at q keeps those before q and shifts the later ones down by d |
| List.ListHead.constructor | queue.c:20 | INIT_LIST_HEAD: an empty queue whose head links to itself |
| List.ListHead.IsEmpty | queue.c:87 | list_empty holds exactly when the queue holds no strings |
| List.ListHead.IsSingular | queue.c:162 | list_is_singular holds exactly when the queue holds one string |
| List.ListHead.NewSlot | queue.c:40-44 | a new element is allocated unlinked, and the queue is unchanged |
| List.ListHead.Add | queue.c:65 | list_add keeps the link invariant and puts the element first |
| List.ListHead.AddTail | queue.c:80 | list_add_tail keeps the link invariant and puts the element last |
| List.ListHead.DelInit | queue.c:91 | list_del_init keeps the link invariant, removes exactly that position, and leaves the element linking to itself |
| List.ListHead.Release | queue.c:33 | q_release_element frees the payload of a detached element only |
| List.AddShaped | queue.c:65 | the link rewiring of list_add turns a valid list of n slots into a valid list with the new slot first |
| List.AddTailShaped | queue.c:80 | the link rewiring of list_add_tail turns a valid list into a valid list with the new slot last |
| List.DelShaped | queue.c:91 | the link rewiring of list_del turns a valid list into a valid list without that position |
| List.ListHead.LinksAreInverse | queue.c:131-136 | in a valid queue every node of the cycle, head included, is the prev of its next and the next of its prev (`x->next->prev == x`, `x->prev->next == x`), which list_del_init relies on |
| Queue.New | queue.c:14-22 | NULL exactly when the allocation fails, otherwise a valid empty queue whose head links to itself |
| Queue.Free | queue.c:25-36 | every element is unlinked and its payload released; nothing is left in the queue, and elements held by callers keep their links and payloads |
| Queue.NewElement | queue.c:38-52 | None exactly when an allocation fails, otherwise a new unlinked element holding an exact copy of the C string, with every existing slot's links and payload unchanged |
| Queue.InsertHead | queue.c:55-67 | false with nothing changed for a NULL queue or a failed allocation, otherwise the copy is prepended in a new slot; elements outside the queue, such as one removed earlier, keep their links and payloads |
| Queue.InsertTail | queue.c:70-82 | false with nothing changed for a NULL queue or a failed allocation, otherwise the copy is appended in a new slot; elements outside the queue keep their links and payloads |
| Queue.RemoveHead | queue.c:85-98 | NULL with nothing changed for a NULL or empty queue; otherwise the first element is detached, left linking to itself and returned with its string, the rest stay in order, the string is copied out, and elements detached earlier are untouched |
| Queue.RemoveTail | queue.c:101-114 | the same for the last element |
| Queue.CopyOut | queue.c:92-95 | the caller's buffer receives strncpy of bufsize - 1 characters and a NUL at bufsize - 1; the rest is untouched |
| Queue.InsertRemoveHead | queue.c:55-98 | inserting at the head and then removing from the head hands back the inserted string and leaves the queue as it was |
| Queue.InsertRemoveTail | queue.c:70-114 | the same at the tail |
| Queue.Size | queue.c:118-129 | 0 for a NULL queue, otherwise the number of elements, counted by walking the list |
| Queue.DeleteElement | queue.c:131-136 | the element at its position is unlinked and its payload released, the others keep their order, and elements outside the queue are untouched |
| Queue.DeleteMid | queue.c:139-153 | false with nothing changed for a NULL or empty queue, otherwise exactly the element at index MidIndex(n) is removed and released, and elements outside the queue are untouched |
| Queue.MiddleNode | queue.c:145-149 | the fast/slow walk stops with the slow cursor on the element at index MidIndex(n) = ⌊n/2⌋ |
| Queue.DeleteDup | queue.c:156-200 | false with nothing changed for a NULL or empty queue, otherwise the queue becomes DeleteDups of its old contents; the deleted elements are released and elements outside the queue are untouched |
| Queue.DeleteDupPass | queue.c:175-197 | one outer pass moves the scan past one more run and keeps the loop state |
| Queue.ScanRun | queue.c:176-185 | the inner strncmp loop stops just past the run of strings equal to the current one, and sets delete exactly when that run has two or more elements |
| Queue.DeleteRun | queue.c:186-194 | the deletion loop cuts out exactly the run from `from` up to `to` and leaves `from` at `to` |
| Queue.DeleteOfRun | queue.c:189-193 | one turn of the deletion loop deletes one more element of the run |

## Left out

- The stub operations q_swap, q_reverse, q_reverseK, q_sort, q_ascend, q_descend and q_merge (queue.c:203-242) have empty bodies and are not modelled.
- The queue.h and list.h headers are not part of this model. The list primitives are modelled from how queue.c uses them.
- malloc and free: allocation failure is the parameter `allocOk`. Arena slots are never reclaimed, and releasing an element only clears its payload.
- Queue.Free: the final `free(head)` at queue.c:35 is not modelled. The head stays as a valid empty queue.
- Queue.Size: the counter is an unbounded integer. The C `int` would overflow past 2^31 - 1 elements.
- Queue.DeleteDupPass: the strncmp bound `n` is an unbounded integer. The C code stores strlen + 1 in an `int`, which would truncate for strings longer than 2^31 - 2.
- Queue.RemoveHead: requires 1 <= bufsize <= the buffer's length when sp is given. With bufsize 0, `bufsize - 1` wraps around in C and the copy overruns.
- Queue.RemoveTail: the same bufsize requirement as Queue.RemoveHead.
- Queue.ScanRun: when `to` reaches the head, `list_entry(head)` at queue.c:184 only computes a pointer. The model reads the head's unused payload slot there and never compares it.
- q_delete_dup does not check that its input is sorted, and neither does the model: `DeleteDups` removes runs of adjacent equal strings in any sequence.
- Concurrency and the test harness's allocation-failure injection are outside the model.
