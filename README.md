# A verified model of `mls::List`

`List.hpp` implements `mls::List`, a circular doubly linked list. A
sentinel node (`fake_node_`) is stored by value in the list object and closes
a ring of heap-allocated nodes. A counter `sz_` tracks the number of nodes.
Every operation is pointer surgery on the `next_`/`prev_` links:
- push, pop, insert, erase and clear;
- copy and move construction and assignment;
- the copying and the consuming `merge`;
- `swap`;
- an in-place stable insertion sort that relinks nodes;
- an in-place `reverse` that exchanges each node's links.

This project models that core in Dafny and proves what each operation does to the ring.

- `linked_list.dfy` (module `LinkedList`) holds the model itself:
  - `Node` is `List_Node`. Its payload is an `int`; `next`/`prev` are nullable references.
  - `Iterator` is `List_Base_Iterator`: one node, with `++`, `--`, `==` and `*`.
  - `List` is the container: the sentinel, the counter `sz`, and a ghost sequence `nodes`. The sequence lists the ring in `next` order, without the sentinel.
  - `List.Valid()` is the invariant every operation keeps:
    - following `next` from the sentinel visits `nodes` in order and comes back to the sentinel;
    - `prev` retraces that walk;
    - no node occurs twice;
    - `sz` is the number of nodes;
    - the list owns its sentinel and its nodes.
  - Allocation (`obj_construct`) is `new Node`. Release (`obj_destruct`) clears the node's ghost `owner`.
  - Each operation is a method that performs the source's stores. Mostly they come in the source's order. Where a shared helper orders a pair of stores differently, the two stores hit different fields, so the outcome is the same:
    - `PopBack` (through `Unlink`) and `MoveBefore` store the predecessor's `next` before the successor's `prev`;
    - `TakeOver` copies `sz` before the re-pointing stores rather than after them.
  - Each contract gives the new `nodes` in terms of the old ones, and `Contents()` (the payloads in order) follows from that.
- `stable_sort.dfy` (module `StableSort`) is the specification of `sort`:
  - `InsertionSort` inserts each element from the right, after every element that does not strictly follow it. This is the backward scan of `sort` with the two comparisons of List.hpp:314-315 and 326.
  - The lemmas prove that the result is ordered, is a permutation, and is stable: the elements with any one key keep their order.
- `as_written.dfy` (module `AsWritten`) models the places where the code as written leaves a list that is not a valid, independent container: the copying `merge` that never counts its copies, assignment to itself, moving from an empty list, and `swap` (see Findings). `LinkedList` contains the corrected versions, and the rest of the model uses those.

## Model

| member | source | states |
|---|---|---|
| `LinkedList.Node.constructor` | List.hpp:17-18 | a new node holds the given payload and both of its links are null |
| `LinkedList.Iterator.Deref` | List.hpp:40 | `*it` is the payload of the iterator's node |
| `LinkedList.Iterator.Increment` | List.hpp:43-46 | prefix `++` moves to the node's successor; where that successor links back, `--` returns to the same iterator |
| `LinkedList.Iterator.Decrement` | List.hpp:53-56 | prefix `--` moves to the node's predecessor; where that predecessor links forward to the node, `++` leads back |
| `LinkedList.Iterator.Equals` | List.hpp:63 | `==` holds exactly when the two iterators are the same, that is, at the same node |
| `LinkedList.Iterator.NotEquals` | List.hpp:64 | `!=` is the exact negation of `==` |
| `LinkedList.List.IteratorSteps` | List.hpp:43-56 | from ring position k, `++` reaches position k+1 and `--` position k-1; the sentinel (end) sits between the last node and the first, so both directions wrap around; `*` at position k is element k |
| `LinkedList.List.constructor` | List.hpp:149-153 | the new list is an empty ring: no nodes, size 0, sentinel `next` and `prev` both point to itself |
| `LinkedList.List.Size` | List.hpp:92 | the size is the number of elements |
| `LinkedList.List.Empty` | List.hpp:93 | true exactly when the list has no elements |
| `LinkedList.List.Begin` | List.hpp:120 | the iterator at the first node, or the end iterator when the list is empty |
| `LinkedList.List.End` | List.hpp:121 | the end iterator is at the sentinel, which is not one of the element nodes |
| `LinkedList.List.Front` | List.hpp:96 | on a non-empty list, the first element |
| `LinkedList.List.Back` | List.hpp:99 | on a non-empty list, the last element, reached by `--` from the end |
| `LinkedList.List.ObjConstruct` | List.hpp:375-382 | a freshly allocated node holding the payload, owned by this list |
| `LinkedList.List.ObjDestruct` | List.hpp:393-398 | the node is released and no list owns it |
| `LinkedList.RingAfterInsert` | List.hpp:384-391 | if a node and its two new neighbours point at each other and all other links are unchanged, the ring contains the node at that position and is consistent |
| `LinkedList.List.InsertNode` | List.hpp:384-391 | links the new node immediately before the given ring position; the ring stays consistent and every other node keeps its place |
| `LinkedList.List.PushFront` | List.hpp:208-221 | the new element comes first, the old elements follow in order, the size grows by one |
| `LinkedList.List.PushBack` | List.hpp:223-236 | the new element comes last after the old elements in order, the size grows by one |
| `LinkedList.List.Insert` | List.hpp:238-253 | the new element is placed immediately before the iterator's node; the result iterator points at it; all other nodes keep their order; the size grows by one |
| `LinkedList.RingAfterRemove` | List.hpp:258-260 | once the two neighbours of a node point at each other, the remaining nodes form a consistent ring |
| `LinkedList.List.Unlink` | List.hpp:258-260 | the node at position k is taken out of the ring; its neighbours become linked to each other and every other node keeps its order |
| `LinkedList.List.Erase` | List.hpp:255-263 | exactly the iterator's node is removed and released, the others keep identity and order, the size drops by one |
| `LinkedList.List.PopFront` | List.hpp:355-363 | on a non-empty list, exactly the first node is removed and released, the size drops by one |
| `LinkedList.List.PopBack` | List.hpp:365-373 | on a non-empty list, exactly the last node is removed and released, the size drops by one |
| `LinkedList.List.Clear` | List.hpp:194-206 | every former node is released; the list is the empty self-linked ring with size 0 |
| `LinkedList.List.MergeCopy` | List.hpp:265-281 | corrected copying `merge`: the elements of `other` are appended as fresh copies, in order; `other` is unchanged; merging a list with itself changes nothing; the size stays equal to the node count |
| `LinkedList.List.CopyAssign` | List.hpp:167-176 | corrected copy assignment: the former nodes are released, and the list holds fresh copies of the elements of `other`, in order; `other` is unchanged; assignment to itself keeps the same nodes |
| `LinkedList.List.Copy` | List.hpp:155-159 | the copy constructor gives a list of fresh nodes holding the elements of `other`, in order |
| `LinkedList.List.Adopt` | List.hpp:184-185 | corrected repointing: the sentinel closes a consistent ring over the nodes it took over, and over none when the size is 0 |
| `LinkedList.List.TakeOver` | List.hpp:182-190 | on an emptied list, the ring of `other` now hangs on this sentinel, and `other` is the empty self-linked ring |
| `LinkedList.List.MoveAssign` | List.hpp:178-192 | corrected move assignment: the former nodes are released, the list holds exactly the old nodes of `other`, and `other` is empty and valid; a move into itself changes nothing |
| `LinkedList.List.Move` | List.hpp:161-165 | corrected move constructor: it runs the corrected move assignment, so it takes over the nodes of `other`, leaves `other` empty and valid, and an empty `other` gives an empty self-linked list |
| `LinkedList.RingAfterSplice` | List.hpp:288-291 | once the seam and the two ends point the right way, the two node chains form one consistent ring on the receiving sentinel |
| `LinkedList.List.Splice` | List.hpp:288-291 | the four stores join the rings: the receiving sentinel closes a consistent ring over its own nodes followed by those of `other` |
| `LinkedList.List.MergeMove` | List.hpp:283-298 | consuming `merge`: the nodes become the old nodes followed by those of `other`; the size is the sum; `other` is left empty; merging with itself changes nothing |
| `LinkedList.List.Swap` | List.hpp:300-307 | corrected `swap`: the two lists exchange their nodes and sizes, and both rings stay consistent; swapping with itself changes nothing |
| `LinkedList.List.FindInsertionPoint` | List.hpp:320-339 | the backward scan finds the nearest position before i that meets the condition of line 326, or reports that no position does |
| `LinkedList.MovePermutes` | List.hpp:330-333 | taking a node out and linking it back in earlier rearranges the nodes without losing or adding any |
| `LinkedList.List.MoveBefore` | List.hpp:330-333 | node i is unlinked and relinked before node j < i; the ring stays consistent |
| `LinkedList.List.SortPass` | List.hpp:318-342 | one outer step: the sorted prefix grows by one element, the rest is untouched, the nodes are a permutation, the walk continues at the next unsorted node |
| `LinkedList.List.Sort` | List.hpp:309-343 | the nodes end up in the order `InsertionSort` gives them, by payload and direction; they are a permutation of the old nodes, the size is unchanged, and the ring stays consistent |
| `LinkedList.SortGuarantees` | List.hpp:309-343 | the order `sort` produces is ordered by payload in the requested direction, is a permutation of the nodes, and keeps the relative order of equal payloads |
| `StableSort.InsertSortedAt` | List.hpp:322-333 | in a sorted prefix, the position the scan stops at is where the specification inserts the element |
| `StableSort.InsertSortedAtEnd` | List.hpp:322-340 | when the scan finds no position, the element stays where it is, after the sorted prefix |
| `StableSort.InsertionPointExists` | List.hpp:326 | if an earlier element strictly follows the current one, the scan stops at some position no later than it |
| `StableSort.SortStepMove` | List.hpp:326-336 | moving the node to the found position extends the sorted prefix by that node |
| `StableSort.SortStepKeep` | List.hpp:340 | leaving the node in place when no position is found extends the sorted prefix by that node |
| `StableSort.InsertionSortIsSorted` | List.hpp:314-326 | the result is ordered by `<=` when ascending and by `>=` when descending |
| `StableSort.InsertionSortPermutes` | List.hpp:318-342 | the result is a permutation of the input |
| `StableSort.InsertionSortIsStable` | List.hpp:326 | for every key, the elements carrying it appear in the same relative order as before |
| `StableSort.InsertionSortOfSorted` | List.hpp:326 | an input that is already sorted is left unchanged |
| `LinkedList.RingReversed` | List.hpp:348-352 | exchanging the two links of every node and of the sentinel turns the ring into the ring of the reversed sequence |
| `LinkedList.List.Reverse` | List.hpp:345-353 | the same nodes in reverse order, the size unchanged, the ring consistent |
| `LinkedList.ReversedTwice` | List.hpp:345-353 | reversing twice restores the original order, so `reverse` is an involution |
| `AsWritten.MergeCopy` | List.hpp:265-281 | as written: the copies are appended and linked, but the size stays the same, so merging a non-empty list breaks the invariant |
| `AsWritten.AppendCopy` | List.hpp:273-275 | as written: one copy is allocated and linked in before the sentinel, and the size is left as it was |
| `AsWritten.CopyAssign` | List.hpp:167-176 | as written: assignment to itself leaves the list empty |
| `AsWritten.MoveAssign` | List.hpp:178-192 | as written: moving from an empty list leaves this sentinel pointing at the other list's sentinel while the size is 0; a move into itself empties the list |
| `AsWritten.Swap` | List.hpp:300-307 | as written: the first node of a non-empty list still points back at its old sentinel, so the other sentinel no longer closes a ring; an empty list hands over a link to its own sentinel |

## Left out

- Allocators are abstracted: `node_alloc_`, its rebinding and the `allocate`/`construct`/`destroy`/`deallocate` calls (List.hpp:72, 379-380, 396-397) become `new Node` and the release of the ghost `owner`. A released node is not freed, because Dafny has no deallocation.
- Allocation never fails, so the `try`/`catch` paths that throw `std::bad_alloc` (List.hpp:213-220, 228-235, 243-250, 273-279) are not modelled.
- Payloads are `int` rather than a template parameter `T`.
- A node's payload is immutable, so writes through the `T&` that `front`, `back` and `*it` return are not modelled.
- `sz_` is an unbounded `nat`; `size_t` wrap-around is out of reach for a list that fits in memory.
- The postfix `++`/`--` operators (List.hpp:47-61) are not modelled: they return references to locals and are ill-formed.
- The reverse iterators `rbegin`/`rend`/`crbegin`/`crend`, the `const` iterators, `cbegin`/`cend` and `operator->` are left out. They are type-level wrappers that add no behaviour.
- The comparator in `sort` (List.hpp:314-315) picks between two lambdas of different types in a conditional, which does not compile. The model uses a boolean `ascending` that selects `<`/`<=` or `>`/`>=`.
- The `flag` of `sort` is folded into `SortPass`: the moved branch and the stepping branch are its two outcomes.
- The destructor (List.hpp:400-404) only calls `clear`, which is modelled; Dafny has no destructors.
- The copy and move constructors delegate to the default constructor in C++. In Dafny, `Copy` and `Move` repeat its three stores and then call the assignment.
- The sentinel is constructed from the payload 0 (List.hpp:150); its payload is never read.
- Ownership is ghost. `LinkedList.List.Reassign` moves the nodes between the two ghost sequences and sets their owners after a move, splice or swap; it stores nothing the program has.
- `AsWritten.MoveAssign`: states only the two defective outcomes, a move from an empty list and a move into itself. For a non-empty source the written code does what `LinkedList.List.MoveAssign` does.
- `AsWritten.Swap`: states only the links that break the rings; the exchange of the sizes is not restated.

## Findings

| source | as written | input that shows it | evidently intended | confidence | as-written member | corrected member |
|---|---|---|---|---|---|---|
| List.hpp:265-281 | the copying `merge` links each copy before the sentinel but never increments `sz_` | merging `[1]` into an empty list gives one node while `size()` is 0 | increment `sz_` for each copy, as `push_back` does | not executed | `AsWritten.MergeCopy` | `LinkedList.List.MergeCopy` |
| List.hpp:182-188 | move assignment copies the other sentinel's links and points their targets back, even when those targets are the other sentinel itself | `a = std::move(b)` with `b` empty leaves `a.begin()` at `b`'s sentinel while `a.size()` is 0; the move constructor (List.hpp:161-165) runs the same assignment, so `List a(std::move(b))` does the same | an empty source leaves the target linked to its own sentinel | not executed | `AsWritten.MoveAssign` | `LinkedList.List.MoveAssign` |
| List.hpp:178-181 | move assignment has no check for a move into itself and starts with `clear()` | `a = std::move(a)` on `[1,2]` leaves `a` empty | a move into itself leaves the list unchanged | not executed | `AsWritten.MoveAssign` | `LinkedList.List.MoveAssign` |
| List.hpp:167-171 | copy assignment has no check for assignment to itself and clears the list before reading it | `a = a` on `[1,2]` leaves `a` empty | assignment to itself leaves the list unchanged | not executed | `AsWritten.CopyAssign` | `LinkedList.List.CopyAssign` |
| List.hpp:304-306 | `swap` exchanges the two sentinels' links and the sizes, but leaves the first node's `prev_` and the last node's `next_` pointing at the old sentinel | swapping `[1]` with `[]`: the node's `prev_` is still the first sentinel, and the first sentinel's `next_` is the second sentinel | re-point the first and last nodes at their new sentinel, and link the sentinel of an empty side to itself | not executed | `AsWritten.Swap` | `LinkedList.List.Swap` |
