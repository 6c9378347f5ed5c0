# A verified model of `SingleLinkedList`

This project models `SingleLinkedList<Type>` from
`single-linked-list/single-linked-list.h`: a forward list with a sentinel,
an element count, forward iterators and lexicographic comparisons. The
element type is fixed to `int`.

The model is heap-based, like the C++ code:

- A list object owns a sentinel `Node` (`head_`). It never holds an element.
  Its `next` pointer leads through a null-terminated chain of `Node` objects.
- `size` is the count `size_`.
- Two ghost fields give the abstract view. `contents` is the sequence of
  elements. `nodes` is the sequence of nodes that hold them.
- `Valid()` ties the two views together. The sentinel points at the first
  node and each node points at the next one. The nodes are distinct and
  hold `contents` in order. The count is never less than the chain length.
- Iterators are node references. `before_begin()` is the sentinel, `end()`
  is `null`, and two iterators are equal when they refer to the same node.
  The ghost `IndexOf` gives an iterator's position, from -1 to the length.

Every mutator rewrites the pointers and the count in place. Each one is
proved against `contents`. The relinking steps are proved once, as the
lemmas of `NodeChain`. The comparisons read both lists by traversal and
apply `Compare.Equal` and `Compare.LexLess`, which model `std::equal` and
`std::lexicographical_compare`. `LexLess` is proved equal to an
independent definition of lexicographic order (`Precedes`). The order is
also proved irreflexive, total and transitive.

`PopFront` is modelled as written: it does not decrement the count (see
"## Findings"). So `Valid()` only requires `size >= |contents|`.
`SizeMatches()` states equality, and every other mutator keeps it. The
walk-through in `Scenarios.ThreeElementWalk` follows the code as written.
Built from {10, 20, 30} and after `PopFront`, `GetSize()` still answers 3
where a count of 2 would be expected. After the following
`EraseAfter(before_begin())` it answers 2, not 1.

Files: `compare.dfy` (module `Compare`), `node_chain.dfy` (`NodeChain`),
`linked_list.dfy` (`LinkedList`) and `scenarios.dfy` (`Scenarios`, client
code that relies on the contracts alone).

## Model

| member | source | states |
|---|---|---|
| NodeChain.Node.Sentinel | single-linked-list/single-linked-list.h:10 | the default-constructed node, used as the sentinel, has a null `next` |
| NodeChain.Node.constructor | single-linked-list/single-linked-list.h:11 | a node holds the given value and successor |
| NodeChain.InsertedAfter | single-linked-list/single-linked-list.h:167-176 | the sequence effect of inserting after position p: one longer, items up to p kept, the new item at p + 1, the rest shifted by one |
| NodeChain.ErasedAfter | single-linked-list/single-linked-list.h:186-192 | the sequence effect of erasing after position p: one shorter, items up to p kept, the rest shifted back by one |
| NodeChain.EraseAfterUndoesInsertAfter | single-linked-list/single-linked-list.h:167-192 | erasing after p undoes inserting after p, for every sequence, position and value |
| NodeChain.ChainTail | single-linked-list/single-linked-list.h:150-157 | unlinking the first node, as in Clear and PopFront, leaves a chain of the remaining nodes; the unlinked node points at the new first node |
| NodeChain.ChainPrepend | single-linked-list/single-linked-list.h:140-148 | a new node pointing at the old first node extends the chain at the front, as in PushFront |
| NodeChain.ChainInsert | single-linked-list/single-linked-list.h:169 | once the node at p points at a new node and that node points at p's old successor, the chain with the new node and value inserted after p results; p == -1 is the sentinel |
| NodeChain.ChainErase | single-linked-list/single-linked-list.h:187-188 | once the node at p points past its successor, the chain without that successor and its value results |
| Compare.Equal | single-linked-list/single-linked-list.h:240-242 | `std::equal` over two ranges: true exactly when the sequences are equal, so when both the lengths and the elements agree |
| Compare.LexLess | single-linked-list/single-linked-list.h:248-250 | the walk of `std::lexicographical_compare`: a list can be smaller only if the other is non-empty and its first element is not larger; LexLessIsPrecedes characterizes it completely |
| Compare.LexLessIsPrecedes | single-linked-list/single-linked-list.h:248-250 | the walk of `std::lexicographical_compare` is true exactly when the first sequence precedes the second: either a proper prefix, or smaller at the first differing element |
| Compare.LexLessIrreflexive | single-linked-list/single-linked-list.h:248-250 | no list is smaller than itself |
| Compare.LexLessTrichotomy | single-linked-list/single-linked-list.h:248-262 | exactly one of a < b, a == b, b < a holds, which makes the derived operators `>`, `<=` and `>=` consistent |
| Compare.LexLessTransitive | single-linked-list/single-linked-list.h:248-250 | the order is transitive |
| LinkedList.SingleLinkedList.Valid | single-linked-list/single-linked-list.h:9-17 | the state of a list: the sentinel `head_` leads through distinct nodes holding the elements to a null `next_node`, and the count `size_` is at least the number of nodes; `SizeMatches` is the equality that PopFront breaks |
| LinkedList.SingleLinkedList.IndexOf | single-linked-list/single-linked-list.h:76 | an iterator of the list denotes a position from -1 to the length, and the node at that position is the iterator's node |
| LinkedList.SingleLinkedList.Successor | single-linked-list/single-linked-list.h:57-60 | following `next_node` from the iterator at position p, for p before the end, gives the iterator at position p + 1 |
| LinkedList.SingleLinkedList.IteratorIdentity | single-linked-list/single-linked-list.h:41-43 | in a valid list, two iterators are the same node exactly when they denote the same position |
| LinkedList.SingleLinkedList.constructor | single-linked-list/single-linked-list.h:103 | a new list is empty with count 0 |
| LinkedList.SingleLinkedList.FromValues | single-linked-list/single-linked-list.h:109-116 | the initializer-list constructor holds the values in order and counts them |
| LinkedList.SingleLinkedList.Copy | single-linked-list/single-linked-list.h:118-125 | the copy holds the source's elements in order, with fresh nodes, and counts them again, so its count is the chain length even when the source's count is stale |
| LinkedList.SingleLinkedList.FillIn | single-linked-list/single-linked-list.h:79-94 | afterwards the list holds `from` in order, in fresh nodes, with count `|from|` |
| LinkedList.Build | single-linked-list/single-linked-list.h:82-88 | the loop of FillIn: a fresh temporary list that holds `from` in order, with count `|from|` |
| LinkedList.SingleLinkedList.LinkLast | single-linked-list/single-linked-list.h:85-87 | one step of that loop: linking a node after the last node and counting it appends its value, and the count stays the chain length |
| LinkedList.SingleLinkedList.Assign | single-linked-list/single-linked-list.h:127-138 | self-assignment changes nothing, nodes included, so iterators into the list stay valid; otherwise the target holds the source's elements with a fresh count; the source is unchanged either way |
| LinkedList.SingleLinkedList.PushFront | single-linked-list/single-linked-list.h:140-148 | the value is prepended, the count grows by one, the old nodes follow in order, and a matching count stays matching |
| LinkedList.SingleLinkedList.Clear | single-linked-list/single-linked-list.h:150-157 | the loop ends, leaving no elements and count 0 |
| LinkedList.SingleLinkedList.GetSize | single-linked-list/single-linked-list.h:159-161 | the count is never less than the number of elements, and equals it whenever the count matches the chain |
| LinkedList.SingleLinkedList.IsEmpty | single-linked-list/single-linked-list.h:163-165 | true exactly when GetSize() is 0; true implies no elements; the converse holds when the count matches the chain |
| LinkedList.SingleLinkedList.InsertAfter | single-linked-list/single-linked-list.h:167-176 | the value is inserted right after the position of `pos`, and the count grows by one; the returned iterator is a new node at the next position holding the value; `pos` keeps its position |
| LinkedList.SingleLinkedList.PopFront | single-linked-list/single-linked-list.h:178-184 | as written: with a positive count the first element is removed and the count stays the same, so it now exceeds the chain length by one more; the surviving nodes are the old ones after the first, so iterators to them stay valid; with count 0 nothing changes |
| LinkedList.SingleLinkedList.PopFrontCorrected | single-linked-list/single-linked-list.h:178-184 | with the missing decrement: the first element and its node, if any, are removed, the other nodes and their iterators stay, and a matching count stays matching |
| LinkedList.SingleLinkedList.EraseAfter | single-linked-list/single-linked-list.h:186-192 | the element after `pos` is removed and the count drops by one; the result is the node that came two places after `pos` (or end()), now right after it; `pos` keeps its position |
| LinkedList.SingleLinkedList.Swap | single-linked-list/single-linked-list.h:194-199 | the two lists exchange elements, nodes and counts, and both stay valid |
| LinkedList.Swap | single-linked-list/single-linked-list.h:265-268 | the free `swap` does the same as the member swap |
| LinkedList.SingleLinkedList.BeforeBegin | single-linked-list/single-linked-list.h:228-230 | before_begin() is the iterator at position -1 |
| LinkedList.SingleLinkedList.Begin | single-linked-list/single-linked-list.h:201-204 | begin() is the iterator at position 0, and it equals end() exactly when the list has no elements |
| LinkedList.SingleLinkedList.End | single-linked-list/single-linked-list.h:206-208 | end() is the iterator just past the last element |
| LinkedList.SingleLinkedList.Next | single-linked-list/single-linked-list.h:57-60 | `++` moves an iterator to the next position |
| LinkedList.SingleLinkedList.Get | single-linked-list/single-linked-list.h:68-70 | `*it` reads the element at the iterator's position |
| LinkedList.SingleLinkedList.Set | single-linked-list/single-linked-list.h:68-70 | writing through `*it` replaces exactly the element at its position; nodes and count are unchanged |
| LinkedList.SingleLinkedList.Elements | single-linked-list/single-linked-list.h:201-208 | the traversal from begin() by `++` until end() visits exactly the elements, in order |
| LinkedList.SingleLinkedList.Equals | single-linked-list/single-linked-list.h:240-242 | `==` holds exactly when the element sequences are equal |
| LinkedList.SingleLinkedList.NotEquals | single-linked-list/single-linked-list.h:244-246 | `!=` holds exactly when they differ |
| LinkedList.SingleLinkedList.Less | single-linked-list/single-linked-list.h:248-250 | `<` holds exactly when this list lexicographically precedes the other, a proper prefix counting as smaller |
| LinkedList.SingleLinkedList.Greater | single-linked-list/single-linked-list.h:252-254 | `!(a < b) && a != b` is the same as `b < a` |
| LinkedList.SingleLinkedList.LessOrEqual | single-linked-list/single-linked-list.h:256-258 | `a < b \|\| a == b` is the same as `!(b < a)` |
| LinkedList.SingleLinkedList.GreaterOrEqual | single-linked-list/single-linked-list.h:260-262 | `!(a < b)` is the same as `b < a \|\| a == b` |
| Scenarios.ThreeElementWalk | single-linked-list/single-linked-list.h:178-192 | {10, 20, 30}: the traversal gives 10, 20, 30 with count 3; after PopFront it gives 20, 30 with count still 3; after EraseAfter(before_begin()) it gives 30 with count 2 |
| Scenarios.PopFrontLeavesStaleCount | single-linked-list/single-linked-list.h:178-184 | {7} after PopFront: count 1 and IsEmpty() false, yet begin() == end(); a second PopFront passes its guard with no first node |
| Scenarios.PopFrontCorrectedEmpties | single-linked-list/single-linked-list.h:178-184 | {7} after the corrected PopFront: count 0, IsEmpty() true, begin() == end() |
| Scenarios.IteratorSurvivesPopFront | single-linked-list/single-linked-list.h:178-184 | an iterator to the second element survives either PopFront: it then is begin() and reads the same element |
| Scenarios.PushFrontThenPopFront | single-linked-list/single-linked-list.h:140-184 | PushFront then the corrected PopFront restores both elements and count; with PopFront as written the elements come back but the count is one too high |
| Scenarios.PushFrontReverses | single-linked-list/single-linked-list.h:140-148 | pushing values to the front one by one gives them in reverse order |
| Scenarios.Reversed | single-linked-list/single-linked-list.h:140-148 | the reference for that scenario: the same length, with element i taken from position n - 1 - i |
| Scenarios.ClearTwice | single-linked-list/single-linked-list.h:150-165 | Clear leaves an empty list, IsEmpty() holds, and a second Clear changes nothing |
| Scenarios.Advance | single-linked-list/single-linked-list.h:57-60 | `p + 1` increments from before_begin() reach the iterator at position p |
| Scenarios.InsertThenErase | single-linked-list/single-linked-list.h:167-192 | InsertAfter(pos, v) gives an iterator to v; EraseAfter(pos) then restores the original elements and count |
| Scenarios.SwapTwice | single-linked-list/single-linked-list.h:194-199 | one swap exchanges two lists; swapping back with the free swap restores both |
| Scenarios.AssignCopies | single-linked-list/single-linked-list.h:127-138 | after assignment the target equals the source and the source is unchanged; self-assignment keeps the elements |
| Scenarios.SelfAssignKeepsIterators | single-linked-list/single-linked-list.h:127-128 | an iterator taken before `a = a` is still begin() and reads the same element afterwards |
| Scenarios.CopyRecounts | single-linked-list/single-linked-list.h:118-125 | copying a list whose count PopFront left stale gives an equal list with the correct count |
| Scenarios.SameValuesCompareEqual | single-linked-list/single-linked-list.h:240-262 | two lists built from the same values are `==`, not `!=`, neither `<` nor `>`, and both `<=` and `>=` |
| Scenarios.LexicographicExamples | single-linked-list/single-linked-list.h:248-262 | {1, 2, 3} < {1, 2, 4}; {1, 2} < {1, 2, 3}; {1, 2, 4} > {1, 2, 3} and `>=` holds, while `<=` does not |

## Left out

- Allocation failure: the `std::bad_alloc` catch-and-rethrow blocks are not modelled, since allocation cannot fail in Dafny. The strong exception guarantee they aim at cannot be observed there either.
- `delete` and the destructor: freeing is not modelled. A node that is unlinked simply leaves `nodes`. The destructor's `Clear()`, which runs on the temporaries of FillIn and copy assignment, appears as an explicit `Clear()` call.
- Genericity: the element type is `int`, and `<` on elements is integer order.
- `size_t` arithmetic: the count is an unbounded `nat`. A wrap-around of `++size_` after 2^64 insertions is not modelled. `--size_` in EraseAfter never wraps, because its precondition puts a node after `pos` and the count is at least the chain length.
- LinkedList.SingleLinkedList.PopFront: requires that a positive count comes with a first node. When the count is positive but the chain is empty, the source dereferences a null pointer, which is undefined behaviour. The model excludes that call instead of giving it a meaning. Scenarios.PopFrontLeavesStaleCount shows a state that reaches it.
- LinkedList.SingleLinkedList.EraseAfter: requires a node after `pos`, which the source dereferences without checking.
- LinkedList.SingleLinkedList.Swap, LinkedList.Swap and LinkedList.SingleLinkedList.Assign: require the two lists to be the same object or separate. Separate means different objects whose sentinels differ and lie outside each other's chains. In C++ this holds by construction, since the sentinel is a member subobject and no two lists share nodes.
- LinkedList.SingleLinkedList.Copy: reads the source's elements by one traversal and then builds from that sequence. The source interleaves reading and appending in one range-for loop. Since the source list is not changed, the outcome is the same.
- FillIn's template parameter: the range it iterates (an initializer list or another list) is modelled as a `seq<int>`.
- Iterator boilerplate: the iterator typedefs, the default and converting constructors, and the copy assignment of `BasicIterator` are left out. So are the duplicate `==`/`!=` overloads for const and non-const iterators. Iterator equality is node identity, stated once in IteratorIdentity. The address-of-value comparison at line 42 forms an address through a null pointer for `end()`, so it is not reproduced literally.
- Postfix `++` and `operator->`: the first moves the iterator exactly as prefix `++` does (Next), and the second gives the same element as `*` (Get).
- The const accessors `begin() const`, `end() const`, `cbegin`, `cend`, `cbefore_begin` and `before_begin() const` return the same positions as BeforeBegin, Begin and End.
- Iterator invalidation: an iterator to an erased node is not tracked. The model's iterators are only used while they belong to the list.

## Findings

| source | as written | input that shows it | evidently intended | confidence | as-written member | corrected member |
|---|---|---|---|---|---|---|
| single-linked-list/single-linked-list.h:178-184 | PopFront unlinks and deletes the first node but never decrements `size_`, and it guards on `size_ > 0` rather than on the first-node pointer | the list {7}: after PopFront, GetSize() is 1 and IsEmpty() is false, yet begin() == end(); a second PopFront passes `size_ > 0` and reads `next_node` through a null pointer | decrement `size_` after unlinking, so the count remains the chain length after every mutator | not executed | LinkedList.SingleLinkedList.PopFront, Scenarios.PopFrontLeavesStaleCount | LinkedList.SingleLinkedList.PopFrontCorrected, Scenarios.PopFrontCorrectedEmpties |
