# Custom collections of `com.dubatovka.collection`, modelled in Dafny

This project models the three in-memory containers of the `com.dubatovka.collection`
package and proves what their code promises:

- `BinaryTreeCustom`, an unbalanced binary-search-tree map with Hibbard deletion and a
  fail-fast in-order cursor (`getFirstEntry`, `successor`, `EntryIterator.nextEntry`);
- `ArrayListCustom`, a growable array with capacity doubling, positional insert and remove
  by shifting, and a fail-fast iterator with `remove`;
- `LinkedListCustom`, a doubly linked list with positional access, the four link splices
  (`linkFirst`, `linkLast`, `linkBefore`, `deleteLinks`) and a fail-fast list iterator.

Every container is an immutable value and every Java method is a pure function from the old
state to the new one. Java exceptions are values (`Outcomes.Outcome`). A call that can change
the container and then throw returns a `Call`, which carries the state the container is left
in together with how the call ended. Java `null` is `Outcomes.Option.None`.

Modules:

- `Outcomes` defines `Option`, `Exception`, `Outcome` and `Call`.
- `Ordering` holds the abstract key order: one `compareTo`-style function `cmp` that is a
  total order. It also holds `IntCompare` for the integer keys of the tests.
- `SearchTree` is the node graph as an algebraic tree. It covers the descents of `get`,
  `add` and `remove`, the leftmost-node unlinking, and their facts.
- `BinaryTreeMap` is the map: tree, cached `size` and `modificationCount`.
- `TreeCursor` holds `getFirstEntry`, `successor`, `EntryIterator` and whole traversals. It
  covers the code as written and the successor the code evidently intends.
- `TreeScenarios` replays the insertions of the `order` test on the model.
- `ArrayList` is `ArrayListCustom` with `IteratorCustom`.
- `LinkedList` is `LinkedListCustom` with `ListIteratorCustom`.

Modelling choices that a reader of the Java should know:

- **Tree nodes.** The tree has no `parent` field. The Java declares `Node.parent` but never
  assigns it, so the upward climb in `successor` always starts at null and returns null.
  `TreeCursor.Successor` models exactly that. See Findings.
- **Comparisons.** Every comparison goes through `cmp`, because the code always calls
  `key.compareTo` and never consults the stored comparator.
- **Order of the cursor checks.** `nextEntry` checks exhaustion before the modification
  counter. The model follows the code here.
- **Array slots.** The backing array of `ArrayListCustom` is a sequence of slots, and a null
  slot is `None`.
- **Negative indices in `ArrayListCustom`.** `rangeCheck` only rejects `index >= size`.
  Below zero, the Java array access itself throws `ArrayIndexOutOfBoundsException`, which
  is an `IndexOutOfBoundsException`. The model takes that path explicitly rather than
  excluding such indices:
  - `remove(-1)` returns a state whose counter is already bumped;
  - `add(-1, v)` returns a state that has already been grown and counted.
- **Linked list nodes.** The nodes of `LinkedListCustom` live in a heap `map<Ref, Node>`,
  and `alloc` is the next fresh reference. The record also keeps `spine`, the nodes in list
  order. `spine` is model bookkeeping: `Valid` ties it to the `next`/`previous` links and
  to `head`/`last`, and `LinkedList.SpineIsTheWalk` proves that following `next` from
  `head` for `size` steps visits exactly the spine. An unlinked node leaves the heap.

## Model

| member | source | states |
|---|---|---|
| BinaryTreeMap.Empty | src/main/java/com/dubatovka/collection/BinaryTreeCustom.java:16-22 | both constructors give an empty map with count and counter zero |
| BinaryTreeMap.EmptyIsValid | src/main/java/com/dubatovka/collection/BinaryTreeCustom.java:16-22 | the empty map satisfies the search-tree and count invariant |
| BinaryTreeMap.Get | src/main/java/com/dubatovka/collection/BinaryTreeCustom.java:65-79 | `get(k)` finds a value exactly when `k` is stored, and it is the value bound to `k`; no new state is produced |
| SearchTree.Lookup | src/main/java/com/dubatovka/collection/BinaryTreeCustom.java:66-78 | the search descent finds a value iff the key is in the tree, and it is that key's binding |
| BinaryTreeMap.Add | src/main/java/com/dubatovka/collection/BinaryTreeCustom.java:81-111 | `add` keeps the search-tree order and the count invariant, and binds `k` to `v`. The counter always rises by one. A present key keeps shape and size. An absent key grows the tree by exactly one leaf and the size by one |
| SearchTree.Insert | src/main/java/com/dubatovka/collection/BinaryTreeCustom.java:83-110 | the descent reports whether the key was absent. Keys gain `k` and the map gains `k := v`. The node count grows by one exactly on a new leaf, and otherwise the shape is unchanged |
| SearchTree.InsertKeepsOrder | src/main/java/com/dubatovka/collection/BinaryTreeCustom.java:100-109 | linking the new leaf where the search fell off keeps the search-tree ordering |
| BinaryTreeMap.Remove | src/main/java/com/dubatovka/collection/BinaryTreeCustom.java:113-159 | `remove` keeps order and count, and drops exactly the binding of `k`. The counter always rises by one. A present key lowers the size by one. An absent key leaves every node and the size unchanged |
| SearchTree.Delete | src/main/java/com/dubatovka/collection/BinaryTreeCustom.java:115-158 | the descent finds the key iff it is stored. Absent, the tree is unchanged. Present, exactly that key and binding go and one node fewer remains |
| SearchTree.DeleteRoot | src/main/java/com/dubatovka/collection/BinaryTreeCustom.java:133-157 | unlinking the found node removes exactly its key and binding and one node. Without a right child the node is replaced by its left child. Otherwise the node keeps its left child and takes the least key of its right subtree, with its value, and that key leaves the right subtree |
| SearchTree.PromoteLeftmost | src/main/java/com/dubatovka/collection/BinaryTreeCustom.java:143-157 | in the two-child case the found node keeps its place and its left subtree, takes the least key of its right subtree with that key's value, and the right subtree loses exactly that binding and one node; overall only the found key's binding goes |
| SearchTree.RemoveLeftmost | src/main/java/com/dubatovka/collection/BinaryTreeCustom.java:144-154 | the leftmost walk finds the least key of the subtree with its value, and unlinks exactly that node |
| SearchTree.RemoveLeftmostKeepsOrder | src/main/java/com/dubatovka/collection/BinaryTreeCustom.java:150-154 | hooking the leftmost node's right child in its place keeps the ordering |
| SearchTree.DeleteRootKeepsOrder | src/main/java/com/dubatovka/collection/BinaryTreeCustom.java:133-157 | the successor copy keeps the search-tree ordering |
| SearchTree.DeleteKeepsOrder | src/main/java/com/dubatovka/collection/BinaryTreeCustom.java:113-159 | removal keeps the search-tree ordering |
| SearchTree.InOrderIncreasing | src/main/java/com/dubatovka/collection/BinaryTreeCustom.java:65-79 | the in-order keys of a search tree are strictly increasing under `cmp`, so each key has one node |
| SearchTree.CountIsKeyCount | src/main/java/com/dubatovka/collection/BinaryTreeCustom.java:110 | in a search tree the node count equals the number of distinct keys |
| BinaryTreeMap.Size | src/main/java/com/dubatovka/collection/BinaryTreeCustom.java:165-167 | the cached count is the number of keys stored |
| BinaryTreeMap.IsEmpty | src/main/java/com/dubatovka/collection/BinaryTreeCustom.java:169-171 | `isEmpty` holds iff no key is stored, iff the root is null |
| BinaryTreeMap.AddThenGet | src/main/java/com/dubatovka/collection/BinaryTreeCustom.java:81-111 | after `add(k, v)`, `get(k)` answers `v` and every other key answers as before |
| BinaryTreeMap.RemoveThenGet | src/main/java/com/dubatovka/collection/BinaryTreeCustom.java:113-159 | after `remove(k)`, `get(k)` answers null and every other key answers as before |
| BinaryTreeMap.RemoveEachRemovesThoseKeys | src/main/java/com/dubatovka/collection/BinaryTreeCustom.java:113-159 | removing keys one by one removes exactly those keys, and the counter rises once per call |
| BinaryTreeMap.RemovingEveryKeyEmpties | src/main/java/com/dubatovka/collection/BinaryTreeCustom.java:113-171 | removing every stored key, in any order and with repeats, leaves an empty map of size zero |
| TreeCursor.Leftmost | src/main/java/com/dubatovka/collection/BinaryTreeCustom.java:234-236 | the left walk ends at a node with no left child, inside the subtree, holding its first in-order key |
| TreeCursor.FirstInOrderIsLeast | src/main/java/com/dubatovka/collection/BinaryTreeCustom.java:231-239 | the first in-order key of a search tree is its least key |
| TreeCursor.FirstEntry | src/main/java/com/dubatovka/collection/BinaryTreeCustom.java:231-239 | `getFirstEntry` is null iff the tree is empty, and otherwise is the node holding the first in-order key |
| TreeCursor.Successor | src/main/java/com/dubatovka/collection/BinaryTreeCustom.java:241-259 | as written, a successor exists iff the node has a right child, and it is the leftmost node of that subtree |
| TreeCursor.SuccessorIsNextKeyUp | src/main/java/com/dubatovka/collection/BinaryTreeCustom.java:244-249 | a successor found through the right child holds the least key of that subtree, strictly above the node's key |
| TreeCursor.RightSubtreeFollows | src/main/java/com/dubatovka/collection/BinaryTreeCustom.java:244-249 | for a node with a right child, the next in-order key of the whole tree is the first key of that right subtree |
| TreeCursor.NewIterator | src/main/java/com/dubatovka/collection/BinaryTreeCustom.java:201-205 | a new cursor starts at `getFirstEntry`: its pending node is the node of the tree holding the first in-order (least) key, and null iff the tree is empty. It snapshots the counter and has nothing returned yet |
| TreeCursor.HasNextAgreesWithNext | src/main/java/com/dubatovka/collection/BinaryTreeCustom.java:208-210 | `hasNext` holds iff `nextEntry` gets past its exhaustion check, and on a cursor whose snapshot matches the counter iff `nextEntry` succeeds |
| TreeCursor.NextEntry | src/main/java/com/dubatovka/collection/BinaryTreeCustom.java:217-228 | exhaustion throws `NoSuchElementException` first. Otherwise a counter mismatch throws `ConcurrentModificationException`. Either way the cursor is unchanged. With a pending node and matching counters the call succeeds: the pending node is returned, becomes `lastReturned`, and the cursor moves to its `successor` |
| TreeCursor.AddInvalidatesCursor | src/main/java/com/dubatovka/collection/BinaryTreeCustom.java:217-224 | after any `add`, a cursor taken before it reports exhaustion on an empty tree and otherwise a concurrent modification |
| TreeCursor.RemoveInvalidatesCursor | src/main/java/com/dubatovka/collection/BinaryTreeCustom.java:217-224 | the same after any `remove`, including removal of an absent key |
| TreeCursor.Traverse | src/main/java/com/dubatovka/collection/BinaryTreeCustom.java:207-228 | a `hasNext`/`next` loop on a stale cursor with a pending node throws the concurrent modification. On a fresh cursor it completes, and the first key it hands out is the pending node's |
| TreeCursor.TraversalIsInOrderPrefix | src/main/java/com/dubatovka/collection/BinaryTreeCustom.java:207-259 | as written, the loop from in-order position `i` completes and hands out a prefix of the in-order keys from `i` |
| TreeCursor.TraversalStopsWithoutRightChild | src/main/java/com/dubatovka/collection/BinaryTreeCustom.java:241-259 | as written, a traversal with a pending node hands out at least one key, and the last key belongs to a node of the tree without a right child, where `successor` yields null |
| TreeCursor.IterationYieldsIncreasingPrefix | src/main/java/com/dubatovka/collection/BinaryTreeCustom.java:173-259 | as written, full iteration hands out a strictly increasing prefix of the in-order keys, empty iff the tree is empty, whose last key belongs to a node without a right child |
| TreeCursor.LastLeftTurn | src/main/java/com/dubatovka/collection/BinaryTreeCustom.java:250-257 | the intended parent climb yields a node of the tree |
| TreeCursor.LastLeftTurnIsNextAbove | src/main/java/com/dubatovka/collection/BinaryTreeCustom.java:250-257 | the intended climb finds the least key above `k`, and finds nothing iff no key lies above `k` |
| TreeCursor.SuccessorFixed | src/main/java/com/dubatovka/collection/BinaryTreeCustom.java:241-259 | the intended `successor`: with a right child it is the as-written `successor`; without one it climbs to a node of the tree whose key is above the node's |
| TreeCursor.SuccessorFixedIsNextInOrder | src/main/java/com/dubatovka/collection/BinaryTreeCustom.java:241-259 | with the intended climb, the successor of the node at in-order position `i` holds the key at `i + 1`, and there is none iff `i` is last |
| TreeCursor.NextAboveIsNextIndex | src/main/java/com/dubatovka/collection/BinaryTreeCustom.java:250-257 | in a strictly increasing key sequence, the least key above position `i` sits at `i + 1` |
| TreeCursor.TraverseFixed | src/main/java/com/dubatovka/collection/BinaryTreeCustom.java:207-259 | with the intended climb, the loop from in-order position `i` hands out exactly the in-order keys from `i` |
| TreeCursor.IterationFixedYieldsAllKeys | src/main/java/com/dubatovka/collection/BinaryTreeCustom.java:173-259 | with the intended climb, full iteration hands out every key exactly once, in strictly increasing order |
| TreeScenarios.OrderTestTreeShape | src/test/java/com/dubatovka/collection/BinaryTreeCustomTest.java:100-112 | inserting 1, 3, 7, 0, 5, 2 builds the six-node tree with count 6 and counter 6 that the test expects |
| TreeScenarios.OrderScenarioAsWritten | src/test/java/com/dubatovka/collection/BinaryTreeCustomTest.java:100-127 | on that tree the in-order keys are 0, 1, 2, 3, 5, 7, but as written the iteration hands out only key 0 |
| ArrayList.New | src/main/java/com/dubatovka/collection/ArrayListCustom.java:12-14 | the default constructor gives an empty list over an array of capacity 10 with counter zero |
| ArrayList.WithCapacity | src/main/java/com/dubatovka/collection/ArrayListCustom.java:16-26 | a positive capacity is allocated exactly and zero gives 10. A capacity throws `IllegalArgumentException` iff it is negative |
| ArrayList.EnsureCapacity | src/main/java/com/dubatovka/collection/ArrayListCustom.java:82-91 | the array doubles exactly when full and is otherwise unchanged. The elements are preserved, and afterwards `size < length` |
| ArrayList.Add | src/main/java/com/dubatovka/collection/ArrayListCustom.java:28-32 | the elements become `old + [v]`, the counter rises by one, and the capacity never shrinks |
| ArrayList.AddAt | src/main/java/com/dubatovka/collection/ArrayListCustom.java:34-40 | the counter always rises by one. The call succeeds iff `0 <= index <= size`, giving `old[..index] + [v] + old[index..]`. Otherwise it throws `IndexOutOfBoundsException` with the elements unchanged |
| ArrayList.ShiftUpElements | src/main/java/com/dubatovka/collection/ArrayListCustom.java:37-39 | the upward `arraycopy` from `index`, the store of `v` at `index` and the size increment keep the array valid and give the elements `old[..index] + [v] + old[index..]` |
| ArrayList.Get | src/main/java/com/dubatovka/collection/ArrayListCustom.java:47-51 | `get` succeeds iff the index is in range, returning that element, and otherwise throws `IndexOutOfBoundsException` |
| ArrayList.Set | src/main/java/com/dubatovka/collection/ArrayListCustom.java:42-45 | `set` succeeds iff the index is in range and changes only that element. It never touches the counter. A failing `set` changes nothing |
| ArrayList.Remove | src/main/java/com/dubatovka/collection/ArrayListCustom.java:53-66 | `remove` succeeds iff the index is in range, returning `old[index]` and leaving `old[..index] + old[index+1..]` with the counter bumped and the capacity kept. `index >= size` changes nothing; a negative index bumps only the counter |
| ArrayList.ShiftDownElements | src/main/java/com/dubatovka/collection/ArrayListCustom.java:60-64 | the shift down plus nulling of the last live slot keeps the array valid and removes exactly element `index` |
| ArrayList.Size | src/main/java/com/dubatovka/collection/ArrayListCustom.java:68-70 | `size` is the number of elements |
| ArrayList.IsEmpty | src/main/java/com/dubatovka/collection/ArrayListCustom.java:72-74 | `isEmpty` holds iff there are no elements |
| ArrayList.AddAtThenRemove | src/main/java/com/dubatovka/collection/ArrayListCustom.java:34-66 | inserting at `index` then removing at `index` returns the inserted value and restores the elements |
| ArrayList.AddThenGet | src/main/java/com/dubatovka/collection/ArrayListCustom.java:28-51 | after `add(v)` the last element is `v` and earlier ones are unchanged |
| ArrayList.SetThenGet | src/main/java/com/dubatovka/collection/ArrayListCustom.java:42-51 | after `set(i, v)`, `get(i)` answers `v` |
| ArrayList.Iterator | src/main/java/com/dubatovka/collection/ArrayListCustom.java:94-101 | a new iterator starts at 0 with `lastReturned` at -1 (nothing to remove) and snapshots the counter |
| ArrayList.HasNext | src/main/java/com/dubatovka/collection/ArrayListCustom.java:103-105 | `hasNext` holds iff the cursor is not at the end of the elements |
| ArrayList.Next | src/main/java/com/dubatovka/collection/ArrayListCustom.java:107-119 | a counter mismatch throws `ConcurrentModificationException` first. Then an out-of-range cursor throws `NoSuchElementException`. The call succeeds iff the counters match and the cursor is in range; then the element at the cursor is returned and the cursor advances |
| ArrayList.IterRemove | src/main/java/com/dubatovka/collection/ArrayListCustom.java:121-137 | with nothing to remove it throws `IllegalStateException`; any other failure is `ConcurrentModificationException`, including a range failure inside the list's `remove`. It succeeds iff the last-returned index is in range and the counter matches. It then removes that element, steps the cursor back over it and resynchronises the snapshot |
| ArrayList.StructuralChangeInvalidatesIterator | src/main/java/com/dubatovka/collection/ArrayListCustom.java:28-66 | after `add`, `add(index)` or a successful `remove` on the list, an earlier iterator's `next()` throws `ConcurrentModificationException` |
| ArrayList.SetKeepsIterator | src/main/java/com/dubatovka/collection/ArrayListCustom.java:42-45 | `set` leaves an iterator usable, and it then sees the new value |
| ArrayList.IteratorStaysSynced | src/main/java/com/dubatovka/collection/ArrayListCustom.java:103-137 | `next` and iterator `remove` keep a live cursor live; `hasNext` guarantees `next` succeeds and a pending element guarantees `remove` succeeds |
| ArrayList.CopyByIteration | src/main/java/com/dubatovka/collection/ArrayListCustom.java:103-119 | walking with `hasNext`/`next` and appending builds a list with the same elements |
| ArrayList.DrainByIteration | src/main/java/com/dubatovka/collection/ArrayListCustom.java:103-137 | `next(); remove();` on every element empties the list, bumping the counter once per element, without a fail-fast error |
| LinkedList.New | src/main/java/com/dubatovka/collection/LinkedListCustom.java:7-13 | the constructor gives an empty valid list with counter zero |
| LinkedList.SpineIsTheWalk | src/main/java/com/dubatovka/collection/LinkedListCustom.java:65-70 | following `next` from `head` for `size` steps visits exactly the nodes in list order. `head` is null iff `last` is null iff `size` is zero |
| LinkedList.GetNode | src/main/java/com/dubatovka/collection/LinkedListCustom.java:65-70 | `getNode(index)` is the `index`-th node of the list |
| LinkedList.LinkValid | src/main/java/com/dubatovka/collection/LinkedListCustom.java:72-109 | linking a new node at any position keeps the list valid and inserts its value at that position |
| LinkedList.LinkLast | src/main/java/com/dubatovka/collection/LinkedListCustom.java:85-96 | `linkLast` keeps the list valid and appends the value. Size and counter rise by one |
| LinkedList.LinkFirst | src/main/java/com/dubatovka/collection/LinkedListCustom.java:72-83 | `linkFirst` keeps the list valid and prepends the value. Size and counter rise by one |
| LinkedList.LinkBefore | src/main/java/com/dubatovka/collection/LinkedListCustom.java:98-109 | `linkBefore(v, node i)` keeps the list valid and inserts `v` at position `i`. Size and counter rise by one |
| LinkedList.UnlinkValid | src/main/java/com/dubatovka/collection/LinkedListCustom.java:111-135 | unlinking the node at any position keeps the list valid and removes exactly that element |
| LinkedList.DeleteLinks | src/main/java/com/dubatovka/collection/LinkedListCustom.java:111-135 | `deleteLinks(node i)` returns element `i`, leaves `old[..i] + old[i+1..]` in a valid list, lowers the size by one and bumps the counter |
| LinkedList.SetData | src/main/java/com/dubatovka/collection/LinkedListCustom.java:34-38 | overwriting one node's value keeps the links, size and counter, and changes only that element |
| LinkedList.Add | src/main/java/com/dubatovka/collection/LinkedListCustom.java:15-17 | `add(v)` appends `v`. Size and counter rise by one |
| LinkedList.AddFirst | src/main/java/com/dubatovka/collection/LinkedListCustom.java:30-32 | `addFirst(v)` prepends `v`. Size and counter rise by one |
| LinkedList.AddAt | src/main/java/com/dubatovka/collection/LinkedListCustom.java:19-28 | `add(index, v)` succeeds iff `0 <= index <= size`, giving `old[..index] + [v] + old[index..]` with size and counter up by one. Otherwise it throws `IndexOutOfBoundsException` and changes nothing |
| LinkedList.Get | src/main/java/com/dubatovka/collection/LinkedListCustom.java:40-44 | `get` succeeds iff `0 <= index < size`, returning that element, and otherwise throws `IndexOutOfBoundsException` |
| LinkedList.Set | src/main/java/com/dubatovka/collection/LinkedListCustom.java:34-38 | `set` succeeds iff the index is in range and changes only that element without a counter bump. Otherwise it throws and changes nothing |
| LinkedList.Remove | src/main/java/com/dubatovka/collection/LinkedListCustom.java:46-50 | `remove` succeeds iff the index is in range. It returns that element and leaves `old[..i] + old[i+1..]`, size down and counter up by one. Otherwise it throws and changes nothing |
| LinkedList.Size | src/main/java/com/dubatovka/collection/LinkedListCustom.java:52-54 | `size` is the number of elements |
| LinkedList.AddAtThenRemove | src/main/java/com/dubatovka/collection/LinkedListCustom.java:19-50 | inserting at `index` then removing at `index` returns the inserted value and restores the elements |
| LinkedList.AddFirstThenGet | src/main/java/com/dubatovka/collection/LinkedListCustom.java:15-44 | after `addFirst(v)`, `get(0)` is `v`; after `add(v)`, `get(size)` is `v` |
| LinkedList.SetThenGet | src/main/java/com/dubatovka/collection/LinkedListCustom.java:34-44 | after `set(i, v)`, `get(i)` is `v` and every other index answers as before |
| LinkedList.ListIterator | src/main/java/com/dubatovka/collection/LinkedListCustom.java:171-179 | `listIterator(index)` gives an in-step cursor at `index` with nothing to remove |
| LinkedList.Iterator | src/main/java/com/dubatovka/collection/LinkedListCustom.java:56-59 | `iterator()` is an in-step cursor at position 0 |
| LinkedList.HasNext | src/main/java/com/dubatovka/collection/LinkedListCustom.java:181-183 | `hasNext` holds iff elements remain from the cursor's position on |
| LinkedList.Next | src/main/java/com/dubatovka/collection/LinkedListCustom.java:189-200 | a counter mismatch throws `ConcurrentModificationException` first. Then `nextIndex >= size` throws `NoSuchElementException`. Otherwise it returns element `nextIndex` and advances one position, keeping the cursor coherent |
| LinkedList.IterRemove | src/main/java/com/dubatovka/collection/LinkedListCustom.java:220-235 | a counter mismatch throws first, then a missing `next` throws `IllegalStateException`. The call succeeds iff the counters match and a node was returned; then element `nextIndex - 1` is removed, the snapshot follows the counter and the cursor steps back |
| LinkedList.RemoveKeepsSynced | src/main/java/com/dubatovka/collection/LinkedListCustom.java:226-234 | after a forward `next`, the cursor's next node is never the removed one, and the cursor stays in step one position lower |
| LinkedList.IterSet | src/main/java/com/dubatovka/collection/LinkedListCustom.java:245-251 | a missing `next` throws `IllegalStateException` before the counter check. The call succeeds iff a node was returned and the counters match; then only element `nextIndex - 1` changes, and neither the counter nor the cursor moves |
| LinkedList.IterAdd | src/main/java/com/dubatovka/collection/LinkedListCustom.java:253-263 | a counter mismatch throws. Otherwise `v` goes in at `nextIndex`, the cursor steps over it, and the snapshot follows the counter |
| LinkedList.StaleCursorThrows | src/main/java/com/dubatovka/collection/LinkedListCustom.java:265-269 | a cursor whose snapshot lags the counter stays coherent and its `next()` throws `ConcurrentModificationException` |
| LinkedList.AddInvalidatesCursor | src/main/java/com/dubatovka/collection/LinkedListCustom.java:15-32 | after `add`/`addFirst` on the list, an earlier cursor's `next()` throws `ConcurrentModificationException` |
| LinkedList.AddAtInvalidatesCursor | src/main/java/com/dubatovka/collection/LinkedListCustom.java:19-28 | the same after a successful `add(index, v)` |
| LinkedList.RemoveInvalidatesCursor | src/main/java/com/dubatovka/collection/LinkedListCustom.java:46-50 | the same after a successful `remove(index)` |
| LinkedList.SetKeepsCursor | src/main/java/com/dubatovka/collection/LinkedListCustom.java:34-38 | `set` on the list leaves every cursor coherent |
| LinkedList.CopyByIteration | src/main/java/com/dubatovka/collection/LinkedListCustom.java:181-200 | walking with `hasNext`/`next` from the front hands out the elements in index order |
| LinkedList.DrainByIteration | src/main/java/com/dubatovka/collection/LinkedListCustom.java:189-235 | `next(); remove();` on every element empties the list, bumping the counter once per element, without a fail-fast error |
| LinkedList.AddThenNext | src/main/java/com/dubatovka/collection/LinkedListCustom.java:253-263 | iterator `add(v)` then `next()` inserts `v` before the next element and moves past both |
| LinkedList.InterleaveByIteration | src/main/java/com/dubatovka/collection/LinkedListCustom.java:253-263 | iterator `add(v)` before every element yields `v` interleaved in front of each element: position `2k` holds `v` and position `2k + 1` holds element `k` |

## Left out

- The comparator constructor argument and `compare` (`BinaryTreeCustom.java:14-22,178-185`) are left out, because no comparison uses them. The reverse-order behaviour the `reverseOrder` test expects is therefore not claimed.
- `BinaryTreeCustom.next()` is left out: it is a stub that returns null.
- `Node.equals`, `hashCode` and `valEquals` are left out: they are Java object plumbing.
- `Node.setValue` is left out: cursor users can call it, but the tree never does.
- `EntryIterator.lastReturned` is tracked but never read, since the source has no cursor `remove`.
- `ListIteratorCustom.previous`, `hasPrevious`, `nextIndex` and `previousIndex` are left out. `previous` moves `nextToReturn` before reading `lastReturned` from it, so it hands out the wrong node or dereferences null. Only forward iteration is modelled.
- LinkedList.ListIterator: requires `0 <= index <= size`. The source does not check the index. A larger index dereferences null inside `getNode`. A negative one starts at `head` with a negative `nextIndex`.
- Integer width is left out: `size`, capacities and counters are unbounded integers, so 32-bit overflow of `int` (including capacity doubling past `Integer.MAX_VALUE`) is not modelled.
- Exception messages are left out; only the exception class is kept.
- `Arrays.copyOf` and `System.arraycopy` internals are left out: they are sequence slicing and concatenation.
- Concurrency is left out: the counters are single-threaded fail-fast checks.
- Keys are taken up to `compareTo`-equality: the order `cmp` answers zero only on equal keys. Java does not require `compareTo` to agree with `equals`. For two distinct keys that compare equal, `add` keeps the stored key object and replaces only its value, a distinction the model does not draw.
- Null elements and keys are left out: values are plain values of the element type. A null key would throw from `compareTo`.
- The clearing of an unlinked node's fields in `deleteLinks` (`LinkedListCustom.java:128-130`) is not modelled field by field: the node leaves the heap instead.
- The corrected successor is proved in general (`TreeCursor.IterationFixedYieldsAllKeys`), but not replayed on the concrete tree of the `order` test.

## Findings

| source | as written | input that shows it | evidently intended | confidence | as-written member | corrected member |
|---|---|---|---|---|---|---|
| src/main/java/com/dubatovka/collection/BinaryTreeCustom.java:241-259 | `successor` climbs `Node.parent`, but no code assigns `parent` (declared at line 27; `add` links nodes at 100-109 without setting it). A node without a right child therefore has no successor, and iteration stops at the first such node | `add` keys 1, 3, 7, 0, 5, 2, then iterate: only key 0 is handed out, while the `order` test expects 0, 1, 2, 3, 5, 7 | set `parent` when linking, so the climb finds the nearest ancestor whose left subtree holds the node, and iteration visits every key in order | not executed | TreeScenarios.OrderScenarioAsWritten | TreeCursor.IterationFixedYieldsAllKeys |
