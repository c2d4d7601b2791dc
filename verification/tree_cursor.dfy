/** The fail-fast entry cursor of `BinaryTreeCustom`: `getFirstEntry`, `successor` and
    `EntryIterator.nextEntry`.

    The source's `successor` climbs `parent` references when a node has no right child,
    but no code ever assigns `Node.parent`, so that climb starts at null and yields null.
    `Successor` models that as written; the cursor therefore yields an increasing prefix of
    the keys and stops at the first node without a right child. `SuccessorFixed` is the
    climb the code evidently intends (parents assigned on linking), under which the cursor
    yields every key in order. */
module TreeCursor {
  import opened Ordering
  import opened Outcomes
  import opened SearchTree
  import opened BinaryTreeMap

  /** The loop shared by `getFirstEntry` and `successor`: follow left children until a node
      has none. It reaches the node holding the first key in in-order position. */
  function Leftmost<K, V>(t: Tree<K, V>): (r: Tree<K, V>)
    requires t.Node?
    ensures r.Node? && r.left.Leaf?
    ensures IsSubtree(r, t)
    ensures |InOrder(t)| > 0 && r.key == InOrder(t)[0]
    ensures Count(r) <= Count(t)
  {
    if t.left.Leaf? then t else Leftmost(t.left)
  }

  /** On a search tree the first in-order key is the least key. */
  lemma {:induction false} FirstInOrderIsLeast<K(!new), V>(cmp: (K, K) -> int, t: Tree<K, V>)
    requires TotalOrder(cmp) && IsBst(cmp, t) && t.Node?
    ensures IsLeast(cmp, InOrder(t)[0], Keys(t))
  {
    InOrderIncreasing(cmp, t);
    InOrderKeys(t);
    var s := InOrder(t);
    forall x | x in Keys(t) && x != s[0]
      ensures cmp(s[0], x) < 0
    {
      var j :| 0 <= j < |s| && s[j] == x;
      assert j != 0;
    }
  }

  /** `getFirstEntry`: the node holding the least key, or null for an empty tree. */
  function FirstEntry<K, V>(m: BinaryTree<K, V>): (r: Option<Tree<K, V>>)
    ensures r.None? <==> m.root.Leaf?
    ensures r.Some? ==> r.value.Node? && IsSubtree(r.value, m.root) && r.value.key == InOrder(m.root)[0]
  {
    if m.root.Leaf? then None else Some(Leftmost(m.root))
  }

  /** `successor` as written. With a right child it is the leftmost node of the right
      subtree; without one the parent climb starts at the never-assigned `parent` and
      yields null. */
  function Successor<K, V>(e: Tree<K, V>): (r: Option<Tree<K, V>>)
    ensures r.Some? <==> e.Node? && e.right.Node?
    ensures r.Some? ==> r.value.Node? && IsSubtree(r.value, e.right)
    ensures r.Some? ==> r.value.key == InOrder(e.right)[0] && Count(r.value) < Count(e)
  {
    if e.Leaf? then None
    else if e.right.Node? then Some(Leftmost(e.right))
    else None
  }

  /** Where the source's successor finds one, it is the next key up: the least key of the
      right subtree, strictly after the node's own key. */
  lemma SuccessorIsNextKeyUp<K(!new), V>(cmp: (K, K) -> int, e: Tree<K, V>)
    requires TotalOrder(cmp) && IsBst(cmp, e) && Successor(e).Some?
    ensures IsLeast(cmp, Successor(e).value.key, Keys(e.right))
    ensures cmp(e.key, Successor(e).value.key) < 0
  {
    FirstInOrderIsLeast(cmp, e.right);
    InOrderKeys(e.right);
  }

  /** The in-order keys of a subtree form one contiguous stretch of the whole tree's. */
  lemma {:induction false} InOrderSegment<K, V>(e: Tree<K, V>, root: Tree<K, V>) returns (p: seq<K>, q: seq<K>)
    requires IsSubtree(e, root)
    ensures InOrder(root) == p + InOrder(e) + q
  {
    if e == root {
      p, q := [], [];
    } else if IsSubtree(e, root.left) {
      var p', q' := InOrderSegment(e, root.left);
      p, q := p', q' + [root.key] + InOrder(root.right);
    } else {
      var p', q' := InOrderSegment(e, root.right);
      p, q := InOrder(root.left) + [root.key] + p', q';
    }
  }

  /** In the in-order key sequence of a search tree, the key after a node that has a right
      child is the first key of that right subtree. */
  lemma RightSubtreeFollows<K(!new), V>(cmp: (K, K) -> int, root: Tree<K, V>, e: Tree<K, V>, i: int)
    requires TotalOrder(cmp) && IsBst(cmp, root) && IsSubtree(e, root)
    requires e.Node? && e.right.Node?
    requires 0 <= i < |InOrder(root)| && InOrder(root)[i] == e.key
    ensures i + 1 < |InOrder(root)| && InOrder(root)[i + 1] == InOrder(e.right)[0]
  {
    var p, q := InOrderSegment(e, root);
    var j := |p| + |InOrder(e.left)|;
    assert InOrder(e) == InOrder(e.left) + [e.key] + InOrder(e.right);
    PivotPosition(p, InOrder(e.left), e.key, InOrder(e.right), q);
    InOrderIncreasing(cmp, root);
    KeyIndexUnique(cmp, InOrder(root), i, j);
  }

  lemma PivotPosition<K>(p: seq<K>, a: seq<K>, k: K, b: seq<K>, q: seq<K>)
    requires |b| > 0
    ensures var s := p + (a + [k] + b) + q;
      s[|p| + |a|] == k && |p| + |a| + 1 < |s| && s[|p| + |a| + 1] == b[0]
  {
  }

  /** In a strictly increasing sequence a key sits at one index only. */
  lemma KeyIndexUnique<K(!new)>(cmp: (K, K) -> int, s: seq<K>, i: int, j: int)
    requires TotalOrder(cmp) && StrictlyIncreasing(cmp, s)
    requires 0 <= i < |s| && 0 <= j < |s| && s[i] == s[j]
    ensures i == j
  {
  }

  // ---------------------------------------------------------------------------
  // The cursor

  /** `EntryIterator`: the node to hand out next, the node handed out last, and the
      counter value seen when the cursor was created. */
  datatype EntryIterator<K, V> = EntryIterator(next: Option<Tree<K, V>>, lastReturned: Option<Tree<K, V>>, expectedModCount: int)

  /** `iterator()`: a cursor on the first entry that remembers the current counter. */
  function NewIterator<K, V>(m: BinaryTree<K, V>): (it: EntryIterator<K, V>)
    ensures it.expectedModCount == m.modCount && it.lastReturned.None?
    ensures it.next == FirstEntry(m)
    ensures it.next.None? <==> m.root.Leaf?
    ensures it.next.Some? ==> IsSubtree(it.next.value, m.root) && it.next.value.key == InOrder(m.root)[0]
  {
    EntryIterator(FirstEntry(m), None, m.modCount)
  }

  /** `hasNext`: whether a node is pending. */
  function HasNext<K, V>(it: EntryIterator<K, V>): bool {
    it.next.Some?
  }

  /** `hasNext` answers exactly whether `nextEntry` gets past its exhaustion check, and on a
      cursor whose snapshot matches the counter, whether `nextEntry` succeeds. */
  lemma HasNextAgreesWithNext<K, V>(m: BinaryTree<K, V>, it: EntryIterator<K, V>)
    ensures HasNext(it) <==> NextEntry(m, it).1 != Thrown(NoSuchElement)
    ensures it.expectedModCount == m.modCount ==> (HasNext(it) <==> NextEntry(m, it).1.Normal?)
  {
  }

  /** `nextEntry`: exhaustion is checked before the counter; a successful call hands out the
      pending node and moves on to its successor. */
  function NextEntry<K, V>(m: BinaryTree<K, V>, it: EntryIterator<K, V>): (r: (EntryIterator<K, V>, Outcome<Tree<K, V>>))
    ensures r.1 == Thrown(NoSuchElement) <==> it.next.None?
    ensures r.1 == Thrown(ConcurrentModification) <==> it.next.Some? && m.modCount != it.expectedModCount
    ensures r.1.Thrown? ==> r.0 == it
    ensures r.1.Normal? ==> Some(r.1.value) == it.next && r.0.lastReturned == it.next
    ensures r.1.Normal? ==> r.0.expectedModCount == it.expectedModCount
    ensures it.next.Some? && m.modCount == it.expectedModCount ==>
      r.1 == Normal(it.next.value) && r.0.next == Successor(it.next.value)
  {
    match it.next
    case None => (it, Thrown(NoSuchElement))
    case Some(e) =>
      if m.modCount != it.expectedModCount then (it, Thrown(ConcurrentModification))
      else (EntryIterator(Successor(e), Some(e), it.expectedModCount), Normal(e))
  }

  /** A cursor created before an `add` fails fast on its next step: an exhausted cursor
      still reports exhaustion first, any other reports the concurrent modification. */
  lemma AddInvalidatesCursor<K(!new), V>(cmp: (K, K) -> int, m: BinaryTree<K, V>, k: K, v: V)
    requires TotalOrder(cmp) && Valid(cmp, m)
    ensures var it := NewIterator(m);
            NextEntry(Add(cmp, m, k, v), it).1
              == if m.root.Leaf? then Thrown(NoSuchElement) else Thrown(ConcurrentModification)
  {
  }

  /** Likewise for `remove`, even of an absent key. */
  lemma RemoveInvalidatesCursor<K(!new), V>(cmp: (K, K) -> int, m: BinaryTree<K, V>, k: K)
    requires TotalOrder(cmp) && Valid(cmp, m)
    ensures var it := NewIterator(m);
            NextEntry(Remove(cmp, m, k), it).1
              == if m.root.Leaf? then Thrown(NoSuchElement) else Thrown(ConcurrentModification)
  {
  }

  /** The cursor's pending node, when there is one, is a node of the tree. */
  ghost predicate OnTree<K, V>(m: BinaryTree<K, V>, it: EntryIterator<K, V>) {
    it.next.Some? ==> it.next.value.Node? && IsSubtree(it.next.value, m.root)
  }

  function Pending<K, V>(it: EntryIterator<K, V>): nat {
    if it.next.Some? then Count(it.next.value) else 0
  }

  /** The keys a `while (it.hasNext()) it.next()` loop over `m` hands out, or the exception
      that ends it. */
  function Traverse<K, V>(m: BinaryTree<K, V>, it: EntryIterator<K, V>): (r: Outcome<seq<K>>)
    requires it.next.Some? ==> it.next.value.Node?
    ensures it.next.Some? && m.modCount != it.expectedModCount ==> r == Thrown(ConcurrentModification)
    ensures m.modCount == it.expectedModCount ==> r.Normal?
    ensures r.Normal? && it.next.Some? ==> |r.value| > 0 && r.value[0] == it.next.value.key
    decreases Pending(it)
  {
    if !HasNext(it) then Normal([])
    else
      var (it', o) := NextEntry(m, it);
      match o
      case Thrown(x) => Thrown(x)
      case Normal(e) =>
        match Traverse(m, it')
        case Thrown(x) => Thrown(x)
        case Normal(ks) => Normal([e.key] + ks)
  }

  /** As written, a traversal from the node at in-order position `i` hands out a non-empty
      run of consecutive keys starting there: a prefix of the in-order keys from `i`. */
  lemma {:induction false} TraversalIsInOrderPrefix<K(!new), V>(cmp: (K, K) -> int, m: BinaryTree<K, V>, it: EntryIterator<K, V>, i: int)
    requires TotalOrder(cmp) && Valid(cmp, m) && it.expectedModCount == m.modCount && OnTree(m, it)
    requires it.next.Some? ==> 0 <= i < |InOrder(m.root)| && InOrder(m.root)[i] == it.next.value.key
    ensures Traverse(m, it).Normal?
    ensures it.next.Some? ==> Traverse(m, it).value <= InOrder(m.root)[i..]
    decreases Pending(it)
  {
    if it.next.Some? {
      var e := it.next.value;
      var (it', _) := NextEntry(m, it);
      var s := InOrder(m.root);
      if e.right.Node? {
        RightSubtreeFollows(cmp, m.root, e, i);
        SubtreeTransitive(it'.next.value, e.right, e);
        SubtreeTransitive(it'.next.value, e, m.root);
        TraversalIsInOrderPrefix(cmp, m, it', i + 1);
        assert s[i..] == [s[i]] + s[i + 1..];
      }
    }
  }

  /** As written, a traversal stops at a node without a right child: the last key it hands
      out belongs to such a node of the tree. */
  lemma {:induction false} TraversalStopsWithoutRightChild<K, V>(m: BinaryTree<K, V>, it: EntryIterator<K, V>)
    requires it.expectedModCount == m.modCount && OnTree(m, it) && it.next.Some?
    ensures Traverse(m, it).Normal? && |Traverse(m, it).value| > 0
    ensures var ks := Traverse(m, it).value;
      exists e :: IsSubtree(e, m.root) && e.Node? && e.right.Leaf? && e.key == ks[|ks| - 1]
    decreases Pending(it)
  {
    var e := it.next.value;
    var (it', _) := NextEntry(m, it);
    if e.right.Node? {
      SubtreeTransitive(it'.next.value, e.right, e);
      SubtreeTransitive(it'.next.value, e, m.root);
      TraversalStopsWithoutRightChild(m, it');
      var ks' := Traverse(m, it').value;
      assert Traverse(m, it).value == [e.key] + ks';
    } else {
      assert Traverse(m, it').value == [];
      assert Traverse(m, it).value == [e.key];
    }
  }

  /** As written, iterating a tree hands out a strictly increasing run of its keys that
      starts at the least key and follows the in-order sequence without gaps; it ends at a
      node without a right child and so does not necessarily reach the last key. */
  lemma IterationYieldsIncreasingPrefix<K(!new), V>(cmp: (K, K) -> int, m: BinaryTree<K, V>)
    requires TotalOrder(cmp) && Valid(cmp, m)
    ensures Traverse(m, NewIterator(m)).Normal?
    ensures var ks := Traverse(m, NewIterator(m)).value;
            && ks <= InOrder(m.root)
            && StrictlyIncreasing(cmp, ks)
            && (|ks| == 0 <==> m.root.Leaf?)
            && (|ks| > 0 ==> exists e :: IsSubtree(e, m.root) && e.Node? && e.right.Leaf? && e.key == ks[|ks| - 1])
  {
    var it := NewIterator(m);
    TraversalIsInOrderPrefix(cmp, m, it, 0);
    if it.next.Some? {
      TraversalStopsWithoutRightChild(m, it);
    }
    InOrderIncreasing(cmp, m.root);
  }

  // ---------------------------------------------------------------------------
  // The intended successor

  /** The ancestor climb of `successor`, had `parent` been assigned when nodes are linked:
      the nearest ancestor whose left subtree holds the node. Seen from the root, that is
      the last node at which the search path for `k` turns left. */
  function LastLeftTurn<K, V>(cmp: (K, K) -> int, t: Tree<K, V>, k: K): (r: Option<Tree<K, V>>)
    ensures r.Some? ==> r.value.Node? && IsSubtree(r.value, t) && cmp(k, r.value.key) < 0
  {
    match t
    case Leaf => None
    case Node(l, x, _, rt) =>
      if cmp(k, x) < 0 then
        match LastLeftTurn(cmp, l, k)
        case None => Some(t)
        case Some(n) => Some(n)
      else LastLeftTurn(cmp, rt, k)
  }

  /** `k` is below `n`, and no key of `ks` lies strictly between them. */
  ghost predicate IsNextAbove<K>(cmp: (K, K) -> int, n: K, k: K, ks: set<K>) {
    && n in ks
    && cmp(k, n) < 0
    && forall y :: y in ks && cmp(k, y) < 0 ==> y == n || cmp(n, y) < 0
  }

  /** The search path's last left turn holds the least key above `k`, and there is none
      exactly when no key is above `k`. */
  lemma {:induction false} LastLeftTurnIsNextAbove<K(!new), V>(cmp: (K, K) -> int, t: Tree<K, V>, k: K)
    requires TotalOrder(cmp) && IsBst(cmp, t)
    ensures LastLeftTurn(cmp, t, k).Some? ==> IsNextAbove(cmp, LastLeftTurn(cmp, t, k).value.key, k, Keys(t))
    ensures LastLeftTurn(cmp, t, k).None? ==> forall y :: y in Keys(t) ==> cmp(k, y) >= 0
  {
    match t
    case Leaf =>
    case Node(l, x, _, rt) =>
      LastLeftTurnIsNextAbove(cmp, l, k);
      LastLeftTurnIsNextAbove(cmp, rt, k);
      var r := LastLeftTurn(cmp, t, k);
      if cmp(k, x) < 0 {
        var rl := LastLeftTurn(cmp, l, k);
        if rl.Some? {
          SubtreeFacts(cmp, rl.value, l);
        }
      } else if r.Some? {
        SubtreeFacts(cmp, r.value, rt);
      }
  }

  /** `successor` with the parent climb working: with a right child it is the source's
      `successor`; without one it climbs to a node of the tree holding a larger key. */
  function SuccessorFixed<K, V>(cmp: (K, K) -> int, m: BinaryTree<K, V>, e: Tree<K, V>): (r: Option<Tree<K, V>>)
    ensures r.Some? ==> r.value.Node?
    ensures e.Node? && e.right.Node? ==> r == Successor(e)
    ensures e.Node? && e.right.Leaf? && r.Some? ==> IsSubtree(r.value, m.root) && cmp(e.key, r.value.key) < 0
  {
    if e.Leaf? then None
    else if e.right.Node? then Some(Leftmost(e.right))
    else LastLeftTurn(cmp, m.root, e.key)
  }

  /** With the climb working, the successor of the node at in-order position `i` holds the
      key at position `i + 1`, and there is none after the last position. */
  lemma SuccessorFixedIsNextInOrder<K(!new), V>(cmp: (K, K) -> int, m: BinaryTree<K, V>, e: Tree<K, V>, i: int)
    requires TotalOrder(cmp) && Valid(cmp, m) && e.Node? && IsSubtree(e, m.root)
    requires 0 <= i < |InOrder(m.root)| && InOrder(m.root)[i] == e.key
    ensures SuccessorFixed(cmp, m, e).None? <==> i == |InOrder(m.root)| - 1
    ensures SuccessorFixed(cmp, m, e).Some? ==>
              && IsSubtree(SuccessorFixed(cmp, m, e).value, m.root)
              && SuccessorFixed(cmp, m, e).value.key == InOrder(m.root)[i + 1]
  {
    var s := InOrder(m.root);
    InOrderIncreasing(cmp, m.root);
    InOrderKeys(m.root);
    if e.right.Node? {
      RightSubtreeFollows(cmp, m.root, e, i);
      SubtreeTransitive(Leftmost(e.right), e.right, e);
      SubtreeTransitive(Leftmost(e.right), e, m.root);
    } else {
      LastLeftTurnIsNextAbove(cmp, m.root, e.key);
      var r := LastLeftTurn(cmp, m.root, e.key);
      if r.Some? {
        NextAboveIsNextIndex(cmp, s, i, r.value.key);
      }
    }
  }

  /** In a strictly increasing sequence, the least element above the one at `i` sits at `i + 1`. */
  lemma NextAboveIsNextIndex<K(!new)>(cmp: (K, K) -> int, s: seq<K>, i: int, n: K)
    requires TotalOrder(cmp) && StrictlyIncreasing(cmp, s) && 0 <= i < |s|
    requires n in s && cmp(s[i], n) < 0
    requires forall y :: y in s && cmp(s[i], y) < 0 ==> y == n || cmp(n, y) < 0
    ensures i + 1 < |s| && s[i + 1] == n
  {
    var j :| 0 <= j < |s| && s[j] == n;
    assert j > i + 1 ==> cmp(s[i + 1], s[j]) < 0;
  }

  /** The traversal with the climb working: the keys handed out from in-order position `i`. */
  function TraverseFixed<K(!new), V>(cmp: (K, K) -> int, m: BinaryTree<K, V>, it: EntryIterator<K, V>, ghost i: int): (r: Outcome<seq<K>>)
    requires TotalOrder(cmp) && Valid(cmp, m) && it.expectedModCount == m.modCount && OnTree(m, it)
    requires it.next.Some? ==> 0 <= i < |InOrder(m.root)| && InOrder(m.root)[i] == it.next.value.key
    ensures it.next.Some? ==> r == Normal(InOrder(m.root)[i..])
    ensures it.next.None? ==> r == Normal([])
    decreases |InOrder(m.root)| - i
  {
    match it.next
    case None => Normal([])
    case Some(e) =>
      SuccessorFixedIsNextInOrder(cmp, m, e, i);
      var it' := EntryIterator(SuccessorFixed(cmp, m, e), Some(e), it.expectedModCount);
      var s := InOrder(m.root);
      assert s[i..] == [s[i]] + s[i + 1..];
      match TraverseFixed(cmp, m, it', i + 1)
      case Thrown(x) => Thrown(x)
      case Normal(ks) => Normal([e.key] + ks)
  }

  /** With the climb working, iterating a tree hands out every key exactly once, in
      increasing order. */
  lemma IterationFixedYieldsAllKeys<K(!new), V>(cmp: (K, K) -> int, m: BinaryTree<K, V>)
    requires TotalOrder(cmp) && Valid(cmp, m)
    ensures TraverseFixed(cmp, m, NewIterator(m), 0) == Normal(InOrder(m.root))
    ensures StrictlyIncreasing(cmp, InOrder(m.root))
    ensures forall k :: k in InOrder(m.root) <==> k in Keys(m.root)
  {
    InOrderIncreasing(cmp, m.root);
    InOrderKeys(m.root);
  }
}

/** The insertion scenarios of the tree's tests, replayed on the model with integer keys. */
module TreeScenarios {
  import opened Ordering
  import opened Outcomes
  import opened SearchTree
  import opened BinaryTreeMap
  import opened TreeCursor

  /** Keys 1, 3, 7, 0, 5, 2 added in that order. */
  function OrderTestTree(): (m: BinaryTree<int, string>)
    ensures Valid(IntCompare, m)
  {
    IntCompareIsTotalOrder();
    EmptyIsValid<int, string>(IntCompare);
    var m := Add(IntCompare, Empty(), 1, "one");
    var m := Add(IntCompare, m, 3, "three");
    var m := Add(IntCompare, m, 7, "seven");
    var m := Add(IntCompare, m, 0, "zero");
    var m := Add(IntCompare, m, 5, "five");
    Add(IntCompare, m, 2, "two")
  }

  // The tree the six insertions build, one link at a time.
  const N0 := Node(Leaf, 0, "zero", Leaf)
  const N2 := Node(Leaf, 2, "two", Leaf)
  const N5 := Node(Leaf, 5, "five", Leaf)
  const T1: Tree<int, string> := Node(Leaf, 1, "one", Leaf)
  const T2 := Node(Leaf, 1, "one", Node(Leaf, 3, "three", Leaf))
  const T3 := Node(Leaf, 1, "one", Node(Leaf, 3, "three", Node(Leaf, 7, "seven", Leaf)))
  const T4 := Node(N0, 1, "one", Node(Leaf, 3, "three", Node(Leaf, 7, "seven", Leaf)))
  const T5 := Node(N0, 1, "one", Node(Leaf, 3, "three", Node(N5, 7, "seven", Leaf)))
  const T6 := Node(N0, 1, "one", Node(N2, 3, "three", Node(N5, 7, "seven", Leaf)))

  // Each step inherits the search-tree ordering of the tree it starts from from the step
  // before, so no literal tree's ordering is checked from scratch.
  lemma InsertOne()
    ensures Insert(IntCompare, Leaf, 1, "one").0 == T1 && IsBst(IntCompare, T1)
  {
    IntCompareIsTotalOrder();
    InsertKeepsOrder(IntCompare, Leaf, 1, "one");
  }

  lemma InsertThree()
    ensures IsBst(IntCompare, T1) && Insert(IntCompare, T1, 3, "three").0 == T2 && IsBst(IntCompare, T2)
  {
    IntCompareIsTotalOrder();
    InsertOne();
    InsertKeepsOrder(IntCompare, T1, 3, "three");
  }

  lemma InsertSeven()
    ensures IsBst(IntCompare, T2) && Insert(IntCompare, T2, 7, "seven").0 == T3 && IsBst(IntCompare, T3)
  {
    IntCompareIsTotalOrder();
    InsertThree();
    InsertKeepsOrder(IntCompare, T2, 7, "seven");
  }

  lemma InsertZero()
    ensures IsBst(IntCompare, T3) && Insert(IntCompare, T3, 0, "zero").0 == T4 && IsBst(IntCompare, T4)
  {
    IntCompareIsTotalOrder();
    InsertSeven();
    InsertKeepsOrder(IntCompare, T3, 0, "zero");
  }

  lemma InsertFive()
    ensures IsBst(IntCompare, T4) && Insert(IntCompare, T4, 5, "five").0 == T5 && IsBst(IntCompare, T5)
  {
    IntCompareIsTotalOrder();
    InsertZero();
    InsertKeepsOrder(IntCompare, T4, 5, "five");
  }

  lemma InsertTwo()
    ensures IsBst(IntCompare, T5) && Insert(IntCompare, T5, 2, "two").0 == T6 && IsBst(IntCompare, T6)
  {
    IntCompareIsTotalOrder();
    InsertFive();
    InsertKeepsOrder(IntCompare, T5, 2, "two");
  }

  // The same steps through `add`, which also counts the new node and the change.
  lemma AddedOne()
    ensures TotalOrder(IntCompare) && Valid(IntCompare, Empty<int, string>())
    ensures Add(IntCompare, Empty(), 1, "one") == BinaryTree(T1, 1, 1)
  {
    IntCompareIsTotalOrder();
    EmptyIsValid<int, string>(IntCompare);
    InsertOne();
  }

  lemma AddedThree()
    ensures TotalOrder(IntCompare) && Valid(IntCompare, BinaryTree(T1, 1, 1))
    ensures Add(IntCompare, BinaryTree(T1, 1, 1), 3, "three") == BinaryTree(T2, 2, 2)
  {
    AddedOne();
    InsertThree();
  }

  lemma AddedSeven()
    ensures TotalOrder(IntCompare) && Valid(IntCompare, BinaryTree(T2, 2, 2))
    ensures Add(IntCompare, BinaryTree(T2, 2, 2), 7, "seven") == BinaryTree(T3, 3, 3)
  {
    AddedThree();
    InsertSeven();
  }

  lemma AddedZero()
    ensures TotalOrder(IntCompare) && Valid(IntCompare, BinaryTree(T3, 3, 3))
    ensures Add(IntCompare, BinaryTree(T3, 3, 3), 0, "zero") == BinaryTree(T4, 4, 4)
  {
    AddedSeven();
    InsertZero();
  }

  lemma AddedFive()
    ensures TotalOrder(IntCompare) && Valid(IntCompare, BinaryTree(T4, 4, 4))
    ensures Add(IntCompare, BinaryTree(T4, 4, 4), 5, "five") == BinaryTree(T5, 5, 5)
  {
    AddedZero();
    InsertFive();
  }

  lemma AddedTwo()
    ensures TotalOrder(IntCompare) && Valid(IntCompare, BinaryTree(T5, 5, 5))
    ensures Add(IntCompare, BinaryTree(T5, 5, 5), 2, "two") == BinaryTree(T6, 6, 6)
  {
    AddedFive();
    InsertTwo();
  }

  lemma OrderTestTreeShape()
    ensures OrderTestTree() == BinaryTree(T6, 6, 6)
  {
    AddedOne();
    AddedThree();
    AddedSeven();
    AddedZero();
    AddedFive();
    AddedTwo();
  }

  /** The built tree stores 0, 1, 2, 3, 5, 7; its cursor starts at node 0, which has no right
      child, so the cursor stops after it. */
  lemma LiteralTraverse()
    ensures InOrder(T6) == [0, 1, 2, 3, 5, 7]
    ensures Traverse(BinaryTree(T6, 6, 6), NewIterator(BinaryTree(T6, 6, 6))) == Normal([0])
  {
    var m := BinaryTree(T6, 6, 6);
    var it := NewIterator(m);
    assert it.next == Some(N0);
    var (it', e) := NextEntry(m, it);
    assert it' == EntryIterator(None, Some(N0), 6);
    assert e == Normal(N0) && Traverse(m, it') == Normal([]);
    assert Traverse(m, it) == Normal([0] + []);
    assert [0] + [] == [0];
  }

  /** As written, iterating the tree of keys 1, 3, 7, 0, 5, 2 hands out key 0 and then stops:
      node 0 has no right child and the parent link that would lead back up to 1 is never
      set. The keys stored, in order, are 0, 1, 2, 3, 5, 7. */
  lemma OrderScenarioAsWritten()
    ensures InOrder(OrderTestTree().root) == [0, 1, 2, 3, 5, 7]
    ensures Traverse(OrderTestTree(), NewIterator(OrderTestTree())) == Normal([0])
  {
    OrderTestTreeShape();
    LiteralTraverse();
  }
}
