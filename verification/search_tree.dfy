/** The node graph of the unbalanced binary search tree, as an algebraic tree, with the
    descent, insertion and Hibbard deletion that `BinaryTreeCustom` performs on it.
    The source's `Node.parent` field is never assigned, so it is not part of a node here. */
module SearchTree {
  import opened Ordering
  import opened Outcomes

  /** `Leaf` is a null child reference; `Node` is a node owning its two subtrees. */
  datatype Tree<K, V> = Leaf | Node(left: Tree<K, V>, key: K, value: V, right: Tree<K, V>)

  /** The keys stored anywhere in `t`. */
  function Keys<K, V>(t: Tree<K, V>): set<K> {
    match t
    case Leaf => {}
    case Node(l, k, _, r) => Keys(l) + {k} + Keys(r)
  }

  /** The number of nodes reachable from `t`. */
  function Count<K, V>(t: Tree<K, V>): nat {
    match t
    case Leaf => 0
    case Node(l, _, _, r) => Count(l) + 1 + Count(r)
  }

  /** The map `t` stands for: each node binds its key to its value. */
  function Content<K, V>(t: Tree<K, V>): map<K, V> {
    match t
    case Leaf => map[]
    case Node(l, k, v, r) => (Content(l) + Content(r))[k := v]
  }

  /** The keys in left-to-right (in-order) position. */
  function InOrder<K, V>(t: Tree<K, V>): seq<K> {
    match t
    case Leaf => []
    case Node(l, k, _, r) => InOrder(l) + [k] + InOrder(r)
  }

  /** The search-tree ordering: every key of a left subtree orders before the node's key,
      every key of a right subtree after it. */
  ghost predicate IsBst<K(!new), V>(cmp: (K, K) -> int, t: Tree<K, V>) {
    match t
    case Leaf => true
    case Node(l, k, _, r) =>
      && IsBst(cmp, l)
      && IsBst(cmp, r)
      && (forall x :: x in Keys(l) ==> cmp(x, k) < 0)
      && (forall x :: x in Keys(r) ==> cmp(k, x) < 0)
  }

  /** `s` is `t` itself or a node somewhere below it. */
  ghost predicate IsSubtree<K, V>(s: Tree<K, V>, t: Tree<K, V>) {
    s == t || (t.Node? && (IsSubtree(s, t.left) || IsSubtree(s, t.right)))
  }

  /** `k` is the least key of `ks`. */
  ghost predicate IsLeast<K>(cmp: (K, K) -> int, k: K, ks: set<K>) {
    k in ks && forall x :: x in ks && x != k ==> cmp(k, x) < 0
  }

  /** Both trees have the same nodes holding the same keys; only values may differ. */
  ghost predicate SameShape<K, V>(a: Tree<K, V>, b: Tree<K, V>) {
    match a
    case Leaf => b.Leaf?
    case Node(l, k, _, r) => b.Node? && b.key == k && SameShape(l, b.left) && SameShape(r, b.right)
  }

  /** `b` is `a` with exactly one null child reference replaced by a new leaf node `(k, v)`,
      every other node keeping its key and value. */
  ghost predicate GrowsByLeaf<K, V>(a: Tree<K, V>, b: Tree<K, V>, k: K, v: V) {
    match a
    case Leaf => b == Node(Leaf, k, v, Leaf)
    case Node(l, x, w, r) =>
      && b.Node? && b.key == x && b.value == w
      && ((b.right == r && GrowsByLeaf(l, b.left, k, v)) || (b.left == l && GrowsByLeaf(r, b.right, k, v)))
  }

  // ---------------------------------------------------------------------------
  // Facts about the abstractions

  lemma {:induction false} ContentKeys<K, V>(t: Tree<K, V>)
    ensures Content(t).Keys == Keys(t)
  {
    match t
    case Leaf =>
    case Node(l, _, _, r) => ContentKeys(l); ContentKeys(r);
  }

  lemma {:induction false} InOrderKeys<K, V>(t: Tree<K, V>)
    ensures |InOrder(t)| == Count(t)
    ensures forall x :: x in InOrder(t) <==> x in Keys(t)
  {
    match t
    case Leaf =>
    case Node(l, _, _, r) => InOrderKeys(l); InOrderKeys(r);
  }

  /** The in-order key sequence of a search tree is strictly increasing. */
  lemma {:induction false} InOrderIncreasing<K(!new), V>(cmp: (K, K) -> int, t: Tree<K, V>)
    requires TotalOrder(cmp) && IsBst(cmp, t)
    ensures StrictlyIncreasing(cmp, InOrder(t))
  {
    match t
    case Leaf =>
    case Node(l, k, _, r) =>
      InOrderIncreasing(cmp, l);
      InOrderIncreasing(cmp, r);
      InOrderKeys(l);
      InOrderKeys(r);
      IncreasingAroundPivot(cmp, InOrder(l), k, InOrder(r));
  }

  /** On a search tree keys are distinct, so there is one node per key. */
  lemma {:induction false} CountIsKeyCount<K(!new), V>(cmp: (K, K) -> int, t: Tree<K, V>)
    requires TotalOrder(cmp) && IsBst(cmp, t)
    ensures Count(t) == |Keys(t)|
  {
    match t
    case Leaf =>
    case Node(l, k, _, r) =>
      CountIsKeyCount(cmp, l);
      CountIsKeyCount(cmp, r);
      assert Keys(l) !! Keys(r);
      assert k !in Keys(l) + Keys(r);
  }

  lemma {:induction false} SubtreeFacts<K(!new), V>(cmp: (K, K) -> int, s: Tree<K, V>, t: Tree<K, V>)
    requires IsSubtree(s, t)
    ensures Keys(s) <= Keys(t)
    ensures Count(s) <= Count(t)
    ensures IsBst(cmp, t) ==> IsBst(cmp, s)
  {
    if s != t {
      if IsSubtree(s, t.left) {
        SubtreeFacts(cmp, s, t.left);
      } else {
        SubtreeFacts(cmp, s, t.right);
      }
    }
  }

  lemma {:induction false} SubtreeTransitive<K, V>(a: Tree<K, V>, b: Tree<K, V>, c: Tree<K, V>)
    requires IsSubtree(a, b) && IsSubtree(b, c)
    ensures IsSubtree(a, c)
  {
    if b != c {
      if IsSubtree(b, c.left) {
        SubtreeTransitive(a, b, c.left);
      } else {
        SubtreeTransitive(a, b, c.right);
      }
    }
  }

  // ---------------------------------------------------------------------------
  // The algorithms

  /** The search descent of `get`: stop on a key comparing equal, go left on "less",
      right otherwise; a null child ends the search with null. */
  function Lookup<K(!new), V>(cmp: (K, K) -> int, t: Tree<K, V>, k: K): (r: Option<V>)
    requires TotalOrder(cmp) && IsBst(cmp, t)
    ensures r.Some? <==> k in Keys(t)
    ensures r.Some? ==> k in Content(t) && r.value == Content(t)[k]
  {
    ContentKeys(t);
    match t
    case Leaf => None
    case Node(l, x, v, r) =>
      var c := cmp(k, x);
      if c == 0 then Some(v)
      else if c < 0 then (ContentKeys(l); ContentKeys(r); Lookup(cmp, l, k))
      else (ContentKeys(l); ContentKeys(r); Lookup(cmp, r, k))
  }

  /** The descent of `add`: overwrite the value of the node whose key compares equal, or
      link a new leaf where the search fell off. The flag tells whether a node was linked.
      That the result is again a search tree is `InsertKeepsOrder`. */
  function Insert<K(!new), V>(cmp: (K, K) -> int, t: Tree<K, V>, k: K, v: V): (r: (Tree<K, V>, bool))
    requires TotalOrder(cmp) && IsBst(cmp, t)
    ensures r.1 <==> k !in Keys(t)
    ensures Keys(r.0) == Keys(t) + {k}
    ensures Content(r.0) == Content(t)[k := v]
    ensures Count(r.0) == Count(t) + (if r.1 then 1 else 0)
    ensures r.1 ==> GrowsByLeaf(t, r.0, k, v)
    ensures !r.1 ==> SameShape(t, r.0)
  {
    match t
    case Leaf => (Node(Leaf, k, v, Leaf), true)
    case Node(l, x, w, rt) =>
      var c := cmp(k, x);
      if c == 0 then
        SameShapeRefl(l);
        SameShapeRefl(rt);
        (Node(l, x, v, rt), false)
      else if c < 0 then
        var (l', added) := Insert(cmp, l, k, v);
        UpdateBelowLeft(l, l', x, w, rt, k, v);
        SameShapeRefl(rt);
        (Node(l', x, w, rt), added)
      else
        var (r', added) := Insert(cmp, rt, k, v);
        UpdateBelowRight(l, x, w, rt, r', k, v);
        SameShapeRefl(l);
        (Node(l, x, w, r'), added)
  }

  lemma {:induction false} InsertKeepsOrder<K(!new), V>(cmp: (K, K) -> int, t: Tree<K, V>, k: K, v: V)
    requires TotalOrder(cmp) && IsBst(cmp, t)
    ensures IsBst(cmp, Insert(cmp, t, k, v).0)
  {
    match t
    case Leaf =>
    case Node(l, x, _, rt) =>
      var c := cmp(k, x);
      if c < 0 {
        InsertKeepsOrder(cmp, l, k, v);
      } else if c > 0 {
        InsertKeepsOrder(cmp, rt, k, v);
      }
  }

  lemma UpdateBelowLeft<K, V>(l: Tree<K, V>, l': Tree<K, V>, x: K, w: V, r: Tree<K, V>, k: K, v: V)
    requires Content(l') == Content(l)[k := v] && k != x && k !in Keys(r)
    ensures Content(Node(l', x, w, r)) == Content(Node(l, x, w, r))[k := v]
  {
    ContentKeys(r);
  }

  lemma UpdateBelowRight<K, V>(l: Tree<K, V>, x: K, w: V, r: Tree<K, V>, r': Tree<K, V>, k: K, v: V)
    requires Content(r') == Content(r)[k := v] && k != x
    ensures Content(Node(l, x, w, r')) == Content(Node(l, x, w, r))[k := v]
  {
  }

  lemma {:induction false} SameShapeRefl<K, V>(t: Tree<K, V>)
    ensures SameShape(t, t)
  {
    match t
    case Leaf =>
    case Node(l, _, _, r) => SameShapeRefl(l); SameShapeRefl(r);
  }

  /** The unlinking loop of `remove`: walk left children to the leftmost node, hook its
      right subtree into its parent's left slot (or into the start's right slot when the
      leftmost node is the start itself), and hand back its key and value. */
  function RemoveLeftmost<K(!new), V>(ghost cmp: (K, K) -> int, t: Tree<K, V>): (r: (K, V, Tree<K, V>))
    requires TotalOrder(cmp) && IsBst(cmp, t) && t.Node?
    ensures IsLeast(cmp, r.0, Keys(t))
    ensures r.0 in Content(t) && Content(t)[r.0] == r.1
    ensures Keys(r.2) == Keys(t) - {r.0}
    ensures Content(r.2) == Content(t) - {r.0}
    ensures Count(r.2) == Count(t) - 1
  {
    match t
    case Node(l, x, v, rt) =>
      if l.Leaf? then
        ContentKeys(rt);
        (x, v, rt)
      else
        var (mk, mv, l') := RemoveLeftmost(cmp, l);
        DetachBelowLeft(l, l', x, v, rt, mk);
        BindingBelowLeft(l, x, v, rt, mk);
        (mk, mv, Node(l', x, v, rt))
  }

  lemma {:induction false} RemoveLeftmostKeepsOrder<K(!new), V>(cmp: (K, K) -> int, t: Tree<K, V>)
    requires TotalOrder(cmp) && IsBst(cmp, t) && t.Node?
    ensures IsBst(cmp, RemoveLeftmost(cmp, t).2)
  {
    if t.left.Node? {
      RemoveLeftmostKeepsOrder(cmp, t.left);
    }
  }

  lemma DetachBelowLeft<K, V>(l: Tree<K, V>, l': Tree<K, V>, x: K, w: V, r: Tree<K, V>, k: K)
    requires Content(l') == Content(l) - {k} && k != x && k !in Keys(r)
    ensures Content(Node(l', x, w, r)) == Content(Node(l, x, w, r)) - {k}
  {
    ContentKeys(r);
  }

  lemma BindingBelowLeft<K, V>(l: Tree<K, V>, x: K, w: V, r: Tree<K, V>, k: K)
    requires k in Content(l) && k != x && k !in Keys(r)
    ensures k in Content(Node(l, x, w, r)) && Content(Node(l, x, w, r))[k] == Content(l)[k]
  {
    ContentKeys(r);
  }

  lemma DetachBelowRight<K, V>(l: Tree<K, V>, x: K, w: V, r: Tree<K, V>, r': Tree<K, V>, k: K)
    requires Content(r') == Content(r) - {k} && k != x && k !in Keys(l)
    ensures Content(Node(l, x, w, r')) == Content(Node(l, x, w, r)) - {k}
  {
    ContentKeys(l);
  }

  /** Replacing the node `(x, w)` by the leftmost node `(mk, mv)` of its right subtree
      removes exactly the binding of `x`. */
  lemma PromoteSuccessor<K, V>(l: Tree<K, V>, x: K, w: V, r: Tree<K, V>, r': Tree<K, V>, mk: K, mv: V)
    requires Content(r') == Content(r) - {mk} && mk in Content(r) && Content(r)[mk] == mv
    requires x !in Keys(l) && x !in Keys(r) && mk !in Keys(l)
    ensures Content(Node(l, mk, mv, r')) == Content(Node(l, x, w, r)) - {x}
  {
    ContentKeys(l);
    ContentKeys(r);
  }

  /** The two-child case of `remove`: the leftmost node of the right subtree `rt` is
      unlinked and its key and value take the place of `(x, v)` above `l`. */
  function PromoteLeftmost<K(!new), V>(ghost cmp: (K, K) -> int, l: Tree<K, V>, x: K, v: V, rt: Tree<K, V>): (r: Tree<K, V>)
    requires TotalOrder(cmp) && IsBst(cmp, Node(l, x, v, rt)) && rt.Node?
    ensures r.Node? && r.left == l
    ensures IsLeast(cmp, r.key, Keys(rt)) && r.key in Content(rt) && r.value == Content(rt)[r.key]
    ensures Content(r.right) == Content(rt) - {r.key} && Count(r.right) == Count(rt) - 1
    ensures Content(r) == Content(Node(l, x, v, rt)) - {x}
  {
    var (mk, mv, r') := RemoveLeftmost(cmp, rt);
    PromoteSuccessor(l, x, v, rt, r', mk, mv);
    Node(l, mk, mv, r')
  }

  /** The unlinking step of `remove` once the node `t` holding the key is found (Hibbard
      deletion). A node without a right child is replaced by its left child; otherwise the
      leftmost node of its right subtree is unlinked and its key and value are copied into
      `t`, which keeps its place and its left child. */
  function DeleteRoot<K(!new), V>(ghost cmp: (K, K) -> int, t: Tree<K, V>): (r: Tree<K, V>)
    requires TotalOrder(cmp) && IsBst(cmp, t) && t.Node?
    ensures Keys(r) == Keys(t) - {t.key}
    ensures Content(r) == Content(t) - {t.key}
    ensures Count(r) == Count(t) - 1
    ensures t.right.Leaf? ==> r == t.left
    ensures t.right.Node? ==>
      && r.Node? && r.left == t.left
      && IsLeast(cmp, r.key, Keys(t.right)) && r.key in Content(t.right) && r.value == Content(t.right)[r.key]
      && Content(r.right) == Content(t.right) - {r.key} && Count(r.right) == Count(t.right) - 1
  {
    var Node(l, x, v, rt) := t;
    if rt.Leaf? then
      ContentKeys(l);
      l
    else
      var r := PromoteLeftmost(cmp, l, x, v, rt);
      ContentKeys(r);
      ContentKeys(t);
      r
  }

  /** The descent of `remove` followed by `DeleteRoot` on the node found. The flag tells
      whether a key was removed. That the result is again a search tree is
      `DeleteKeepsOrder`. */
  function Delete<K(!new), V>(cmp: (K, K) -> int, t: Tree<K, V>, k: K): (r: (Tree<K, V>, bool))
    requires TotalOrder(cmp) && IsBst(cmp, t)
    ensures r.1 <==> k in Keys(t)
    ensures !r.1 ==> r.0 == t
    ensures Keys(r.0) == Keys(t) - {k}
    ensures Content(r.0) == Content(t) - {k}
    ensures Count(r.0) == Count(t) - (if r.1 then 1 else 0)
  {
    match t
    case Leaf => (Leaf, false)
    case Node(l, x, v, rt) =>
      var c := cmp(k, x);
      if c == 0 then
        (DeleteRoot(cmp, t), true)
      else if c < 0 then
        var (l', found) := Delete(cmp, l, k);
        DetachBelowLeft(l, l', x, v, rt, k);
        (Node(l', x, v, rt), found)
      else
        var (r', found) := Delete(cmp, rt, k);
        DetachBelowRight(l, x, v, rt, r', k);
        (Node(l, x, v, r'), found)
  }

  lemma DeleteRootKeepsOrder<K(!new), V>(cmp: (K, K) -> int, t: Tree<K, V>)
    requires TotalOrder(cmp) && IsBst(cmp, t) && t.Node?
    ensures IsBst(cmp, DeleteRoot(cmp, t))
  {
    if t.right.Node? {
      RemoveLeftmostKeepsOrder(cmp, t.right);
      var mk := RemoveLeftmost(cmp, t.right).0;
      assert cmp(t.key, mk) < 0;
    }
  }

  lemma {:induction false} DeleteKeepsOrder<K(!new), V>(cmp: (K, K) -> int, t: Tree<K, V>, k: K)
    requires TotalOrder(cmp) && IsBst(cmp, t)
    ensures IsBst(cmp, Delete(cmp, t, k).0)
  {
    match t
    case Leaf =>
    case Node(l, x, _, rt) =>
      var c := cmp(k, x);
      if c == 0 {
        DeleteRootKeepsOrder(cmp, t);
      } else if c < 0 {
        DeleteKeepsOrder(cmp, l, k);
      } else {
        DeleteKeepsOrder(cmp, rt, k);
      }
  }
}
