/** `BinaryTreeCustom`: the ordered map as the search tree plus the cached element count and
    the modification counter that the fail-fast cursor watches. Every comparison goes
    through one `compareTo`-style function `cmp`; the comparator the source stores is never
    consulted, so it is not part of the state. */
module BinaryTreeMap {
  import opened Ordering
  import opened Outcomes
  import opened SearchTree

  datatype BinaryTree<K, V> = BinaryTree(root: Tree<K, V>, size: int, modCount: int)

  /** The representation invariant: the nodes form a search tree under `cmp` and the cached
      count is the number of nodes. */
  ghost predicate Valid<K(!new), V>(cmp: (K, K) -> int, m: BinaryTree<K, V>) {
    IsBst(cmp, m.root) && m.size == Count(m.root)
  }

  /** A new tree, from either constructor: no nodes, count and counter zero. */
  function Empty<K, V>(): (m: BinaryTree<K, V>)
    ensures Content(m.root) == map[] && m.size == 0 && m.modCount == 0
  {
    BinaryTree(Leaf, 0, 0)
  }

  lemma EmptyIsValid<K(!new), V>(cmp: (K, K) -> int)
    ensures Valid(cmp, Empty<K, V>())
  {
  }

  /** `get`: the value bound to the key comparing equal to `k`, or null when there is none.
      The tree and the counter are untouched (the function returns no new state). */
  function Get<K(!new), V>(cmp: (K, K) -> int, m: BinaryTree<K, V>, k: K): (r: Option<V>)
    requires TotalOrder(cmp) && Valid(cmp, m)
    ensures r.Some? <==> k in Content(m.root)
    ensures r.Some? ==> r.value == Content(m.root)[k]
  {
    ContentKeys(m.root);
    Lookup(cmp, m.root, k)
  }

  /** `add`: bump the counter, then overwrite the value of a present key in place or link
      a new leaf for an absent one and count it. */
  function Add<K(!new), V>(cmp: (K, K) -> int, m: BinaryTree<K, V>, k: K, v: V): (r: BinaryTree<K, V>)
    requires TotalOrder(cmp) && Valid(cmp, m)
    ensures Valid(cmp, r)
    ensures r.modCount == m.modCount + 1
    ensures Content(r.root) == Content(m.root)[k := v]
    ensures k in Keys(m.root) ==> r.size == m.size && SameShape(m.root, r.root)
    ensures k !in Keys(m.root) ==> r.size == m.size + 1 && GrowsByLeaf(m.root, r.root, k, v)
  {
    var (root', added) := Insert(cmp, m.root, k, v);
    InsertKeepsOrder(cmp, m.root, k, v);
    BinaryTree(root', if added then m.size + 1 else m.size, m.modCount + 1)
  }

  /** `remove`: bump the counter, then unlink the key's node if there is one and count it
      out; an absent key leaves every node where it was. */
  function Remove<K(!new), V>(cmp: (K, K) -> int, m: BinaryTree<K, V>, k: K): (r: BinaryTree<K, V>)
    requires TotalOrder(cmp) && Valid(cmp, m)
    ensures Valid(cmp, r)
    ensures r.modCount == m.modCount + 1
    ensures Content(r.root) == Content(m.root) - {k}
    ensures k in Keys(m.root) ==> r.size == m.size - 1
    ensures k !in Keys(m.root) ==> r.root == m.root && r.size == m.size
  {
    var (root', found) := Delete(cmp, m.root, k);
    DeleteKeepsOrder(cmp, m.root, k);
    BinaryTree(root', if found then m.size - 1 else m.size, m.modCount + 1)
  }

  /** `size`: the cached count, which is the number of keys stored. */
  function Size<K(!new), V>(cmp: (K, K) -> int, m: BinaryTree<K, V>): (r: int)
    requires TotalOrder(cmp) && Valid(cmp, m)
    ensures r == |Content(m.root)|
  {
    CountIsKeyCount(cmp, m.root);
    ContentKeys(m.root);
    m.size
  }

  /** `isEmpty`: the cached count is zero exactly when no key is stored. */
  function IsEmpty<K(!new), V>(cmp: (K, K) -> int, m: BinaryTree<K, V>): (r: bool)
    requires TotalOrder(cmp) && Valid(cmp, m)
    ensures r <==> Content(m.root) == map[]
    ensures r <==> m.root == Leaf
  {
    ContentKeys(m.root);
    m.size == 0
  }

  /** After `add(k, v)`, `get(k)` answers `v` and every other key answers as before. */
  lemma AddThenGet<K(!new), V>(cmp: (K, K) -> int, m: BinaryTree<K, V>, k: K, v: V, k': K)
    requires TotalOrder(cmp) && Valid(cmp, m)
    ensures Get(cmp, Add(cmp, m, k, v), k) == Some(v)
    ensures k' != k ==> Get(cmp, Add(cmp, m, k, v), k') == Get(cmp, m, k')
  {
  }

  /** After `remove(k)`, `get(k)` answers null and every other key answers as before. */
  lemma RemoveThenGet<K(!new), V>(cmp: (K, K) -> int, m: BinaryTree<K, V>, k: K, k': K)
    requires TotalOrder(cmp) && Valid(cmp, m)
    ensures Get(cmp, Remove(cmp, m, k), k) == None
    ensures k' != k ==> Get(cmp, Remove(cmp, m, k), k') == Get(cmp, m, k')
  {
  }

  /** `remove` called on each key of `ks` in turn. */
  function RemoveEach<K(!new), V>(cmp: (K, K) -> int, m: BinaryTree<K, V>, ks: seq<K>): (r: BinaryTree<K, V>)
    requires TotalOrder(cmp) && Valid(cmp, m)
    ensures Valid(cmp, r)
    decreases |ks|
  {
    if ks == [] then m else RemoveEach(cmp, Remove(cmp, m, ks[0]), ks[1..])
  }

  /** Removing a list of keys one by one removes exactly those keys and bumps the counter
      once per call, whether or not the key was present. */
  lemma {:induction false} RemoveEachRemovesThoseKeys<K(!new), V>(cmp: (K, K) -> int, m: BinaryTree<K, V>, ks: seq<K>)
    requires TotalOrder(cmp) && Valid(cmp, m)
    ensures Content(RemoveEach(cmp, m, ks).root) == Content(m.root) - set k | k in ks
    ensures RemoveEach(cmp, m, ks).modCount == m.modCount + |ks|
    decreases |ks|
  {
    if ks != [] {
      var m' := Remove(cmp, m, ks[0]);
      var rest := set k | k in ks[1..];
      RemoveEachRemovesThoseKeys(cmp, m', ks[1..]);
      assert (set k | k in ks) == {ks[0]} + rest;
      MinusTwice(Content(m.root), {ks[0]}, rest);
    }
  }

  lemma MinusTwice<K, V>(c: map<K, V>, a: set<K>, b: set<K>)
    ensures c - a - b == c - (a + b)
  {
  }

  /** Removing every stored key, in any order and with repeats allowed, empties the tree. */
  lemma RemovingEveryKeyEmpties<K(!new), V>(cmp: (K, K) -> int, m: BinaryTree<K, V>, ks: seq<K>)
    requires TotalOrder(cmp) && Valid(cmp, m)
    requires forall k :: k in Keys(m.root) ==> k in ks
    ensures IsEmpty(cmp, RemoveEach(cmp, m, ks))
    ensures RemoveEach(cmp, m, ks).size == 0
  {
    RemoveEachRemovesThoseKeys(cmp, m, ks);
    ContentKeys(m.root);
    var r := RemoveEach(cmp, m, ks);
    assert Content(r.root).Keys == {};
  }
}
