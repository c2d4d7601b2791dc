/** The key order of the search tree: one `compareTo`-style comparison function. */
module Ordering {

  /** `cmp` is a total order consistent with equality: it answers zero exactly on equal
      keys, its sign flips when the arguments are swapped, and "less" is transitive. */
  ghost predicate TotalOrder<K(!new)>(cmp: (K, K) -> int) {
    && (forall a, b :: cmp(a, b) == 0 <==> a == b)
    && (forall a, b :: cmp(a, b) < 0 <==> cmp(b, a) > 0)
    && (forall a, b, c :: cmp(a, b) < 0 && cmp(b, c) < 0 ==> cmp(a, c) < 0)
  }

  /** Every element orders strictly before every later one. */
  ghost predicate StrictlyIncreasing<K>(cmp: (K, K) -> int, s: seq<K>) {
    forall i, j :: 0 <= i < j < |s| ==> cmp(s[i], s[j]) < 0
  }

  lemma LessTransitive<K(!new)>(cmp: (K, K) -> int, a: K, b: K, c: K)
    requires TotalOrder(cmp) && cmp(a, b) < 0 && cmp(b, c) < 0
    ensures cmp(a, c) < 0
  {
  }

  /** Two increasing runs either side of a pivot that separates them make one increasing
      run. */
  lemma IncreasingAroundPivot<K(!new)>(cmp: (K, K) -> int, a: seq<K>, k: K, b: seq<K>)
    requires TotalOrder(cmp) && StrictlyIncreasing(cmp, a) && StrictlyIncreasing(cmp, b)
    requires forall x :: x in a ==> cmp(x, k) < 0
    requires forall x :: x in b ==> cmp(k, x) < 0
    ensures StrictlyIncreasing(cmp, a + [k] + b)
  {
    var s := a + [k] + b;
    forall i, j | 0 <= i < j < |s|
      ensures cmp(s[i], s[j]) < 0
    {
      if j < |a| {
        assert s[i] == a[i] && s[j] == a[j];
      } else if i > |a| {
        assert s[i] == b[i - |a| - 1] && s[j] == b[j - |a| - 1];
      } else if i == |a| {
        assert s[j] == b[j - |a| - 1];
      } else if j == |a| {
        assert s[i] == a[i];
      } else {
        assert s[i] == a[i] && s[j] == b[j - |a| - 1];
        LessTransitive(cmp, s[i], k, s[j]);
      }
    }
  }

  /** `Integer.compareTo`: the key order the tests use. */
  function IntCompare(a: int, b: int): (r: int)
    ensures r < 0 <==> a < b
    ensures r == 0 <==> a == b
  {
    if a < b then -1 else if a == b then 0 else 1
  }

  lemma IntCompareIsTotalOrder()
    ensures TotalOrder(IntCompare)
  {
  }
}
