/** `LinkedListCustom`: a doubly linked list. Nodes live in a heap addressed by references;
    `alloc` is the next reference `new` hands out. `spine` is the model's record of the
    list's shape, the references from `head` to `last` in order: no operation reads it to
    decide anything, and `SpineIsTheWalk` shows it is exactly what following `next` from
    `head` for `size` steps visits. It is an ordinary field rather than a ghost one, and so
    are the position arguments of `LinkBefore`, `DeleteLinks` and `SetData` that index it,
    so that the operations returning a list stay compiled functions; they only feed the
    proofs. */
module LinkedList {
  import opened Outcomes

  type Ref = nat

  datatype Node<E> = Node(data: E, next: Option<Ref>, previous: Option<Ref>)

  datatype LinkedList<E> = LinkedList(
    heap: map<Ref, Node<E>>,
    head: Option<Ref>,
    last: Option<Ref>,
    size: int,
    modCount: int,
    alloc: Ref,
    spine: seq<Ref>)

  // ---------------------------------------------------------------------------------------
  // The representation invariant.

  function First(s: seq<Ref>): Option<Ref> {
    if |s| == 0 then None else Some(s[0])
  }

  function Final(s: seq<Ref>): Option<Ref> {
    if |s| == 0 then None else Some(s[|s| - 1])
  }

  /** The reference after position `i` of a spine, null at the end. */
  function After(s: seq<Ref>, i: int): Option<Ref>
    requires 0 <= i < |s|
  {
    if i + 1 < |s| then Some(s[i + 1]) else None
  }

  /** The reference before position `i` of a spine, null at the start. */
  function Before(s: seq<Ref>, i: int): Option<Ref>
    requires 0 <= i < |s|
  {
    if i > 0 then Some(s[i - 1]) else None
  }

  ghost predicate Distinct(s: seq<Ref>) {
    forall i, j :: 0 <= i < j < |s| ==> s[i] != s[j]
  }

  /** Every node of `s` is in the heap, its `next` is its successor in `s` and its
      `previous` its predecessor. */
  ghost predicate Linked<E>(heap: map<Ref, Node<E>>, s: seq<Ref>) {
    && (forall i :: 0 <= i < |s| ==> s[i] in heap)
    && (forall i {:trigger heap[s[i]]} :: 0 <= i < |s| ==>
          heap[s[i]].next == After(s, i) && heap[s[i]].previous == Before(s, i))
  }

  /** The list's shape: `size` distinct nodes, running from `head` to `last` and linked both
      ways; every node in the heap is older than `alloc`. */
  ghost predicate Valid<E>(l: LinkedList<E>) {
    && |l.spine| == l.size
    && Distinct(l.spine)
    && (forall r :: r in l.heap ==> r < l.alloc)
    && l.head == First(l.spine) && l.last == Final(l.spine)
    && Linked(l.heap, l.spine)
  }

  /** The values stored along a spine. */
  ghost function ElementsOf<E>(heap: map<Ref, Node<E>>, s: seq<Ref>): (es: seq<E>)
    requires forall i :: 0 <= i < |s| ==> s[i] in heap
    ensures |es| == |s| && forall i :: 0 <= i < |s| ==> es[i] == heap[s[i]].data
  {
    seq(|s|, i requires 0 <= i < |s| => heap[s[i]].data)
  }

  /** The list the nodes represent, from `head` to `last`. */
  ghost function Elements<E>(l: LinkedList<E>): (es: seq<E>)
    requires Valid(l)
    ensures |es| == l.size
  {
    ElementsOf(l.heap, l.spine)
  }

  /** The references met following `next` from `from`, at most `n` of them. */
  ghost function Walk<E>(heap: map<Ref, Node<E>>, from: Option<Ref>, n: int): seq<Ref>
    decreases n
  {
    if n <= 0 then []
    else match from
      case None => []
      case Some(r) => if r in heap then [r] + Walk(heap, heap[r].next, n - 1) else []
  }

  lemma {:induction false} WalkFollowsLinks<E>(heap: map<Ref, Node<E>>, s: seq<Ref>, k: int)
    requires Linked(heap, s) && 0 <= k <= |s|
    ensures Walk(heap, if k < |s| then Some(s[k]) else None, |s| - k) == s[k..]
    decreases |s| - k
  {
    if k < |s| {
      WalkFollowsLinks(heap, s, k + 1);
      assert s[k..] == [s[k]] + s[k + 1..];
    }
  }

  /** Following `next` from `head` visits exactly `size` nodes, the spine, ending at `last`;
      following `previous` back from each node retraces it. */
  lemma SpineIsTheWalk<E>(l: LinkedList<E>)
    requires Valid(l)
    ensures Walk(l.heap, l.head, l.size) == l.spine
    ensures (l.head.None? <==> l.size == 0) && (l.last.None? <==> l.size == 0)
  {
    WalkFollowsLinks(l.heap, l.spine, 0);
  }

  /** Nodes of a valid list are older than `alloc`, so a fresh node is none of them. */
  lemma SpineIsOld<E>(l: LinkedList<E>)
    requires Valid(l)
    ensures forall i :: 0 <= i < |l.spine| ==> l.spine[i] in l.heap && l.spine[i] < l.alloc
  {
  }

  /** The constructor: no nodes. */
  function New<E>(): (l: LinkedList<E>)
    ensures Valid(l) && Elements(l) == [] && l.modCount == 0
  {
    LinkedList(map[], None, None, 0, 0, 0, [])
  }

  // ---------------------------------------------------------------------------------------
  // Positional lookup.

  /** Follow `next` `n` times from `x`. */
  function Advance<E>(heap: map<Ref, Node<E>>, x: Option<Ref>, n: int): Option<Ref>
    decreases n
  {
    if n <= 0 then x
    else match x
      case None => None
      case Some(r) => if r in heap then Advance(heap, heap[r].next, n - 1) else None
  }

  lemma {:induction false} AdvanceAlongLinks<E>(heap: map<Ref, Node<E>>, s: seq<Ref>, k: int, n: int)
    requires Linked(heap, s) && 0 <= k && 0 <= n && k + n < |s|
    ensures Advance(heap, Some(s[k]), n) == Some(s[k + n])
    decreases n
  {
    if n > 0 {
      AdvanceAlongLinks(heap, s, k + 1, n - 1);
    }
  }

  /** `getNode`: the node `index` steps along from `head` is the `index`-th of the list. */
  function GetNode<E>(l: LinkedList<E>, index: int): (r: Ref)
    requires Valid(l) && 0 <= index < l.size
    ensures r == l.spine[index] && r in l.heap
  {
    AdvanceAlongLinks(l.heap, l.spine, 0, index);
    Advance(l.heap, l.head, index).value
  }

  // ---------------------------------------------------------------------------------------
  // Sequence facts the splices share.

  /** `t` is `s` with `x` inserted at position `i`, stated index by index. */
  ghost predicate IsInsertion<T>(s: seq<T>, i: int, x: T, t: seq<T>) {
    && 0 <= i <= |s| && |t| == |s| + 1
    && (forall j :: 0 <= j < i ==> t[j] == s[j])
    && t[i] == x
    && (forall j :: i < j < |t| ==> t[j] == s[j - 1])
  }

  /** `t` is `s` without position `i`, stated index by index. */
  ghost predicate IsDeletion<T>(s: seq<T>, i: int, t: seq<T>) {
    && 0 <= i < |s| && |t| == |s| - 1
    && (forall j :: 0 <= j < i ==> t[j] == s[j])
    && (forall j :: i <= j < |t| ==> t[j] == s[j + 1])
  }

  lemma InsertIndexes<T>(s: seq<T>, i: int, x: T)
    requires 0 <= i <= |s|
    ensures IsInsertion(s, i, x, s[..i] + [x] + s[i..])
  {
  }

  lemma DeleteIndexes<T>(s: seq<T>, i: int)
    requires 0 <= i < |s|
    ensures IsDeletion(s, i, s[..i] + s[i + 1..])
  {
  }

  lemma InsertedAt<T>(s: seq<T>, i: int, x: T, s': seq<T>)
    requires IsInsertion(s, i, x, s')
    ensures s' == s[..i] + [x] + s[i..]
  {
    InsertIndexes(s, i, x);
    var t := s[..i] + [x] + s[i..];
    assert forall j :: 0 <= j < |s'| ==> s'[j] == t[j];
  }

  lemma DeletedAt<T>(s: seq<T>, i: int, s': seq<T>)
    requires IsDeletion(s, i, s')
    ensures s' == s[..i] + s[i + 1..]
  {
    DeleteIndexes(s, i);
    var t := s[..i] + s[i + 1..];
    assert forall j :: 0 <= j < |s'| ==> s'[j] == t[j];
  }

  /** The ends of a spine after an insertion: the new node is first when inserted at 0
      and last when inserted at the end. */
  lemma InsertEnds(s: seq<Ref>, i: int, x: Ref)
    requires 0 <= i <= |s|
    ensures First(s[..i] + [x] + s[i..]) == if i == 0 then Some(x) else First(s)
    ensures Final(s[..i] + [x] + s[i..]) == if i == |s| then Some(x) else Final(s)
  {
    var t := s[..i] + [x] + s[i..];
    InsertIndexes(s, i, x);
    assert t[|s|] == if i == |s| then x else s[|s| - 1];
  }

  /** The ends of a spine after a deletion: the old neighbour moves to the end that lost
      its node. */
  lemma DeleteEnds(s: seq<Ref>, i: int)
    requires 0 <= i < |s|
    ensures First(s[..i] + s[i + 1..]) == if i == 0 then After(s, i) else First(s)
    ensures Final(s[..i] + s[i + 1..]) == if i == |s| - 1 then Before(s, i) else Final(s)
  {
    var t := s[..i] + s[i + 1..];
    DeleteIndexes(s, i);
    if |t| > 0 {
      assert t[0] == if i == 0 then s[1] else s[0];
      assert t[|t| - 1] == if i == |s| - 1 then s[|s| - 2] else s[|s| - 1];
    }
  }

  lemma InsertKeepsDistinct(s: seq<Ref>, i: int, x: Ref)
    requires Distinct(s) && 0 <= i <= |s| && forall j :: 0 <= j < |s| ==> s[j] != x
    ensures Distinct(s[..i] + [x] + s[i..])
  {
    var t := s[..i] + [x] + s[i..];
    InsertIndexes(s, i, x);
    forall a, b | 0 <= a < b < |t| ensures t[a] != t[b] {
      if a < i && b > i {
        assert t[a] == s[a] && t[b] == s[b - 1];
      } else if b < i {
        assert t[a] == s[a] && t[b] == s[b];
      } else if a > i {
        assert t[a] == s[a - 1] && t[b] == s[b - 1];
      }
    }
  }

  lemma DeleteKeepsDistinct(s: seq<Ref>, i: int)
    requires Distinct(s) && 0 <= i < |s|
    ensures Distinct(s[..i] + s[i + 1..])
  {
    var t := s[..i] + s[i + 1..];
    DeleteIndexes(s, i);
    forall a, b | 0 <= a < b < |t| ensures t[a] != t[b] {
      if b < i {
        assert t[a] == s[a] && t[b] == s[b];
      } else if a < i {
        assert t[a] == s[a] && t[b] == s[b + 1];
      } else {
        assert t[a] == s[a + 1] && t[b] == s[b + 1];
      }
    }
  }

  // ---------------------------------------------------------------------------------------
  // Splicing. Each splice is proved in three steps: which nodes of the heap change and how
  // (`...Heap`), that the new spine is linked (`...Links`), and that the list is valid again
  // with the expected elements (`...Valid`).

  /** The heap after a new node `x` holding `v` goes in at position `i` of `s`: the node
      at `i` points back to `x`, the one before it points on to `x`, and `x` points to both. */
  function SpliceIn<E>(h: map<Ref, Node<E>>, s: seq<Ref>, i: int, x: Ref, v: E): map<Ref, Node<E>>
    requires (forall j :: 0 <= j < |s| ==> s[j] in h) && 0 <= i <= |s|
  {
    var h1 := if i == |s| then h else h[s[i] := h[s[i]].(previous := Some(x))];
    var h2 := if i == 0 then h1 else h1[s[i - 1] := h1[s[i - 1]].(next := Some(x))];
    h2[x := Node(v, if i == |s| then None else Some(s[i]), if i == 0 then None else Some(s[i - 1]))]
  }

  /** The heap after the node at position `i` of `s` comes out: its neighbours point past
      it and it is gone. */
  function SpliceOut<E>(h: map<Ref, Node<E>>, s: seq<Ref>, i: int): map<Ref, Node<E>>
    requires (forall j :: 0 <= j < |s| ==> s[j] in h) && 0 <= i < |s|
  {
    var h1 := if i == 0 then h else h[s[i - 1] := h[s[i - 1]].(next := After(s, i))];
    var h2 := if i == |s| - 1 then h1 else h1[s[i + 1] := h1[s[i + 1]].(previous := Before(s, i))];
    h2 - {s[i]}
  }

  lemma LinkBeforeHeap<E>(h: map<Ref, Node<E>>, s: seq<Ref>, i: int, x: Ref, v: E, h': map<Ref, Node<E>>)
    requires (forall j :: 0 <= j < |s| ==> s[j] in h && s[j] != x) && Distinct(s) && 0 <= i <= |s|
    requires h' == SpliceIn(h, s, i, x, v)
    ensures x in h' && h'[x] == Node(v, if i == |s| then None else Some(s[i]), if i == 0 then None else Some(s[i - 1]))
    ensures h'.Keys == h.Keys + {x}
    ensures forall j :: 0 <= j < |s| ==> (s[j] in h' &&
      h'[s[j]] == if j == i then h[s[j]].(previous := Some(x))
                  else if j == i - 1 then h[s[j]].(next := Some(x))
                  else h[s[j]])
  {
    forall j | 0 <= j < |s|
      ensures s[j] in h' &&
        h'[s[j]] == if j == i then h[s[j]].(previous := Some(x))
                    else if j == i - 1 then h[s[j]].(next := Some(x))
                    else h[s[j]]
    {
      if j != i && i < |s| {
        assert s[j] != s[i];
      }
      if j != i - 1 && i > 0 {
        assert s[j] != s[i - 1];
      }
    }
  }

  lemma LinkBeforeLinks<E>(h: map<Ref, Node<E>>, s: seq<Ref>, i: int, x: Ref, v: E, h': map<Ref, Node<E>>, s': seq<Ref>)
    requires Linked(h, s) && 0 <= i <= |s|
    requires x in h' && h'[x] == Node(v, if i == |s| then None else Some(s[i]), if i == 0 then None else Some(s[i - 1]))
    requires forall j :: 0 <= j < |s| ==> (s[j] in h' &&
      h'[s[j]] == if j == i then h[s[j]].(previous := Some(x))
                  else if j == i - 1 then h[s[j]].(next := Some(x))
                  else h[s[j]])
    requires IsInsertion(s, i, x, s')
    ensures Linked(h', s')
    ensures IsInsertion(ElementsOf(h, s), i, v, ElementsOf(h', s'))
  {
    forall j | 0 <= j < |s'|
      ensures s'[j] in h' && h'[s'[j]].next == After(s', j) && h'[s'[j]].previous == Before(s', j)
      ensures j < i ==> h'[s'[j]].data == h[s[j]].data
      ensures j == i ==> h'[s'[j]].data == v
      ensures j > i ==> h'[s'[j]].data == h[s[j - 1]].data
    {
      if j < i {
        assert s'[j] == s[j];
        assert h[s[j]].next == After(s, j) && h[s[j]].previous == Before(s, j);
        if j + 1 < i { assert s'[j + 1] == s[j + 1]; } else { assert s'[j + 1] == x; }
        if j > 0 { assert s'[j - 1] == s[j - 1]; }
      } else if j == i {
        assert s'[j] == x;
        if i < |s| { assert s'[j + 1] == s[i]; }
        if i > 0 { assert s'[j - 1] == s[i - 1]; }
      } else {
        assert s'[j] == s[j - 1];
        assert h[s[j - 1]].next == After(s, j - 1) && h[s[j - 1]].previous == Before(s, j - 1);
        if j + 1 < |s'| { assert s'[j + 1] == s[j]; }
        if j - 1 == i { assert s'[j - 1] == x; } else { assert s'[j - 1] == s[j - 2]; }
      }
    }
  }

  /** The facts a splice-in at position `i` needs about `l` and the new record `r`. */
  ghost predicate SplicedIn<E>(l: LinkedList<E>, i: int, v: E, r: LinkedList<E>)
    requires Valid(l) && 0 <= i <= l.size
  {
    var s := l.spine;
    var x := l.alloc;
    && r.heap == SpliceIn(l.heap, s, i, x, v)
    && r.spine == s[..i] + [x] + s[i..]
    && r.head == (if i == 0 then Some(x) else l.head)
    && r.last == (if i == |s| then Some(x) else l.last)
    && r.size == l.size + 1 && r.alloc == l.alloc + 1
  }

  lemma SplicedInLinks<E>(l: LinkedList<E>, i: int, v: E, r: LinkedList<E>)
    requires Valid(l) && 0 <= i <= l.size && SplicedIn(l, i, v, r)
    ensures Linked(r.heap, r.spine)
    ensures IsInsertion(ElementsOf(l.heap, l.spine), i, v, ElementsOf(r.heap, r.spine))
  {
    SpineIsOld(l);
    InsertIndexes(l.spine, i, l.alloc);
    LinkBeforeHeap(l.heap, l.spine, i, l.alloc, v, r.heap);
    LinkBeforeLinks(l.heap, l.spine, i, l.alloc, v, r.heap, r.spine);
  }

  lemma SplicedInShape<E>(l: LinkedList<E>, i: int, v: E, r: LinkedList<E>)
    requires Valid(l) && 0 <= i <= l.size && SplicedIn(l, i, v, r)
    ensures Distinct(r.spine) && |r.spine| == r.size
    ensures r.head == First(r.spine) && r.last == Final(r.spine)
    ensures forall q :: q in r.heap ==> q < r.alloc
  {
    SpineIsOld(l);
    InsertKeepsDistinct(l.spine, i, l.alloc);
    InsertEnds(l.spine, i, l.alloc);
    LinkBeforeHeap(l.heap, l.spine, i, l.alloc, v, r.heap);
  }


  /** A new node at position `i` of the spine, `x` being `alloc`: the list stays valid and
      holds `v` at position `i`. */
  lemma LinkValid<E>(l: LinkedList<E>, i: int, v: E, r: LinkedList<E>)
    requires Valid(l) && 0 <= i <= l.size
    requires SplicedIn(l, i, v, r)
    ensures Valid(r)
    ensures Elements(r) == Elements(l)[..i] + [v] + Elements(l)[i..]
  {
    SplicedInLinks(l, i, v, r);
    SplicedInShape(l, i, v, r);
    InsertedAt(Elements(l), i, v, Elements(r));
  }

  /** `linkLast`: a new node after `last`, becoming `head` too when the list was empty. */
  function LinkLast<E>(l: LinkedList<E>, v: E): (r: LinkedList<E>)
    requires Valid(l)
    ensures Valid(r) && r.spine == l.spine + [l.alloc]
    ensures Elements(r) == Elements(l) + [v]
    ensures r.size == l.size + 1 && r.modCount == l.modCount + 1
  {
    var x := l.alloc;
    var h := if l.last.None? then l.heap else l.heap[l.last.value := l.heap[l.last.value].(next := Some(x))];
    var r := LinkedList(h[x := Node(v, None, l.last)], if l.last.None? then Some(x) else l.head,
                        Some(x), l.size + 1, l.modCount + 1, l.alloc + 1, l.spine + [x]);
    assert l.spine[..l.size] + [x] + l.spine[l.size..] == l.spine + [x];
    assert Elements(l)[..l.size] + [v] + Elements(l)[l.size..] == Elements(l) + [v];
    LinkValid(l, l.size, v, r);
    r
  }

  /** `linkFirst`: a new node before `head`, becoming `last` too when the list was empty. */
  function LinkFirst<E>(l: LinkedList<E>, v: E): (r: LinkedList<E>)
    requires Valid(l)
    ensures Valid(r) && r.spine == [l.alloc] + l.spine
    ensures Elements(r) == [v] + Elements(l)
    ensures r.size == l.size + 1 && r.modCount == l.modCount + 1
  {
    var x := l.alloc;
    var h := if l.head.None? then l.heap else l.heap[l.head.value := l.heap[l.head.value].(previous := Some(x))];
    var r := LinkedList(h[x := Node(v, l.head, None)], Some(x), if l.head.None? then Some(x) else l.last,
                        l.size + 1, l.modCount + 1, l.alloc + 1, [x] + l.spine);
    assert l.spine[..0] + [x] + l.spine[0..] == [x] + l.spine;
    assert Elements(l)[..0] + [v] + Elements(l)[0..] == [v] + Elements(l);
    LinkValid(l, 0, v, r);
    r
  }

  /** `linkBefore`: a new node between `succ`, the `i`-th node, and its predecessor (or
      `head` when `succ` is the first node). The position `i` only updates the spine
      record; the links are found from `succ`, as in the source. */
  function LinkBefore<E>(l: LinkedList<E>, v: E, succ: Ref, i: int): (r: LinkedList<E>)
    requires Valid(l) && 0 <= i < l.size && l.spine[i] == succ
    ensures Valid(r) && r.spine == l.spine[..i] + [l.alloc] + l.spine[i..]
    ensures Elements(r) == Elements(l)[..i] + [v] + Elements(l)[i..]
    ensures r.size == l.size + 1 && r.modCount == l.modCount + 1
  {
    var x := l.alloc;
    var prev := l.heap[succ].previous;
    var h := l.heap[succ := l.heap[succ].(previous := Some(x))];
    var h := if prev.None? then h else h[prev.value := h[prev.value].(next := Some(x))];
    var r := LinkedList(h[x := Node(v, Some(succ), prev)], if prev.None? then Some(x) else l.head,
                        l.last, l.size + 1, l.modCount + 1, l.alloc + 1, l.spine[..i] + [x] + l.spine[i..]);
    LinkValid(l, i, v, r);
    r
  }

  lemma DeleteHeap<E>(h: map<Ref, Node<E>>, s: seq<Ref>, i: int, h': map<Ref, Node<E>>)
    requires (forall j :: 0 <= j < |s| ==> s[j] in h) && Distinct(s) && 0 <= i < |s|
    requires h' == SpliceOut(h, s, i)
    ensures h'.Keys == h.Keys - {s[i]}
    ensures forall j :: 0 <= j < |s| && j != i ==> (s[j] in h' &&
      h'[s[j]] == if j == i - 1 then h[s[j]].(next := After(s, i))
                  else if j == i + 1 then h[s[j]].(previous := Before(s, i))
                  else h[s[j]])
  {
    forall j | 0 <= j < |s| && j != i
      ensures s[j] in h' &&
        h'[s[j]] == if j == i - 1 then h[s[j]].(next := After(s, i))
                    else if j == i + 1 then h[s[j]].(previous := Before(s, i))
                    else h[s[j]]
    {
      assert s[j] != s[i];
      if j != i - 1 && i > 0 {
        assert s[j] != s[i - 1];
      }
      if j != i + 1 && i + 1 < |s| {
        assert s[j] != s[i + 1];
      }
    }
  }

  lemma DeleteLinksLinks<E>(h: map<Ref, Node<E>>, s: seq<Ref>, i: int, h': map<Ref, Node<E>>, s': seq<Ref>)
    requires Linked(h, s) && 0 <= i < |s|
    requires forall j :: 0 <= j < |s| && j != i ==> (s[j] in h' &&
      h'[s[j]] == if j == i - 1 then h[s[j]].(next := After(s, i))
                  else if j == i + 1 then h[s[j]].(previous := Before(s, i))
                  else h[s[j]])
    requires IsDeletion(s, i, s')
    ensures Linked(h', s')
    ensures IsDeletion(ElementsOf(h, s), i, ElementsOf(h', s'))
  {
    forall j | 0 <= j < |s'|
      ensures s'[j] in h' && h'[s'[j]].next == After(s', j) && h'[s'[j]].previous == Before(s', j)
      ensures j < i ==> h'[s'[j]].data == h[s[j]].data
      ensures j >= i ==> h'[s'[j]].data == h[s[j + 1]].data
    {
      if j < i {
        assert s'[j] == s[j];
        assert h[s[j]].next == After(s, j) && h[s[j]].previous == Before(s, j);
        if j + 1 < i { assert s'[j + 1] == s[j + 1]; } else if j + 1 < |s'| { assert s'[j + 1] == s[j + 2]; }
        if j > 0 { assert s'[j - 1] == s[j - 1]; }
      } else {
        assert s'[j] == s[j + 1];
        assert h[s[j + 1]].next == After(s, j + 1) && h[s[j + 1]].previous == Before(s, j + 1);
        if j + 1 < |s'| { assert s'[j + 1] == s[j + 2]; }
        if j > i { assert s'[j - 1] == s[j]; } else if j > 0 { assert s'[j - 1] == s[j - 1]; }
      }
    }
  }

  /** Unlinking the node at position `i`: the list stays valid and loses element `i`. */
  lemma UnlinkValid<E>(l: LinkedList<E>, i: int, r: LinkedList<E>)
    requires Valid(l) && 0 <= i < l.size
    requires var s := l.spine;
      && r.heap == SpliceOut(l.heap, s, i)
      && r.spine == s[..i] + s[i + 1..]
      && r.head == (if i == 0 then After(s, i) else l.head)
      && r.last == (if i == |s| - 1 then Before(s, i) else l.last)
      && r.size == l.size - 1 && r.alloc == l.alloc
    ensures Valid(r)
    ensures Elements(r) == Elements(l)[..i] + Elements(l)[i + 1..]
  {
    var s := l.spine;
    SpineIsOld(l);
    DeleteIndexes(s, i);
    assert Linked(r.heap, r.spine) && IsDeletion(ElementsOf(l.heap, s), i, ElementsOf(r.heap, r.spine)) by {
      DeleteHeap(l.heap, s, i, r.heap);
      DeleteLinksLinks(l.heap, s, i, r.heap, r.spine);
    }
    assert Valid(r) by {
      DeleteKeepsDistinct(s, i);
      DeleteEnds(s, i);
      DeleteHeap(l.heap, s, i, r.heap);
    }
    DeletedAt(Elements(l), i, Elements(r));
  }

  /** `deleteLinks`: unlink node `x`, the `i`-th, joining its neighbours (or moving `head`
      or `last`), and hand back its value. The node itself is cleared and unreachable, so it
      leaves the heap. The position `i` only updates the spine record. */
  function DeleteLinks<E>(l: LinkedList<E>, x: Ref, i: int): (r: (LinkedList<E>, E))
    requires Valid(l) && 0 <= i < l.size && l.spine[i] == x
    ensures Valid(r.0) && r.0.spine == l.spine[..i] + l.spine[i + 1..]
    ensures r.1 == Elements(l)[i]
    ensures Elements(r.0) == Elements(l)[..i] + Elements(l)[i + 1..]
    ensures r.0.size == l.size - 1 && r.0.modCount == l.modCount + 1
  {
    var data := l.heap[x].data;
    var next := l.heap[x].next;
    var previous := l.heap[x].previous;
    var h := if previous.None? then l.heap else l.heap[previous.value := l.heap[previous.value].(next := next)];
    var h := if next.None? then h else h[next.value := h[next.value].(previous := previous)];
    var r := LinkedList(h - {x}, if previous.None? then next else l.head, if next.None? then previous else l.last,
                        l.size - 1, l.modCount + 1, l.alloc, l.spine[..i] + l.spine[i + 1..]);
    UnlinkValid(l, i, r);
    (r, data)
  }

  /** Overwrite the value of node `x`, the `i`-th: the links, the counter and the spine are
      untouched and only element `i` changes. */
  function SetData<E>(l: LinkedList<E>, x: Ref, i: int, v: E): (r: LinkedList<E>)
    requires Valid(l) && 0 <= i < l.size && l.spine[i] == x
    ensures Valid(r) && r.spine == l.spine
    ensures Elements(r) == Elements(l)[i := v]
    ensures r.size == l.size && r.modCount == l.modCount
  {
    var r := l.(heap := l.heap[x := l.heap[x].(data := v)]);
    SetDataLinks(l.heap, l.spine, i, v, r.heap);
    r
  }

  lemma SetDataLinks<E>(h: map<Ref, Node<E>>, s: seq<Ref>, i: int, v: E, h': map<Ref, Node<E>>)
    requires Linked(h, s) && Distinct(s) && 0 <= i < |s|
    requires h' == h[s[i] := h[s[i]].(data := v)]
    ensures Linked(h', s) && h'.Keys == h.Keys
    ensures ElementsOf(h', s) == ElementsOf(h, s)[i := v]
  {
    forall j | 0 <= j < |s|
      ensures s[j] in h' && h'[s[j]].next == After(s, j) && h'[s[j]].previous == Before(s, j)
      ensures h'[s[j]].data == if j == i then v else h[s[j]].data
    {
      if j != i {
        assert s[j] != s[i];
      }
      assert h[s[j]].next == After(s, j);
    }
    assert forall j :: 0 <= j < |s| ==> ElementsOf(h', s)[j] == ElementsOf(h, s)[i := v][j];
  }

  // ---------------------------------------------------------------------------------------
  // The public operations.

  /** `add(value)`: append, through `linkLast`. */
  function Add<E>(l: LinkedList<E>, v: E): (r: LinkedList<E>)
    requires Valid(l)
    ensures Valid(r) && Elements(r) == Elements(l) + [v]
    ensures r.size == l.size + 1 && r.modCount == l.modCount + 1
  {
    LinkLast(l, v)
  }

  /** `addFirst(e)`: prepend, through `linkFirst`. */
  function AddFirst<E>(l: LinkedList<E>, v: E): (r: LinkedList<E>)
    requires Valid(l)
    ensures Valid(r) && Elements(r) == [v] + Elements(l)
    ensures r.size == l.size + 1 && r.modCount == l.modCount + 1
  {
    LinkFirst(l, v)
  }

  /** `add(index, value)`: `checkPositionIndex` admits `0 <= index <= size` and throws before
      any change otherwise; the end position appends, any other links before the node found
      by `getNode`. */
  function AddAt<E>(l: LinkedList<E>, index: int, v: E): (r: Call<LinkedList<E>, ()>)
    requires Valid(l)
    ensures Valid(r.state)
    ensures r.outcome.Normal? <==> 0 <= index <= l.size
    ensures r.outcome.Thrown? ==> r.outcome.exception == IndexOutOfBounds && r.state == l
    ensures r.outcome.Normal? ==>
      && Elements(r.state) == Elements(l)[..index] + [v] + Elements(l)[index..]
      && r.state.size == l.size + 1 && r.state.modCount == l.modCount + 1
  {
    if !(index >= 0 && index <= l.size) then Call(l, Thrown(IndexOutOfBounds))
    else if index == l.size then
      assert Elements(l)[..index] + [v] + Elements(l)[index..] == Elements(l) + [v];
      Call(LinkLast(l, v), Normal(()))
    else Call(LinkBefore(l, v, GetNode(l, index), index), Normal(()))
  }

  /** `get(index)`: `checkElementIndex` admits `0 <= index < size`; the value is the one at
      that position. */
  function Get<E>(l: LinkedList<E>, index: int): (r: Outcome<E>)
    requires Valid(l)
    ensures r.Normal? <==> 0 <= index < |Elements(l)|
    ensures r.Thrown? ==> r.exception == IndexOutOfBounds
    ensures r.Normal? ==> r.value == Elements(l)[index]
  {
    if !(index >= 0 && index < l.size) then Thrown(IndexOutOfBounds)
    else Normal(l.heap[GetNode(l, index)].data)
  }

  /** `set(index, value)`: the element index check, then the value of the `index`-th node is
      overwritten; the counter is not bumped. */
  function Set<E>(l: LinkedList<E>, index: int, v: E): (r: Call<LinkedList<E>, ()>)
    requires Valid(l)
    ensures Valid(r.state)
    ensures r.outcome.Normal? <==> 0 <= index < l.size
    ensures r.outcome.Thrown? ==> r.outcome.exception == IndexOutOfBounds && r.state == l
    ensures r.outcome.Normal? ==>
      && Elements(r.state) == Elements(l)[index := v]
      && r.state.size == l.size && r.state.modCount == l.modCount
  {
    if !(index >= 0 && index < l.size) then Call(l, Thrown(IndexOutOfBounds))
    else Call(SetData(l, GetNode(l, index), index, v), Normal(()))
  }

  /** `remove(index)`: the element index check, then the `index`-th node is unlinked and its
      value returned. */
  function Remove<E>(l: LinkedList<E>, index: int): (r: Call<LinkedList<E>, E>)
    requires Valid(l)
    ensures Valid(r.state)
    ensures r.outcome.Normal? <==> 0 <= index < l.size
    ensures r.outcome.Thrown? ==> r.outcome.exception == IndexOutOfBounds && r.state == l
    ensures r.outcome.Normal? ==>
      && r.outcome.value == Elements(l)[index]
      && Elements(r.state) == Elements(l)[..index] + Elements(l)[index + 1..]
      && r.state.size == l.size - 1 && r.state.modCount == l.modCount + 1
  {
    if !(index >= 0 && index < l.size) then Call(l, Thrown(IndexOutOfBounds))
    else
      var (l', data) := DeleteLinks(l, GetNode(l, index), index);
      Call(l', Normal(data))
  }

  /** `size`: the cached count is the number of elements. */
  function Size<E>(l: LinkedList<E>): (r: int)
    requires Valid(l)
    ensures r == |Elements(l)|
  {
    l.size
  }

  /** Inserting at `index` and then removing at `index` hands back the inserted value and
      restores the elements. */
  lemma AddAtThenRemove<E>(l: LinkedList<E>, index: int, v: E)
    requires Valid(l) && 0 <= index <= l.size
    ensures Remove(AddAt(l, index, v).state, index).outcome == Normal(v)
    ensures Elements(Remove(AddAt(l, index, v).state, index).state) == Elements(l)
  {
    var e := Elements(l);
    var m := AddAt(l, index, v).state;
    var t := e[..index] + [v] + e[index..];
    assert Elements(m) == t;
    InsertIndexes(e, index, v);
    InsertThenDelete(e, index, v);
  }

  lemma TakeOneMore<T>(s: seq<T>, k: int)
    requires 0 <= k < |s|
    ensures s[..k + 1] == s[..k] + [s[k]]
  {
  }

  lemma InsertThenDelete<T>(s: seq<T>, i: int, x: T)
    requires 0 <= i <= |s|
    ensures (s[..i] + [x] + s[i..])[i] == x
    ensures var t := s[..i] + [x] + s[i..]; t[..i] + t[i + 1..] == s
  {
    var t := s[..i] + [x] + s[i..];
    assert t[..i] == s[..i];
    assert t[i + 1..] == s[i..];
  }

  /** `addFirst(v)` then `get(0)` answers `v`; `add(v)` then `get(size - 1)` answers `v`. */
  lemma AddFirstThenGet<E>(l: LinkedList<E>, v: E)
    requires Valid(l)
    ensures Get(AddFirst(l, v), 0) == Normal(v)
    ensures Get(Add(l, v), l.size) == Normal(v)
  {
  }

  /** `set(i, v)` then `get(i)` answers `v`, and every other position answers as before. */
  lemma SetThenGet<E>(l: LinkedList<E>, i: int, v: E, j: int)
    requires Valid(l) && 0 <= i < l.size
    ensures Get(Set(l, i, v).state, i) == Normal(v)
    ensures j != i ==> Get(Set(l, i, v).state, j) == Get(l, j)
  {
  }

  // ---------------------------------------------------------------------------------------
  // ListIteratorCustom, forward direction only.

  /** The cursor: the position and node `next()` will hand out, the node the last `next()`
      handed out (null after `remove`/`add` or before any `next`), and the counter snapshot. */
  datatype ListItr = ListItr(nextIndex: int, nextToReturn: Option<Ref>, lastReturned: Option<Ref>,
                             expectedModCount: int)

  /** The node at position `k`, or null past the end. */
  function NodeAt<E>(l: LinkedList<E>, k: int): Option<Ref> {
    if 0 <= k < |l.spine| then Some(l.spine[k]) else None
  }

  /** A cursor in step with its list: the snapshot matches, `nextToReturn` is the node at
      `nextIndex`, and `lastReturned`, when set, is the node just before it. */
  ghost predicate Synced<E>(l: LinkedList<E>, it: ListItr) {
    && Valid(l)
    && it.expectedModCount == l.modCount
    && 0 <= it.nextIndex <= l.size
    && it.nextToReturn == NodeAt(l, it.nextIndex)
    && (it.lastReturned.Some? ==> 0 < it.nextIndex && it.lastReturned == NodeAt(l, it.nextIndex - 1))
  }

  /** What holds of every cursor a program can hold: the snapshot never runs ahead of the
      list's counter, and while it matches the cursor is in step. */
  ghost predicate Coherent<E>(l: LinkedList<E>, it: ListItr) {
    && Valid(l)
    && it.expectedModCount <= l.modCount
    && (it.expectedModCount == l.modCount ==> Synced(l, it))
  }

  /** `listIterator(index)`: a cursor before position `index`, snapshotting the counter. */
  function ListIterator<E>(l: LinkedList<E>, index: int): (it: ListItr)
    requires Valid(l) && 0 <= index <= l.size
    ensures Synced(l, it) && Coherent(l, it)
    ensures it.nextIndex == index && it.lastReturned.None?
  {
    ListItr(index, if index == l.size then None else Some(GetNode(l, index)), None, l.modCount)
  }

  /** `iterator()`: `listIterator(0)`. */
  function Iterator<E>(l: LinkedList<E>): (it: ListItr)
    requires Valid(l)
    ensures Synced(l, it) && it.nextIndex == 0 && it.lastReturned.None?
  {
    ListIterator(l, 0)
  }

  /** `hasNext`: elements remain from the cursor's position on. */
  function HasNext<E>(l: LinkedList<E>, it: ListItr): (r: bool)
    requires Valid(l)
    ensures r <==> it.nextIndex < |Elements(l)|
  {
    it.nextIndex < l.size
  }

  /** `next()`: the counter check comes first, then exhaustion; otherwise the value at
      `nextIndex` is returned and the cursor moves one node on. */
  function Next<E>(l: LinkedList<E>, it: ListItr): (r: (ListItr, Outcome<E>))
    requires Coherent(l, it)
    ensures Coherent(l, r.0)
    ensures r.1 == Thrown(ConcurrentModification) <==> it.expectedModCount != l.modCount
    ensures r.1 == Thrown(NoSuchElement) <==> it.expectedModCount == l.modCount && it.nextIndex >= l.size
    ensures r.1.Thrown? ==> r.0 == it
    ensures r.1.Normal? <==> it.expectedModCount == l.modCount && it.nextIndex < l.size
    ensures r.1.Normal? ==>
      && r.1.value == Elements(l)[it.nextIndex]
      && r.0.expectedModCount == it.expectedModCount
      && r.0.nextIndex == it.nextIndex + 1
      && r.0.lastReturned.Some?
  {
    if l.modCount != it.expectedModCount then (it, Thrown(ConcurrentModification))
    else if !(it.nextIndex < l.size) then (it, Thrown(NoSuchElement))
    else
      var n := it.nextToReturn.value;
      (it.(lastReturned := Some(n), nextToReturn := l.heap[n].next, nextIndex := it.nextIndex + 1),
       Normal(l.heap[n].data))
  }

  /** `remove()`: the counter check, then the need for a preceding `next`; the node last
      returned is unlinked through `deleteLinks` and the snapshot follows the counter. The
      branch for a cursor whose next node is the removed one is kept as written; a cursor
      that only moves forward never takes it, so `nextIndex` steps back. */
  function IterRemove<E>(l: LinkedList<E>, it: ListItr): (r: Call<(LinkedList<E>, ListItr), ()>)
    requires Coherent(l, it)
    ensures Coherent(r.state.0, r.state.1)
    ensures r.outcome == Thrown(ConcurrentModification) <==> it.expectedModCount != l.modCount
    ensures r.outcome == Thrown(IllegalState) <==> it.expectedModCount == l.modCount && it.lastReturned.None?
    ensures r.outcome.Normal? <==> it.expectedModCount == l.modCount && it.lastReturned.Some?
    ensures r.outcome.Thrown? ==> r.state == (l, it)
    ensures r.outcome.Normal? ==>
      && Elements(r.state.0) == Elements(l)[..it.nextIndex - 1] + Elements(l)[it.nextIndex..]
      && r.state.0.modCount == l.modCount + 1
      && r.state.1.expectedModCount == r.state.0.modCount
      && r.state.1.nextIndex == it.nextIndex - 1
      && r.state.1.lastReturned.None?
  {
    if l.modCount != it.expectedModCount then Call((l, it), Thrown(ConcurrentModification))
    else if it.lastReturned.None? then Call((l, it), Thrown(IllegalState))
    else
      var x := it.lastReturned.value;
      var lastNext := l.heap[x].next;
      var (l', _) := DeleteLinks(l, x, it.nextIndex - 1);
      RemoveKeepsSynced(l, it, l');
      var same := it.nextToReturn == it.lastReturned;
      var it' := ListItr(if same then it.nextIndex else it.nextIndex - 1,
                         if same then lastNext else it.nextToReturn,
                         None, it.expectedModCount + 1);
      Call((l', it'), Normal(()))
  }

  /** Unlinking the node a forward cursor last returned leaves the cursor's next node in
      place, one position lower. */
  lemma RemoveKeepsSynced<E>(l: LinkedList<E>, it: ListItr, l': LinkedList<E>)
    requires Synced(l, it) && it.lastReturned.Some?
    requires Valid(l') && l'.spine == l.spine[..it.nextIndex - 1] + l.spine[it.nextIndex..]
    requires l'.size == l.size - 1 && l'.modCount == l.modCount + 1
    ensures it.nextToReturn != it.lastReturned
    ensures Synced(l', ListItr(it.nextIndex - 1, it.nextToReturn, None, it.expectedModCount + 1))
  {
    var k := it.nextIndex - 1;
    DeleteIndexes(l.spine, k);
    if it.nextIndex < l.size {
      assert l.spine[k] != l.spine[k + 1];
      assert l'.spine[k] == l.spine[k + 1];
    }
  }

  /** `set(value)`: the need for a preceding `next` is checked before the counter; the node
      last returned gets the value, and nothing else changes. */
  function IterSet<E>(l: LinkedList<E>, it: ListItr, v: E): (r: Call<(LinkedList<E>, ListItr), ()>)
    requires Coherent(l, it)
    ensures Coherent(r.state.0, r.state.1)
    ensures r.outcome == Thrown(IllegalState) <==> it.lastReturned.None?
    ensures r.outcome == Thrown(ConcurrentModification) <==>
      it.lastReturned.Some? && it.expectedModCount != l.modCount
    ensures r.outcome.Normal? <==> it.lastReturned.Some? && it.expectedModCount == l.modCount
    ensures r.outcome.Thrown? ==> r.state == (l, it)
    ensures r.outcome.Normal? ==>
      && Elements(r.state.0) == Elements(l)[it.nextIndex - 1 := v]
      && r.state.0.modCount == l.modCount
      && r.state.1 == it
  {
    if it.lastReturned.None? then Call((l, it), Thrown(IllegalState))
    else if l.modCount != it.expectedModCount then Call((l, it), Thrown(ConcurrentModification))
    else Call((SetData(l, it.lastReturned.value, it.nextIndex - 1, v), it), Normal(()))
  }

  /** `add(value)`: the counter check, then the value goes in before the cursor's next node
      (or at the end), and the cursor steps over it. */
  function IterAdd<E>(l: LinkedList<E>, it: ListItr, v: E): (r: Call<(LinkedList<E>, ListItr), ()>)
    requires Coherent(l, it)
    ensures Coherent(r.state.0, r.state.1)
    ensures r.outcome.Normal? <==> it.expectedModCount == l.modCount
    ensures r.outcome.Thrown? ==> r.outcome.exception == ConcurrentModification && r.state == (l, it)
    ensures r.outcome.Normal? ==>
      && Elements(r.state.0) == Elements(l)[..it.nextIndex] + [v] + Elements(l)[it.nextIndex..]
      && r.state.0.modCount == l.modCount + 1
      && r.state.1.expectedModCount == r.state.0.modCount
      && r.state.1.nextIndex == it.nextIndex + 1
      && r.state.1.lastReturned.None?
  {
    if l.modCount != it.expectedModCount then Call((l, it), Thrown(ConcurrentModification))
    else
      var l' := if it.nextToReturn.None? then LinkLast(l, v)
                else LinkBefore(l, v, it.nextToReturn.value, it.nextIndex);
      assert it.nextToReturn.None? ==>
        Elements(l)[..it.nextIndex] + [v] + Elements(l)[it.nextIndex..] == Elements(l) + [v];
      Call((l', ListItr(it.nextIndex + 1, it.nextToReturn, None, it.expectedModCount + 1)), Normal(()))
  }

  /** A cursor whose snapshot is behind the list's counter stays coherent, and its next
      `next()` throws. */
  lemma StaleCursorThrows<E>(l: LinkedList<E>, it: ListItr)
    requires Valid(l) && it.expectedModCount < l.modCount
    ensures Coherent(l, it) && Next(l, it).1 == Thrown(ConcurrentModification)
  {
  }

  /** A structural change made through the list, not the cursor, leaves the cursor's
      snapshot behind, so its next `next()` throws. */
  lemma AddInvalidatesCursor<E>(l: LinkedList<E>, it: ListItr, v: E)
    requires Coherent(l, it)
    ensures Coherent(Add(l, v), it) && Next(Add(l, v), it).1 == Thrown(ConcurrentModification)
    ensures Coherent(AddFirst(l, v), it) && Next(AddFirst(l, v), it).1 == Thrown(ConcurrentModification)
  {
    StaleCursorThrows(Add(l, v), it);
    StaleCursorThrows(AddFirst(l, v), it);
  }

  lemma AddAtInvalidatesCursor<E>(l: LinkedList<E>, it: ListItr, index: int, v: E)
    requires Coherent(l, it) && 0 <= index <= l.size
    ensures Coherent(AddAt(l, index, v).state, it)
    ensures Next(AddAt(l, index, v).state, it).1 == Thrown(ConcurrentModification)
  {
    StaleCursorThrows(AddAt(l, index, v).state, it);
  }

  lemma RemoveInvalidatesCursor<E>(l: LinkedList<E>, it: ListItr, index: int)
    requires Coherent(l, it) && 0 <= index < l.size
    ensures Coherent(Remove(l, index).state, it)
    ensures Next(Remove(l, index).state, it).1 == Thrown(ConcurrentModification)
  {
    StaleCursorThrows(Remove(l, index).state, it);
  }

  /** `set` on the list moves no node and leaves the counter alone, so a cursor stays
      usable. */
  lemma SetKeepsCursor<E>(l: LinkedList<E>, it: ListItr, index: int, v: E)
    requires Coherent(l, it)
    ensures Coherent(Set(l, index, v).state, it)
  {
  }

  /** Walking a cursor from the front with `next()` hands out the elements in index order:
      appending each to a fresh list rebuilds the same sequence. */
  method CopyByIteration<E>(l: LinkedList<E>) returns (copy: LinkedList<E>)
    requires Valid(l)
    ensures Valid(copy) && Elements(copy) == Elements(l)
  {
    ghost var e := Elements(l);
    copy := New();
    var it := Iterator(l);
    while HasNext(l, it)
      invariant Synced(l, it) && Valid(copy)
      invariant Elements(copy) == e[..it.nextIndex]
      decreases l.size - it.nextIndex
    {
      var (it', o) := Next(l, it);
      TakeOneMore(e, it.nextIndex);
      copy := Add(copy, o.value);
      it := it';
    }
    assert e[..it.nextIndex] == e;
  }

  /** `next()` then `remove()` on each element in turn empties the list, bumping the counter
      once per element, and the cursor never goes stale. */
  method DrainByIteration<E>(l: LinkedList<E>) returns (b: LinkedList<E>)
    requires Valid(l)
    ensures Valid(b) && Elements(b) == []
    ensures b.modCount == l.modCount + l.size
  {
    b := l;
    var it := Iterator(l);
    while HasNext(b, it)
      invariant Synced(b, it) && it.nextIndex == 0 && it.lastReturned.None?
      invariant b.modCount + b.size == l.modCount + l.size
      decreases b.size
    {
      var (it', o) := Next(b, it);
      var c := IterRemove(b, it');
      b, it := c.state.0, c.state.1;
    }
  }

  /** `s` with `v` put before each of its elements. */
  ghost function Interleaved<T>(v: T, s: seq<T>): (r: seq<T>)
    ensures |r| == 2 * |s|
  {
    if s == [] then [] else Interleaved(v, s[..|s| - 1]) + [v, s[|s| - 1]]
  }

  lemma {:induction false} InterleavedAt<T>(v: T, s: seq<T>, k: int)
    requires 0 <= k < |s|
    ensures Interleaved(v, s)[2 * k] == v && Interleaved(v, s)[2 * k + 1] == s[k]
    decreases |s|
  {
    if k < |s| - 1 {
      InterleavedAt(v, s[..|s| - 1], k);
    }
  }

  lemma InterleavedPositions<T>(v: T, s: seq<T>)
    ensures forall k :: 0 <= k < |s| ==> Interleaved(v, s)[2 * k] == v && Interleaved(v, s)[2 * k + 1] == s[k]
  {
    forall k | 0 <= k < |s|
      ensures Interleaved(v, s)[2 * k] == v && Interleaved(v, s)[2 * k + 1] == s[k]
    {
      InterleavedAt(v, s, k);
    }
  }

  /** One step of the walk below: the value goes in at position `2 * done`, in front of the
      first element not yet passed. */
  lemma InterleaveStep<T>(v: T, e: seq<T>, done: int, b: seq<T>)
    requires 0 <= done < |e| && b == Interleaved(v, e[..done]) + e[done..]
    ensures b[..2 * done] + [v] + b[2 * done..] == Interleaved(v, e[..done + 1]) + e[done + 1..]
  {
    var p := Interleaved(v, e[..done]);
    var s := e[..done + 1];
    assert s[..|s| - 1] == e[..done] && s[|s| - 1] == e[done];
    assert Interleaved(v, s) == p + [v, e[done]];
    assert b[..2 * done] == p;
    assert b[2 * done..] == [e[done]] + e[done + 1..];
  }

  /** `add(v)` then `next()` through an in-step cursor that has a next element: `v` goes in
      before that element, which is then handed out. */
  method AddThenNext<E>(l: LinkedList<E>, it: ListItr, v: E) returns (l': LinkedList<E>, it': ListItr)
    requires Synced(l, it) && it.nextIndex < l.size
    ensures Synced(l', it') && it'.nextIndex == it.nextIndex + 2 && l'.size == l.size + 1
    ensures Elements(l') == Elements(l)[..it.nextIndex] + [v] + Elements(l)[it.nextIndex..]
  {
    var c := IterAdd(l, it, v);
    var (it2, o) := Next(c.state.0, c.state.1);
    l', it' := c.state.0, it2;
  }

  /** Inserting through a cursor before every element of a walk puts `v` in front of each
      element: `add(v)` then `next()` at each step. */
  method InterleaveByIteration<E>(l: LinkedList<E>, v: E) returns (b: LinkedList<E>)
    requires Valid(l)
    ensures Valid(b) && Elements(b) == Interleaved(v, Elements(l))
    ensures forall k :: 0 <= k < |Elements(l)| ==> Elements(b)[2 * k] == v && Elements(b)[2 * k + 1] == Elements(l)[k]
  {
    ghost var e := Elements(l);
    b := l;
    var it := Iterator(l);
    var done := 0;
    while HasNext(b, it)
      invariant Synced(b, it) && 0 <= done <= |e| && it.nextIndex == 2 * done
      invariant b.size == |e| + done
      invariant Elements(b) == Interleaved(v, e[..done]) + e[done..]
      decreases |e| - done
    {
      InterleaveStep(v, e, done, Elements(b));
      b, it := AddThenNext(b, it, v);
      done := done + 1;
    }
    assert e[..done] == e;
    InterleavedPositions(v, e);
  }
}
