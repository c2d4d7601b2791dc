/** `ArrayListCustom`: a growable array. The backing array is a sequence of slots, `None`
    standing for a null slot; the live elements are the first `size` slots. Every structural
    change bumps the modification counter, which the fail-fast iterator compares against the
    value it saw when it was created or last resynchronised. */
module ArrayList {
  import opened Outcomes

  const InitialCapacity := 10
  const IncreaseCapacityCoefficient := 2

  datatype ArrayList<E> = ArrayList(elementData: seq<Option<E>>, size: int, modCount: int)

  /** The representation invariant: the array is never empty, and exactly the first `size`
      slots hold an element (every slot from `size` on is null). */
  ghost predicate Valid<E>(a: ArrayList<E>) {
    && 1 <= |a.elementData|
    && 0 <= a.size <= |a.elementData|
    && forall i :: 0 <= i < |a.elementData| ==> (a.elementData[i].Some? <==> i < a.size)
  }

  /** The list the array represents: the values of the live slots, in index order. */
  ghost function Elements<E>(a: ArrayList<E>): (s: seq<E>)
    requires Valid(a)
    ensures |s| == a.size
    ensures forall i :: 0 <= i < |s| ==> a.elementData[i] == Some(s[i])
  {
    seq(a.size, i requires 0 <= i < a.size => a.elementData[i].value)
  }

  /** Two valid lists whose live slots agree represent the same elements. */
  lemma SameElements<E>(a: ArrayList<E>, b: ArrayList<E>)
    requires Valid(a) && Valid(b) && a.size == b.size
    requires forall i :: 0 <= i < a.size ==> a.elementData[i] == b.elementData[i]
    ensures Elements(a) == Elements(b)
  {
  }

  function Capacity<E>(a: ArrayList<E>): int {
    |a.elementData|
  }

  function NullSlots<E>(n: nat): (s: seq<Option<E>>)
    ensures |s| == n && forall i :: 0 <= i < n ==> s[i].None?
  {
    seq(n, _ => None)
  }

  /** The no-argument constructor: an empty list over an array of the default capacity. */
  function New<E>(): (a: ArrayList<E>)
    ensures Valid(a) && Elements(a) == [] && a.modCount == 0
    ensures Capacity(a) == InitialCapacity
  {
    ArrayList(NullSlots(InitialCapacity), 0, 0)
  }

  /** The capacity constructor: a positive capacity is taken as given, zero falls back to the
      default, and a negative one is refused. */
  function WithCapacity<E>(initCapacity: int): (r: Outcome<ArrayList<E>>)
    ensures r.Thrown? <==> initCapacity < 0
    ensures r.Thrown? ==> r.exception == IllegalArgument
    ensures r.Normal? ==> Valid(r.value) && Elements(r.value) == [] && r.value.modCount == 0
    ensures initCapacity > 0 ==> r.Normal? && Capacity(r.value) == initCapacity
    ensures initCapacity == 0 ==> r.Normal? && Capacity(r.value) == InitialCapacity
  {
    if initCapacity > 0 then Normal(ArrayList(NullSlots(initCapacity), 0, 0))
    else if initCapacity == 0 then Normal(ArrayList(NullSlots(InitialCapacity), 0, 0))
    else Thrown(IllegalArgument)
  }

  /** `ensureCapacity` (with `increaseCapacity`): a full array is copied into one twice as
      long; otherwise nothing changes. Afterwards there is room for one more element. */
  function EnsureCapacity<E>(a: ArrayList<E>): (r: ArrayList<E>)
    requires Valid(a)
    ensures Valid(r) && Elements(r) == Elements(a)
    ensures r.size == a.size && r.modCount == a.modCount
    ensures r.size < Capacity(r)
    ensures a.size < Capacity(a) ==> r == a
    ensures a.size == Capacity(a) ==> Capacity(r) == IncreaseCapacityCoefficient * Capacity(a)
  {
    if a.size == |a.elementData| then
      var r := a.(elementData := a.elementData + NullSlots(|a.elementData| * (IncreaseCapacityCoefficient - 1)));
      SameElements(a, r);
      r
    else a
  }

  /** `add(value)`: append at the end. */
  function Add<E>(a: ArrayList<E>, v: E): (r: ArrayList<E>)
    requires Valid(a)
    ensures Valid(r)
    ensures Elements(r) == Elements(a) + [v]
    ensures r.modCount == a.modCount + 1
    ensures Capacity(r) >= Capacity(a)
  {
    var g := EnsureCapacity(a.(modCount := a.modCount + 1));
    var r := g.(elementData := g.elementData[g.size := Some(v)], size := g.size + 1);
    assert forall i :: 0 <= i < a.size ==> r.elementData[i] == Some(Elements(a)[i]);
    r
  }

  /** `add(index, value)`: shift the tail up one slot and store the value at `index`. The
      counter is bumped and the array grown before the copy; an index below zero or past the
      end makes the copy throw, after those two steps. */
  function AddAt<E>(a: ArrayList<E>, index: int, v: E): (r: Call<ArrayList<E>, ()>)
    requires Valid(a)
    ensures Valid(r.state) && r.state.modCount == a.modCount + 1
    ensures r.outcome.Normal? <==> 0 <= index <= a.size
    ensures r.outcome.Thrown? ==> r.outcome.exception == IndexOutOfBounds && Elements(r.state) == Elements(a)
    ensures r.outcome.Normal? ==> Elements(r.state) == Elements(a)[..index] + [v] + Elements(a)[index..]
  {
    var g := EnsureCapacity(a.(modCount := a.modCount + 1));
    if index < 0 || index > g.size then
      Call(g, Thrown(IndexOutOfBounds))
    else
      var d := g.elementData;
      var r := g.(elementData := d[..index] + [Some(v)] + d[index..g.size] + d[g.size + 1..], size := g.size + 1);
      ShiftUpElements(g, r, index, v);
      Call(r, Normal(()))
  }

  lemma ShiftUpElements<E>(g: ArrayList<E>, r: ArrayList<E>, index: int, v: E)
    requires Valid(g) && 0 <= index <= g.size < |g.elementData|
    requires r.size == g.size + 1
    requires r.elementData == g.elementData[..index] + [Some(v)] + g.elementData[index..g.size] + g.elementData[g.size + 1..]
    ensures Valid(r) && Elements(r) == Elements(g)[..index] + [v] + Elements(g)[index..]
  {
    var d := g.elementData;
    var e := Elements(g);
    var want := e[..index] + [v] + e[index..];
    forall i | 0 <= i < |r.elementData|
      ensures r.elementData[i] == if i < r.size then Some(want[i]) else None
    {
      if i < index {
        assert r.elementData[i] == d[i];
      } else if i == index {
      } else if i <= g.size {
        assert r.elementData[i] == d[i - 1];
      } else {
        assert r.elementData[i] == d[i];
      }
    }
  }

  /** `get`: the element at `index`. An index at or past the size fails the range check; a
      negative one fails the array access. Both throw `IndexOutOfBoundsException`. */
  function Get<E>(a: ArrayList<E>, index: int): (r: Outcome<E>)
    requires Valid(a)
    ensures r.Normal? <==> 0 <= index < |Elements(a)|
    ensures r.Normal? ==> r.value == Elements(a)[index]
    ensures r.Thrown? ==> r.exception == IndexOutOfBounds
  {
    if index >= a.size || index < 0 then Thrown(IndexOutOfBounds)
    else Normal(a.elementData[index].value)
  }

  /** `set`: overwrite the element at `index`, after the same checks as `get`. The counter is
      not bumped: replacing a value is not a structural change. */
  function Set<E>(a: ArrayList<E>, index: int, v: E): (r: Call<ArrayList<E>, ()>)
    requires Valid(a)
    ensures Valid(r.state) && r.state.modCount == a.modCount && r.state.size == a.size
    ensures r.outcome.Normal? <==> 0 <= index < |Elements(a)|
    ensures r.outcome.Thrown? ==> r.outcome.exception == IndexOutOfBounds && r.state == a
    ensures r.outcome.Normal? ==> Elements(r.state) == Elements(a)[index := v]
  {
    match Get(a, index)
    case Thrown(x) => Call(a, Thrown(x))
    case Normal(_) =>
      var r := a.(elementData := a.elementData[index := Some(v)]);
      assert forall i :: 0 <= i < a.size ==> r.elementData[i] == Some(Elements(a)[index := v][i]);
      Call(r, Normal(()))
  }

  /** `remove(index)`: return the element at `index` and shift the tail down one slot,
      nulling the vacated last slot. An index at or past the size is refused before anything
      changes; a negative one passes the range check, bumps the counter, and then fails the
      array access. */
  function Remove<E>(a: ArrayList<E>, index: int): (r: Call<ArrayList<E>, E>)
    requires Valid(a)
    ensures Valid(r.state)
    ensures r.outcome.Normal? <==> 0 <= index < |Elements(a)|
    ensures r.outcome.Thrown? ==> r.outcome.exception == IndexOutOfBounds && Elements(r.state) == Elements(a)
    ensures index >= a.size ==> r.state == a
    ensures index < 0 ==> r.state == a.(modCount := a.modCount + 1)
    ensures r.outcome.Normal? ==>
      && r.outcome.value == Elements(a)[index]
      && Elements(r.state) == Elements(a)[..index] + Elements(a)[index + 1..]
      && r.state.modCount == a.modCount + 1
      && Capacity(r.state) == Capacity(a)
  {
    if index >= a.size then Call(a, Thrown(IndexOutOfBounds))
    else if index < 0 then
      var b := a.(modCount := a.modCount + 1);
      SameElements(a, b);
      Call(b, Thrown(IndexOutOfBounds))
    else
      var d := a.elementData;
      var r := ArrayList(d[..index] + d[index + 1..a.size] + [None] + d[a.size..], a.size - 1, a.modCount + 1);
      ShiftDownElements(a, r, index);
      Call(r, Normal(d[index].value))
  }

  lemma ShiftDownElements<E>(a: ArrayList<E>, r: ArrayList<E>, index: int)
    requires Valid(a) && 0 <= index < a.size
    requires r.size == a.size - 1
    requires r.elementData == a.elementData[..index] + a.elementData[index + 1..a.size] + [None] + a.elementData[a.size..]
    ensures Valid(r) && Elements(r) == Elements(a)[..index] + Elements(a)[index + 1..]
  {
    var d := a.elementData;
    var e := Elements(a);
    var want := e[..index] + e[index + 1..];
    forall i | 0 <= i < |r.elementData|
      ensures r.elementData[i] == if i < r.size then Some(want[i]) else None
    {
      if i < index {
        assert r.elementData[i] == d[i];
      } else if i < r.size {
        assert r.elementData[i] == d[i + 1];
      } else if i == r.size {
      } else {
        assert r.elementData[i] == d[i];
      }
    }
  }

  /** `size`: the number of elements. */
  function Size<E>(a: ArrayList<E>): (r: int)
    requires Valid(a)
    ensures r == |Elements(a)|
  {
    a.size
  }

  /** `isEmpty`: no elements. */
  function IsEmpty<E>(a: ArrayList<E>): (r: bool)
    requires Valid(a)
    ensures r <==> Elements(a) == []
  {
    a.size == 0
  }

  /** Inserting at `index` and then removing at `index` gives the inserted value back and
      restores the elements. */
  lemma AddAtThenRemove<E>(a: ArrayList<E>, index: int, v: E)
    requires Valid(a) && 0 <= index <= |Elements(a)|
    ensures var b := AddAt(a, index, v).state;
      && Remove(b, index).outcome == Normal(v)
      && Elements(Remove(b, index).state) == Elements(a)
  {
    var b := AddAt(a, index, v).state;
    var e := Elements(a);
    assert Elements(b) == e[..index] + [v] + e[index..];
    assert Elements(b)[..index] + Elements(b)[index + 1..] == e;
  }

  /** After `add(v)` the new last element is `v` and the earlier ones answer as before. */
  lemma AddThenGet<E>(a: ArrayList<E>, v: E, i: int)
    requires Valid(a)
    ensures Get(Add(a, v), |Elements(a)|) == Normal(v)
    ensures 0 <= i < |Elements(a)| ==> Get(Add(a, v), i) == Get(a, i)
  {
  }

  /** After `set(i, v)` at a valid index, `get(i)` answers `v`. */
  lemma SetThenGet<E>(a: ArrayList<E>, i: int, v: E)
    requires Valid(a) && 0 <= i < |Elements(a)|
    ensures Get(Set(a, i, v).state, i) == Normal(v)
  {
  }

  // ---------------------------------------------------------------------------------------
  // The fail-fast iterator.

  /** The cursor of `IteratorCustom`: the index `next()` hands out, the index last handed out
      (-1 when there is none to remove) and the counter value it trusts. */
  datatype Itr = Itr(nextToReturn: int, lastReturned: int, expectedModCount: int)

  /** `iterator()`: a cursor before the first element. */
  function Iterator<E>(a: ArrayList<E>): (it: Itr)
    ensures it.nextToReturn == 0 && it.lastReturned == -1 && it.expectedModCount == a.modCount
  {
    Itr(0, -1, a.modCount)
  }

  /** `hasNext`: the cursor has not reached the end of the elements. */
  function HasNext<E>(a: ArrayList<E>, it: Itr): (r: bool)
    requires Valid(a)
    ensures r <==> it.nextToReturn != |Elements(a)|
  {
    it.nextToReturn != a.size
  }

  /** `next()`: a counter mismatch is reported first; otherwise a cursor past the elements
      raises `NoSuchElementException`, and a good one hands out its element and advances. */
  function Next<E>(a: ArrayList<E>, it: Itr): (r: (Itr, Outcome<E>))
    requires Valid(a)
    ensures r.1 == Thrown(ConcurrentModification) <==> a.modCount != it.expectedModCount
    ensures r.1 == Thrown(NoSuchElement) <==>
      a.modCount == it.expectedModCount && !(0 <= it.nextToReturn < |Elements(a)|)
    ensures r.1.Thrown? ==> r.0 == it
    ensures r.1.Normal? <==> a.modCount == it.expectedModCount && 0 <= it.nextToReturn < |Elements(a)|
    ensures r.1.Normal? ==>
      && r.1.value == Elements(a)[it.nextToReturn]
      && r.0 == Itr(it.nextToReturn + 1, it.nextToReturn, it.expectedModCount)
  {
    if a.modCount != it.expectedModCount then (it, Thrown(ConcurrentModification))
    else match Get(a, it.nextToReturn)
      case Thrown(_) => (it, Thrown(NoSuchElement))
      case Normal(e) => (Itr(it.nextToReturn + 1, it.nextToReturn, it.expectedModCount), Normal(e))
  }

  /** `remove()` on the iterator: refused with `IllegalStateException` when nothing is
      pending, then the counter check; otherwise the list removes the element last handed out,
      the cursor steps back over it and trusts the new counter. A range failure in the
      list's `remove` is reported as a concurrent modification. */
  function IterRemove<E>(a: ArrayList<E>, it: Itr): (r: Call<(ArrayList<E>, Itr), ()>)
    requires Valid(a)
    ensures Valid(r.state.0)
    ensures r.outcome == Thrown(IllegalState) <==> it.lastReturned < 0
    ensures r.outcome.Thrown? && it.lastReturned >= 0 ==> r.outcome == Thrown(ConcurrentModification)
    ensures r.outcome.Thrown? ==> r.state == (a, it)
    ensures r.outcome.Normal? <==>
      0 <= it.lastReturned < |Elements(a)| && a.modCount == it.expectedModCount
    ensures r.outcome.Normal? ==>
      && Elements(r.state.0) == Elements(a)[..it.lastReturned] + Elements(a)[it.lastReturned + 1..]
      && r.state.0.modCount == a.modCount + 1
      && r.state.1.expectedModCount == r.state.0.modCount
      && r.state.1.lastReturned == -1
      && r.state.1.nextToReturn ==
           if it.lastReturned < it.nextToReturn then it.nextToReturn - 1 else it.nextToReturn
  {
    if it.lastReturned < 0 then Call((a, it), Thrown(IllegalState))
    else if a.modCount != it.expectedModCount then Call((a, it), Thrown(ConcurrentModification))
    else
      var c := Remove(a, it.lastReturned);
      match c.outcome
      case Thrown(_) => Call((a, it), Thrown(ConcurrentModification))
      case Normal(_) =>
        var next := if it.lastReturned < it.nextToReturn then it.nextToReturn - 1 else it.nextToReturn;
        Call((c.state, Itr(next, -1, c.state.modCount)), Normal(()))
  }

  /** Every structural change the list makes itself (`add`, `add(index)`, `remove`) leaves a
      cursor created before it throwing `ConcurrentModificationException` on `next()`. */
  lemma StructuralChangeInvalidatesIterator<E>(a: ArrayList<E>, v: E, i: int)
    requires Valid(a)
    ensures Next(Add(a, v), Iterator(a)).1 == Thrown(ConcurrentModification)
    ensures Next(AddAt(a, i, v).state, Iterator(a)).1 == Thrown(ConcurrentModification)
    ensures 0 <= i < |Elements(a)| ==> Next(Remove(a, i).state, Iterator(a)).1 == Thrown(ConcurrentModification)
  {
  }

  /** `set` is not a structural change: the cursor keeps going and sees the new value. */
  lemma SetKeepsIterator<E>(a: ArrayList<E>, i: int, v: E, it: Itr)
    requires Valid(a) && it.expectedModCount == a.modCount && 0 <= i < |Elements(a)|
    ensures Next(Set(a, i, v).state, it).1 != Thrown(ConcurrentModification)
    ensures it.nextToReturn == i ==> Next(Set(a, i, v).state, it).1 == Normal(v)
  {
  }

  /** What a live cursor looks like: it trusts the current counter, sits within the list, and
      any pending element is the one just before it. */
  ghost predicate Synced<E>(a: ArrayList<E>, it: Itr) {
    && Valid(a)
    && it.expectedModCount == a.modCount
    && 0 <= it.nextToReturn <= a.size
    && (it.lastReturned == -1 || it.lastReturned == it.nextToReturn - 1)
  }

  /** `next()` and the iterator's `remove()` keep a live cursor live. */
  lemma IteratorStaysSynced<E>(a: ArrayList<E>, it: Itr)
    requires Synced(a, it)
    ensures Next(a, it).1.Normal? ==> Synced(a, Next(a, it).0)
    ensures HasNext(a, it) ==> Next(a, it).1.Normal?
    ensures IterRemove(a, it).outcome.Normal? ==> Synced(IterRemove(a, it).state.0, IterRemove(a, it).state.1)
    ensures it.lastReturned >= 0 ==> IterRemove(a, it).outcome.Normal?
  {
  }

  /** The `for (E e : list) copy.add(e)` loop: walking a list with its iterator and appending
      each element to a new list copies it. */
  method CopyByIteration<E>(a: ArrayList<E>) returns (copy: ArrayList<E>)
    requires Valid(a)
    ensures Valid(copy) && Elements(copy) == Elements(a)
  {
    copy := New();
    var it := Iterator(a);
    while HasNext(a, it)
      invariant Synced(a, it)
      invariant Valid(copy) && Elements(copy) == Elements(a)[..it.nextToReturn]
      decreases a.size - it.nextToReturn
    {
      var (it', o) := Next(a, it);
      copy := Add(copy, o.value);
      it := it';
    }
  }

  /** The `next(); remove();` loop: removing every element through the iterator empties the
      list without ever tripping the fail-fast check. */
  method DrainByIteration<E>(a: ArrayList<E>) returns (b: ArrayList<E>)
    requires Valid(a)
    ensures Valid(b) && Elements(b) == []
    ensures b.modCount == a.modCount + a.size
  {
    b := a;
    var it := Iterator(a);
    while HasNext(b, it)
      invariant Synced(b, it) && it.nextToReturn == 0 && it.lastReturned == -1
      invariant b.modCount + b.size == a.modCount + a.size
      decreases b.size
    {
      var (it', o) := Next(b, it);
      var c := IterRemove(b, it');
      b, it := c.state.0, c.state.1;
    }
  }
}
