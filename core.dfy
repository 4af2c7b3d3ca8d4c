/** The resettable-iterator capability of src/core/mod.rs, modelled on the
    `Count` iterator of its unit tests (src/core/tests.rs), and the
    `ResettableMap` adaptor that applies a callback to every element of a
    resettable iterator and forwards `reset` to it. */
module Core {
  import opened Wrappers

  /** The numbers `lo, lo + 1, ..., hi - 1`. */
  function Range(lo: nat, hi: nat): (r: seq<nat>)
    ensures |r| == if lo <= hi then hi - lo else 0
    ensures forall k :: 0 <= k < |r| ==> r[k] == lo + k
    decreases hi - lo
  {
    if lo >= hi then [] else [lo] + Range(lo + 1, hi)
  }

  /** The callback applied to every element of `xs`, in order. */
  function Mapped<A, B>(callback: A -> B, xs: seq<A>): (r: seq<B>)
    ensures |r| == |xs|
    ensures forall k :: 0 <= k < |xs| ==> r[k] == callback(xs[k])
  {
    if xs == [] then [] else [callback(xs[0])] + Mapped(callback, xs[1..])
  }

  /** A resettable iterator over `begin..end` whose cursor is `cur`. */
  class Count {
    const begin: nat
    var cur: nat
    const end: nat

    ghost predicate Valid()
      reads this
    {
      begin <= cur <= end
    }

    /** The numbers `next` still yields. */
    ghost function Remaining(): seq<nat>
      reads this
    {
      Range(cur, end)
    }

    constructor (begin: nat, cur: nat, end: nat)
      requires begin <= cur <= end
      ensures Valid() && this.begin == begin && this.cur == cur && this.end == end
    {
      this.begin, this.cur, this.end := begin, cur, end;
    }

    /** Yields `cur` and moves past it, or `None` once `cur` reaches `end`. */
    method Next() returns (r: Option<nat>)
      requires Valid()
      modifies this
      ensures Valid()
      ensures r.None? <==> old(cur) == end
      ensures r.None? ==> cur == old(cur)
      ensures r.Some? ==> r.value == old(cur) && cur == old(cur) + 1
      ensures old(Remaining()) == (if r.None? then [] else [r.value]) + Remaining()
    {
      if cur == end {
        return None;
      }
      cur := cur + 1;
      return Some(cur - 1);
    }

    /** Back to the first position: the whole range lies ahead again. */
    method Reset()
      requires Valid()
      modifies this
      ensures Valid() && cur == begin
      ensures Remaining() == Range(begin, end)
    {
      cur := begin;
    }

    /** An independent copy in the same state. */
    method Clone() returns (c: Count)
      requires Valid()
      ensures fresh(c) && c.Valid()
      ensures c.begin == begin && c.cur == cur && c.end == end
    {
      c := new Count(begin, cur, end);
    }

    /** `reset_clone`: a copy that has been reset; the original is unchanged. */
    method ResetClone() returns (c: Count)
      requires Valid()
      ensures fresh(c) && c.Valid()
      ensures c.begin == begin && c.cur == begin && c.end == end
      ensures c.Remaining() == Range(begin, end)
    {
      c := Clone();
      c.Reset();
    }
  }

  /** A map adaptor over a resettable iterator. */
  class ResettableMap<R> {
    const inner: Count
    const callback: nat -> R

    ghost predicate Valid()
      reads this, inner
    {
      inner.Valid()
    }

    /** What `next` still yields: the callback applied to what the wrapped iterator still yields. */
    ghost function Remaining(): seq<R>
      reads this, inner
    {
      Mapped(callback, inner.Remaining())
    }

    /** `resettable_map`: wraps the iterator and the callback and consumes nothing. */
    constructor (inner: Count, callback: nat -> R)
      requires inner.Valid()
      ensures Valid() && this.inner == inner && this.callback == callback
      ensures Remaining() == Mapped(callback, inner.Remaining())
    {
      this.inner := inner;
      this.callback := callback;
    }

    /** Pulls one element from the wrapped iterator and yields the callback's
        result on it; `None` exactly when the wrapped iterator yields `None`. */
    method Next() returns (r: Option<R>)
      requires Valid()
      modifies inner
      ensures Valid()
      ensures r.None? <==> old(inner.cur) == inner.end
      ensures r.None? ==> inner.cur == old(inner.cur)
      ensures r.Some? ==> r.value == callback(old(inner.cur)) && inner.cur == old(inner.cur) + 1
      ensures old(Remaining()) == (if r.None? then [] else [r.value]) + Remaining()
    {
      var item := inner.Next();
      if item.None? {
        return None;
      }
      return Some(callback(item.value));
    }

    /** Resets the wrapped iterator only; the mapped sequence replays from the start. */
    method Reset()
      requires Valid()
      modifies inner
      ensures Valid() && inner.cur == inner.begin
      ensures Remaining() == Mapped(callback, Range(inner.begin, inner.end))
    {
      inner.Reset();
    }
  }

  // -----------------------------------------------------------------------
  // The unit tests of src/core/tests.rs, as clients of the classes.
  // -----------------------------------------------------------------------

  /** Calls `next` on a counter until it yields `None`, collecting what it yields. */
  method CollectCount(it: Count) returns (out: seq<nat>)
    requires it.Valid()
    modifies it
    ensures it.Valid() && it.cur == it.end
    ensures out == old(it.Remaining())
  {
    ghost var all := it.Remaining();
    out := [];
    var item := it.Next();
    while item.Some?
      invariant it.Valid()
      invariant item.None? ==> it.cur == it.end
      invariant out + (if item.None? then [] else [item.value]) + it.Remaining() == all
      decreases it.end - it.cur + (if item.Some? then 1 else 0)
    {
      out := out + [item.value];
      item := it.Next();
    }
    assert it.Remaining() == [];
  }

  /** `Count { begin: 0, cur: 0, end: 6 }` yields 0 to 5. */
  method CountIteratesWell() returns (out: seq<nat>)
    ensures out == [0, 1, 2, 3, 4, 5]
  {
    var it := new Count(0, 0, 6);
    var expected := [0, 1, 2, 3, 4, 5];
    assert |it.Remaining()| == 6;
    assert forall k :: 0 <= k < 6 ==> it.Remaining()[k] == expected[k];
    out := CollectCount(it);
  }

  /** `Count { begin: 0, cur: 0, end: 6 }`: two `next`, `reset`, then `next` yields 0. */
  method CountResetsWell() returns (r: Option<nat>)
    ensures r == Some(0)
  {
    var it := new Count(0, 0, 6);
    var _ := it.Next();
    var _ := it.Next();
    it.Reset();
    r := it.Next();
  }

  /** Calls `next` until it yields `None`, collecting what it yields. */
  method Collect<R>(m: ResettableMap<R>) returns (out: seq<R>)
    requires m.Valid()
    modifies m.inner
    ensures m.Valid() && m.inner.cur == m.inner.end
    ensures out == old(m.Remaining())
  {
    ghost var all := m.Remaining();
    out := [];
    var item := m.Next();
    while item.Some?
      invariant m.Valid()
      invariant item.None? ==> m.inner.cur == m.inner.end
      invariant out + (if item.None? then [] else [item.value]) + m.Remaining() == all
      decreases m.inner.end - m.inner.cur + (if item.Some? then 1 else 0)
    {
      out := out + [item.value];
      item := m.Next();
    }
    assert Range(m.inner.cur, m.inner.end) == [];
  }

  /** Mapping `Count { begin: 0, cur: 0, end: 6 }` with `x + 1` yields 1 to 6. */
  method ResettableMapIteratesWell() returns (out: seq<nat>)
    ensures out == [1, 2, 3, 4, 5, 6]
  {
    var it := new Count(0, 0, 6);
    var m := new ResettableMap(it, (x: nat) => x + 1);
    var expected := [1, 2, 3, 4, 5, 6];
    assert |m.Remaining()| == 6;
    assert forall k :: 0 <= k < 6 ==> m.Remaining()[k] == expected[k];
    out := Collect(m);
  }

  /** Three `next` on the mapped counter, `reset`, then `next` yields 1 again. */
  method ResettableMapResetsWell() returns (r: Option<nat>)
    ensures r == Some(1)
  {
    var it := new Count(0, 0, 6);
    var m := new ResettableMap(it, (x: nat) => x + 1);
    var _ := m.Next();
    var _ := m.Next();
    var _ := m.Next();
    assert it.cur == 3;
    m.Reset();
    assert it.cur == 0 && it.end == 6;
    r := m.Next();
  }
}
