/** `DoubleIterator` (src/share/mod.rs): a pull iterator over a mutable slice
    that yields every ordered pair of distinct positions `(first, second)`.
    The raw pointers it hands out are modelled as `Ptr` values, an array and
    an index; the safety argument of the source becomes the proved statement
    that both indices are in bounds and distinct. */
module Share {
  import opened Wrappers
  import opened Pairs

  /** A raw pointer to one element of an array. */
  datatype Ptr<T> = Ptr(target: array<T>, index: nat) {
    /** The pointer designates an element of its array. */
    predicate InBounds() {
      index < target.Length
    }

    /** Two pointers alias when they designate the same element. */
    predicate Aliases(other: Ptr<T>) {
      target == other.target && index == other.index
    }
  }

  /** One call of a `safe_for_each` callback on the pair `p`: the callback
      receives the elements at `p.0` and `p.1` and writes back its two results. */
  function ApplyAt<T>(s: seq<T>, p: Pair, callback: (T, T) -> (T, T)): (r: seq<T>)
    requires IsPair(|s|, p)
    ensures |r| == |s|
    ensures (r[p.0], r[p.1]) == callback(s[p.0], s[p.1])
    ensures forall k :: 0 <= k < |s| && k != p.0 && k != p.1 ==> r[k] == s[k]
  {
    var v := callback(s[p.0], s[p.1]);
    s[p.0 := v.0][p.1 := v.1]
  }

  /** The callback applied to the pairs `ps`, in order. */
  function ApplyEach<T>(s: seq<T>, ps: seq<Pair>, callback: (T, T) -> (T, T)): (r: seq<T>)
    requires forall k :: 0 <= k < |ps| ==> IsPair(|s|, ps[k])
    ensures |r| == |s|
    decreases |ps|
  {
    if ps == [] then s else ApplyEach(ApplyAt(s, ps[0], callback), ps[1..], callback)
  }

  /** A position that no pair of `ps` names keeps its element. */
  lemma {:induction false} ApplyEachUntouched<T>(s: seq<T>, ps: seq<Pair>, callback: (T, T) -> (T, T), k: nat)
    requires forall i :: 0 <= i < |ps| ==> IsPair(|s|, ps[i])
    requires k < |s|
    requires forall i :: 0 <= i < |ps| ==> ps[i].0 != k && ps[i].1 != k
    ensures ApplyEach(s, ps, callback)[k] == s[k]
    decreases |ps|
  {
    if ps != [] {
      var t := ApplyAt(s, ps[0], callback);
      ApplyEachUntouched(t, ps[1..], callback, k);
    }
  }

  class DoubleIterator<T> {
    /** The borrowed slice; its length never changes. */
    const slice: array<T>
    var first: nat
    var second: nat

    /** The slice has at least two elements, and the iterator is either
        exhausted (`first == slice.Length`) or on a pair of distinct positions. */
    ghost predicate Valid()
      reads this
    {
      slice.Length >= 2 && Positioned(slice.Length, (first, second))
    }

    /** The pairs `next` still yields, in order. */
    ghost function Remaining(): (r: seq<Pair>)
      reads this
      requires Valid()
      ensures forall k :: 0 <= k < |r| ==> IsPair(slice.Length, r[k])
    {
      PendingPairs(slice.Length, (first, second));
      Pending(slice.Length, (first, second))
    }

    /** `new` panics on a slice shorter than 2; otherwise the first `next`
        yields `(0, 1)` and the whole enumeration lies ahead. */
    constructor (slice: array<T>)
      requires slice.Length >= 2
      ensures Valid()
      ensures this.slice == slice && first == 0 && second == 1
      ensures Remaining() == AllPairs(slice.Length)
    {
      this.slice := slice;
      first, second := 0, 1;
      new;
      FreshEnumeration(slice.Length);
    }

    /** The pointer to element `index`; its debug assertion is the precondition. */
    function NthPtr(index: nat): (p: Ptr<T>)
      requires index < slice.Length
      ensures p.InBounds() && p.target == slice && p.index == index
    {
      Ptr(slice, index)
    }

    /** Steps `(first, second)` to the next pair of distinct positions, or
        reports overflow, leaving `first == slice.Length` and `second == 0`. */
    method Increment() returns (ok: bool)
      requires Valid() && first < slice.Length
      modifies this
      ensures Valid()
      ensures (first, second) == Successor(slice.Length, (old(first), old(second)))
      ensures ok <==> first < slice.Length
      ensures !ok ==> first == slice.Length && second == 0
    {
      ghost var target := Successor(slice.Length, (first, second));
      while true
        invariant first < slice.Length && second < slice.Length
        invariant Successor(slice.Length, (first, second)) == target
        decreases slice.Length - first, slice.Length - second
      {
        second := second + 1;
        if second == slice.Length {
          second := 0;
          first := first + 1;
          if first >= slice.Length {
            return false;
          }
        }
        if first != second {
          return true;
        }
      }
    }

    /** Yields the pointers at the current pair and advances; once exhausted,
        yields `None` and leaves the state as it is. */
    method Next() returns (r: Option<(Ptr<T>, Ptr<T>)>)
      requires Valid()
      modifies this
      ensures Valid() && unchanged(slice)
      ensures old(first) == slice.Length ==> r.None? && first == old(first) && second == old(second)
      ensures old(first) < slice.Length ==> r == Some((Ptr(slice, old(first)), Ptr(slice, old(second))))
      ensures r.Some? ==> r.value.0.InBounds() && r.value.1.InBounds() && !r.value.0.Aliases(r.value.1)
      ensures old(Remaining()) == (if r.None? then [] else [(r.value.0.index, r.value.1.index)]) + Remaining()
    {
      if first == slice.Length {
        return None;
      }
      r := Some((NthPtr(first), NthPtr(second)));
      var _ := Increment();
    }

    /** `set` panics unless `i != j` and both are in range; otherwise the next
        `next` yields `(i, j)` and the enumeration resumes from there. */
    method Set(i: nat, j: nat)
      requires i != j
      requires i < slice.Length && j < slice.Length
      modifies this
      ensures Valid()
      ensures first == i && second == j
      ensures Remaining() == Pending(slice.Length, (i, j))
    {
      first := i;
      second := j;
    }

    /** Back to the first position: the whole enumeration lies ahead again. */
    method Reset()
      requires Valid()
      modifies this
      ensures Valid()
      ensures first == 0 && second == 1
      ensures Remaining() == AllPairs(slice.Length)
    {
      first := 0;
      second := 1;
      FreshEnumeration(slice.Length);
    }

    /** Hands every remaining pair, from the current position on, to the
        callback, which updates the two elements in place. */
    method SafeForEach(callback: (T, T) -> (T, T))
      requires Valid()
      modifies this, slice
      ensures Valid() && first == slice.Length
      ensures slice[..] == ApplyEach(old(slice[..]), old(Remaining()), callback)
    {
      ghost var todo := Remaining();
      var item := Next();
      while item.Some?
        invariant Valid()
        invariant item.Some? ==> item.value.0.target == slice && item.value.1.target == slice
        invariant item.Some? ==> IsPair(slice.Length, (item.value.0.index, item.value.1.index))
        invariant item.None? ==> first == slice.Length
        invariant todo == (if item.None? then [] else [(item.value.0.index, item.value.1.index)]) + Remaining()
        invariant ApplyEach(slice[..], todo, callback) == ApplyEach(old(slice[..]), old(Remaining()), callback)
        decreases |todo|
      {
        var (p, q) := item.value;
        ghost var before := slice[..];
        var v := callback(slice[p.index], slice[q.index]);
        slice[p.index] := v.0;
        slice[q.index] := v.1;
        assert slice[..] == ApplyAt(before, (p.index, q.index), callback);
        todo := todo[1..];
        item := Next();
      }
    }
  }

  // -----------------------------------------------------------------------
  // The unit tests of src/share/tests.rs, as clients of the class.
  // -----------------------------------------------------------------------

  /** Calls `next` until it yields `None`, collecting the positions of the
      pairs it yields: exactly the pairs that were pending. */
  method Drain<T>(it: DoubleIterator<T>) returns (out: seq<Pair>)
    requires it.Valid()
    modifies it
    ensures it.Valid() && it.first == it.slice.Length
    ensures out == old(it.Remaining())
  {
    ghost var all := it.Remaining();
    out := [];
    var item := it.Next();
    while item.Some?
      invariant it.Valid()
      invariant item.None? ==> it.first == it.slice.Length
      invariant out + (if item.None? then [] else [(item.value.0.index, item.value.1.index)]) + it.Remaining() == all
      decreases |it.Remaining()| + (if item.Some? then 1 else 0)
    {
      out := out + [(item.value.0.index, item.value.1.index)];
      item := it.Next();
    }
    assert it.Remaining() == [];
  }

  /** Drives a fresh iterator over `a` until it yields `None`, collecting the
      positions of every pair it yields: all ordered pairs of distinct
      positions, each position `n - 1` times as first and as second. */
  method CollectPairs<T>(a: array<T>) returns (out: seq<Pair>)
    requires a.Length >= 2
    ensures out == AllPairs(a.Length) && |out| == a.Length * (a.Length - 1)
    ensures forall x: nat :: x < a.Length ==> AsFirst(out, x) == a.Length - 1 && AsSecond(out, x) == a.Length - 1
  {
    var it := new DoubleIterator(a);
    out := Drain(it);
    AllPairsLength(a.Length);
    forall x: nat | x < a.Length
      ensures AsFirst(out, x) == a.Length - 1 && AsSecond(out, x) == a.Length - 1
    {
      AllPairsIndexCounts(a.Length, x);
    }
  }

  /** Over `[1, 2, 3, 4, 5]` the iterator yields twenty pairs, and each
      position is the first component exactly four times. */
  method FiveElementsAllPairs() returns (out: seq<Pair>)
    ensures |out| == 20
    ensures forall x: nat :: x < 5 ==> AsFirst(out, x) == 4
  {
    var a := new int[5] [1, 2, 3, 4, 5];
    out := CollectPairs(a);
  }

  /** Once consumed, the iterator keeps yielding `None`. */
  method DoesNotLoop() returns (r: Option<(Ptr<int>, Ptr<int>)>)
    ensures r.None?
  {
    var a := new int[5] [1, 2, 3, 4, 5];
    var it := new DoubleIterator(a);
    var _ := Drain(it);
    r := it.Next();
  }

  /** After exhaustion, `reset` makes `next` yield `(0, 1)` again. */
  method ResetAfterExhaustion() returns (r: Option<(Ptr<int>, Ptr<int>)>)
    ensures r.Some? && r.value.0.index == 0 && r.value.1.index == 1
  {
    var a := new int[5] [1, 2, 3, 4, 5];
    var it := new DoubleIterator(a);
    var _ := Drain(it);
    it.Reset();
    r := it.Next();
  }

  /** After exhaustion, `set(i, j)` makes `next` yield `(i, j)`. */
  method SetAfterExhaustion(i: nat, j: nat) returns (r: Option<(Ptr<int>, Ptr<int>)>)
    requires i != j && i < 5 && j < 5
    ensures r.Some? && r.value.0.index == i && r.value.1.index == j
  {
    var a := new int[5] [1, 2, 3, 4, 5];
    var it := new DoubleIterator(a);
    var _ := Drain(it);
    it.Set(i, j);
    r := it.Next();
  }

  /** Over a slice of five, a fresh iterator yields each position as the
      first component exactly four times. */
  lemma FiveElementsEachFirstFourTimes(x: nat)
    requires x < 5
    ensures AsFirst(Pending(5, (0, 1)), x) == 4
  {
    FreshEnumerationCounts(5, x, (0, 1));
  }
}
