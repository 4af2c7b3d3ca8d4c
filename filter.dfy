/** `Exclude` (src/filter/mod.rs): an iterator adaptor that skips the elements
    of its base iterator equal to an entry of a blacklist. The base iterator is
    the sequence of elements it would yield plus a cursor. */
module Filter {
  import opened Wrappers

  /** The elements of `xs` equal to no entry of `blacklist`, in their original order. */
  function Kept<T(==)>(xs: seq<T>, blacklist: seq<T>): (r: seq<T>)
    ensures |r| <= |xs|
  {
    if xs == [] then [] else (if xs[0] in blacklist then [] else [xs[0]]) + Kept(xs[1..], blacklist)
  }

  /** An element is kept exactly when it occurs in `xs` and not in the blacklist. */
  lemma {:induction false} KeptMembers<T>(xs: seq<T>, blacklist: seq<T>, x: T)
    ensures x in Kept(xs, blacklist) <==> x in xs && x !in blacklist
  {
    if xs != [] {
      KeptMembers(xs[1..], blacklist, x);
      assert xs == [xs[0]] + xs[1..];
    }
  }

  /** Filtering distributes over concatenation, so it keeps the original order. */
  lemma {:induction false} KeptAppend<T>(a: seq<T>, b: seq<T>, blacklist: seq<T>)
    ensures Kept(a + b, blacklist) == Kept(a, blacklist) + Kept(b, blacklist)
  {
    if a == [] {
      assert a + b == b;
    } else {
      assert (a + b)[1..] == a[1..] + b;
      KeptAppend(a[1..], b, blacklist);
    }
  }

  /** The blacklist after `exclude(v)`: `v` appended unless an entry equals it. */
  function Excluding<T(==)>(blacklist: seq<T>, v: T): (r: seq<T>)
    ensures v in r
    ensures v in blacklist ==> r == blacklist
    ensures v !in blacklist ==> |r| == |blacklist| + 1 && r[..|blacklist|] == blacklist && r[|blacklist|] == v
  {
    if v in blacklist then blacklist else blacklist + [v]
  }

  /** Excluding the same value twice gives the blacklist of excluding it once. */
  lemma ExcludingIdempotent<T>(blacklist: seq<T>, v: T)
    ensures Excluding(Excluding(blacklist, v), v) == Excluding(blacklist, v)
  {
    assert v in Excluding(blacklist, v);
  }

  /** The index of the first entry of `xs` equal to `v`, if any: the linear
      scan `iter().position(|x| x == &v)`. */
  method Position<T(==)>(xs: seq<T>, v: T) returns (r: Option<nat>)
    ensures r.None? <==> v !in xs
    ensures r.Some? ==> r.value < |xs| && xs[r.value] == v && v !in xs[..r.value]
  {
    var i := 0;
    while i < |xs|
      invariant 0 <= i <= |xs|
      invariant v !in xs[..i]
    {
      if xs[i] == v {
        return Some(i);
      }
      i := i + 1;
    }
    assert xs[..i] == xs;
    return None;
  }

  class Exclude<T(==)> {
    /** The blacklist, in insertion order. */
    var excluded: seq<T>
    /** The elements the base iterator yields, and how many it has yielded. */
    const items: seq<T>
    var cur: nat

    ghost predicate Valid()
      reads this
    {
      cur <= |items|
    }

    /** The elements the base iterator has still to yield. */
    ghost function Rest(): seq<T>
      reads this
      requires Valid()
    {
      items[cur..]
    }

    /** Wraps a base iterator with an empty blacklist. */
    constructor (base: seq<T>)
      ensures Valid() && items == base && cur == 0
      ensures excluded == []
    {
      items := base;
      cur := 0;
      excluded := [];
    }

    /** Wraps a base iterator with the given blacklist, kept as it is. */
    constructor WithBlacklist(base: seq<T>, blacklist: seq<T>)
      ensures Valid() && items == base && cur == 0
      ensures excluded == blacklist
    {
      items := base;
      cur := 0;
      excluded := blacklist;
    }

    /** Appends `v` to the blacklist unless an entry already equals it. */
    method Exclude(v: T)
      modifies this
      ensures cur == old(cur)
      ensures excluded == Excluding(old(excluded), v)
    {
      var at := Position(excluded, v);
      if at.None? {
        ForceExclude(v);
      }
    }

    /** Appends `v` to the blacklist even when it is already there. */
    method ForceExclude(v: T)
      modifies this
      ensures cur == old(cur)
      ensures excluded == old(excluded) + [v]
    {
      excluded := excluded + [v];
    }

    /** Consumes base elements up to and including the first one not in the
        blacklist and yields it; yields `None` once the base is exhausted. */
    method Next() returns (r: Option<T>)
      requires Valid()
      modifies this
      ensures Valid() && excluded == old(excluded)
      ensures r.None? ==> cur == |items|
      ensures r.Some? ==> old(cur) < cur && items[cur - 1] == r.value && r.value !in excluded
      ensures forall k :: old(cur) <= k < cur && (r.None? || k < cur - 1) ==> items[k] in excluded
      ensures Kept(old(Rest()), excluded) == (if r.None? then [] else [r.value]) + Kept(Rest(), excluded)
    {
      while true
        invariant old(cur) <= cur <= |items| && excluded == old(excluded)
        invariant forall k :: old(cur) <= k < cur ==> items[k] in excluded
        invariant Kept(old(Rest()), excluded) == Kept(items[cur..], excluded)
        decreases |items| - cur
      {
        if cur == |items| {
          return None;
        }
        var i := items[cur];
        assert items[cur..][1..] == items[cur + 1..];
        cur := cur + 1;
        var at := Position(excluded, i);
        if at.None? {
          return Some(i);
        }
      }
    }
  }

  // -----------------------------------------------------------------------
  // The unit tests of src/filter/tests.rs, as clients of the class.
  // -----------------------------------------------------------------------

  lemma KeptExample()
    ensures Kept([1, 2, 3, 4, 5], [3, 5]) == [1, 2, 4]
  {
    var bl := [3, 5];
    assert [1, 2, 3, 4, 5][1..] == [2, 3, 4, 5];
    assert [2, 3, 4, 5][1..] == [3, 4, 5];
    assert [3, 4, 5][1..] == [4, 5];
    assert [4, 5][1..] == [5];
    assert [5][1..] == [];
    assert Kept([5], bl) == [];
    assert Kept([4, 5], bl) == [4];
    assert Kept([3, 4, 5], bl) == [4];
    assert Kept([2, 3, 4, 5], bl) == [2, 4];
  }

  /** Calls `next` until it yields `None`, collecting what it yields. */
  method Collect<T(==)>(it: Exclude<T>) returns (out: seq<T>)
    requires it.Valid()
    modifies it
    ensures it.Valid() && it.excluded == old(it.excluded)
    ensures out == Kept(old(it.Rest()), it.excluded)
  {
    ghost var all := Kept(it.Rest(), it.excluded);
    out := [];
    var item := it.Next();
    while item.Some?
      invariant it.Valid() && it.excluded == old(it.excluded)
      invariant item.None? ==> it.cur == |it.items|
      invariant out + (if item.None? then [] else [item.value]) + Kept(it.Rest(), it.excluded) == all
      decreases |it.Rest()| + (if item.Some? then 1 else 0)
    {
      out := out + [item.value];
      item := it.Next();
    }
    assert it.Rest() == [];
  }

  /** Draining `[1, 2, 3, 4, 5]` with the blacklist `[3, 5]` yields `[1, 2, 4]`. */
  method ExcludeYieldsKept() returns (out: seq<int>)
    ensures out == [1, 2, 4]
  {
    var it := new Exclude.WithBlacklist([1, 2, 3, 4, 5], [3, 5]);
    KeptExample();
    assert it.Rest() == [1, 2, 3, 4, 5];
    out := Collect(it);
  }

  /** `exclude` adds 3 and 5 once each, which matches `with_blacklist(.., [3, 5])`;
      `force_exclude(3)` then adds 3 again. */
  method ExcludeConstruction() returns (once: seq<int>, forced: seq<int>)
    ensures once == [3, 5] && forced == [3, 5, 3]
  {
    var it := new Exclude([1, 2, 3, 4, 5]);
    it.Exclude(3);
    it.Exclude(5);
    it.Exclude(3);
    once := it.excluded;
    it.ForceExclude(3);
    forced := it.excluded;
  }
}
