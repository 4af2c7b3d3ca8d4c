/** The order in which `DoubleIterator` (src/share/mod.rs) visits the ordered
    pairs of distinct positions of a slice of length `n`, as pure functions,
    with the facts the iterator relies on: the lexicographic successor used by
    `increment`, the sequence of pairs `next` still yields from a state, and a
    row-by-row reference enumeration it is proved equal to. */
module Pairs {

  /** A pair of positions `(first, second)`. */
  type Pair = (nat, nat)

  /** `p` comes strictly before `q` in lexicographic order, `second` varying fastest. */
  predicate Before(p: Pair, q: Pair) {
    p.0 < q.0 || (p.0 == q.0 && p.1 < q.1)
  }

  /** `p` is an ordered pair of two distinct positions of a slice of length `n`. */
  predicate IsPair(n: nat, p: Pair) {
    p.0 < n && p.1 < n && p.0 != p.1
  }

  /** The iterator invariant: either exhausted (`first == n`) or positioned on a pair. */
  predicate Positioned(n: nat, p: Pair) {
    p.0 == n || IsPair(n, p)
  }

  /** The state `increment` leaves behind: the two-level counter is stepped
      (`second` fastest, wrapping to 0 and bumping `first`) until it leaves
      the diagonal, or `(n, 0)` once `first` runs off the end. */
  function Successor(n: nat, p: Pair): (r: Pair)
    requires p.0 < n && p.1 < n
    ensures r == (n, 0) || IsPair(n, r)
    ensures Before(p, r)
    decreases n - p.0, n - p.1
  {
    var q := if p.1 + 1 == n then (p.0 + 1, 0) else (p.0, p.1 + 1);
    if q.0 >= n then (n, 0)
    else if q.0 != q.1 then q
    else Successor(n, q)
  }

  /** `Successor` skips no pair: no pair of distinct positions lies strictly
      between `p` and its successor, so `(n, 0)` means that none is left. */
  lemma {:induction false} SuccessorIsNext(n: nat, p: Pair, q: Pair)
    requires p.0 < n && p.1 < n
    requires IsPair(n, q) && Before(p, q)
    ensures !Before(q, Successor(n, p))
    decreases n - p.0, n - p.1
  {
    var s := if p.1 + 1 == n then (p.0 + 1, 0) else (p.0, p.1 + 1);
    if s.0 < n && s.0 == s.1 && q != s {
      SuccessorIsNext(n, s, q);
    }
  }

  /** The pairs `next` yields, in order, when called repeatedly from state `p`. */
  function Pending(n: nat, p: Pair): (r: seq<Pair>)
    requires Positioned(n, p)
    ensures r == [] <==> p.0 == n
    ensures p.0 < n ==> r[0] == p
    decreases n - p.0, n - p.1
  {
    if p.0 == n then [] else [p] + Pending(n, Successor(n, p))
  }

  /** Every pair `next` yields has two distinct in-bounds positions and
      does not come before the state it started from. */
  lemma {:induction false} PendingPairs(n: nat, p: Pair)
    requires Positioned(n, p)
    ensures forall k :: 0 <= k < |Pending(n, p)| ==> IsPair(n, Pending(n, p)[k]) && !Before(Pending(n, p)[k], p)
    decreases n - p.0, n - p.1
  {
    if p.0 < n {
      var s := Successor(n, p);
      PendingPairs(n, s);
      var rest := Pending(n, s);
      assert Pending(n, p) == [p] + rest;
      forall k | 0 <= k < |Pending(n, p)|
        ensures IsPair(n, Pending(n, p)[k]) && !Before(Pending(n, p)[k], p)
      {
        if k > 0 {
          assert Pending(n, p)[k] == rest[k - 1];
        }
      }
    }
  }

  // ---------------------------------------------------------------------
  // Reference enumeration: the double loop without the diagonal.
  // ---------------------------------------------------------------------

  /** Row `i` of the double loop from column `j` on, the diagonal left out. */
  function RowFrom(n: nat, i: nat, j: nat): seq<Pair>
    decreases n - j
  {
    if j >= n then [] else (if j == i then [] else [(i, j)]) + RowFrom(n, i, j + 1)
  }

  /** Rows `i`, `i + 1`, ..., `n - 1` of the double loop. */
  function PairsFrom(n: nat, i: nat): seq<Pair>
    decreases n - i
  {
    if i >= n then [] else RowFrom(n, i, 0) + PairsFrom(n, i + 1)
  }

  /** Every ordered pair of distinct positions below `n`, row by row. */
  function AllPairs(n: nat): seq<Pair> {
    PairsFrom(n, 0)
  }

  /** How often the pair `q` occurs in `ps`. */
  function Occurrences(ps: seq<Pair>, q: Pair): nat {
    if ps == [] then 0 else (if ps[0] == q then 1 else 0) + Occurrences(ps[1..], q)
  }

  /** How often `x` occurs as the first position of a pair in `ps`. */
  function AsFirst(ps: seq<Pair>, x: nat): nat {
    if ps == [] then 0 else (if ps[0].0 == x then 1 else 0) + AsFirst(ps[1..], x)
  }

  /** How often `x` occurs as the second position of a pair in `ps`. */
  function AsSecond(ps: seq<Pair>, x: nat): nat {
    if ps == [] then 0 else (if ps[0].1 == x then 1 else 0) + AsSecond(ps[1..], x)
  }

  // ---------------------------------------------------------------------
  // The reference enumeration: contents, length, per-index counts.
  // ---------------------------------------------------------------------

  lemma {:induction false} RowFromCount(n: nat, i: nat, j: nat, q: Pair)
    ensures Occurrences(RowFrom(n, i, j), q) == if q.0 == i && j <= q.1 < n && q.1 != i then 1 else 0
    decreases n - j
  {
    if j < n {
      OccurrencesAppend(if j == i then [] else [(i, j)], RowFrom(n, i, j + 1), q);
      RowFromCount(n, i, j + 1, q);
    }
  }

  lemma {:induction false} PairsFromCount(n: nat, i: nat, q: Pair)
    ensures Occurrences(PairsFrom(n, i), q) == if i <= q.0 && IsPair(n, q) then 1 else 0
    decreases n - i
  {
    if i < n {
      OccurrencesAppend(RowFrom(n, i, 0), PairsFrom(n, i + 1), q);
      RowFromCount(n, i, 0, q);
      PairsFromCount(n, i + 1, q);
    }
  }

  /** Every ordered pair of distinct positions appears in `AllPairs(n)` exactly
      once, and nothing else appears in it. */
  lemma AllPairsExactlyOnce(n: nat, q: Pair)
    ensures Occurrences(AllPairs(n), q) == if IsPair(n, q) then 1 else 0
  {
    PairsFromCount(n, 0, q);
  }

  lemma {:induction false} RowFromLength(n: nat, i: nat, j: nat)
    requires j <= n
    ensures |RowFrom(n, i, j)| == n - j - (if j <= i < n then 1 else 0)
    decreases n - j
  {
    if j < n {
      RowFromLength(n, i, j + 1);
    }
  }

  lemma {:induction false} PairsFromLength(n: nat, i: nat)
    requires i <= n
    ensures |PairsFrom(n, i)| == (n - i) * (n - 1)
    decreases n - i
  {
    if i < n {
      RowFromLength(n, i, 0);
      PairsFromLength(n, i + 1);
      assert (n - i) * (n - 1) == (n - 1) + (n - (i + 1)) * (n - 1);
    }
  }

  /** A slice of length `n` has exactly `n * (n - 1)` ordered pairs of distinct positions. */
  lemma AllPairsLength(n: nat)
    ensures |AllPairs(n)| == n * (n - 1)
  {
    PairsFromLength(n, 0);
  }

  lemma {:induction false} AsFirstAppend(a: seq<Pair>, b: seq<Pair>, x: nat)
    ensures AsFirst(a + b, x) == AsFirst(a, x) + AsFirst(b, x)
  {
    if a != [] {
      assert (a + b)[1..] == a[1..] + b;
      AsFirstAppend(a[1..], b, x);
    } else {
      assert a + b == b;
    }
  }

  lemma {:induction false} AsSecondAppend(a: seq<Pair>, b: seq<Pair>, x: nat)
    ensures AsSecond(a + b, x) == AsSecond(a, x) + AsSecond(b, x)
  {
    if a != [] {
      assert (a + b)[1..] == a[1..] + b;
      AsSecondAppend(a[1..], b, x);
    } else {
      assert a + b == b;
    }
  }

  lemma {:induction false} RowFromCounts(n: nat, i: nat, j: nat, x: nat)
    requires j <= n
    ensures AsFirst(RowFrom(n, i, j), x) == if x == i then |RowFrom(n, i, j)| else 0
    ensures AsSecond(RowFrom(n, i, j), x) == if j <= x < n && x != i then 1 else 0
    decreases n - j
  {
    if j < n {
      var head := if j == i then [] else [(i, j)];
      AsFirstAppend(head, RowFrom(n, i, j + 1), x);
      AsSecondAppend(head, RowFrom(n, i, j + 1), x);
      RowFromCounts(n, i, j + 1, x);
    }
  }

  lemma {:induction false} PairsFromCounts(n: nat, i: nat, x: nat)
    requires i <= n
    ensures AsFirst(PairsFrom(n, i), x) == if i <= x < n then n - 1 else 0
    ensures AsSecond(PairsFrom(n, i), x) == if x < n then (n - i) - (if i <= x then 1 else 0) else 0
    decreases n - i
  {
    if i < n {
      AsFirstAppend(RowFrom(n, i, 0), PairsFrom(n, i + 1), x);
      AsSecondAppend(RowFrom(n, i, 0), PairsFrom(n, i + 1), x);
      RowFromCounts(n, i, 0, x);
      RowFromLength(n, i, 0);
      PairsFromCounts(n, i + 1, x);
    }
  }

  /** Over the whole enumeration each position is the first component of
      exactly `n - 1` pairs, and the second component of exactly `n - 1`. */
  lemma AllPairsIndexCounts(n: nat, x: nat)
    requires x < n
    ensures AsFirst(AllPairs(n), x) == n - 1
    ensures AsSecond(AllPairs(n), x) == n - 1
  {
    PairsFromCounts(n, 0, x);
  }

  // ---------------------------------------------------------------------
  // What the iterator yields is the reference enumeration.
  // ---------------------------------------------------------------------

  /** The reference enumeration from pair `p` on: the rest of `p`'s row,
      then every later row; nothing from an exhausted state. */
  function ReferenceFrom(n: nat, p: Pair): seq<Pair> {
    if p.0 < n then RowFrom(n, p.0, p.1) + PairsFrom(n, p.0 + 1) else []
  }

  /** At the end of a row, `increment` wraps to the start of the next row,
      or to `(n, 0)` after the last row. */
  lemma SuccessorRowsWrap(n: nat, p: Pair)
    requires p.0 < n && p.1 + 1 == n
    ensures RowFrom(n, p.0, p.1 + 1) + PairsFrom(n, p.0 + 1) == ReferenceFrom(n, Successor(n, p))
  {
    assert RowFrom(n, p.0, p.1 + 1) == [];
    if p.0 + 1 < n {
      assert Successor(n, p) == (p.0 + 1, 0);
    } else {
      assert Successor(n, p) == (n, 0);
    }
  }

  /** Inside a row and off the diagonal, `increment` moves one column on. */
  lemma SuccessorRowsStep(n: nat, p: Pair)
    requires p.0 < n && p.1 + 1 < n && p.0 != p.1 + 1
    ensures RowFrom(n, p.0, p.1 + 1) + PairsFrom(n, p.0 + 1) == ReferenceFrom(n, Successor(n, p))
  {
    assert Successor(n, p) == (p.0, p.1 + 1);
  }

  /** One call of `Successor` moves from the rest of the current row to the
      start of the next pair of the reference enumeration, skipping the diagonal. */
  lemma {:induction false} SuccessorRows(n: nat, p: Pair)
    requires p.0 < n && p.1 < n
    ensures RowFrom(n, p.0, p.1 + 1) + PairsFrom(n, p.0 + 1) == ReferenceFrom(n, Successor(n, p))
    decreases n - p.0, n - p.1
  {
    if p.1 + 1 == n {
      SuccessorRowsWrap(n, p);
    } else if p.0 != p.1 + 1 {
      SuccessorRowsStep(n, p);
    } else {
      assert Successor(n, p) == Successor(n, (p.0, p.1 + 1));
      assert RowFrom(n, p.0, p.1 + 1) == RowFrom(n, p.0, p.1 + 2);
      SuccessorRows(n, (p.0, p.1 + 1));
    }
  }

  /** From any state, `next` yields exactly the reference enumeration from
      that state on. */
  lemma {:induction false} PendingRows(n: nat, p: Pair)
    requires Positioned(n, p)
    ensures Pending(n, p) == ReferenceFrom(n, p)
    decreases n - p.0, n - p.1
  {
    if p.0 < n {
      var s := Successor(n, p);
      PendingRows(n, s);
      ReferenceFromStep(n, p);
    }
  }

  /** The inductive step of `PendingRows`: the reference enumeration from a
      pair is that pair followed by the reference enumeration from its successor. */
  lemma ReferenceFromStep(n: nat, p: Pair)
    requires IsPair(n, p)
    ensures ReferenceFrom(n, p) == [p] + ReferenceFrom(n, Successor(n, p))
  {
    var row, later := RowFrom(n, p.0, p.1 + 1), PairsFrom(n, p.0 + 1);
    SuccessorRows(n, p);
    RowFromHead(n, p);
    ReferenceFromPair(n, p);
    ConcatAssoc([p], row, later);
  }

  // Associativity kept as an opaque step so the solver need not unfold the sequences around it.
  lemma ConcatAssoc(a: seq<Pair>, b: seq<Pair>, c: seq<Pair>)
    ensures (a + b) + c == a + (b + c)
  {
  }

  // One unfolding of `ReferenceFrom`, stated apart to control how far the solver unfolds it.
  lemma ReferenceFromPair(n: nat, p: Pair)
    requires p.0 < n
    ensures ReferenceFrom(n, p) == RowFrom(n, p.0, p.1) + PairsFrom(n, p.0 + 1)
  {
  }

  // One unfolding of `RowFrom` at a pair, stated apart to control how far the solver unfolds it.
  lemma RowFromHead(n: nat, p: Pair)
    requires IsPair(n, p)
    ensures RowFrom(n, p.0, p.1) == [p] + RowFrom(n, p.0, p.1 + 1)
  {
  }

  /** A fresh iterator (state `(0, 1)`) yields exactly the reference enumeration. */
  lemma FreshEnumeration(n: nat)
    requires n >= 2
    ensures Pending(n, (0, 1)) == AllPairs(n)
  {
    PendingRows(n, (0, 1));
    assert RowFrom(n, 0, 0) == RowFrom(n, 0, 1);
  }

  lemma {:induction false} OccurrencesAppend(a: seq<Pair>, b: seq<Pair>, q: Pair)
    ensures Occurrences(a + b, q) == Occurrences(a, q) + Occurrences(b, q)
  {
    if a == [] {
      assert a + b == b;
    } else {
      assert (a + b)[1..] == a[1..] + b;
      OccurrencesAppend(a[1..], b, q);
    }
  }

  /** The reference enumeration from `p` holds each pair at or after `p`
      exactly once, and nothing else. */
  lemma ReferenceFromCount(n: nat, p: Pair, q: Pair)
    requires Positioned(n, p)
    ensures Occurrences(ReferenceFrom(n, p), q) == if IsPair(n, q) && !Before(q, p) then 1 else 0
  {
    if p.0 < n {
      var row, later := RowFrom(n, p.0, p.1), PairsFrom(n, p.0 + 1);
      RowFromCount(n, p.0, p.1, q);
      PairsFromCount(n, p.0 + 1, q);
      OccurrencesAppend(row, later, q);
    }
  }

  /** From a positioned state `p`, `next` yields every pair at or after `p`
      exactly once and nothing else: no pair is replayed and none is missed. */
  lemma PendingExactlyOnce(n: nat, p: Pair, q: Pair)
    requires Positioned(n, p)
    ensures Occurrences(Pending(n, p), q) == if IsPair(n, q) && !Before(q, p) then 1 else 0
  {
    PendingRows(n, p);
    ReferenceFromCount(n, p, q);
  }

  /** The pairs come in strictly increasing lexicographic order. */
  lemma {:induction false} PendingSorted(n: nat, p: Pair)
    requires Positioned(n, p)
    ensures forall i, j :: 0 <= i < j < |Pending(n, p)| ==> Before(Pending(n, p)[i], Pending(n, p)[j])
    decreases n - p.0, n - p.1
  {
    if p.0 < n {
      var s := Successor(n, p);
      var rest := Pending(n, s);
      PendingSorted(n, s);
      PendingPairs(n, s);
      var r := Pending(n, p);
      assert r == [p] + rest;
      forall i, j | 0 <= i < j < |r|
        ensures Before(r[i], r[j])
      {
        assert r[j] == rest[j - 1] && !Before(rest[j - 1], s);
        if i > 0 {
          assert r[i] == rest[i - 1] && Before(rest[i - 1], rest[j - 1]);
        } else {
          assert r[i] == p && Before(p, s);
        }
      }
    }
  }

  /** Driven from a fresh iterator, `next` yields `n * (n - 1)` pairs, every
      ordered pair of distinct positions exactly once, each position `n - 1`
      times as the first and `n - 1` times as the second component. */
  lemma FreshEnumerationCounts(n: nat, x: nat, q: Pair)
    requires n >= 2 && x < n
    ensures |Pending(n, (0, 1))| == n * (n - 1)
    ensures Occurrences(Pending(n, (0, 1)), q) == if IsPair(n, q) then 1 else 0
    ensures AsFirst(Pending(n, (0, 1)), x) == n - 1 && AsSecond(Pending(n, (0, 1)), x) == n - 1
  {
    FreshEnumeration(n);
    AllPairsLength(n);
    AllPairsExactlyOnce(n, q);
    AllPairsIndexCounts(n, x);
  }
}
