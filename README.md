# iterators-collection: a verified model of its iteration primitives

This project models three parts of the Rust library `iterators-collection`.

- **`DoubleIterator`** (src/share/mod.rs) is the main part. It borrows a mutable slice and yields every ordered pair of distinct positions `(first, second)`, one pair per `next`. The order is lexicographic: `second` varies fastest and the diagonal is skipped. It also offers `set`, `reset` and `safe_for_each`, which hands each remaining pair to a callback that may update both elements.
- **`Exclude`** (src/filter/mod.rs) skips the elements of a base iterator that equal an entry of a blacklist. `exclude` adds a value once. `force_exclude` always adds it.
- **`ResettableIterator`** and **`ResettableMap`** (src/core/mod.rs) form a capability and an adaptor. The capability is `reset` plus `reset_clone`. `ResettableMap` applies a callback to each element of a resettable iterator and forwards `reset` to it.

Files:

- `wrappers.dfy`: `Option`, which every `next` returns.
- `pairs.dfy` (module `Pairs`): the enumeration behind `DoubleIterator`, as pure functions.
  - `Successor` is the state `increment` reaches.
  - `Pending` is the sequence `next` still yields from a state.
  - `AllPairs`, built from `RowFrom` and `PairsFrom`, is a row-by-row reference version of the double loop without the diagonal.
  - The lemmas prove that `Pending` equals the reference enumeration and count it: `n * (n - 1)` pairs, each distinct pair exactly once, each position `n - 1` times as first and as second, in strictly increasing order.
- `share.dfy` (module `Share`): the class `DoubleIterator` over an `array<T>`.
  - A raw pointer is modelled as a `Ptr` value: an array plus an index.
  - Non-aliasing is the proved fact that both indices are in bounds and distinct.
  - `safe_for_each` takes a pure callback `(T, T) -> (T, T)` and writes its two results back in place.
- `filter.dfy` (module `Filter`): the class `Exclude`.
  - The base iterator is a constant sequence `items` plus a cursor `cur`.
  - The blacklist is a `seq<T>` compared by value.
  - `Position` is the linear scan `iter().position(..)`.
- `core.dfy` (module `Core`): the resettable iterator and the adaptor.
  - The resettable iterator is the `Count` iterator of src/core/tests.rs (`begin`, `cur`, `end`).
  - `ResettableMap` wraps a `Count` and a pure callback.

Each class has a `Valid()` invariant and a ghost `Remaining()`: the sequence that repeated `next` calls would yield. Every `next` states that the old `Remaining()` is what it yields followed by the new `Remaining()`. The unit tests of each module are modelled as client methods or lemmas whose postconditions are the tests' expected results. The two exceptions in src/share/tests.rs are listed under "## Left out".

Two behaviours of the code shape the model:

- `new` and `set` panic on bad arguments (`assert!`, `assert_ne!`). The panics are modelled as preconditions.
- `set(i, j)` moves the iterator to `(i, j)`, and the enumeration resumes from there in lexicographic order. It yields every pair at or after `(i, j)`, including pairs already yielded before the `set`. Pairs before `(i, j)` are never yielded.

## Model

| member | source | states |
|---|---|---|
| Pairs.Successor | src/share/mod.rs:84-103 | from an in-bounds state, `increment` moves strictly forward in lexicographic order and lands either on a pair of distinct in-bounds positions or on the overflow state `(len, 0)` |
| Pairs.SuccessorIsNext | src/share/mod.rs:84-103 | `increment` skips no pair: no pair of distinct positions lies strictly between a state and its successor, so `(len, 0)` means that no pair is left |
| Pairs.Pending | src/share/mod.rs:159-168 | the sequence repeated `next` yields is empty exactly when `first == len`, and otherwise starts with the current pair `(first, second)` |
| Pairs.PendingPairs | src/share/mod.rs:159-168 | every pair `next` yields has two distinct in-bounds positions and does not come before the state it started from |
| Pairs.PendingSorted | src/share/mod.rs:84-103 | the yielded pairs are in strictly increasing lexicographic order, `second` fastest |
| Pairs.PendingExactlyOnce | src/share/mod.rs:141-147 | from any state (for example one made by `set`), `next` yields every pair of distinct positions at or after it exactly once and nothing else |
| Pairs.PendingRows | src/share/mod.rs:84-103 | from any valid state, the pairs `next` yields are exactly the reference double loop without the diagonal, from that pair on |
| Pairs.SuccessorRows | src/share/mod.rs:86-101 | one `increment` continues the reference enumeration: at the end of a row it wraps to column 0 of the next row, and it skips the diagonal |
| Pairs.FreshEnumeration | src/share/mod.rs:61-70 | from the initial state `(0, 1)`, `next` yields exactly the reference enumeration of all ordered pairs of distinct positions |
| Pairs.FreshEnumerationCounts | src/share/tests.rs:18-30 | a fresh iterator over `n >= 2` elements yields `n * (n - 1)` pairs, each ordered pair of distinct positions exactly once, and each position `n - 1` times as first and `n - 1` times as second |
| Pairs.AllPairsExactlyOnce | src/share/mod.rs:3-32 | the reference enumeration contains each ordered pair of distinct positions exactly once and no pair with equal or out-of-range positions |
| Pairs.AllPairsLength | src/share/mod.rs:3-32 | the reference enumeration has `n * (n - 1)` pairs |
| Pairs.AllPairsIndexCounts | src/share/tests.rs:18-30 | in the reference enumeration each position is the first component `n - 1` times and the second component `n - 1` times |
| Share.FiveElementsEachFirstFourTimes | src/share/tests.rs:18-30 | over five elements, a fresh iterator yields each position as `first` exactly four times |
| Share.DoubleIterator.constructor | src/share/mod.rs:61-70 | requires a slice of at least 2 elements (the panic); starts at `(0, 1)` with the whole enumeration ahead |
| Share.DoubleIterator.NthPtr | src/share/mod.rs:78-81 | requires `index < len` (the debug assertion); yields an in-bounds pointer to that element of the borrowed slice |
| Share.DoubleIterator.Increment | src/share/mod.rs:84-103 | the loop reaches exactly `Successor` of the old state; returns `Err` (false) exactly when `first` reaches `len`, leaving `first == len` and `second == 0`; keeps the invariant |
| Share.DoubleIterator.Next | src/share/mod.rs:159-168 | when exhausted, yields `None` and leaves the state unchanged; otherwise yields pointers to `first` and `second` of the old state, which are in bounds and do not alias, and then increments; the pending sequence loses exactly the yielded pair; slice contents unchanged |
| Share.DoubleIterator.Set | src/share/mod.rs:141-147 | requires `i != j`, `i < len` and `j < len` (the panics); the state becomes `(i, j)`, so the next `next` yields `(i, j)` even after exhaustion, and the enumeration continues from there |
| Share.DoubleIterator.Reset | src/share/mod.rs:150-153 | the state becomes `(0, 1)` and the whole enumeration lies ahead again |
| Share.DoubleIterator.SafeForEach | src/share/mod.rs:122-128 | the callback runs once per remaining pair, from the current position on and in order, each time on the elements at `first` and `second`; the iterator ends exhausted |
| Share.ApplyAt | src/share/mod.rs:124-126 | one callback call writes its two results to positions `first` and `second` and changes no other position |
| Share.ApplyEachUntouched | src/share/mod.rs:122-128 | a position that no remaining pair names keeps its element through `safe_for_each` |
| Share.Drain | src/share/tests.rs:33-41 | calling `next` until it yields `None` collects exactly the pairs that were pending, in order, and leaves the iterator exhausted |
| Share.CollectPairs | src/share/tests.rs:18-30 | a fresh iterator over `n >= 2` elements, driven to the end, yields the reference enumeration of all `n * (n - 1)` ordered pairs of distinct positions, with each position `n - 1` times as first and `n - 1` times as second |
| Share.FiveElementsAllPairs | src/share/tests.rs:18-30 | driving the iterator over `[1, 2, 3, 4, 5]` yields twenty pairs, with each position first exactly four times |
| Share.DoesNotLoop | src/share/tests.rs:33-41 | after the iterator is consumed, `next` yields `None` again |
| Share.ResetAfterExhaustion | src/share/tests.rs:55-63 | after exhaustion and `reset`, `next` yields the pair `(0, 1)` |
| Share.SetAfterExhaustion | src/share/tests.rs:66-74 | after exhaustion and `set(i, j)`, `next` yields the pair `(i, j)` |
| Filter.Kept | src/filter/mod.rs:55-66 | filtering never lengthens the base sequence |
| Filter.KeptMembers | src/filter/mod.rs:55-66 | an element is yielded exactly when it occurs in the base sequence and equals no blacklist entry |
| Filter.KeptAppend | src/filter/mod.rs:55-66 | filtering distributes over concatenation, so the yielded elements keep their original order |
| Filter.Excluding | src/filter/mod.rs:36-40 | after `exclude(v)` the blacklist contains `v`; it is unchanged when some entry equals `v`, and otherwise `v` is appended at the end |
| Filter.ExcludingIdempotent | src/filter/mod.rs:36-40 | excluding a value twice gives the same blacklist as excluding it once |
| Filter.Position | src/filter/mod.rs:37 | the scan finds nothing exactly when no entry equals `v`; otherwise it returns the index of the first equal entry |
| Filter.Exclude.constructor | src/filter/mod.rs:20-25 | wraps the base iterator with an empty blacklist |
| Filter.Exclude.WithBlacklist | src/filter/mod.rs:28-33 | wraps the base iterator with the given blacklist, kept verbatim in its order |
| Filter.Exclude.Exclude | src/filter/mod.rs:36-40 | the blacklist becomes `Excluding(old blacklist, v)`; the base iterator is untouched |
| Filter.Exclude.ForceExclude | src/filter/mod.rs:43-45 | appends `v` at the end even when it is already present |
| Filter.Exclude.Next | src/filter/mod.rs:55-66 | consumes every blacklisted base element up to and including the first one not in the blacklist, and yields that one; yields `None` only once the base is exhausted; never changes the blacklist; what is left to yield shrinks by exactly the yielded element |
| Filter.Collect | src/filter/tests.rs:6-12 | draining the filter yields the base sequence filtered by non-membership, in original order |
| Filter.ExcludeYieldsKept | src/filter/tests.rs:6-12 | `[1, 2, 3, 4, 5]` with the blacklist `[3, 5]` yields `[1, 2, 4]` |
| Filter.ExcludeConstruction | src/filter/tests.rs:15-29 | `exclude(3)`, `exclude(5)`, `exclude(3)` give `[3, 5]`, and `force_exclude(3)` then gives `[3, 5, 3]` |
| Core.Count.Next | src/core/tests.rs:12-20 | yields `None` exactly when `cur == end`; otherwise yields `cur` and advances by one |
| Core.Count.Reset | src/core/tests.rs:23-25 | moves the cursor back to `begin`, so the whole range lies ahead again |
| Core.Count.ResetClone | src/core/mod.rs:9-16 | returns a fresh copy that has been reset, with the same bounds; the original is unchanged |
| Core.ResettableMap.constructor | src/core/mod.rs:19-28 | `resettable_map` only wraps the iterator and the callback; nothing is consumed and the mapped sequence is the callback over what the iterator still yields |
| Core.ResettableMap.Next | src/core/mod.rs:46-51 | yields `None` exactly when the wrapped iterator does; otherwise consumes exactly one inner element `x` and yields `callback(x)` |
| Core.ResettableMap.Reset | src/core/mod.rs:59-61 | resets only the wrapped iterator; the callback is untouched and the mapped sequence replays from the start |
| Core.Collect | src/core/tests.rs:49-57 | draining the adaptor yields the callback applied to every remaining inner element, in order |
| Core.CollectCount | src/core/tests.rs:29-36 | draining a counter yields every remaining number from `cur` up to `end - 1`, in order |
| Core.CountIteratesWell | src/core/tests.rs:29-36 | `Count{0,0,6}` yields `0, 1, 2, 3, 4, 5` |
| Core.CountResetsWell | src/core/tests.rs:39-46 | two `next` on `Count{0,0,6}`, then `reset`, then `next` yields `Some(0)` |
| Core.ResettableMapIteratesWell | src/core/tests.rs:49-57 | mapping `Count{0,0,6}` with `x + 1` yields `1, 2, 3, 4, 5, 6` |
| Core.ResettableMapResetsWell | src/core/tests.rs:60-71 | three `next` on the mapped counter, then `reset`, then `next` yields `Some(1)` |

## Left out

- Raw pointers, `get_unchecked_mut` and the `unsafe` blocks are not modelled as memory. A pointer is an array plus an index. The safety argument becomes the proved facts that the index is in bounds and that the two pointers of a pair do not alias.
- Lifetimes, the exclusive borrow of the slice and the thread-safety remarks on `DoubleIterator` are not modelled: they concern Rust's type system and concurrency.
- The `Result` that `next` discards from `increment` is dropped. The model ignores the flag.
- Panics are modelled as preconditions. This covers the assertions in `new` and `set` and the debug assertion in `nth_ptr`. The tests that expect `set(3, 3)` and `set(5, 4)` to panic become the fact that those calls do not meet `Set`'s precondition.
- Share.DoubleIterator.SafeForEach: the callback is a pure function `(T, T) -> (T, T)` rather than an `Fn(&mut T, &mut T)`. Any state the closure captures is not modelled.
- Core.ResettableMap.Next: the callback is a pure function `nat -> R`. Any internal state of the `FnMut` closure is not modelled.
- The traits `Iterator` and `ResettableIterator` and their generic bounds are not modelled. The resettable iterator is the `Count` fixture of the tests, `ResettableMap` wraps a `Count`, and `reset_clone` is modelled on `Count`.
- Core.Count.Clone: the `Count` fixture in src/core/tests.rs:3-7 derives no `Clone`, so in the source `reset_clone` cannot be called on it. The model gives `Count` a field-by-field `Clone` so that `reset_clone` has something to act on.
- Core.Count.Next: the `u32` fields are unbounded naturals. The model assumes `begin <= cur <= end`, under which `cur + 1` cannot overflow. A `Count` built with `cur > end` is outside the model.
- Filter.Exclude.Next: the base iterator is a finite sequence plus a cursor. A base iterator that is infinite, or that yields again after `None`, is not modelled. Equality is Dafny's value equality, so a `PartialEq` that is not an equivalence is not modelled. That case is the one `force_exclude` exists for.
- The `ChildIterator` trait (src/child/mod.rs) declares signatures only and has no behaviour to model.
- The test that `DoubleIterator` never yields two equal values follows from the distinct-indices fact on a slice with distinct elements. It has no separate member. The `safe_for_each` test only checks that the code compiles.
