/**
 * The Python built-ins that dictionary_timing.py leans on, over exact numbers:
 * `sum`, `min`/`max` (used only in statements about results), `sorted`,
 * `dict.get` and `random.shuffle`.
 */
module Builtins {
  import opened Wrappers

  // ---------------------------------------------------------------------------
  // sum, min, max

  /** Python's `sum(xs, acc)`: add the elements one by one, from the left, to a
      running total that starts at `acc`. */
  function SumFrom(acc: real, xs: seq<real>): real
    decreases |xs|
  {
    if xs == [] then acc else SumFrom(acc + xs[0], xs[1..])
  }

  /** Moving an amount out of the starting total moves it out of the result. */
  lemma {:induction false} SumFromShift(a: real, b: real, xs: seq<real>)
    ensures SumFrom(a + b, xs) == a + SumFrom(b, xs)
    decreases |xs|
  {
    if xs != [] {
      assert a + b + xs[0] == a + (b + xs[0]);
      SumFromShift(a, b + xs[0], xs[1..]);
    }
  }

  /** `sum(xs)` with exact addition, defined by recursion on the list; the ensures
      says it is the total Python's left-to-right accumulation from 0 reaches. */
  function Sum(xs: seq<real>): (total: real)
    ensures total == SumFrom(0.0, xs)
  {
    if xs == [] then 0.0
    else
      SumFromShift(xs[0], 0.0, xs[1..]);
      xs[0] + Sum(xs[1..])
  }

  /** Two lists holding the same elements, counted with multiplicity, are equally long. */
  lemma SameLength<T>(xs: seq<T>, ys: seq<T>)
    requires multiset(xs) == multiset(ys)
    ensures |xs| == |ys|
  {
    assert |multiset(xs)| == |xs| && |multiset(ys)| == |ys|;
  }

  /** The smallest element of a non-empty list. */
  function Min(xs: seq<real>): (m: real)
    requires xs != []
    ensures m in xs
    ensures forall i | 0 <= i < |xs| :: m <= xs[i]
  {
    if |xs| == 1 then xs[0]
    else
      var rest := Min(xs[1..]);
      if xs[0] <= rest then xs[0] else rest
  }

  /** The largest element of a non-empty list. */
  function Max(xs: seq<real>): (m: real)
    requires xs != []
    ensures m in xs
    ensures forall i | 0 <= i < |xs| :: xs[i] <= m
  {
    if |xs| == 1 then xs[0]
    else
      var rest := Max(xs[1..]);
      if rest <= xs[0] then xs[0] else rest
  }

  /** A sum of values that all lie in [lo, hi] lies in [n * lo, n * hi]. */
  lemma {:induction false} SumBounds(xs: seq<real>, lo: real, hi: real)
    requires forall i | 0 <= i < |xs| :: lo <= xs[i] <= hi
    ensures |xs| as real * lo <= Sum(xs) <= |xs| as real * hi
  {
    if xs != [] {
      SumBounds(xs[1..], lo, hi);
      assert |xs| as real * lo == (|xs| - 1) as real * lo + lo;
      assert |xs| as real * hi == (|xs| - 1) as real * hi + hi;
    }
  }

  /** Taking one element out of a list takes exactly its value out of the sum. */
  lemma {:induction false} SumRemove(xs: seq<real>, k: nat)
    requires k < |xs|
    ensures Sum(xs) == xs[k] + Sum(xs[..k] + xs[k + 1..])
  {
    if k == 0 {
      assert xs[..0] + xs[1..] == xs[1..];
    } else {
      SumRemove(xs[1..], k - 1);
      assert xs[1..][..k - 1] + xs[1..][k..] == (xs[..k] + xs[k + 1..])[1..];
    }
  }

  /** Taking the element at index k out of a list takes one copy of it out of its multiset. */
  lemma RemoveAt<T>(xs: seq<T>, k: nat)
    requires k < |xs|
    ensures multiset(xs[..k] + xs[k + 1..]) == multiset(xs) - multiset{xs[k]}
  {
    assert xs == xs[..k] + [xs[k]] + xs[k + 1..];
    assert multiset(xs) == multiset(xs[..k]) + multiset{xs[k]} + multiset(xs[k + 1..]);
  }

  /** `sum` does not depend on the order of the list. */
  lemma {:induction false} SumPermutation(xs: seq<real>, ys: seq<real>)
    requires multiset(xs) == multiset(ys)
    ensures Sum(xs) == Sum(ys)
    decreases |xs|
  {
    if xs == [] {
      assert |ys| == |multiset(ys)| == 0;
    } else {
      assert xs[0] in multiset(ys);
      var k :| 0 <= k < |ys| && ys[k] == xs[0];
      var rest := ys[..k] + ys[k + 1..];
      RemoveAt(ys, k);
      RemoveAt(xs, 0);
      assert xs[..0] + xs[1..] == xs[1..];
      SumPermutation(xs[1..], rest);
      SumRemove(ys, k);
      assert Sum(xs) == xs[0] + Sum(xs[1..]);
    }
  }

  // ---------------------------------------------------------------------------
  // sorted

  /** Ascending order, as `sorted` leaves a list of numbers. */
  predicate IsSorted(xs: seq<real>)
  {
    forall i, j | 0 <= i < j < |xs| :: xs[i] <= xs[j]
  }

  /** Puts `x` into its place in an ascending list. */
  function Insert(x: real, xs: seq<real>): (r: seq<real>)
    requires IsSorted(xs)
    ensures IsSorted(r)
    ensures multiset(r) == multiset(xs) + multiset{x}
    ensures |r| == |xs| + 1
  {
    if xs == [] then [x]
    else if x <= xs[0] then
      SortedAppend([x], xs);
      [x] + xs
    else
      assert xs == [xs[0]] + xs[1..];
      var tail := Insert(x, xs[1..]);
      InsertAfterHead(x, xs, tail);
      [xs[0]] + tail
  }

  /** The head of an ascending list, below the inserted value, may stay in front. */
  lemma InsertAfterHead(x: real, xs: seq<real>, tail: seq<real>)
    requires IsSorted(xs) && xs != [] && xs[0] < x
    requires IsSorted(tail) && multiset(tail) == multiset(xs[1..]) + multiset{x}
    ensures IsSorted([xs[0]] + tail)
  {
    forall j | 0 <= j < |tail| ensures xs[0] <= tail[j] {
      assert tail[j] in multiset(xs[1..]) + multiset{x};
      if tail[j] != x {
        assert tail[j] in xs[1..];
      }
    }
    SortedAppend([xs[0]], tail);
  }

  /** `sorted(xs)`: a new list holding the elements of `xs` in ascending order. */
  function Sorted(xs: seq<real>): (r: seq<real>)
    ensures IsSorted(r)
    ensures multiset(r) == multiset(xs)
    ensures |r| == |xs|
  {
    if xs == [] then []
    else
      assert xs == [xs[0]] + xs[1..];
      Insert(xs[0], Sorted(xs[1..]))
  }

  /** There is only one ascending arrangement of a given multiset of numbers. */
  lemma {:induction false} SortedUnique(xs: seq<real>, ys: seq<real>)
    requires IsSorted(xs) && IsSorted(ys)
    requires multiset(xs) == multiset(ys)
    ensures xs == ys
    decreases |xs|
  {
    if xs == [] {
      assert |ys| == |multiset(ys)| == 0;
    } else {
      assert |ys| == |multiset(ys)| > 0;
      assert xs[0] in multiset(ys);
      assert ys[0] in multiset(xs);
      assert xs[0] == ys[0];
      assert xs == [xs[0]] + xs[1..];
      assert ys == [ys[0]] + ys[1..];
      assert multiset(xs) == multiset{xs[0]} + multiset(xs[1..]);
      assert multiset(ys) == multiset{ys[0]} + multiset(ys[1..]);
      assert multiset(xs[1..]) == multiset(xs) - multiset{xs[0]};
      assert multiset(ys[1..]) == multiset(ys) - multiset{ys[0]};
      SortedUnique(xs[1..], ys[1..]);
    }
  }

  /** `sorted` depends only on the elements of its argument, not on their order. */
  lemma SortedPermutation(xs: seq<real>, ys: seq<real>)
    requires multiset(xs) == multiset(ys)
    ensures Sorted(xs) == Sorted(ys)
  {
    SortedUnique(Sorted(xs), Sorted(ys));
  }

  /** `sorted` leaves an already ascending list as it is. */
  lemma SortedOfSorted(xs: seq<real>)
    requires IsSorted(xs)
    ensures Sorted(xs) == xs
  {
    SortedUnique(Sorted(xs), xs);
  }

  /** Two ascending lists, every element of the first at most every element of
      the second, concatenate to an ascending list. */
  lemma SortedAppend(xs: seq<real>, ys: seq<real>)
    requires IsSorted(xs) && IsSorted(ys)
    requires forall i, j | 0 <= i < |xs| && 0 <= j < |ys| :: xs[i] <= ys[j]
    ensures IsSorted(xs + ys)
  {
    forall i, j | 0 <= i < j < |xs + ys|
      ensures (xs + ys)[i] <= (xs + ys)[j]
    {
      if j < |xs| {
      } else if i >= |xs| {
        assert (xs + ys)[i] == ys[i - |xs|];
      } else {
        assert (xs + ys)[j] == ys[j - |xs|];
      }
    }
  }

  /** A list with every element at most `m` still has every element at most `m` once sorted. */
  lemma SortedBelow(xs: seq<real>, m: real)
    requires forall i | 0 <= i < |xs| :: xs[i] <= m
    ensures forall i | 0 <= i < |Sorted(xs)| :: Sorted(xs)[i] <= m
  {
    var s := Sorted(xs);
    forall i | 0 <= i < |s| ensures s[i] <= m {
      assert s[i] in multiset(xs);
    }
  }

  /** A list with every element at least `m` still has every element at least `m` once sorted. */
  lemma SortedAbove(xs: seq<real>, m: real)
    requires forall i | 0 <= i < |xs| :: m <= xs[i]
    ensures forall i | 0 <= i < |Sorted(xs)| :: m <= Sorted(xs)[i]
  {
    var s := Sorted(xs);
    forall i | 0 <= i < |s| ensures m <= s[i] {
      assert s[i] in multiset(xs);
    }
  }

  /** An ascending middle part, with an ascending part below its first element
      and an ascending part above its last, makes an ascending list. */
  lemma SortedAround(xs: seq<real>, mid: seq<real>, ys: seq<real>)
    requires IsSorted(xs) && IsSorted(mid) && IsSorted(ys) && mid != []
    requires forall i | 0 <= i < |xs| :: xs[i] <= mid[0]
    requires forall j | 0 <= j < |ys| :: mid[|mid| - 1] <= ys[j]
    ensures IsSorted(xs + mid + ys)
  {
    SortedAppend(mid, ys);
    var top := mid + ys;
    forall i, j | 0 <= i < |xs| && 0 <= j < |top| ensures xs[i] <= top[j] {
      assert top[0] == mid[0];
    }
    SortedAppend(xs, top);
    assert xs + mid + ys == xs + top;
  }

  // ---------------------------------------------------------------------------
  // dict.get

  /** `d.get(k)`: the value stored under `k`, or `None` when `k` is absent. */
  function Get<K, V>(d: map<K, V>, k: K): (r: Option<V>)
    ensures r.None? <==> k !in d
    ensures r.Some? ==> k in d && r.value == d[k]
  {
    if k in d then Some(d[k]) else None
  }

  // ---------------------------------------------------------------------------
  // random.shuffle

  /** Swaps that stay inside a list of length n. */
  predicate ValidSwaps(swaps: seq<(nat, nat)>, n: nat)
  {
    forall t | 0 <= t < |swaps| :: swaps[t].0 < n && swaps[t].1 < n
  }

  /** The list with the elements at positions i and j exchanged. */
  function Swap<T>(xs: seq<T>, i: nat, j: nat): (r: seq<T>)
    requires i < |xs| && j < |xs|
    ensures |r| == |xs| && r[i] == xs[j] && r[j] == xs[i]
    ensures forall k | 0 <= k < |xs| && k != i && k != j :: r[k] == xs[k]
    ensures multiset(r) == multiset(xs)
  {
    xs[i := xs[j]][j := xs[i]]
  }

  /**
   * `shuffle(xs)`: the random choices the library makes are the parameter
   * `swaps`, the exchanges it performs one after the other. Whatever they are,
   * the outcome is a rearrangement of the same elements.
   */
  function Shuffle<T>(xs: seq<T>, swaps: seq<(nat, nat)>): (r: seq<T>)
    requires ValidSwaps(swaps, |xs|)
    ensures |r| == |xs|
    ensures multiset(r) == multiset(xs)
    decreases |swaps|
  {
    if swaps == [] then xs
    else Shuffle(Swap(xs, swaps[0].0, swaps[0].1), swaps[1..])
  }
}
