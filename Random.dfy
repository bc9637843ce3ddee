/**
 * Random utilities (src/logic/Random.ts).
 *
 * `Math.random()` is not modelled: every draw `Math.floor(Math.random() * k)`
 * is an integer in `[0, k)` passed in by the caller.
 */
module Random {

  /**
   * `getRandomIntegerInRange(min, max)`: the draw is `floor(random * (max - min + 1))`,
   * an integer in `[0, max - min]`; the result is that draw shifted by `min`.
   */
  function RandomIntegerInRange(min: int, max: int, draw: int): (r: int)
    requires min <= max
    requires 0 <= draw <= max - min
    ensures min <= r <= max
  {
    draw + min
  }

  /** Every integer of `[min, max]` is the result of some permitted draw. */
  lemma RandomIntegerInRangeReachesAll(min: int, max: int, v: int)
    requires min <= v <= max
    ensures exists draw :: 0 <= draw <= max - min && RandomIntegerInRange(min, max, draw) == v
  {
    assert RandomIntegerInRange(min, max, v - min) == v;
  }

  /**
   * The draws of one Fisher-Yates pass over `n` elements: `draws[i]` is the index
   * `j` swapped with `i` at the step for `i`, drawn from `[0, i]`. The pass has no
   * step for `i == 0`, so `draws[0]` is never used.
   */
  predicate ValidDraws(draws: seq<int>, n: nat) {
    |draws| == n && forall i :: 0 < i < n ==> 0 <= draws[i] <= i
  }

  /** `s` with the elements at `i` and `j` exchanged. */
  function Swap<T>(s: seq<T>, i: nat, j: nat): (r: seq<T>)
    requires i < |s| && j < |s|
    ensures |r| == |s| && r[i] == s[j] && r[j] == s[i]
    ensures forall k :: 0 <= k < |s| && k != i && k != j ==> r[k] == s[k]
  {
    s[i := s[j]][j := s[i]]
  }

  /** The steps `i, i - 1, ..., 1` of the pass, applied to `s` in that order. */
  function ShuffleDownFrom<T>(s: seq<T>, draws: seq<int>, i: nat): (r: seq<T>)
    requires i < |s| && ValidDraws(draws, |s|)
    ensures |r| == |s|
    decreases i
  {
    if i == 0 then s else ShuffleDownFrom(Swap(s, i, draws[i]), draws, i - 1)
  }

  /** The whole pass: `i` runs from `|s| - 1` down to `1`. */
  function Shuffled<T>(s: seq<T>, draws: seq<int>): (r: seq<T>)
    requires ValidDraws(draws, |s|)
    ensures |r| == |s|
    ensures |s| <= 1 ==> r == s
  {
    if |s| == 0 then s else ShuffleDownFrom(s, draws, |s| - 1)
  }

  lemma SwapIsPermutation<T>(s: seq<T>, i: nat, j: nat)
    requires i < |s| && j < |s|
    ensures multiset(Swap(s, i, j)) == multiset(s)
  {
    var t := s[i := s[j]];
    assert multiset(t) == multiset(s) - multiset{s[i]} + multiset{s[j]};
    assert multiset(t[j := s[i]]) == multiset(t) - multiset{t[j]} + multiset{s[i]};
  }

  lemma {:induction false} ShuffleDownFromIsPermutation<T>(s: seq<T>, draws: seq<int>, i: nat)
    requires i < |s| && ValidDraws(draws, |s|)
    ensures multiset(ShuffleDownFrom(s, draws, i)) == multiset(s)
    decreases i
  {
    if i > 0 {
      SwapIsPermutation(s, i, draws[i]);
      ShuffleDownFromIsPermutation(Swap(s, i, draws[i]), draws, i - 1);
    }
  }

  /** A shuffle is a permutation of its input. */
  lemma ShuffledIsPermutation<T>(s: seq<T>, draws: seq<int>)
    requires ValidDraws(draws, |s|)
    ensures multiset(Shuffled(s, draws)) == multiset(s)
  {
    if |s| > 0 {
      ShuffleDownFromIsPermutation(s, draws, |s| - 1);
    }
  }

  /**
   * A step for `i` only exchanges `i` with an index at or below it, so once the
   * step for `i` is done, positions above `i` keep their values to the end.
   */
  lemma {:induction false} ShuffleDownFromKeepsTail<T>(s: seq<T>, draws: seq<int>, i: nat, k: nat)
    requires i < k < |s| && ValidDraws(draws, |s|)
    ensures ShuffleDownFrom(s, draws, i)[k] == s[k]
    decreases i
  {
    if i > 0 {
      ShuffleDownFromKeepsTail(Swap(s, i, draws[i]), draws, i - 1, k);
    }
  }

  /** The last position of the result holds the element that the first step drew. */
  lemma ShuffledLast<T>(s: seq<T>, draws: seq<int>)
    requires ValidDraws(draws, |s|) && |s| > 1
    ensures Shuffled(s, draws)[|s| - 1] == s[draws[|s| - 1]]
  {
    var n := |s|;
    ShuffleDownFromKeepsTail(Swap(s, n - 1, draws[n - 1]), draws, n - 2, n - 1);
  }

  /** The exchange through `tmp` in the loop body of `shuffleArrayInPlace`. */
  method SwapElements<T>(a: array<T>, i: nat, j: nat)
    requires i < a.Length && j < a.Length
    modifies a
    ensures a[..] == Swap(old(a[..]), i, j)
  {
    var tmp := a[j];
    a[j] := a[i];
    a[i] := tmp;
    assert a[..] == Swap(old(a[..]), i, j) by {
      forall k | 0 <= k < a.Length ensures a[k] == Swap(old(a[..]), i, j)[k] { }
    }
  }

  /** `shuffleArrayInPlace`: Fisher-Yates, swapping `a[i]` with `a[draws[i]]` for `i` from the last index down to 1. */
  method ShuffleInPlace<T>(a: array<T>, draws: seq<int>)
    requires ValidDraws(draws, a.Length)
    modifies a
    ensures a[..] == Shuffled(old(a[..]), draws)
    ensures multiset(a[..]) == multiset(old(a[..]))
  {
    var i := a.Length - 1;
    while i > 0
      invariant a.Length == 0 || 0 <= i < a.Length
      invariant a.Length > 0 ==> ShuffleDownFrom(a[..], draws, i) == Shuffled(old(a[..]), draws)
    {
      ghost var before := a[..];
      SwapElements(a, i, draws[i]);
      assert ShuffleDownFrom(before, draws, i) == ShuffleDownFrom(a[..], draws, i - 1);
      i := i - 1;
    }
    ShuffledIsPermutation(old(a[..]), draws);
  }
}
