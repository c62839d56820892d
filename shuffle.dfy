/** `shuffleArray`: an in-place Fisher-Yates shuffle. The random source is
    replaced by the sequence of draws it would have produced: the k-th pass
    of the loop (k from 0) runs with `i == n - 1 - k` and swaps `a[i]` with
    `a[draws[k]]`, where `0 <= draws[k] <= i`. */
module Shuffle {

  /** One draw per pass of the loop, each within `0..i` for that pass. */
  predicate ValidDraws(n: nat, draws: seq<nat>)
  {
    && |draws| == (if n == 0 then 0 else n - 1)
    && forall k :: 0 <= k < |draws| ==> draws[k] <= n - 1 - k
  }

  /** `[s[i], s[j]] = [s[j], s[i]]` on a sequence value. */
  function Swap<T>(s: seq<T>, i: nat, j: nat): (r: seq<T>)
    requires i < |s| && j < |s|
    ensures |r| == |s|
  {
    s[i := s[j]][j := s[i]]
  }

  /** The two slots trade values and every other slot keeps its own. */
  lemma SwapAt<T>(s: seq<T>, i: nat, j: nat)
    requires i < |s| && j < |s|
    ensures Swap(s, i, j)[i] == s[j] && Swap(s, i, j)[j] == s[i]
    ensures forall k :: 0 <= k < |s| && k != i && k != j ==> Swap(s, i, j)[k] == s[k]
  {
  }

  /** The sequence after the first `k` passes of the loop. */
  function ShuffleSteps<T>(s: seq<T>, draws: seq<nat>, k: nat): (r: seq<T>)
    requires ValidDraws(|s|, draws) && k <= |draws|
    ensures |r| == |s|
  {
    if k == 0 then s
    else Swap(ShuffleSteps(s, draws, k - 1), |s| - k, draws[k - 1])
  }

  /** The sequence after the whole loop. */
  function Shuffled<T>(s: seq<T>, draws: seq<nat>): seq<T>
    requires ValidDraws(|s|, draws)
  {
    ShuffleSteps(s, draws, |draws|)
  }

  /** A swap rearranges the elements and loses none. */
  lemma SwapPermutes<T>(s: seq<T>, i: nat, j: nat)
    requires i < |s| && j < |s|
    ensures multiset(Swap(s, i, j)) == multiset(s)
  {
  }

  /** Every prefix of the loop yields a permutation of the input. */
  lemma {:induction false} StepsPermute<T>(s: seq<T>, draws: seq<nat>, k: nat, r: seq<T>)
    requires ValidDraws(|s|, draws) && k <= |draws|
    requires r == ShuffleSteps(s, draws, k)
    ensures multiset(r) == multiset(s)
  {
    if k > 0 {
      var before := ShuffleSteps(s, draws, k - 1);
      StepsPermute(s, draws, k - 1, before);
      SwapPermutes(before, |s| - k, draws[k - 1]);
    }
  }

  /** The shuffled sequence is a permutation of the input. */
  lemma ShuffledPermutes<T>(s: seq<T>, draws: seq<nat>)
    requires ValidDraws(|s|, draws)
    ensures |Shuffled(s, draws)| == |s|
    ensures multiset(Shuffled(s, draws)) == multiset(s)
  {
    StepsPermute(s, draws, |draws|, Shuffled(s, draws));
  }

  /** The slot a pass fills (index `n - k` after pass k) is final: later
      passes only touch lower indices. */
  lemma {:induction false} SlotSettled<T>(s: seq<T>, draws: seq<nat>, k: nat, k': nat)
    requires ValidDraws(|s|, draws) && 0 < k <= k' <= |draws|
    ensures ShuffleSteps(s, draws, k')[|s| - k] == ShuffleSteps(s, draws, k)[|s| - k]
    decreases k'
  {
    if k' > k {
      SlotSettled(s, draws, k, k' - 1);
    }
  }

  /** When every draw picks `i` itself, every swap is a no-op. */
  lemma {:induction false} IdentityDraws<T>(s: seq<T>, draws: seq<nat>, k: nat)
    requires ValidDraws(|s|, draws) && k <= |draws|
    requires forall m :: 0 <= m < |draws| ==> draws[m] == |s| - 1 - m
    ensures ShuffleSteps(s, draws, k) == s
  {
    if k > 0 {
      IdentityDraws(s, draws, k - 1);
    }
  }

  /** `shuffleArray(array)`: counts `i` down from `length - 1` to 1 and swaps
      `array[i]` with `array[j]` for the pass's draw `j`. */
  method ShuffleArray<T>(a: array<T>, draws: seq<nat>)
    requires ValidDraws(a.Length, draws)
    modifies a
    ensures a[..] == Shuffled(old(a[..]), draws)
  {
    ghost var s := a[..];
    var i := a.Length - 1;
    while i > 0
      invariant -1 <= i < a.Length
      invariant i == -1 ==> a.Length == 0
      invariant a[..] == ShuffleSteps(s, draws, a.Length - 1 - i)
    {
      ghost var k := a.Length - 1 - i;
      ghost var before := a[..];
      var j := draws[a.Length - 1 - i];
      a[i], a[j] := a[j], a[i];
      assert a[..] == before[i := before[j]][j := before[i]];
      assert ShuffleSteps(s, draws, k + 1) == Swap(before, i, j);
      i := i - 1;
    }
  }
}
