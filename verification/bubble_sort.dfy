/**
 * `bubbleSort`: repeated passes of adjacent compare-and-swap. The JavaScript
 * array is sorted in place and returned; the model threads it through as a
 * sequence of integers.
 */
module BubbleSort {

  predicate Sorted(s: seq<int>)
  {
    forall i, j :: 0 <= i < j < |s| ==> s[i] <= s[j]
  }

  /**
   * The positions from `m` on hold their final values: no element is larger
   * than one at or after `m` further right.
   */
  predicate SuffixFinal(s: seq<int>, m: int)
  {
    forall k, l :: 0 <= k < l < |s| && m <= l ==> s[k] <= s[l]
  }

  /** `p` lists every index below `n` exactly once. */
  predicate IsPermutation(p: seq<nat>, n: nat)
  {
    |p| == n && (forall k :: 0 <= k < n ==> p[k] < n) && forall k, l :: 0 <= k < l < n ==> p[k] != p[l]
  }

  /** `s` is `orig` rearranged by `p`: position `k` of `s` holds element `p[k]` of `orig`. */
  predicate Rearranges(orig: seq<int>, s: seq<int>, p: seq<nat>)
  {
    IsPermutation(p, |orig|) && |s| == |orig| && forall k :: 0 <= k < |s| ==> p[k] < |orig| && s[k] == orig[p[k]]
  }

  /** Equal elements keep their original relative order. */
  predicate Stable(s: seq<int>, p: seq<nat>)
  {
    |p| == |s| && forall k, l :: 0 <= k < l < |s| && s[k] == s[l] ==> p[k] < p[l]
  }

  function Swap<T>(s: seq<T>, j: nat): (r: seq<T>)
    requires j + 1 < |s|
    ensures |r| == |s| && r[j] == s[j + 1] && r[j + 1] == s[j]
    ensures forall k :: 0 <= k < |s| && k != j && k != j + 1 ==> r[k] == s[k]
  {
    s[j := s[j + 1]][j + 1 := s[j]]
  }

  /** One compare-and-swap leaves the multiset of elements alone. */
  lemma SwapPermutes(s: seq<int>, j: nat)
    requires j + 1 < |s|
    ensures multiset(Swap(s, j)) == multiset(s)
  {
    var t := s[j := s[j + 1]];
    assert multiset(t) == multiset(s) - multiset{s[j]} + multiset{s[j + 1]};
  }

  /**
   * Swapping two neighbours that are strictly out of order keeps `s` a
   * stable rearrangement of `orig`, with the swap mirrored in `p`.
   */
  lemma SwapStable(orig: seq<int>, s: seq<int>, p: seq<nat>, j: nat)
    requires Rearranges(orig, s, p) && Stable(s, p)
    requires j + 1 < |s| && s[j] > s[j + 1]
    ensures Rearranges(orig, Swap(s, j), Swap(p, j)) && Stable(Swap(s, j), Swap(p, j))
  {
    var s', p' := Swap(s, j), Swap(p, j);
    forall k, l | 0 <= k < l < |s'| && s'[k] == s'[l]
      ensures p'[k] < p'[l]
    {
      var k0 := if k == j then j + 1 else if k == j + 1 then j else k;
      var l0 := if l == j then j + 1 else if l == j + 1 then j else l;
      assert s'[k] == s[k0] && p'[k] == p[k0] && s'[l] == s[l0] && p'[l] == p[l0];
    }
    forall k, l | 0 <= k < l < |s'|
      ensures p'[k] != p'[l]
    {
      var k0 := if k == j then j + 1 else if k == j + 1 then j else k;
      var l0 := if l == j then j + 1 else if l == j + 1 then j else l;
      assert p'[k] == p[k0] && p'[l] == p[l0] && k0 != l0;
    }
  }

  /** Swapping two neighbours in front of `m` keeps the positions from `m` on final. */
  lemma SwapKeepsSuffix(s: seq<int>, j: nat, m: int)
    requires SuffixFinal(s, m) && j + 1 < m && j + 1 < |s|
    ensures SuffixFinal(Swap(s, j), m)
  {
    var s' := Swap(s, j);
    forall k, l | 0 <= k < l < |s'| && m <= l
      ensures s'[k] <= s'[l]
    {
      var k0 := if k == j then j + 1 else if k == j + 1 then j else k;
      assert s'[k] == s[k0] && s'[l] == s[l] && k0 < l;
    }
  }

  /**
   * The inner loop's invariant, `j` steps into a pass over the first `n`
   * elements of `a`: `b` is still a stable rearrangement of `orig`, the
   * positions from `n` on are untouched and final, and `b[j]` is the largest
   * of `b[..j + 1]`.
   */
  ghost predicate Passing(orig: seq<int>, a: seq<int>, n: nat, b: seq<int>, q: seq<nat>, j: nat)
  {
    0 < n <= |a| == |b| && j <= n - 1 &&
    Rearranges(orig, b, q) && Stable(b, q) && multiset(b) == multiset(a) &&
    (forall k :: n <= k < |a| ==> b[k] == a[k]) && SuffixFinal(b, n) &&
    (forall k :: 0 <= k < j ==> b[k] <= b[j]) &&
    (Sorted(a) ==> b == a)
  }

  /** The compare-and-swap of the inner loop keeps `Passing`. */
  lemma CompareSwapStep(orig: seq<int>, a: seq<int>, n: nat, b: seq<int>, q: seq<nat>, j: nat)
    requires Passing(orig, a, n, b, q, j) && j < n - 1
    ensures Passing(orig, a, n, if b[j] > b[j + 1] then Swap(b, j) else b,
                    if b[j] > b[j + 1] then Swap(q, j) else q, j + 1)
  {
    if b[j] > b[j + 1] {
      SwapStable(orig, b, q, j);
      SwapPermutes(b, j);
      SwapKeepsSuffix(b, j, n);
      var b' := Swap(b, j);
      forall k | 0 <= k < j + 1
        ensures b'[k] <= b'[j + 1]
      {
        if k < j {
          assert b'[k] == b[k];
        }
      }
    }
  }

  /**
   * One pass of the inner loop over the first `n` elements: every
   * neighbouring pair strictly out of order is swapped, left to right, so the
   * largest of those elements ends at position `n - 1`.
   */
  method Pass(a: seq<int>, n: nat, ghost orig: seq<int>, ghost p: seq<nat>) returns (b: seq<int>, ghost q: seq<nat>)
    requires 0 < n <= |a|
    requires Rearranges(orig, a, p) && Stable(a, p)
    requires SuffixFinal(a, n)
    ensures Rearranges(orig, b, q) && Stable(b, q)
    ensures multiset(b) == multiset(a)
    ensures forall k :: n <= k < |a| ==> b[k] == a[k]
    // the positions from `n - 1` on are final
    ensures SuffixFinal(b, n - 1)
    // nothing moves unless some neighbours are strictly out of order
    ensures Sorted(a) ==> b == a
  {
    b, q := a, p;
    var j := 0;
    while j < n - 1
      invariant Passing(orig, a, n, b, q, j)
    {
      CompareSwapStep(orig, a, n, b, q, j);
      if b[j] > b[j + 1] {
        b, q := Swap(b, j), Swap(q, j);
      }
      j := j + 1;
    }
  }

  /**
   * `bubbleSort(arr)`. Besides the sorted result, `perm` records where each
   * element came from.
   */
  method Sort(arr: seq<int>) returns (r: seq<int>, ghost perm: seq<nat>)
    ensures |r| == |arr| && multiset(r) == multiset(arr)
    ensures Sorted(r)
    // the result is the input rearranged by the swaps made, which never pass
    // one equal element over another (on integers, not a distinguishing property)
    ensures Rearranges(arr, r, perm) && Stable(r, perm)
    // an already sorted input comes back unchanged
    ensures Sorted(arr) ==> r == arr
    // the same answer as the insertion sort reference
    ensures r == InsertionSort(arr)
  {
    r := arr;
    perm := seq(|arr|, k => k);
    var i := 0;
    while i < |r|
      invariant i <= |r| == |arr|
      invariant Rearranges(arr, r, perm) && Stable(r, perm)
      invariant multiset(r) == multiset(arr)
      // after `i` passes the last `i` positions are final
      invariant SuffixFinal(r, |r| - i)
      invariant Sorted(arr) ==> r == arr
    {
      r, perm := Pass(r, |r| - i, arr, perm);
      i := i + 1;
    }
    SortedUnique(r, InsertionSort(arr));
  }

  /* An independent reference: insertion sort. */

  function Insert(x: int, s: seq<int>): (r: seq<int>)
    requires Sorted(s)
    ensures Sorted(r) && multiset(r) == multiset(s) + multiset{x}
    ensures |r| > 0 && (r[0] == x || (|s| > 0 && r[0] == s[0]))
  {
    if s == [] || x <= s[0] then
      ConsSorted(x, s);
      [x] + s
    else
      TailSorted(s);
      var rest := Insert(x, s[1..]);
      HeadTail(s);
      ConsSorted(s[0], rest);
      [s[0]] + rest
  }

  /** A sorted sequence stays sorted under a head no larger than its first element. */
  lemma ConsSorted(x: int, s: seq<int>)
    requires Sorted(s) && (s == [] || x <= s[0])
    ensures Sorted([x] + s)
  {
    assert forall j :: 0 <= j < |s| ==> x <= s[j] by {
      if s != [] {
        assert forall j :: 0 <= j < |s| ==> s[0] <= s[j];
      }
    }
  }

  lemma TailSorted(s: seq<int>)
    requires Sorted(s) && |s| > 0
    ensures Sorted(s[1..])
  {
  }

  function InsertionSort(s: seq<int>): (r: seq<int>)
    ensures Sorted(r) && multiset(r) == multiset(s)
  {
    if s == [] then []
    else
      assert s == [s[0]] + s[1..];
      Insert(s[0], InsertionSort(s[1..]))
  }

  /** The first element of a sorted sequence is its least element. */
  lemma HeadIsLeast(s: seq<int>, x: int)
    requires Sorted(s) && x in multiset(s)
    ensures |s| > 0 && s[0] <= x
  {
    var k :| 0 <= k < |s| && s[k] == x;
    assert k == 0 || s[0] <= s[k];
  }

  /** A non-empty sequence is its head followed by its tail, as a multiset too. */
  lemma HeadTail(s: seq<int>)
    requires |s| > 0
    ensures multiset(s) == multiset{s[0]} + multiset(s[1..])
    ensures multiset(s[1..]) == multiset(s) - multiset{s[0]}
    ensures s[0] in multiset(s)
  {
    assert s == [s[0]] + s[1..];
  }

  lemma SameHeadTail(a: seq<int>, b: seq<int>)
    requires |a| > 0 && |b| > 0 && a[0] == b[0] && a[1..] == b[1..]
    ensures a == b
  {
    assert a == [a[0]] + a[1..] && b == [b[0]] + b[1..];
  }

  /** A multiset has only one sorted arrangement. */
  lemma {:induction false} SortedUnique(a: seq<int>, b: seq<int>)
    requires Sorted(a) && Sorted(b) && multiset(a) == multiset(b)
    ensures a == b
    decreases |a|
  {
    if a == [] {
      assert |multiset(b)| == 0;
    } else {
      assert a[0] == b[0] by {
        HeadTail(a);
        HeadIsLeast(b, a[0]);
        HeadTail(b);
        HeadIsLeast(a, b[0]);
      }
      assert multiset(a[1..]) == multiset(b[1..]) by {
        HeadTail(a);
        HeadTail(b);
      }
      SortedUnique(a[1..], b[1..]);
      SameHeadTail(a, b);
    }
  }
}
