/**
 * The sorted-vector algorithms of numerical_calculus/include/nc_cpp.hpp:
 * impl::sort_vector (a quicksort with Hoare's partition around the middle
 * element), impl::binsearch, impl::insert_at and impl::remove_at, and the
 * public wrappers that hand them a whole vector. Elements are ints.
 */
module NcSorted {

  predicate Sorted(s: seq<int>)
  {
    forall i, j :: 0 <= i < j < |s| ==> s[i] <= s[j]
  }

  predicate AllAtMost(s: seq<int>, p: int)
  {
    forall k :: 0 <= k < |s| ==> s[k] <= p
  }

  predicate AllAtLeast(s: seq<int>, p: int)
  {
    forall k :: 0 <= k < |s| ==> p <= s[k]
  }

  /** A bound on every element survives a permutation. */
  lemma PermutationKeepsBounds(s: seq<int>, t: seq<int>, p: int)
    requires multiset(s) == multiset(t)
    ensures AllAtMost(t, p) ==> AllAtMost(s, p)
    ensures AllAtLeast(t, p) ==> AllAtLeast(s, p)
  {
    forall k | 0 <= k < |s|
      ensures s[k] in t
    {
      assert s[k] in multiset(s);
    }
  }

  /** Two sorted runs, split by a value, join into a sorted run. */
  lemma SortedJoin(s: seq<int>, t: seq<int>, p: int)
    requires Sorted(s) && Sorted(t) && AllAtMost(s, p) && AllAtLeast(t, p)
    ensures Sorted(s + t)
  {
  }

  /** The state of the partition loop of impl::sort_vector on s[lo..hi),
      started from s0: everything before i is at most the pivot, everything
      after j at least the pivot, and the stoppers si and sj guarantee that
      the scans halt inside the range. */
  ghost predicate Parting(s: seq<int>, s0: seq<int>, lo: int, hi: int,
                          i: int, j: int, si: int, sj: int, pivot: int)
  {
    && |s| == |s0| && 0 <= lo <= i <= si < hi <= |s| && lo <= sj <= j < hi && i <= j + 1
    && s[si] >= pivot && s[sj] <= pivot && (lo < i || lo < sj)
    && AllAtMost(s[lo..i], pivot) && AllAtLeast(s[j + 1..hi], pivot)
    && multiset(s[lo..hi]) == multiset(s0[lo..hi])
    && s[..lo] == s0[..lo] && s[hi..] == s0[hi..]
  }

  /** The state the loop starts in, with the middle element as pivot and
      stopper of both scans. */
  lemma PartingStart(s: seq<int>, lo: int, hi: int)
    requires 0 <= lo && hi - lo >= 2 && hi <= |s|
    ensures var m := lo + (hi - lo) / 2;
      Parting(s, s, lo, hi, lo, hi - 1, m, m, s[m])
  {
  }

  /** Stepping i past an element below the pivot keeps the state. */
  lemma PartingUp(s: seq<int>, s0: seq<int>, lo: int, hi: int,
                  i: int, j: int, si: int, sj: int, pivot: int)
    requires Parting(s, s0, lo, hi, i, j, si, sj, pivot) && s[i] < pivot
    ensures Parting(s, s0, lo, hi, i + 1, j, si, sj, pivot)
  {
    assert s[lo..i + 1] == s[lo..i] + [s[i]];
  }

  /** Stepping j past an element above the pivot keeps the state. */
  lemma PartingDown(s: seq<int>, s0: seq<int>, lo: int, hi: int,
                    i: int, j: int, si: int, sj: int, pivot: int)
    requires Parting(s, s0, lo, hi, i, j, si, sj, pivot) && pivot < s[j]
    ensures Parting(s, s0, lo, hi, i, j - 1, si, sj, pivot)
  {
    assert s[j..hi] == [s[j]] + s[j + 1..hi];
  }

  /** Swapping the two stopped elements and stepping both indices keeps the
      state; each swapped element becomes the stopper of the other scan. */
  lemma PartingSwap(s: seq<int>, s0: seq<int>, lo: int, hi: int,
                    i: int, j: int, si: int, sj: int, pivot: int)
    requires Parting(s, s0, lo, hi, i, j, si, sj, pivot)
    requires !(s[i] < pivot) && !(pivot < s[j]) && i < j
    ensures Parting(s[i := s[j]][j := s[i]], s0, lo, hi, i + 1, j - 1, j, i, pivot)
  {
    var t := s[i := s[j]][j := s[i]];
    assert t[lo..i + 1] == s[lo..i] + [s[j]];
    assert t[j..hi] == [s[i]] + s[j + 1..hi];
    assert t[lo..hi] == s[lo..i] + [s[j]] + s[i + 1..j] + [s[i]] + s[j + 1..hi];
    assert s[lo..hi] == s[lo..i] + [s[i]] + s[i + 1..j] + [s[j]] + s[j + 1..hi];
    assert t[..lo] == s[..lo] && t[hi..] == s[hi..];
  }

  /** When the scans have met, i splits the range into a part at most the
      pivot and a part at least the pivot, neither of them empty. */
  lemma PartingDone(s: seq<int>, s0: seq<int>, lo: int, hi: int,
                    i: int, j: int, si: int, sj: int, pivot: int)
    requires Parting(s, s0, lo, hi, i, j, si, sj, pivot)
    requires !(s[i] < pivot) && i >= j
    ensures lo < i < hi
    ensures AllAtMost(s[lo..i], pivot) && AllAtLeast(s[i..hi], pivot)
  {
    assert s[i..hi] == [s[i]] + s[i + 1..hi];
  }

  /** The scan `while(a[i] < pivot) i++` of the partition loop. */
  method ScanUp(a: array<int>, ghost a0: seq<int>, lo: int, hi: int,
                i0: int, j: int, ghost si: int, ghost sj: int, pivot: int) returns (i: int)
    requires Parting(a[..], a0, lo, hi, i0, j, si, sj, pivot)
    ensures Parting(a[..], a0, lo, hi, i, j, si, sj, pivot)
    ensures i0 <= i && !(a[i] < pivot)
  {
    i := i0;
    while a[i] < pivot
      invariant i0 <= i && Parting(a[..], a0, lo, hi, i, j, si, sj, pivot)
      decreases si - i
    {
      PartingUp(a[..], a0, lo, hi, i, j, si, sj, pivot);
      i := i + 1;
    }
  }

  /** The scan `while(pivot < a[j]) j--` of the partition loop. */
  method ScanDown(a: array<int>, ghost a0: seq<int>, lo: int, hi: int,
                  i: int, j0: int, ghost si: int, ghost sj: int, pivot: int) returns (j: int)
    requires Parting(a[..], a0, lo, hi, i, j0, si, sj, pivot)
    ensures Parting(a[..], a0, lo, hi, i, j, si, sj, pivot)
    ensures j <= j0 && !(pivot < a[j])
  {
    j := j0;
    while pivot < a[j]
      invariant j <= j0 && Parting(a[..], a0, lo, hi, i, j, si, sj, pivot)
      decreases j - sj
    {
      PartingDown(a[..], a0, lo, hi, i, j, si, sj, pivot);
      j := j - 1;
    }
  }

  /** std::swap of the two elements the scans stopped at. */
  method SwapStopped(a: array<int>, ghost a0: seq<int>, lo: int, hi: int,
                     i: int, j: int, ghost si: int, ghost sj: int, pivot: int)
    requires Parting(a[..], a0, lo, hi, i, j, si, sj, pivot)
    requires !(a[i] < pivot) && !(pivot < a[j]) && i < j
    modifies a
    ensures Parting(a[..], a0, lo, hi, i + 1, j - 1, j, i, pivot)
  {
    ghost var s := a[..];
    PartingSwap(s, a0, lo, hi, i, j, si, sj, pivot);
    a[i], a[j] := a[j], a[i];
    assert a[..] == s[i := s[j]][j := s[i]];
  }

  /** The partition loop of impl::sort_vector on a[lo..hi): i runs up from
      the front and j down from the back, each stopping at an element on the
      wrong side of the pivot (the element in the middle), and the two are
      swapped, until the scans meet. */
  method Partition(a: array<int>, lo: int, hi: int) returns (i: int, pivot: int)
    requires 0 <= lo && hi - lo >= 2 && hi <= a.Length
    modifies a
    ensures lo < i < hi
    ensures AllAtMost(a[lo..i], pivot) && AllAtLeast(a[i..hi], pivot)
    ensures multiset(a[lo..hi]) == multiset(old(a[lo..hi]))
    ensures a[..lo] == old(a[..lo]) && a[hi..] == old(a[hi..])
  {
    var n := hi - lo;
    i := lo;
    var j := hi - 1;
    pivot := a[lo + n / 2];
    ghost var si, sj := lo + n / 2, lo + n / 2;
    ghost var a0 := a[..];
    PartingStart(a0, lo, hi);
    while true
      invariant Parting(a[..], a0, lo, hi, i, j, si, sj, pivot)
      decreases j - i + 2
    {
      i := ScanUp(a, a0, lo, hi, i, j, si, sj, pivot);
      j := ScanDown(a, a0, lo, hi, i, j, si, sj, pivot);
      if i >= j {
        PartingDone(a[..], a0, lo, hi, i, j, si, sj, pivot);
        break;
      }
      SwapStopped(a, a0, lo, hi, i, j, si, sj, pivot);
      si, sj := j, i;
      i, j := i + 1, j - 1;
    }
    assert a[lo..hi] == a[..][lo..hi];
  }

  /** impl::sort_vector(a + lo, hi - lo): sorts a[lo..hi) in place, leaving
      the rest of the array alone. */
  method SortRange(a: array<int>, lo: int, hi: int)
    requires 0 <= lo <= hi <= a.Length
    modifies a
    ensures Sorted(a[lo..hi])
    ensures multiset(a[lo..hi]) == multiset(old(a[lo..hi]))
    ensures a[..lo] == old(a[..lo]) && a[hi..] == old(a[hi..])
    decreases hi - lo
  {
    if hi - lo < 2 {
      return;
    }
    var i, pivot := Partition(a, lo, hi);
    ghost var left, right := a[lo..i], a[i..hi];
    assert a[lo..hi] == left + right;
    ghost var parted := a[..];
    SortRange(a, lo, i);
    ghost var sortedLeft := a[lo..i];
    assert a[i..hi] == right by {
      assert a[i..] == parted[i..];
    }
    SortRange(a, i, hi);
    assert a[lo..i] == sortedLeft;
    PermutationKeepsBounds(a[lo..i], left, pivot);
    PermutationKeepsBounds(a[i..hi], right, pivot);
    SortedJoin(a[lo..i], a[i..hi], pivot);
    assert a[lo..hi] == a[lo..i] + a[i..hi];
  }

  /** sort_vector: sorts the whole vector in place. */
  method SortVector(a: array<int>)
    modifies a
    ensures Sorted(a[..])
    ensures multiset(a[..]) == multiset(old(a[..]))
  {
    SortRange(a, 0, a.Length);
    assert a[..] == a[0..a.Length];
    assert old(a[..]) == old(a[0..a.Length]);
  }

  /** impl::binsearch and find_in_sorted_vector: -1 for an empty range;
      otherwise the middle element is compared with x, and the search goes on
      to the right of it (shifting a found index back into place) or to the
      left of it. Whatever index it returns holds x. The source's last test,
      a[mid] > x, always holds once the first two have failed, since ints are
      totally ordered, so its missing final return is never reached. */
  function BinSearch(a: seq<int>, x: int): (r: int)
    ensures -1 <= r < |a|
    ensures 0 <= r ==> a[r] == x
    decreases |a|
  {
    if |a| == 0 then -1
    else
      var mid := |a| / 2;
      if a[mid] == x then mid
      else if a[mid] < x then
        var result := BinSearch(a[mid + 1..], x);
        if result == -1 then -1 else result + mid + 1
      else
        BinSearch(a[..mid], x)
  }

  /** On a sorted vector binsearch misses only absent values. */
  lemma {:induction false} BinSearchFindsPresent(a: seq<int>, x: int)
    requires Sorted(a)
    ensures BinSearch(a, x) == -1 <==> x !in a
    decreases |a|, 1
  {
    if |a| > 0 {
      var mid := |a| / 2;
      if a[mid] < x {
        BinSearchGoesRight(a, x);
      } else if a[mid] > x {
        BinSearchGoesLeft(a, x);
      }
    }
  }

  /** The case where the middle element is less than x: x can only lie to
      its right. */
  lemma {:induction false} BinSearchGoesRight(a: seq<int>, x: int)
    requires Sorted(a) && |a| > 0 && a[|a| / 2] < x
    ensures BinSearch(a, x) == -1 <==> x !in a
    decreases |a|, 0
  {
    var mid := |a| / 2;
    SortedSlices(a, mid + 1);
    BinSearchFindsPresent(a[mid + 1..], x);
    NotInLowHalf(a, mid, x);
    InSplit(a, mid + 1, x);
  }

  /** The case where the middle element is greater than x: x can only lie
      to its left. */
  lemma {:induction false} BinSearchGoesLeft(a: seq<int>, x: int)
    requires Sorted(a) && |a| > 0 && a[|a| / 2] > x
    ensures BinSearch(a, x) == -1 <==> x !in a
    decreases |a|, 0
  {
    var mid := |a| / 2;
    SortedSlices(a, mid);
    BinSearchFindsPresent(a[..mid], x);
    NotInHighHalf(a, mid, x);
    InSplit(a, mid, x);
  }

  /** Both halves of a sorted sequence are sorted. */
  lemma SortedSlices(a: seq<int>, m: int)
    requires Sorted(a) && 0 <= m <= |a|
    ensures Sorted(a[..m]) && Sorted(a[m..])
  {
  }

  /** In a sorted sequence nothing up to an element less than x equals x. */
  lemma NotInLowHalf(a: seq<int>, m: int, x: int)
    requires Sorted(a) && 0 <= m < |a| && a[m] < x
    ensures x !in a[..m + 1]
  {
  }

  /** In a sorted sequence nothing from an element greater than x on
      equals x. */
  lemma NotInHighHalf(a: seq<int>, m: int, x: int)
    requires Sorted(a) && 0 <= m < |a| && a[m] > x
    ensures x !in a[m..]
  {
  }

  /** x is in a exactly when it is in one of the two halves split at m. */
  lemma InSplit(a: seq<int>, m: int, x: int)
    requires 0 <= m <= |a|
    ensures x in a <==> x in a[..m] || x in a[m..]
  {
    assert a == a[..m] + a[m..];
  }

  /** The index where insert_at puts x: the first element that is not less
      than x, or the end. */
  function FirstNotLess(v: seq<int>, x: int): (p: nat)
    ensures p <= |v|
    ensures forall k :: 0 <= k < p ==> v[k] < x
    ensures p < |v| ==> !(v[p] < x)
  {
    if |v| == 0 || !(v[0] < x) then 0 else 1 + FirstNotLess(v[1..], x)
  }

  /** FirstNotLess is the only index with every element before it less than
      x and the element at it (if any) not. */
  lemma FirstNotLessUnique(v: seq<int>, x: int, i: int)
    requires 0 <= i <= |v|
    requires forall k :: 0 <= k < i ==> v[k] < x
    requires i < |v| ==> !(v[i] < x)
    ensures FirstNotLess(v, x) == i
  {
  }

  /** Inserting x at p adds x to the elements. */
  lemma InsertAddsElement(v: seq<int>, x: int, p: int)
    requires 0 <= p <= |v|
    ensures multiset(v[..p] + [x] + v[p..]) == multiset(v) + multiset{x}
  {
    assert v == v[..p] + v[p..];
  }

  /** Inserting x before the first element not less than x keeps a sorted
      vector sorted. */
  lemma InsertKeepsSorted(v: seq<int>, x: int)
    requires Sorted(v)
    ensures var p := FirstNotLess(v, x); Sorted(v[..p] + [x] + v[p..])
  {
    var p := FirstNotLess(v, x);
    var w := v[..p] + [x] + v[p..];
    forall a, b | 0 <= a < b < |w|
      ensures w[a] <= w[b]
    {
      assert w[a] == if a < p then v[a] else if a == p then x else v[a - 1];
      assert w[b] == if b < p then v[b] else if b == p then x else v[b - 1];
    }
  }

  /** Taking out the element at p removes it from the elements. */
  lemma RemoveDropsElement(v: seq<int>, p: int)
    requires 0 <= p < |v|
    ensures multiset(v[..p] + v[p + 1..]) == multiset(v) - multiset{v[p]}
  {
    assert v == v[..p] + [v[p]] + v[p + 1..];
  }

  /** Taking out the element at p keeps a sorted vector sorted. */
  lemma RemoveKeepsSorted(v: seq<int>, p: int)
    requires 0 <= p < |v| && Sorted(v)
    ensures Sorted(v[..p] + v[p + 1..])
  {
    var w := v[..p] + v[p + 1..];
    forall a, b | 0 <= a < b < |w|
      ensures w[a] <= w[b]
    {
      assert w[a] == if a < p then v[a] else v[a + 1];
      assert w[b] == if b < p then v[b] else v[b + 1];
    }
  }

  /** The inner loop of insert_at: on the vector already grown by one,
      moves every element from i on one place right, from the back. */
  method ShiftRight(w0: seq<int>, i: int) returns (w: seq<int>)
    requires 0 <= i < |w0|
    ensures |w| == |w0| && w[..i] == w0[..i] && w[i + 1..] == w0[i..|w0| - 1]
  {
    w := w0;
    var j := |w0| - 1;
    while j > i
      invariant i <= j < |w0| && |w| == |w0|
      invariant w[..j] == w0[..j]
      invariant w[j + 1..] == w0[j..|w0| - 1]
    {
      w := w[j := w[j - 1]];
      j := j - 1;
    }
  }

  /** Writing x into the gap left at i completes the insertion. */
  lemma FillGap(v: seq<int>, w: seq<int>, x: int, i: int)
    requires 0 <= i <= |v| && |w| == |v| + 1
    requires w[..i] == v[..i] && w[i + 1..] == v[i..]
    ensures w[i := x] == v[..i] + [x] + v[i..]
  {
    var u := w[i := x];
    forall k | 0 <= k < |u|
      ensures u[k] == (v[..i] + [x] + v[i..])[k]
    {
      if k < i {
        assert u[k] == w[..i][k];
      } else if k > i {
        assert u[k] == w[i + 1..][k - i - 1];
      }
    }
  }

  /** impl::insert_at and insert_in_sorted_vector: the vector grows by one
      element; the first element not less than x and everything after it
      move one place right, and x goes into the gap (at the end when every
      element is less than x). */
  method InsertAt(x: int, v: seq<int>) returns (w: seq<int>)
    ensures w == v[..FirstNotLess(v, x)] + [x] + v[FirstNotLess(v, x)..]
    ensures multiset(w) == multiset(v) + multiset{x}
    ensures Sorted(v) ==> Sorted(w)
  {
    var oldSize := |v|;
    w := v + [0];
    var i := 0;
    while i < oldSize
      invariant 0 <= i <= oldSize && w == v + [0]
      invariant forall k :: 0 <= k < i ==> v[k] < x
    {
      if w[i] < x {
        i := i + 1;
        continue;
      }
      w := ShiftRight(w, i);
      break;
    }
    FirstNotLessUnique(v, x, i);
    FillGap(v, w, x, i);
    w := w[i := x];
    InsertAddsElement(v, x, i);
    if Sorted(v) {
      InsertKeepsSorted(v, x);
    }
  }

  /** One round of the shifting loop of remove_at: the element after k moves
      into place k. */
  lemma ShiftLeftStep(v: seq<int>, idx: int, k: int)
    requires 0 <= idx <= k && k + 1 < |v|
    ensures (v[..idx] + v[idx + 1..k + 1] + v[k..])[k := v[k + 1]]
         == v[..idx] + v[idx + 1..k + 2] + v[k + 1..]
  {
    var w := v[..idx] + v[idx + 1..k + 1] + v[k..];
    assert w[k + 1] == v[k + 1];
    assert v[idx + 1..k + 2] == v[idx + 1..k + 1] + [v[k + 1]];
    assert v[k..] == [v[k]] + v[k + 1..];
  }

  /** size_t(k): the unsigned 64-bit value an int becomes when it is compared
      with vec.size() - 1. */
  function ToSize(k: int): nat
    requires -0x8000_0000 <= k
  {
    if k < 0 then k + 0x1_0000_0000_0000_0000 else k
  }

  /** impl::remove_at and remove_from_sorted_vector: shifts the elements
      after idx one place left, then drops the last element. idx is an int
      compared with the unsigned vec.size() - 1, so a negative idx reads as a
      huge index: then, as for an idx at or past the end, nothing shifts and
      only the last element goes. On an empty vector size() - 1 wraps round
      and the loop reads past the end, so the vector must not be empty. */
  method RemoveAt(idx: int, v: seq<int>) returns (w: seq<int>)
    requires |v| > 0 && |v| < 0x8000_0000
    requires -0x8000_0000 <= idx < 0x8000_0000
    ensures 0 <= idx < |v| ==> w == v[..idx] + v[idx + 1..]
    ensures 0 <= idx < |v| ==> multiset(w) == multiset(v) - multiset{v[idx]}
    ensures !(0 <= idx < |v|) ==> w == v[..|v| - 1]
    ensures Sorted(v) ==> Sorted(w)
  {
    w := v;
    var k := idx;
    while ToSize(k) < |w| - 1
      invariant |w| == |v|
      invariant 0 <= idx < |v| ==> idx <= k < |v| && w == v[..idx] + v[idx + 1..k + 1] + v[k..]
      invariant !(0 <= idx < |v|) ==> k == idx && w == v
      decreases |w| - k
    {
      ShiftLeftStep(v, idx, k);
      w := w[k := w[k + 1]];
      k := k + 1;
    }
    w := w[..|w| - 1];
    if 0 <= idx < |v| {
      assert w == v[..idx] + v[idx + 1..];
      RemoveDropsElement(v, idx);
      if Sorted(v) {
        RemoveKeepsSorted(v, idx);
      }
    } else if Sorted(v) {
      assert w == v[..|v| - 1] + v[|v|..];
      RemoveKeepsSorted(v, |v| - 1);
    }
  }
}
