/** Sorting in place (lolibc/string.c:162-205). The records qsort moves with memcpy are the elements
    of an array, base and the cursors are indices, and the comparison is any function. */
module QSort {

  /** A comparison that orders all values, ties allowed. */
  ghost predicate TotalPreorder<T(!new)>(compar: (T, T) -> int) {
    && (forall x, y :: compar(x, y) <= 0 || compar(y, x) <= 0)
    && (forall x, y, z :: compar(x, y) <= 0 && compar(y, z) <= 0 ==> compar(x, z) <= 0)
  }

  ghost predicate Sorted<T(!new)>(s: seq<T>, lo: nat, hi: nat, compar: (T, T) -> int)
    requires hi <= |s|
  {
    forall i, j | lo <= i < j < hi :: compar(s[i], s[j]) <= 0
  }

  /** t is s with the elements of a window rearranged. */
  ghost predicate Rearranged<T>(s: seq<T>, t: seq<T>, lo: nat, hi: nat)
    requires lo <= hi <= |s|
  {
    |t| == |s| && t[..lo] == s[..lo] && t[hi..] == s[hi..] && multiset(t[lo..hi]) == multiset(s[lo..hi])
  }

  lemma RearrangedTwice<T>(s: seq<T>, t: seq<T>, u: seq<T>, lo: nat, hi: nat)
    requires lo <= hi <= |s| && Rearranged(s, t, lo, hi) && Rearranged(t, u, lo, hi)
    ensures Rearranged(s, u, lo, hi)
  {
  }

  /** Rearranging a smaller window rearranges the larger one. */
  lemma Widen<T>(s: seq<T>, t: seq<T>, lo: nat, hi: nat, lo': nat, hi': nat)
    requires lo' <= lo <= hi <= hi' <= |s| && Rearranged(s, t, lo, hi)
    ensures Rearranged(s, t, lo', hi')
  {
    assert s[..lo'] == s[..lo][..lo'] && t[..lo'] == t[..lo][..lo'];
    assert s[hi'..] == s[hi..][hi' - hi..] && t[hi'..] == t[hi..][hi' - hi..];
    assert s[lo'..hi'] == s[..lo][lo'..] + s[lo..hi] + s[hi..][..hi' - hi];
    assert t[lo'..hi'] == t[..lo][lo'..] + t[lo..hi] + t[hi..][..hi' - hi];
  }

  lemma SwapWindow<T>(s: seq<T>, t: seq<T>, i: nat, j: nat)
    requires i <= j < |s| && t == s[i := s[j]][j := s[i]]
    ensures Rearranged(s, t, i, j + 1)
  {
    if i < j {
      var mid := s[i + 1..j];
      assert s[i..j + 1] == [s[i]] + mid + [s[j]];
      assert t[i..j + 1] == [s[j]] + mid + [s[i]];
    } else {
      assert t == s;
    }
    assert t[..i] == s[..i] && t[j + 1..] == s[j + 1..];
  }

  lemma SwapRearranges<T>(s: seq<T>, i: nat, j: nat, lo: nat, hi: nat)
    requires lo <= i <= j < hi <= |s|
    ensures Rearranged(s, s[i := s[j]][j := s[i]], lo, hi)
  {
    hide Rearranged;
    var t := s[i := s[j]][j := s[i]];
    SwapWindow(s, t, i, j);
    Widen(s, t, i, j + 1, lo, hi);
  }

  /** What holds of a window's elements holds of them rearranged. */
  lemma StillAll<T>(s: seq<T>, t: seq<T>, lo: nat, hi: nat, p: T -> bool)
    requires lo <= hi <= |s| && Rearranged(s, t, lo, hi) && forall i | lo <= i < hi :: p(s[i])
    ensures forall i | lo <= i < hi :: p(t[i])
  {
    forall i | lo <= i < hi ensures p(t[i]) {
      assert t[i] == t[lo..hi][i - lo];
      assert t[i] in multiset(t[lo..hi]);
      assert t[i] in s[lo..hi];
    }
  }

  /** Around the pivot at m: nothing before it is greater, nothing after it is smaller or equal. */
  ghost predicate Split<T(!new)>(s: seq<T>, lo: nat, m: nat, hi: nat, compar: (T, T) -> int)
    requires lo <= m < hi <= |s|
  {
    && (forall k | lo <= k < m :: compar(s[k], s[m]) <= 0)
    && (forall k | m < k < hi :: compar(s[k], s[m]) > 0)
  }

  /** Exchanging two records of the window. */
  method Exchange<T(!new)>(a: array<T>, i: nat, j: nat, ghost first: seq<T>, ghost lo: nat, ghost hi: nat)
    requires lo <= i <= j < hi <= a.Length == |first| && Rearranged(first, a[..], lo, hi)
    modifies a
    ensures a[..] == old(a[..][i := a[j]][j := a[i]]) && Rearranged(first, a[..], lo, hi)
  {
    hide Rearranged;
    SwapRearranges(a[..], i, j, lo, hi);
    ghost var before := a[..];
    a[i], a[j] := a[j], a[i];
    assert a[..] == before[i := before[j]][j := before[i]];
    RearrangedTwice(first, before, a[..], lo, hi);
  }

  /** What the cursors have passed: nothing greater than the pivot on the left, nothing else on the right. */
  ghost predicate Passed<T(!new)>(s: seq<T>, base: nat, left: nat, right: int, end: nat, p: T, compar: (T, T) -> int)
    requires left <= end <= |s| && -1 <= right
  {
    && (forall k | base <= k < left :: compar(s[k], p) <= 0)
    && (forall k | right < k < end :: compar(s[k], p) > 0)
  }

  /** The first inner loop: to an element greater than the pivot. */
  method SkipLeft<T(!new)>(a: array<T>, base: nat, from: nat, right: nat, end: nat, compar: (T, T) -> int) returns (left: nat)
    requires base < from <= right + 1 <= end <= a.Length && Passed(a[..], base, from, right, end, a[base], compar)
    ensures from <= left <= right + 1 && Passed(a[..], base, left, right, end, a[base], compar)
    ensures left <= right ==> compar(a[left], a[base]) > 0
  {
    left := from;
    while left <= right && compar(a[left], a[base]) <= 0
      invariant from <= left <= right + 1 && Passed(a[..], base, left, right, end, a[base], compar)
    {
      left := left + 1;
    }
  }

  /** The second: to one that is not. */
  method SkipRight<T(!new)>(a: array<T>, base: nat, left: nat, from: nat, end: nat, compar: (T, T) -> int) returns (right: nat)
    requires base < left <= from + 1 <= end <= a.Length && Passed(a[..], base, left, from, end, a[base], compar)
    ensures left <= right + 1 <= from + 1 && Passed(a[..], base, left, right, end, a[base], compar)
    ensures left <= right ==> compar(a[right], a[base]) <= 0
  {
    right := from;
    while left <= right && compar(a[right], a[base]) > 0
      invariant left <= right + 1 <= from + 1 && Passed(a[..], base, left, right, end, a[base], compar)
      decreases right
    {
      right := right - 1;
    }
  }

  /** The partition loop and the pivot's move to its place. */
  method Partition<T(!new)>(a: array<T>, base: nat, num: nat, compar: (T, T) -> int) returns (right: nat)
    requires base + num <= a.Length && num > 1 && TotalPreorder(compar)
    modifies a
    ensures base <= right < base + num && Rearranged(old(a[..]), a[..], base, base + num)
    ensures Split(a[..], base, right, base + num, compar)
  {
    hide Rearranged;
    hide TotalPreorder;
    hide Passed;
    hide Split;
    var end := base + num;
    var left := base + 1;
    right := end - 1;
    ghost var first, p := a[..], a[base];
    Same(first, base, end);
    PassedNone(first, base, end, p, compar);
    while left <= right
      invariant base < left <= right + 1 <= end
      invariant a[base] == p && Passed(a[..], base, left, right, end, p, compar)
      invariant Rearranged(first, a[..], base, end)
      decreases right + 1 - left
    {
      left := SkipLeft(a, base, left, right, end, compar);
      right := SkipRight(a, base, left, right, end, compar);
      NotBoth(a[..], base, left, right, end, p, compar);
      if left < right {
        ghost var before := a[..];
        Exchange(a, left, right, first, base, end);
        PassedMore(before, a[..], base, left, right, end, p, compar);
        left, right := left + 1, right - 1;
      }
    }
    ghost var before := a[..];
    Exchange(a, base, right, first, base, end);
    PivotPlaced(before, a[..], base, right, end, compar);
  }

  lemma PassedNone<T(!new)>(s: seq<T>, base: nat, end: nat, p: T, compar: (T, T) -> int)
    requires base < end <= |s| && p == s[base] && TotalPreorder(compar)
    ensures Passed(s, base, base + 1, end - 1, end, p, compar)
  {
  }

  /** The cursors do not stop at the same element. */
  lemma NotBoth<T(!new)>(s: seq<T>, base: nat, left: nat, right: nat, end: nat, p: T, compar: (T, T) -> int)
    requires base < left <= right + 1 <= end <= |s|
    requires left <= right ==> compar(s[left], p) > 0 && compar(s[right], p) <= 0
    ensures left != right
  {
  }

  lemma PassedMore<T(!new)>(s: seq<T>, t: seq<T>, base: nat, left: nat, right: nat, end: nat, p: T, compar: (T, T) -> int)
    requires base < left < right < end <= |s| && Passed(s, base, left, right, end, p, compar)
    requires compar(s[left], p) > 0 && compar(s[right], p) <= 0 && t == s[left := s[right]][right := s[left]]
    ensures Passed(t, base, left + 1, right - 1, end, p, compar)
  {
  }

  lemma PivotPlaced<T(!new)>(s: seq<T>, t: seq<T>, base: nat, right: nat, end: nat, compar: (T, T) -> int)
    requires base <= right < end <= |s| && Passed(s, base, right + 1, right, end, s[base], compar)
    requires t == s[base := s[right]][right := s[base]]
    ensures Split(t, base, right, end, compar)
  {
  }

  /** qsort: the window ends up sorted, a rearrangement of what it was, and nothing else changes. */
  method Sort<T(!new)>(a: array<T>, base: nat, num: nat, compar: (T, T) -> int)
    requires base + num <= a.Length && TotalPreorder(compar)
    modifies a
    ensures Sorted(a[..], base, base + num, compar) && Rearranged(old(a[..]), a[..], base, base + num)
    decreases num
  {
    hide Rearranged;
    if num <= 1 {
      Same(a[..], base, base + num);
      return;
    }
    ghost var s0 := a[..];
    var right := Partition(a, base, num, compar);
    ghost var s1 := a[..];
    var leftSize := right - base;
    var rightSize := num - leftSize - 1;
    Sort(a, base, leftSize, compar);
    ghost var s2 := a[..];
    Sort(a, right + 1, rightSize, compar);
    Combine(s0, s1, s2, a[..], base, right, base + num, compar);
  }

  lemma Same<T>(s: seq<T>, lo: nat, hi: nat)
    requires lo <= hi <= |s|
    ensures Rearranged(s, s, lo, hi)
  {
  }

  /** Splitting, then sorting both sides, sorts. */
  lemma Combine<T(!new)>(s0: seq<T>, s1: seq<T>, s2: seq<T>, s3: seq<T>, lo: nat, m: nat, hi: nat, compar: (T, T) -> int)
    requires TotalPreorder(compar) && lo <= m < hi <= |s0| == |s1| == |s2| == |s3|
    requires Rearranged(s0, s1, lo, hi) && Split(s1, lo, m, hi, compar)
    requires Rearranged(s1, s2, lo, m) && Sorted(s2, lo, m, compar)
    requires Rearranged(s2, s3, m + 1, hi) && Sorted(s3, m + 1, hi, compar)
    ensures Rearranged(s0, s3, lo, hi) && Sorted(s3, lo, hi, compar)
  {
    Widen(s1, s2, lo, m, lo, hi);
    Widen(s2, s3, m + 1, hi, lo, hi);
    RearrangedTwice(s0, s1, s2, lo, hi);
    RearrangedTwice(s0, s2, s3, lo, hi);
    var p := s1[m];
    Kept(s1, s2, lo, m);
    Kept(s2, s3, m + 1, hi);
    StillAll(s1, s2, lo, m, x => compar(x, p) <= 0);
    StillAll(s2, s3, m + 1, hi, x => compar(x, p) > 0);
    Ordered(s2, s3, lo, m, hi, p, compar);
  }

  lemma Kept<T>(s: seq<T>, t: seq<T>, lo: nat, hi: nat)
    requires lo <= hi <= |s| && Rearranged(s, t, lo, hi)
    ensures |t| == |s| && (forall k | 0 <= k < lo :: t[k] == s[k]) && (forall k | hi <= k < |s| :: t[k] == s[k])
  {
    forall k | 0 <= k < lo ensures t[k] == s[k] {
      assert t[..lo][k] == s[..lo][k];
    }
    forall k | hi <= k < |s| ensures t[k] == s[k] {
      assert t[hi..][k - hi] == s[hi..][k - hi];
    }
  }

  lemma Ordered<T(!new)>(s2: seq<T>, s3: seq<T>, lo: nat, m: nat, hi: nat, p: T, compar: (T, T) -> int)
    requires TotalPreorder(compar) && lo <= m < hi <= |s2| == |s3|
    requires Sorted(s2, lo, m, compar) && Sorted(s3, m + 1, hi, compar) && s3[m] == p
    requires forall k | lo <= k < m :: s3[k] == s2[k] && compar(s2[k], p) <= 0
    requires forall k | m < k < hi :: compar(s3[k], p) > 0
    ensures Sorted(s3, lo, hi, compar)
  {
    forall i, j | lo <= i < j < hi ensures compar(s3[i], s3[j]) <= 0 {
      if i < m < j {
        assert compar(s3[i], p) <= 0 && compar(p, s3[j]) <= 0;
      }
    }
  }
}
