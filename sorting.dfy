/** The comparison sorts and the binary search of the Sorting namespace, on
    an integer array. Every routine works on the closed index range
    [lo, hi] of its container and leaves the rest of it alone. */
module Sorting {

  /** s is in ascending order on the closed range [lo, hi]. */
  ghost predicate Sorted(s: seq<int>, lo: int, hi: int) {
    forall i, j :: 0 <= lo <= i < j <= hi < |s| ==> s[i] <= s[j]
  }

  /** s and t agree everywhere outside the closed range [lo, hi]. */
  ghost predicate SameOutside(s: seq<int>, t: seq<int>, lo: int, hi: int) {
    |s| == |t| && forall k :: 0 <= k < |s| && !(lo <= k <= hi) ==> s[k] == t[k]
  }

  /** A change confined to [lo, hi] that permutes that range permutes the
      whole sequence. */
  lemma RangePermutation(s: seq<int>, t: seq<int>, lo: int, hi: int)
    requires 0 <= lo <= hi + 1 <= |s| && SameOutside(s, t, lo, hi)
    requires multiset(s[lo..hi + 1]) == multiset(t[lo..hi + 1])
    ensures multiset(s) == multiset(t)
  {
    var pre, post := s[..lo], s[hi + 1..];
    assert pre == t[..lo] by {
      assert forall k :: 0 <= k < lo ==> pre[k] == s[k] == t[k];
    }
    assert post == t[hi + 1..] by {
      assert forall k :: 0 <= k < |post| ==> post[k] == s[hi + 1 + k] == t[hi + 1 + k];
    }
    assert s == pre + s[lo..hi + 1] + post;
    assert t == pre + t[lo..hi + 1] + post;
  }

  /** Sortedness of a slice is sortedness of the range it was cut from. */
  lemma SortedSlice(s: seq<int>, lo: int, hi: int)
    requires 0 <= lo <= hi + 1 <= |s|
    ensures Sorted(s[lo..hi + 1], 0, hi - lo) <==> Sorted(s, lo, hi)
  {
    var t := s[lo..hi + 1];
    assert forall k :: 0 <= k <= hi - lo ==> t[k] == s[lo + k];
    if Sorted(t, 0, hi - lo) {
      forall i, j | lo <= i < j <= hi
        ensures s[i] <= s[j]
      {
        assert t[i - lo] <= t[j - lo];
      }
    }
  }

  /** t is s with the items at i and j exchanged. */
  ghost predicate Exchanged(t: seq<int>, s: seq<int>, i: int, j: int) {
    |t| == |s| && 0 <= i < |s| && 0 <= j < |s| && t[i] == s[j] && t[j] == s[i] &&
    forall k :: 0 <= k < |s| && k != i && k != j ==> t[k] == s[k]
  }

  /** std::swap on two items of the array. */
  method Swap(a: array<int>, i: int, j: int)
    requires 0 <= i < a.Length && 0 <= j < a.Length
    modifies a
    ensures Exchanged(a[..], old(a[..]), i, j)
    ensures multiset(a[..]) == multiset(old(a[..]))
  {
    a[i], a[j] := a[j], a[i];
  }

  // ---------------------------------------------------------------------
  // binary_search

  /** binary_search: on a range sorted in ascending order, the index of some
      occurrence of val, or -1 exactly when val does not occur there. */
  method BinarySearch(a: array<int>, lo: int, hi: int, val: int) returns (r: int)
    requires 0 <= lo && hi < a.Length && Sorted(a[..], lo, hi)
    ensures r == -1 <==> forall k :: lo <= k <= hi ==> a[k] != val
    ensures r != -1 ==> lo <= r <= hi && a[r] == val
  {
    var l, h := lo, hi;
    while l <= h
      invariant lo <= l && h <= hi
      invariant forall k :: lo <= k <= hi && !(l <= k <= h) ==> a[k] != val
      decreases h - l
    {
      var mid := l + (h - l) / 2;
      if a[mid] == val {
        return mid;
      } else if a[mid] > val {
        h := mid - 1;
      } else {
        l := mid + 1;
      }
    }
    return -1;
  }

  // ---------------------------------------------------------------------
  // insertion_sort

  /** The state of an insertion step: the item at j is on its way down;
      [lo, j - 1] and [j, i] are each ascending, and every item below j is
      at most every item above j. */
  ghost predicate Inserting(s: seq<int>, lo: int, j: int, i: int) {
    Sorted(s, lo, j - 1) && Sorted(s, j, i) &&
    forall p, q :: 0 <= lo <= p < j < q <= i < |s| ==> s[p] <= s[q]
  }

  /** Swapping the item at j with a larger neighbour below moves it one
      place down. */
  lemma InsertingSwap(s: seq<int>, t: seq<int>, lo: int, j: int, i: int)
    requires 0 <= lo < j <= i < |s| && Inserting(s, lo, j, i) && s[j - 1] > s[j]
    requires Exchanged(t, s, j, j - 1)
    ensures Inserting(t, lo, j - 1, i)
  {
  }

  /** An item not smaller than its neighbour below has reached its place:
      the whole range [lo, i] is ascending. */
  lemma InsertingDone(s: seq<int>, lo: int, j: int, i: int)
    requires 0 <= lo < j <= i < |s| && Inserting(s, lo, j, i) && s[j - 1] <= s[j]
    ensures Sorted(s, lo, i) && Inserting(s, lo, j - 1, i)
  {
  }

  /** insertion_sort: sorts [lo, hi] in place, a permutation that changes
      nothing outside the range. */
  method InsertionSort(a: array<int>, lo: int, hi: int)
    requires 0 <= lo && hi < a.Length
    modifies a
    ensures Sorted(a[..], lo, hi)
    ensures multiset(a[..]) == multiset(old(a[..]))
    ensures SameOutside(a[..], old(a[..]), lo, hi)
  {
    var i := lo + 1;
    while i <= hi
      invariant lo + 1 <= i && (lo <= hi ==> i <= hi + 1)
      invariant Sorted(a[..], lo, i - 1)
      invariant multiset(a[..]) == multiset(old(a[..]))
      invariant SameOutside(a[..], old(a[..]), lo, hi)
    {
      Insert(a, lo, hi, i);
      i := i + 1;
    }
  }

  /** The inner loop of insertion_sort: with [lo, i - 1] sorted, a[i] moves
      down past every larger item, stopping at the first item not larger. */
  method Insert(a: array<int>, lo: int, hi: int, i: int)
    requires 0 <= lo < i <= hi < a.Length && Sorted(a[..], lo, i - 1)
    modifies a
    ensures Sorted(a[..], lo, i)
    ensures multiset(a[..]) == multiset(old(a[..]))
    ensures SameOutside(a[..], old(a[..]), lo, hi)
  {
    var j := i;
    while j > lo
      invariant lo <= j <= i
      invariant Inserting(a[..], lo, j, i)
      invariant multiset(a[..]) == multiset(old(a[..]))
      invariant SameOutside(a[..], old(a[..]), lo, hi)
    {
      if a[j - 1] > a[j] {
        ghost var s := a[..];
        Swap(a, j, j - 1);
        InsertingSwap(s, a[..], lo, j, i);
        j := j - 1;
      } else {
        InsertingDone(a[..], lo, j, i);
        break;
      }
    }
  }

  // ---------------------------------------------------------------------
  // shell_sort

  /** The gaps of shell_sort: 1, 4, 13, 40, ..., each three times the
      previous one plus one. */
  ghost predicate IsGap(h: int)
    decreases h
  {
    h == 1 || (h >= 4 && (h - 1) % 3 == 0 && IsGap((h - 1) / 3))
  }

  /** The next gap up, 3h + 1, is in the sequence. */
  lemma GapUp(h: int)
    requires IsGap(h)
    ensures IsGap(3 * h + 1)
  {
    assert (3 * h + 1 - 1) / 3 == h;
  }

  /** The next gap down, h / 3, is in the sequence, and is 0 after 1. */
  lemma GapDown(h: int)
    requires IsGap(h)
    ensures h == 1 ==> h / 3 == 0
    ensures h > 1 ==> h / 3 >= 1 && IsGap(h / 3)
  {
    if h > 1 {
      assert h / 3 == (h - 1) / 3;
    }
  }

  /** Changes confined to [lo, hi] compose. */
  lemma OutsideTrans(s: seq<int>, t: seq<int>, u: seq<int>, lo: int, hi: int)
    requires SameOutside(s, t, lo, hi) && SameOutside(t, u, lo, hi)
    ensures SameOutside(s, u, lo, hi)
  {
  }

  /** shell_sort: h-sorts [lo, hi] for the gaps from the largest below a third
      of the range down to 1; the last pass sorts the range. */
  method ShellSort(a: array<int>, lo: int, hi: int)
    requires 0 <= lo && hi < a.Length
    modifies a
    ensures Sorted(a[..], lo, hi)
    ensures multiset(a[..]) == multiset(old(a[..]))
    ensures SameOutside(a[..], old(a[..]), lo, hi)
  {
    var h := 1;
    while h < (hi - lo + 1) / 3
      invariant IsGap(h)
      decreases hi - lo - h
    {
      assert IsGap(3 * h + 1) by {
        GapUp(h);
      }
      h := 3 * h + 1;
    }
    while h >= 1
      invariant h >= 0 && (h >= 1 ==> IsGap(h))
      invariant h == 0 ==> Sorted(a[..], lo, hi)
      invariant multiset(a[..]) == multiset(old(a[..]))
      invariant SameOutside(a[..], old(a[..]), lo, hi)
      decreases h
    {
      ghost var before := a[..];
      GapPass(a, lo, hi, h);
      OutsideTrans(a[..], before, old(a[..]), lo, hi);
      GapDown(h);
      h := h / 3;
    }
  }

  /** One pass of shell_sort with gap h: every item is compared with the
      items h, 2h, ... below it and swapped down when smaller. A pass with
      gap 1 sorts the range. */
  method GapPass(a: array<int>, lo: int, hi: int, h: int)
    requires 0 <= lo && hi < a.Length && h >= 1
    modifies a
    ensures h == 1 ==> Sorted(a[..], lo, hi)
    ensures multiset(a[..]) == multiset(old(a[..]))
    ensures SameOutside(a[..], old(a[..]), lo, hi)
  {
    var i := lo + h;
    while i <= hi
      invariant lo + h <= i && (lo + h <= hi ==> i <= hi + 1)
      invariant h == 1 ==> Sorted(a[..], lo, i - 1)
      invariant multiset(a[..]) == multiset(old(a[..]))
      invariant SameOutside(a[..], old(a[..]), lo, hi)
    {
      GapInsert(a, lo, hi, h, i);
      i := i + 1;
    }
  }

  /** One comparison of a pass with gap h: with gap 1 the item at j moves
      one place down or stays, and the insertion state moves down with it. */
  lemma GapStep(s: seq<int>, t: seq<int>, lo: int, j: int, i: int, h: int)
    requires 0 <= lo && h >= 1 && lo + h <= j <= i < |s|
    requires h == 1 ==> Inserting(s, lo, j, i)
    requires if s[j - h] > s[j] then Exchanged(t, s, j, j - h) else t == s
    ensures h == 1 ==> Inserting(t, lo, j - h, i)
  {
    if h == 1 {
      if s[j - 1] > s[j] {
        InsertingSwap(s, t, lo, j, i);
      } else {
        InsertingDone(s, lo, j, i);
      }
    }
  }

  /** The inner loop of a pass: with gap 1 it keeps comparing down to lo
      after the item has found its place, which changes nothing more. */
  method GapInsert(a: array<int>, lo: int, hi: int, h: int, i: int)
    requires 0 <= lo && h >= 1 && lo + h <= i <= hi < a.Length
    requires h == 1 ==> Sorted(a[..], lo, i - 1)
    modifies a
    ensures h == 1 ==> Sorted(a[..], lo, i)
    ensures multiset(a[..]) == multiset(old(a[..]))
    ensures SameOutside(a[..], old(a[..]), lo, hi)
  {
    var j := i;
    while j >= lo + h
      invariant lo <= j <= i
      invariant h == 1 ==> Inserting(a[..], lo, j, i)
      invariant multiset(a[..]) == multiset(old(a[..]))
      invariant SameOutside(a[..], old(a[..]), lo, hi)
      decreases j
    {
      ghost var s := a[..];
      if a[j - h] > a[j] {
        Swap(a, j, j - h);
      }
      GapStep(s, a[..], lo, j, i, h);
      j := j - h;
    }
  }

  // ---------------------------------------------------------------------
  // merge and merge_sort

  /** The sequence merge writes: the smaller head first, and on equal heads
      the head of the right part. */
  function MergeSeq(left: seq<int>, right: seq<int>): seq<int>
    decreases |left| + |right|
  {
    if left == [] then right
    else if right == [] then left
    else if left[0] < right[0] then [left[0]] + MergeSeq(left[1..], right)
    else [right[0]] + MergeSeq(left, right[1..])
  }

  /** Merging loses and invents nothing: the result is a permutation of the
      two parts together. */
  lemma {:induction false} MergePermutes(left: seq<int>, right: seq<int>)
    ensures multiset(MergeSeq(left, right)) == multiset(left) + multiset(right)
    decreases |left| + |right|
  {
    if left != [] && right != [] {
      if left[0] < right[0] {
        MergePermutes(left[1..], right);
        assert left == [left[0]] + left[1..];
      } else {
        MergePermutes(left, right[1..]);
        assert right == [right[0]] + right[1..];
      }
    }
  }

  /** Every item of the merge is an item of one of the two parts. */
  lemma MergeItems(left: seq<int>, right: seq<int>, x: int)
    ensures x in MergeSeq(left, right) <==> x in left || x in right
  {
    MergePermutes(left, right);
    assert x in MergeSeq(left, right) <==> x in multiset(MergeSeq(left, right));
  }

  /** An item no larger than any item of an ascending sequence can go in
      front of it. */
  lemma SortedCons(x: int, t: seq<int>)
    requires Sorted(t, 0, |t| - 1) && forall y :: y in t ==> x <= y
    ensures Sorted([x] + t, 0, |t|)
  {
    var s := [x] + t;
    forall i, j | 0 <= i < j <= |t|
      ensures s[i] <= s[j]
    {
      assert s[j] == t[j - 1] && t[j - 1] in t;
      if i > 0 {
        assert s[i] == t[i - 1];
      }
    }
  }

  /** Merging two ascending parts gives an ascending sequence. */
  lemma {:induction false} MergeSorted(left: seq<int>, right: seq<int>)
    requires Sorted(left, 0, |left| - 1) && Sorted(right, 0, |right| - 1)
    ensures Sorted(MergeSeq(left, right), 0, |left| + |right| - 1)
    ensures |MergeSeq(left, right)| == |left| + |right|
    decreases |left| + |right|
  {
    if left != [] && right != [] {
      if left[0] < right[0] {
        var t := MergeSeq(left[1..], right);
        MergeSorted(left[1..], right);
        forall y | y in t
          ensures left[0] <= y
        {
          MergeItems(left[1..], right, y);
        }
        SortedCons(left[0], t);
      } else {
        var t := MergeSeq(left, right[1..]);
        MergeSorted(left, right[1..]);
        forall y | y in t
          ensures right[0] <= y
        {
          MergeItems(left, right[1..], y);
        }
        SortedCons(right[0], t);
      }
    }
  }

  /** The items merge writes from the state where the left part continues
      at l and the right part at r, step by step as its loop takes them. */
  ghost function MergeFrom(a: seq<int>, l: int, mid: int, r: int, hi: int): (m: seq<int>)
    requires 0 <= l <= mid + 1 <= r <= hi + 1 <= |a|
    ensures |m| == (mid + 1 - l) + (hi + 1 - r)
    decreases (mid + 1 - l) + (hi + 1 - r)
  {
    if l > mid && r > hi then []
    else if l > mid then [a[r]] + MergeFrom(a, l, mid, r + 1, hi)
    else if r > hi then [a[l]] + MergeFrom(a, l + 1, mid, r, hi)
    else if a[l] < a[r] then [a[l]] + MergeFrom(a, l + 1, mid, r, hi)
    else [a[r]] + MergeFrom(a, l, mid, r + 1, hi)
  }

  /** One step of merge: the merge of what is left of the two parts starts
      with the item the step copies. */
  lemma MergeUnfold(a: seq<int>, l: int, mid: int, r: int, hi: int)
    requires 0 <= l <= mid + 1 <= r <= hi + 1 <= |a| && (l <= mid || r <= hi)
    ensures MergeSeq(a[l..mid + 1], a[r..hi + 1]) ==
      if l > mid then [a[r]] + MergeSeq(a[l..mid + 1], a[r + 1..hi + 1])
      else if r > hi then [a[l]] + MergeSeq(a[l + 1..mid + 1], a[r..hi + 1])
      else if a[l] < a[r] then [a[l]] + MergeSeq(a[l + 1..mid + 1], a[r..hi + 1])
      else [a[r]] + MergeSeq(a[l..mid + 1], a[r + 1..hi + 1])
  {
    if l <= mid {
      assert a[l..mid + 1][1..] == a[l + 1..mid + 1];
    }
    if r <= hi {
      assert a[r..hi + 1][1..] == a[r + 1..hi + 1];
    }
  }

  /** Stepping through the two parts by index writes exactly the merge of
      what is left of them. */
  lemma {:induction false} MergeFromSlices(a: seq<int>, l: int, mid: int, r: int, hi: int)
    requires 0 <= l <= mid + 1 <= r <= hi + 1 <= |a|
    ensures MergeFrom(a, l, mid, r, hi) == MergeSeq(a[l..mid + 1], a[r..hi + 1])
    decreases (mid + 1 - l) + (hi + 1 - r)
  {
    if l <= mid || r <= hi {
      MergeUnfold(a, l, mid, r, hi);
      if l > mid || (r <= hi && a[l] >= a[r]) {
        MergeFromSlices(a, l, mid, r + 1, hi);
        assert MergeFrom(a, l, mid, r, hi) == [a[r]] + MergeFrom(a, l, mid, r + 1, hi);
      } else {
        MergeFromSlices(a, l + 1, mid, r, hi);
        assert MergeFrom(a, l, mid, r, hi) == [a[l]] + MergeFrom(a, l + 1, mid, r, hi);
      }
    }
  }

  /** What merge leaves in [lo, hi], the merge of the two sorted parts, is
      sorted and a permutation of what was there. */
  lemma MergedRange(c0: seq<int>, c1: seq<int>, lo: int, mid: int, hi: int)
    requires 0 <= lo <= mid + 1 && mid <= hi < |c0|
    requires Sorted(c0, lo, mid) && Sorted(c0, mid + 1, hi) && SameOutside(c1, c0, lo, hi)
    requires c1[lo..hi + 1] == MergeSeq(c0[lo..mid + 1], c0[mid + 1..hi + 1])
    ensures Sorted(c1, lo, hi) && multiset(c1) == multiset(c0)
  {
    var left, right := c0[lo..mid + 1], c0[mid + 1..hi + 1];
    MergedSorted(c0, c1, lo, mid, hi, left, right);
    MergedPermutes(c0, c1, lo, mid, hi, left, right);
  }

  /** The sortedness half of MergedRange. */
  lemma MergedSorted(c0: seq<int>, c1: seq<int>, lo: int, mid: int, hi: int, left: seq<int>, right: seq<int>)
    requires 0 <= lo <= mid + 1 && mid <= hi < |c0| == |c1|
    requires left == c0[lo..mid + 1] && right == c0[mid + 1..hi + 1]
    requires Sorted(c0, lo, mid) && Sorted(c0, mid + 1, hi)
    requires c1[lo..hi + 1] == MergeSeq(left, right)
    ensures Sorted(c1, lo, hi)
  {
    SortedSlice(c0, lo, mid);
    SortedSlice(c0, mid + 1, hi);
    MergeSorted(left, right);
    SortedSlice(c1, lo, hi);
  }

  /** The permutation half of MergedRange. */
  lemma MergedPermutes(c0: seq<int>, c1: seq<int>, lo: int, mid: int, hi: int, left: seq<int>, right: seq<int>)
    requires 0 <= lo <= mid + 1 && mid <= hi < |c0|
    requires left == c0[lo..mid + 1] && right == c0[mid + 1..hi + 1]
    requires SameOutside(c1, c0, lo, hi) && c1[lo..hi + 1] == MergeSeq(left, right)
    ensures multiset(c1) == multiset(c0)
  {
    assert c0[lo..hi + 1] == left + right;
    MergeOfParts(c0[lo..hi + 1], left, right, c1[lo..hi + 1]);
    RangePermutation(c1, c0, lo, hi);
  }

  /** The merge of two parts is a permutation of the two together. */
  lemma MergeOfParts(whole: seq<int>, left: seq<int>, right: seq<int>, merged: seq<int>)
    requires whole == left + right && merged == MergeSeq(left, right)
    ensures multiset(merged) == multiset(whole)
  {
    MergePermutes(left, right);
  }

  /** The first loop of merge: [lo, hi] of c is copied to aux. */
  method CopyRange(c: array<int>, aux: array<int>, lo: int, hi: int)
    requires c != aux && aux.Length >= c.Length && 0 <= lo <= hi + 1 <= c.Length
    modifies aux
    ensures aux[lo..hi + 1] == c[lo..hi + 1]
  {
    for i := lo to hi + 1
      invariant forall k :: lo <= k < i ==> aux[k] == c[k]
    {
      aux[i] := c[i];
    }
  }

  /** One step of merge's second loop: the next item is aux[l] when the
      left part is not used up and either the right part is or aux[l] <
      aux[r]; otherwise aux[r]. Either way it is the first item of the merge
      of what is left, and the rest of that merge is what the step leaves. */
  method MergeTake(aux: array<int>, l: int, mid: int, r: int, hi: int) returns (x: int, l': int, r': int)
    requires 0 <= l <= mid + 1 <= r <= hi + 1 <= aux.Length && (l <= mid || r <= hi)
    ensures l <= l' <= mid + 1 <= r' <= hi + 1 && l' + r' == l + r + 1
    ensures MergeFrom(aux[..], l, mid, r, hi) == [x] + MergeFrom(aux[..], l', mid, r', hi)
  {
    if l > mid {
      x := aux[r];
      l', r' := l, r + 1;
    } else if r > hi {
      x := aux[l];
      l', r' := l + 1, r;
    } else if aux[l] < aux[r] {
      x := aux[l];
      l', r' := l + 1, r;
    } else {
      x := aux[r];
      l', r' := l, r + 1;
    }
  }

  /** The state of merge's second loop after i - lo steps, with l and r
      the next indices of the two parts in a: c holds the first steps'
      items in [lo, i) and the merge of what is left of the parts the rest,
      and nothing outside [lo, hi] has changed since c0. */
  ghost predicate MergeLoop(c: seq<int>, c0: seq<int>, a: seq<int>, lo: int, mid: int, hi: int, i: int, l: int, r: int) {
    && 0 <= lo <= l <= mid + 1 <= r <= hi + 1 <= |a| && i == l + r - mid - 1 && hi < |c|
    && SameOutside(c, c0, lo, hi)
    && c[lo..i] + MergeFrom(a, l, mid, r, hi) == MergeFrom(a, lo, mid, mid + 1, hi)
  }

  /** Writing the item a step takes at index i keeps the loop's state. */
  lemma MergeLoopStep(c: seq<int>, c0: seq<int>, a: seq<int>, lo: int, mid: int, hi: int,
                      i: int, l: int, r: int, x: int, l': int, r': int)
    requires MergeLoop(c, c0, a, lo, mid, hi, i, l, r) && i <= hi
    requires l <= l' <= mid + 1 <= r' <= hi + 1 && l' + r' == l + r + 1
    requires MergeFrom(a, l, mid, r, hi) == [x] + MergeFrom(a, l', mid, r', hi)
    ensures MergeLoop(c[i := x], c0, a, lo, mid, hi, i + 1, l', r')
  {
    assert c[i := x][lo..i + 1] == c[lo..i] + [x];
  }

  /** The second loop of merge: the two parts held in aux are merged into
      [lo, hi] of c, and nothing else in c changes. */
  method MergeBack(c: array<int>, aux: array<int>, lo: int, mid: int, hi: int)
    requires c != aux && aux.Length >= c.Length
    requires 0 <= lo <= mid + 1 && mid <= hi < c.Length
    modifies c
    ensures c[lo..hi + 1] == MergeFrom(aux[..], lo, mid, mid + 1, hi)
    ensures SameOutside(c[..], old(c[..]), lo, hi)
  {
    ghost var a := aux[..];
    var l, r := lo, mid + 1;
    for i := lo to hi + 1
      invariant MergeLoop(c[..], old(c[..]), a, lo, mid, hi, i, l, r)
      invariant aux[..] == a
    {
      var x, l', r' := MergeTake(aux, l, mid, r, hi);
      ghost var before := c[..];
      MergeLoopStep(before, old(c[..]), a, lo, mid, hi, i, l, r, x, l', r');
      c[i] := x;
      assert c[..] == before[i := x];
      l, r := l', r';
    }
  }

  /** Two sequences that agree on [lo, hi] agree on both of its parts. */
  lemma SliceParts(s: seq<int>, t: seq<int>, lo: int, mid: int, hi: int)
    requires 0 <= lo <= mid + 1 <= hi + 1 <= |s| && hi < |t| && s[lo..hi + 1] == t[lo..hi + 1]
    ensures s[lo..mid + 1] == t[lo..mid + 1] && s[mid + 1..hi + 1] == t[mid + 1..hi + 1]
  {
    assert s[lo..mid + 1] == s[lo..hi + 1][..mid + 1 - lo];
    assert t[lo..mid + 1] == t[lo..hi + 1][..mid + 1 - lo];
    assert s[mid + 1..hi + 1] == s[lo..hi + 1][mid + 1 - lo..];
    assert t[mid + 1..hi + 1] == t[lo..hi + 1][mid + 1 - lo..];
  }

  /** merge: with [lo, mid] and [mid + 1, hi] each sorted, copies the range
      to aux and merges the two parts back into c, taking from the right
      part on equal items. */
  method Merge(c: array<int>, aux: array<int>, lo: int, mid: int, hi: int)
    requires c != aux && aux.Length >= c.Length
    requires 0 <= lo <= mid + 1 && mid <= hi < c.Length
    requires Sorted(c[..], lo, mid) && Sorted(c[..], mid + 1, hi)
    modifies c, aux
    ensures c[lo..hi + 1] == MergeSeq(old(c[lo..mid + 1]), old(c[mid + 1..hi + 1]))
    ensures Sorted(c[..], lo, hi)
    ensures multiset(c[..]) == multiset(old(c[..]))
    ensures SameOutside(c[..], old(c[..]), lo, hi)
  {
    CopyRange(c, aux, lo, hi);
    ghost var c0, a0 := c[..], aux[..];
    SliceParts(a0, c0, lo, mid, hi);
    MergeBack(c, aux, lo, mid, hi);
    MergeFromSlices(a0, lo, mid, mid + 1, hi);
    MergedRange(c0, c[..], lo, mid, hi);
  }

  /** After sorting [lo, mid] and then [mid + 1, hi], the first half is
      still sorted, only [lo, hi] has changed, and the items are the same. */
  lemma Halves(c0: seq<int>, c1: seq<int>, c2: seq<int>, lo: int, mid: int, hi: int)
    requires 0 <= lo <= mid < hi < |c0|
    requires SameOutside(c1, c0, lo, mid) && SameOutside(c2, c1, mid + 1, hi)
    requires Sorted(c1, lo, mid)
    requires multiset(c1) == multiset(c0) && multiset(c2) == multiset(c1)
    ensures Sorted(c2, lo, mid) && SameOutside(c2, c0, lo, hi) && multiset(c2) == multiset(c0)
  {
    assert forall k :: lo <= k <= mid ==> c2[k] == c1[k];
  }

  /** Two sorted neighbouring ranges in order make one sorted range. */
  lemma SortedJoin(s: seq<int>, lo: int, mid: int, hi: int)
    requires 0 <= lo <= mid < hi < |s|
    requires Sorted(s, lo, mid) && Sorted(s, mid + 1, hi) && s[mid] <= s[mid + 1]
    ensures Sorted(s, lo, hi)
  {
    forall i, j | lo <= i < j <= hi
      ensures s[i] <= s[j]
    {
      if i <= mid < j {
        assert s[i] <= s[mid] && s[mid + 1] <= s[j];
      }
    }
  }

  /** merge_sort: sorts [lo, hi] of c using aux as scratch space; ranges of
      fewer than eight items go to insertion_sort, and the merge is skipped
      when the two sorted halves are already in order. */
  method MergeSort(c: array<int>, aux: array<int>, lo: int, hi: int)
    requires c != aux && aux.Length >= c.Length
    requires 0 <= lo && hi < c.Length
    modifies c, aux
    ensures Sorted(c[..], lo, hi)
    ensures multiset(c[..]) == multiset(old(c[..]))
    ensures SameOutside(c[..], old(c[..]), lo, hi)
    decreases hi - lo
  {
    if hi <= lo {
      return;
    }
    if hi - lo < 7 {
      InsertionSort(c, lo, hi);
      return;
    }
    var mid := lo + (hi - lo) / 2;
    ghost var c0 := c[..];
    MergeSort(c, aux, lo, mid);
    ghost var c1 := c[..];
    MergeSort(c, aux, mid + 1, hi);
    Halves(c0, c1, c[..], lo, mid, hi);
    if c[mid] <= c[mid + 1] {
      SortedJoin(c[..], lo, mid, hi);
      return;
    }
    Merge(c, aux, lo, mid, hi);
  }
}
