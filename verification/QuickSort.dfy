/** The in-place quicksort whose right-hand recursion still contains the pivot. */
module QuickSort {

  predicate Sorted(s: seq<int>) {
    forall i, j :: 0 <= i < j < |s| ==> s[i] <= s[j]
  }

  // ----- what the loops compute

  function SwapAt(s: seq<int>, i: nat, j: nat): (r: seq<int>)
    requires i < |s| && j < |s|
    ensures |r| == |s| && multiset(r) == multiset(s)
    ensures forall k :: 0 <= k < |s| ==> r[k] == if k == j then s[i] else if k == i then s[j] else s[k]
  {
    s[i := s[j]][j := s[i]]
  }

  /** One round of the partition loop: the array and the pivot's index after it. */
  function Round(s: seq<int>, lo: nat, i: nat, at: nat, pivot: int): (r: (seq<int>, nat))
    requires at <= i && lo + i < |s|
    ensures |r.0| == |s| && at <= r.1 <= at + 1
  {
    if s[lo + i] <= pivot then (SwapAt(s, lo + i, lo + at), at + 1) else (s, at)
  }

  /** The rounds from `i` on, in the segment of `n` numbers that starts at `lo`. */
  function Rounds(s: seq<int>, lo: nat, n: nat, i: nat, at: nat, pivot: int): (r: (seq<int>, nat))
    requires at <= i <= n && lo + n <= |s|
    ensures |r.0| == |s| && at <= r.1 <= n
    decreases n - i
  {
    if i == n then (s, at) else
    var (s', at') := Round(s, lo, i, at, pivot);
    Rounds(s', lo, n, i + 1, at', pivot)
  }

  /** Only the segment changes, and it is permuted. */
  predicate Permutes(s: seq<int>, t: seq<int>, lo: nat, n: nat) {
    && lo + n <= |s| == |t|
    && t[..lo] == s[..lo] && t[lo + n..] == s[lo + n..]
    && multiset(t[lo..lo + n]) == multiset(s[lo..lo + n])
  }

  /** The segment up to `i` is split at `at`; the pivot is still last, or has just been moved. */
  predicate SplitAt(s: seq<int>, lo: nat, n: nat, i: nat, at: nat, pivot: int) {
    && at <= i <= n && 0 < n && lo + n <= |s|
    && (forall k :: lo <= k < lo + at ==> s[k] <= pivot)
    && (forall k :: lo + at <= k < lo + i ==> pivot < s[k])
    && (if i < n then s[lo + n - 1] == pivot else 0 < at && s[lo + at - 1] == pivot)
  }

  lemma PermutesRefl(s: seq<int>, lo: nat, n: nat)
    requires lo + n <= |s|
    ensures Permutes(s, s, lo, n)
  {
  }

  lemma PermutesLength(s: seq<int>, t: seq<int>, lo: nat, n: nat)
    requires Permutes(s, t, lo, n)
    ensures lo + n <= |s| == |t|
  {
  }

  lemma PermutesTrans(s: seq<int>, t: seq<int>, u: seq<int>, lo: nat, n: nat)
    requires Permutes(s, t, lo, n) && Permutes(t, u, lo, n)
    ensures Permutes(s, u, lo, n)
  {
  }

  lemma SwapPermutes(s: seq<int>, lo: nat, n: nat, i: nat, j: nat)
    requires i < n && j < n && lo + n <= |s|
    ensures Permutes(s, SwapAt(s, lo + i, lo + j), lo, n)
  {
    var t := SwapAt(s, lo + i, lo + j);
    assert t[lo..lo + n] == SwapAt(s[lo..lo + n], i, j);
  }

  lemma RoundSplits(s: seq<int>, lo: nat, n: nat, i: nat, at: nat, pivot: int)
    requires SplitAt(s, lo, n, i, at, pivot) && i < n
    ensures var (s', at') := Round(s, lo, i, at, pivot);
            SplitAt(s', lo, n, i + 1, at', pivot) && Permutes(s, s', lo, n)
  {
    if s[lo + i] <= pivot {
      SwapPermutes(s, lo, n, i, at);
    }
  }

  lemma {:induction false} RoundsSplit(s: seq<int>, lo: nat, n: nat, i: nat, at: nat, pivot: int)
    requires SplitAt(s, lo, n, i, at, pivot)
    ensures var (s', at') := Rounds(s, lo, n, i, at, pivot);
            SplitAt(s', lo, n, n, at', pivot) && Permutes(s, s', lo, n)
    decreases n - i
  {
    hide Round, SplitAt, Permutes;
    SplitBounds(s, lo, n, i, at, pivot);
    PermutesRefl(s, lo, n);
    if i < n {
      var (s1, at1) := Round(s, lo, i, at, pivot);
      RoundSplits(s, lo, n, i, at, pivot);
      SplitBounds(s1, lo, n, i + 1, at1, pivot);
      RoundsSplit(s1, lo, n, i + 1, at1, pivot);
      var (s2, at2) := Rounds(s1, lo, n, i + 1, at1, pivot);
      PermutesTrans(s, s1, s2, lo, n);
    }
  }

  lemma SplitBounds(s: seq<int>, lo: nat, n: nat, i: nat, at: nat, pivot: int)
    requires SplitAt(s, lo, n, i, at, pivot)
    ensures at <= i <= n && 0 < n && lo + n <= |s|
  {
  }

  /** What quick_sort_partition leaves behind, and where the pivot is. */
  function Partitioned(s: seq<int>, lo: nat, n: nat): (r: (seq<int>, nat))
    requires 0 < n && lo + n <= |s|
    ensures |r.0| == |s| && r.1 < n
  {
    RoundsSplit(s, lo, n, 0, 0, s[lo + n - 1]);
    var (s', at) := Rounds(s, lo, n, 0, 0, s[lo + n - 1]);
    (s', at - 1)
  }

  /** The pivot is in its place: nothing before it is greater, everything behind it is. */
  lemma PartitionSplits(s: seq<int>, lo: nat, n: nat)
    requires 0 < n && lo + n <= |s|
    ensures var (s', p) := Partitioned(s, lo, n);
            && Permutes(s, s', lo, n) && s'[lo + p] == s[lo + n - 1]
            && (forall k :: lo <= k < lo + p ==> s'[k] <= s'[lo + p])
            && (forall k :: lo + p < k < lo + n ==> s'[lo + p] < s'[k])
  {
    hide Permutes;
    RoundsSplit(s, lo, n, 0, 0, s[lo + n - 1]);
  }

  // ----- termination

  /** The last number is strictly less than all the others. */
  predicate LastIsLeast(s: seq<int>) {
    |s| > 0 && forall k :: 0 <= k < |s| - 1 ==> s[|s| - 1] < s[k]
  }

  function Measure(s: seq<int>, lo: nat, n: nat): nat
    requires lo + n <= |s|
  {
    2 * n + if LastIsLeast(s[lo..lo + n]) then 1 else 0
  }

  /** When the pivot lands in front, the recursion gets the whole segment again, but only once in a row. */
  lemma RecursionDecreases(s: seq<int>, lo: nat, n: nat)
    requires 1 < n && lo + n <= |s|
    ensures var (s', p) := Partitioned(s, lo, n);
            && Measure(s', lo, p) < Measure(s, lo, n)
            && Measure(s', lo + p, n - p) < Measure(s, lo, n)
  {
    hide Partitioned, Permutes;
    var (s', p) := Partitioned(s, lo, n);
    PartitionSplits(s, lo, n);
    if p == 0 {
      assert s'[lo..lo + n][n - 1] == s'[lo + n - 1] && s'[lo..lo + n][0] == s'[lo];
      assert !LastIsLeast(s'[lo..lo + n]);
      LeastStaysLeast(s, s', lo, n);
    }
  }

  lemma LeastStaysLeast(s: seq<int>, s': seq<int>, lo: nat, n: nat)
    requires 1 < n && Permutes(s, s', lo, n) && s'[lo] == s[lo + n - 1]
    requires forall k :: lo < k < lo + n ==> s'[lo] < s'[k]
    ensures LastIsLeast(s[lo..lo + n])
  {
    var a, b, x := s[lo..lo + n], s'[lo..lo + n], s'[lo];
    assert a == a[..n - 1] + [x];
    assert b == [x] + s'[lo + 1..lo + n];
    assert multiset(a[..n - 1]) == multiset(a) - multiset{x};
    assert multiset(b) - multiset{x} == multiset(s'[lo + 1..lo + n]);
    forall k | 0 <= k < n - 1 ensures x < a[k] {
      assert a[k] == a[..n - 1][k];
      assert a[k] in multiset(a[..n - 1]);
      InSegment(s', lo + 1, n - 1, a[k]);
    }
  }

  // ----- the sort

  function SortedFrom(s: seq<int>, lo: nat, n: nat): (r: seq<int>)
    requires lo + n <= |s|
    ensures |r| == |s| && (n <= 1 ==> r == s)
    decreases Measure(s, lo, n)
  {
    if n <= 1 then s else
    RecursionDecreases(s, lo, n);
    var (s', p) := Partitioned(s, lo, n);
    var s'' := SortedFrom(s', lo, p);
    SmallerSegment(s'', s', s, lo, n, p);
    SortedFrom(s'', lo + p, n - p)
  }

  lemma SmallerSegment(s'': seq<int>, s': seq<int>, s: seq<int>, lo: nat, n: nat, p: nat)
    requires 1 < n && p < n && lo + n <= |s| == |s'| == |s''| && (p == 0 ==> s'' == s')
    requires Measure(s', lo + p, n - p) < Measure(s, lo, n)
    ensures Measure(s'', lo + p, n - p) < Measure(s, lo, n)
  {
  }

  /** The segment ends up sorted, permuted, and nothing else moves. */
  lemma {:induction false} SortSorts(s: seq<int>, lo: nat, n: nat)
    requires lo + n <= |s|
    ensures var r := SortedFrom(s, lo, n); Permutes(s, r, lo, n) && Sorted(r[lo..lo + n])
    decreases Measure(s, lo, n)
  {
    hide Partitioned, Permutes, Sorted, Measure;
    if n <= 1 {
      NothingToSort(s, lo, n);
    } else {
      RecursionDecreases(s, lo, n);
      PartitionSplits(s, lo, n);
      var (s', p) := Partitioned(s, lo, n);
      var s'' := SortedFrom(s', lo, p);
      SmallerSegment(s'', s', s, lo, n, p);
      SortSorts(s', lo, p);
      SortSorts(s'', lo + p, n - p);
      Joins(s, s', s'', SortedFrom(s'', lo + p, n - p), lo, n, p);
    }
  }

  lemma NothingToSort(s: seq<int>, lo: nat, n: nat)
    requires lo + n <= |s| && n <= 1
    ensures Permutes(s, s, lo, n) && Sorted(s[lo..lo + n])
  {
  }

  lemma InSegment(s: seq<int>, lo: nat, n: nat, x: int)
    requires lo + n <= |s|
    ensures x in multiset(s[lo..lo + n]) <==> exists k :: lo <= k < lo + n && s[k] == x
  {
    if x in s[lo..lo + n] {
      var k :| 0 <= k < n && s[lo..lo + n][k] == x;
      assert s[lo + k] == x;
    }
    if k :| lo <= k < lo + n && s[k] == x {
      assert s[lo..lo + n][k - lo] == x;
    }
  }

  lemma Widens(s: seq<int>, t: seq<int>, lo: nat, n: nat, from: nat, m: nat)
    requires Permutes(s, t, from, m) && lo <= from && from + m <= lo + n <= |s|
    ensures Permutes(s, t, lo, n)
  {
    var before, behind := s[lo..from], s[from + m..lo + n];
    assert t[..lo] == t[..from][..lo] && s[..lo] == s[..from][..lo];
    assert t[lo + n..] == t[from + m..][lo + n - from - m..] && s[lo + n..] == s[from + m..][lo + n - from - m..];
    assert t[lo..from] == t[..from][lo..] == before;
    assert t[from + m..lo + n] == t[from + m..][..lo + n - from - m] == behind;
    assert s[lo..lo + n] == before + s[from..from + m] + behind;
    assert t[lo..lo + n] == before + t[from..from + m] + behind;
  }

  /** Sorting the two parts of a partition sorts the segment. */
  lemma Joins(s: seq<int>, s': seq<int>, s'': seq<int>, r: seq<int>, lo: nat, n: nat, p: nat)
    requires p < n && Permutes(s, s', lo, n)
    requires forall k :: lo <= k < lo + p ==> s'[k] <= s'[lo + p]
    requires forall k :: lo + p < k < lo + n ==> s'[lo + p] < s'[k]
    requires Permutes(s', s'', lo, p) && Sorted(s''[lo..lo + p])
    requires Permutes(s'', r, lo + p, n - p) && Sorted(r[lo + p..lo + p + (n - p)])
    ensures Permutes(s, r, lo, n) && Sorted(r[lo..lo + n])
  {
    hide Permutes, Sorted;
    PermutesLength(s, s', lo, n);
    PermutesLength(s', s'', lo, p);
    Widens(s', s'', lo, n, lo, p);
    Widens(s'', r, lo, n, lo + p, n - p);
    PermutesTrans(s, s', s'', lo, n);
    PermutesTrans(s, s'', r, lo, n);
    LeftPart(s', s'', r, lo, n, p);
    RightPart(s', s'', r, lo, n, p);
    Meet(r, lo, n, p, s'[lo + p]);
  }

  lemma LeftPart(s': seq<int>, s'': seq<int>, r: seq<int>, lo: nat, n: nat, p: nat)
    requires p < n && lo + n <= |s'|
    requires forall k :: lo <= k < lo + p ==> s'[k] <= s'[lo + p]
    requires Permutes(s', s'', lo, p) && Permutes(s'', r, lo + p, n - p)
    ensures r[lo..lo + p] == s''[lo..lo + p] && |r| == |s'|
    ensures forall k :: lo <= k < lo + p ==> r[k] <= s'[lo + p]
  {
    assert r[lo..lo + p] == r[..lo + p][lo..] == s''[..lo + p][lo..] == s''[lo..lo + p];
    forall k | lo <= k < lo + p ensures r[k] <= s'[lo + p] {
      assert r[k] == r[..lo + p][k] == s''[..lo + p][k];
      InSegment(s'', lo, p, s''[k]);
      InSegment(s', lo, p, s''[k]);
    }
  }

  lemma RightPart(s': seq<int>, s'': seq<int>, r: seq<int>, lo: nat, n: nat, p: nat)
    requires p < n && lo + n <= |s'|
    requires forall k :: lo + p < k < lo + n ==> s'[lo + p] < s'[k]
    requires Permutes(s', s'', lo, p) && Permutes(s'', r, lo + p, n - p)
    ensures |r| == |s'| && forall k :: lo + p <= k < lo + n ==> s'[lo + p] <= r[k]
  {
    forall k | lo + p <= k < lo + n ensures s'[lo + p] <= r[k] {
      InSegment(r, lo + p, n - p, r[k]);
      InSegment(s'', lo + p, n - p, r[k]);
      var j :| lo + p <= j < lo + n && s''[j] == r[k];
      assert s''[j] == s''[lo + p..][j - lo - p] == s'[lo + p..][j - lo - p] == s'[j];
    }
  }

  lemma Meet(r: seq<int>, lo: nat, n: nat, p: nat, pivot: int)
    requires p < n && lo + n <= |r| && Sorted(r[lo..lo + p]) && Sorted(r[lo + p..lo + p + (n - p)])
    requires forall k :: lo <= k < lo + p ==> r[k] <= pivot
    requires forall k :: lo + p <= k < lo + n ==> pivot <= r[k]
    ensures Sorted(r[lo..lo + n])
  {
    var a, b := r[lo..lo + p], r[lo + p..lo + p + (n - p)];
    assert r[lo..lo + n] == a + b;
  }

  lemma SameFirst(s: seq<int>, t: seq<int>)
    requires Sorted(s) && Sorted(t) && multiset(s) == multiset(t) && s != []
    ensures t != [] && s[0] == t[0]
  {
    assert s[0] in multiset(t);
    assert t[0] in multiset(s);
    assert s[0] in t && t[0] in s;
  }

  lemma SameRest(s: seq<int>, t: seq<int>)
    requires s != [] && t != [] && s[0] == t[0] && multiset(s) == multiset(t)
    ensures multiset(s[1..]) == multiset(t[1..])
  {
    assert s == [s[0]] + s[1..] && t == [t[0]] + t[1..];
    assert multiset(s[1..]) == multiset(s) - multiset{s[0]};
    assert multiset(t[1..]) == multiset(t) - multiset{t[0]};
  }

  lemma SortedRest(s: seq<int>)
    requires Sorted(s) && s != []
    ensures Sorted(s[1..])
  {
  }

  /** There is one sorted sequence with given numbers. */
  lemma {:induction false} SortedIsUnique(s: seq<int>, t: seq<int>)
    requires Sorted(s) && Sorted(t) && multiset(s) == multiset(t)
    ensures s == t
  {
    hide Sorted;
    if s == [] {
      assert |t| == |multiset(t)| == 0;
    } else {
      SameFirst(s, t);
      SameRest(s, t);
      SortedRest(s);
      SortedRest(t);
      SortedIsUnique(s[1..], t[1..]);
      assert s == [s[0]] + s[1..] && t == [t[0]] + t[1..];
    }
  }

  // ----- the code

  method Partition(a: array<int>, lo: nat, n: nat) returns (p: nat)
    requires 0 < n && lo + n <= a.Length
    modifies a
    ensures (a[..], p) == Partitioned(old(a[..]), lo, n)
  {
    hide Round, Permutes;
    var pivot := a[lo + n - 1];
    var at: nat := 0;
    for i := 0 to n
      invariant at <= i
      invariant Rounds(a[..], lo, n, i, at, pivot) == Rounds(old(a[..]), lo, n, 0, 0, pivot)
    {
      at := OneRound(a, lo, i, at, pivot);
    }
    RoundsSplit(old(a[..]), lo, n, 0, 0, pivot);
    p := at - 1;
  }

  /** The body of the partition loop. */
  method OneRound(a: array<int>, lo: nat, i: nat, at: nat, pivot: int) returns (at': nat)
    requires at <= i && lo + i < a.Length
    modifies a
    ensures (a[..], at') == Round(old(a[..]), lo, i, at, pivot)
  {
    at' := at;
    if a[lo + i] <= pivot {
      a[lo + i], a[lo + at] := a[lo + at], a[lo + i];
      at' := at' + 1;
    }
  }

  method Sort(a: array<int>, lo: nat, n: nat)
    requires lo + n <= a.Length
    modifies a
    ensures a[..] == SortedFrom(old(a[..]), lo, n)
    decreases Measure(a[..], lo, n)
  {
    hide Partitioned, Measure;
    if n <= 1 {
      return;
    }
    RecursionDecreases(a[..], lo, n);
    var p := Partition(a, lo, n);
    ghost var s' := a[..];
    Sort(a, lo, p);
    SmallerSegment(a[..], s', old(a[..]), lo, n, p);
    Sort(a, lo + p, n - p);
  }

  /** get_sorted_inplace_numbers on the numbers of a file. */
  method SortAll(a: array<int>)
    modifies a
    ensures Sorted(a[..]) && multiset(a[..]) == multiset(old(a[..]))
  {
    ghost var s := a[..];
    SortSorts(s, 0, a.Length);
    Sort(a, 0, a.Length);
    assert s[0..a.Length] == s && a[..][0..a.Length] == a[..];
  }
}
