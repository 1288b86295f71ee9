/** What the single stages find, said without their loops. */
module CornerStages {
  import opened Extremes
  import opened Sorting
  import opened CornerAnalysis

  function CountBelow(xs: seq<real>, m: real): nat {
    if xs == [] then 0 else CountBelow(xs[..|xs| - 1], m) + if xs[|xs| - 1] < m then 1 else 0
  }

  function CountAbove(xs: seq<real>, m: real): nat {
    if xs == [] then 0 else CountAbove(xs[..|xs| - 1], m) + if xs[|xs| - 1] > m then 1 else 0
  }

  lemma {:induction false} InsertCounts(xs: seq<real>, x: real, m: real)
    ensures CountBelow(Insert(xs, x, AtMost), m) == CountBelow(xs + [x], m)
    ensures CountAbove(Insert(xs, x, AtMost), m) == CountAbove(xs + [x], m)
  {
    assert (xs + [x])[..|xs|] == xs;
    if !(xs == [] || AtMost(xs[|xs| - 1], x)) {
      var front := xs[..|xs| - 1];
      InsertCounts(front, x, m);
      assert (front + [x])[..|front|] == front;
    }
  }

  lemma {:induction false} SortCounts(xs: seq<real>, m: real)
    ensures CountBelow(SortBy(xs, AtMost), m) == CountBelow(xs, m)
    ensures CountAbove(SortBy(xs, AtMost), m) == CountAbove(xs, m)
  {
    if xs != [] {
      var front, x := xs[..|xs| - 1], xs[|xs| - 1];
      SortCounts(front, m);
      var sorted := SortBy(front, AtMost);
      InsertCounts(sorted, x, m);
      assert (sorted + [x])[..|sorted|] == sorted;
    }
  }

  /** Counting positions: only the first `k` can lie below, only those from `k` on above. */
  lemma {:induction false} CountsBound(xs: seq<real>, m: real, k: nat)
    requires k <= |xs|
    ensures (forall i :: k <= i < |xs| ==> xs[i] >= m) ==> CountBelow(xs, m) <= k
    ensures (forall i :: 0 <= i < k ==> xs[i] <= m) ==> CountAbove(xs, m) <= |xs| - k
  {
    if xs != [] {
      var front := xs[..|xs| - 1];
      assert forall i :: 0 <= i < |front| ==> front[i] == xs[i];
      CountsBound(front, m, if k < |xs| then k else k - 1);
    }
  }

  /** The median has at most half of the values below it and at most half above it. */
  lemma MedianSplits(values: seq<real>)
    requires values != []
    ensures 2 * CountBelow(values, Median(values)) <= |values| && 2 * CountAbove(values, Median(values)) <= |values|
  {
    var ordered, m := SortBy(values, AtMost), Median(values);
    SortPermutes(values, AtMost);
    SortSorts(values, AtMost);
    SortCounts(values, m);
    MiddleSplits(ordered);
  }

  /** `x` is the `k`-th smallest value, counting from one. */
  predicate IsRanked(values: seq<real>, x: real, k: nat) {
    x in values && CountBelow(values, x) < k <= |values| - CountAbove(values, x)
  }

  lemma SortedRank(ordered: seq<real>, k: nat)
    requires Sorted(ordered, AtMost) && 0 < k <= |ordered|
    ensures IsRanked(ordered, ordered[k - 1], k)
  {
    var x := ordered[k - 1];
    forall i | 0 <= i < |ordered|
      ensures i < k ==> ordered[i] <= x
      ensures i >= k - 1 ==> ordered[i] >= x
    {
      assert i < k - 1 ==> AtMost(ordered[i], x);
      assert i > k - 1 ==> AtMost(x, ordered[i]);
    }
    CountsBound(ordered, x, k - 1);
    CountsBound(ordered, x, k);
  }

  /** The median is the middle value, or the mean of the two middle values of an even number. */
  lemma MedianIs(values: seq<real>) returns (lower: real, upper: real)
    requires values != []
    ensures IsRanked(values, lower, (|values| + 1) / 2) && IsRanked(values, upper, |values| / 2 + 1)
    ensures Median(values) == (lower + upper) / 2.0
  {
    var ordered := SortBy(values, AtMost);
    var n := |values|;
    SortPermutes(values, AtMost);
    lower, upper := ordered[(n + 1) / 2 - 1], ordered[n / 2];
    RankInSorted(values, (n + 1) / 2);
    RankInSorted(values, n / 2 + 1);
  }

  lemma RankInSorted(values: seq<real>, k: nat)
    requires 0 < k <= |values|
    ensures |SortBy(values, AtMost)| == |values| && IsRanked(values, SortBy(values, AtMost)[k - 1], k)
  {
    SortPermutes(values, AtMost);
    SortSorts(values, AtMost);
    SameMembers(values, SortBy(values, AtMost));
    SortedRank(SortBy(values, AtMost), k);
    SortCounts(values, SortBy(values, AtMost)[k - 1]);
  }

  lemma MiddleSplits(ordered: seq<real>)
    requires ordered != [] && Sorted(ordered, AtMost)
    ensures 2 * CountBelow(ordered, Middle(ordered)) <= |ordered|
    ensures 2 * CountAbove(ordered, Middle(ordered)) <= |ordered|
  {
    var n, m := |ordered|, Middle(ordered);
    var k := n / 2;
    assert n % 2 == 0 ==> AtMost(ordered[k - 1], ordered[k]);
    forall i | k <= i < n
      ensures ordered[i] >= m
    {
      assert i > k ==> AtMost(ordered[k], ordered[i]);
    }
    forall i | 0 <= i < n - k
      ensures ordered[i] <= m
    {
      assert i < n - k - 1 ==> AtMost(ordered[i], ordered[n - k - 1]);
    }
    CountsBound(ordered, m, k);
    CountsBound(ordered, m, n - k);
  }

  /** Away from the ends a smoothing window is centred and has the odd width asked for, an
      even width being raised by one; at the ends it is cut short, never empty. */
  lemma WindowShape(i: nat, window: int, n: nat)
    requires window >= 1 && i < n
    ensures var r := Radius(window);
      && 2 * r + 1 == (if window % 2 == 0 then window + 1 else window)
      && Low(i, r) <= i < High(i, r, n) <= n
      && (r <= i ==> i - Low(i, r) == r) && (i + r < n ==> High(i, r, n) - 1 - i == r)
      && (i < r ==> Low(i, r) == 0) && (n <= i + r ==> High(i, r, n) == n)
  {
  }

  /** Smoothing written out: nothing is smoothed with a window of one or a signal of two samples;
      otherwise each sample becomes the median of those at most half a window away. */
  lemma SmoothedIs(speeds: seq<real>, window: int, i: nat)
    requires window >= 1 && i < |speeds|
    ensures var r, n := window / 2, |speeds|;
      Smoothed(speeds, window)[i]
        == if window == 1 || n <= 2 then speeds[i]
           else Median(speeds[(if i < r then 0 else i - r)..(if i + r + 1 > n then n else i + r + 1)])
  {
    assert Radius(window) == window / 2;
  }

  /** Every sample after `e`, up to the apex, is at most the tolerance faster than the one
      before it, and `e` cannot be moved further back. */
  ghost predicate IsEntry(speeds: seq<real>, apex: nat, tol: real, e: nat)
    requires e <= apex < |speeds|
  {
    && (forall j :: e < j <= apex ==> speeds[j - 1] >= speeds[j] - tol)
    && (e == 0 || speeds[e - 1] < speeds[e] - tol)
  }

  lemma {:induction false} EntryIff(speeds: seq<real>, apex: nat, tol: real, e: nat)
    requires e <= apex < |speeds|
    ensures IsEntry(speeds, apex, tol, e) <==> e == EntryIndex(speeds, apex, tol)
  {
    if e < apex {
      EntryIff(speeds, apex - 1, tol, e);
      if speeds[apex - 1] >= speeds[apex] - tol {
        assert IsEntry(speeds, apex, tol, e) <==> IsEntry(speeds, apex - 1, tol, e);
      }
    } else if apex > 0 && speeds[apex - 1] >= speeds[apex] - tol {
      assert EntryIndex(speeds, apex - 1, tol) <= apex - 1;
    }
  }

  ghost predicate IsExit(speeds: seq<real>, apex: nat, tol: real, x: nat)
    requires apex <= x < |speeds|
  {
    && (forall j :: apex <= j < x ==> speeds[j + 1] >= speeds[j] - tol)
    && (x == |speeds| - 1 || speeds[x + 1] < speeds[x] - tol)
  }

  lemma {:induction false} ExitIff(speeds: seq<real>, apex: nat, tol: real, x: nat)
    requires apex <= x < |speeds|
    ensures IsExit(speeds, apex, tol, x) <==> x == ExitIndex(speeds, apex, tol)
    decreases x - apex
  {
    if apex < x {
      ExitIff(speeds, apex + 1, tol, x);
      if speeds[apex + 1] >= speeds[apex] - tol {
        assert IsExit(speeds, apex, tol, x) <==> IsExit(speeds, apex + 1, tol, x);
      }
    } else if apex < |speeds| - 1 && speeds[apex + 1] >= speeds[apex] - tol {
      assert ExitIndex(speeds, apex + 1, tol) >= apex + 1;
    }
  }

  /** The near-flat run from `i` is maximal to the right. */
  lemma {:induction false} PlateauMaximal(speeds: seq<real>, tol: real, i: nat)
    requires i < |speeds|
    ensures var end := PlateauEnd(speeds, tol, i);
      && (forall j :: i <= j < end ==> -tol <= speeds[j + 1] - speeds[j] <= tol)
      && (end == |speeds| - 1 || !(-tol <= speeds[end + 1] - speeds[end] <= tol))
    decreases |speeds| - i
  {
    if i < |speeds| - 1 && Abs(speeds[i + 1] - speeds[i]) <= tol {
      PlateauMaximal(speeds, tol, i + 1);
    }
  }

  /** A change small enough to count as flat. */
  predicate Flat(change: real, tol: real) {
    -tol <= change <= tol
  }

  /** A near-flat run that cannot be extended to the right. */
  ghost predicate FlatRun(speeds: seq<real>, tol: real, start: nat, end: nat)
    requires start <= end < |speeds|
  {
    && (forall j :: start <= j < end ==> Flat(speeds[j + 1] - speeds[j], tol))
    && (end < |speeds| - 1 ==> !Flat(speeds[end + 1] - speeds[end], tol))
  }

  /** Some sample of the run lies below both sides by more than the tolerance; at the end of the
      signal the last sample stands for the missing right side. */
  ghost predicate Sunken(speeds: seq<real>, tol: real, start: nat, end: nat)
    requires 0 < start <= end < |speeds|
  {
    var right := if end < |speeds| - 1 then speeds[end + 1] else speeds[end];
    exists b :: start <= b <= end && speeds[b] < speeds[start - 1] - tol && speeds[b] < right - tol
  }

  /** A valley: a maximal near-flat run, entered and left without a rise above the tolerance at
      its first sample, that is sunken. */
  ghost predicate IsValley(speeds: seq<real>, tol: real, r: Range) {
    && 0 < r.start <= r.end < |speeds| && r.start < |speeds| - 1
    && speeds[r.start] <= speeds[r.start - 1] + tol && speeds[r.start] <= speeds[r.start + 1] + tol
    && FlatRun(speeds, tol, r.start, r.end)
    && Sunken(speeds, tol, r.start, r.end)
  }

  lemma {:induction false} FlatRunIff(speeds: seq<real>, tol: real, start: nat, end: nat)
    requires start <= end < |speeds|
    ensures FlatRun(speeds, tol, start, end) <==> end == PlateauEnd(speeds, tol, start)
    decreases end - start
  {
    if start < end {
      FlatRunIff(speeds, tol, start + 1, end);
      if Flat(speeds[start + 1] - speeds[start], tol) {
        assert FlatRun(speeds, tol, start, end) <==> FlatRun(speeds, tol, start + 1, end);
      }
    } else if start < |speeds| - 1 && Flat(speeds[start + 1] - speeds[start], tol) {
      assert PlateauEnd(speeds, tol, start + 1) >= start + 1;
    }
  }

  lemma SunkenIff(speeds: seq<real>, tol: real, start: nat, end: nat)
    requires 0 < start <= end < |speeds|
    ensures Sunken(speeds, tol, start, end) <==> Deep(speeds, tol, start, end)
  {
    var run := speeds[start..end + 1];
    var k :| 0 <= k < |run| && run[k] == Least(run);
    assert speeds[start + k] == Least(run);
    forall b | start <= b <= end
      ensures speeds[b] >= Least(run)
    {
      assert speeds[b] == run[b - start];
    }
  }

  /** Valleys are what the scan reports when it starts at their first sample. */
  lemma ValleyIff(speeds: seq<real>, tol: real, r: Range)
    requires 0 < r.start <= r.end < |speeds| && r.start < |speeds| - 1
    ensures IsValley(speeds, tol, r) <==> RangeAt(speeds, tol, r.start) == [r]
  {
    FlatRunIff(speeds, tol, r.start, r.end);
    SunkenIff(speeds, tol, r.start, r.end);
    if RangeAt(speeds, tol, r.start) == [r] {
      assert RangeAt(speeds, tol, r.start)[0] == r;
    }
  }

  /** The scan tests sample `v` unless a run it has already taken covers it: it does when it
      begins there, when the step into `v` is not flat, or when the sample before `v` was
      itself a rise. */
  ghost predicate Tested(speeds: seq<real>, tol: real, i: nat, v: nat)
    requires 0 < i <= v < |speeds|
  {
    || v == i
    || !Flat(speeds[v] - speeds[v - 1], tol)
    || speeds[v - 1] > speeds[v - 2] + tol
  }

  /** A sample inside the run taken at `i` is not tested. */
  lemma CoveredUntested(speeds: seq<real>, tol: real, i: nat, v: nat)
    requires 0 < i < |speeds| - 1 && i < v < NextScan(speeds, tol, i)
    ensures !Tested(speeds, tol, i, v)
  {
    PlateauMaximal(speeds, tol, i);
    assert Flat(speeds[v] - speeds[v - 1], tol);
    assert v - 1 > i ==> Flat(speeds[v - 1] - speeds[v - 2], tol);
  }

  /** The sample after a turn of the scan is tested. */
  lemma NextTested(speeds: seq<real>, tol: real, i: nat)
    requires 0 < i < |speeds| - 1 && NextScan(speeds, tol, i) < |speeds|
    ensures Tested(speeds, tol, i, NextScan(speeds, tol, i))
  {
    PlateauMaximal(speeds, tol, i);
  }

  lemma {:induction false} RangesFromIff(speeds: seq<real>, tol: real, i: nat, r: Range)
    requires 0 < i <= r.start <= r.end < |speeds| && r.start < |speeds| - 1
    ensures r in RangesFrom(speeds, tol, i) <==> IsValley(speeds, tol, r) && Tested(speeds, tol, i, r.start)
    decreases |speeds| - i
  {
    var next := NextScan(speeds, tol, i);
    RangesOrdered(speeds, tol, next);
    ValleyIff(speeds, tol, r);
    if i == r.start {
      assert r !in RangesFrom(speeds, tol, next);
    } else if next <= r.start {
      RangesFromIff(speeds, tol, next, r);
      if next == r.start {
        NextTested(speeds, tol, i);
      }
    } else {
      CoveredUntested(speeds, tol, i, r.start);
    }
  }

  /** Exactly which ranges are reported, said without the scan: the valleys whose first sample
      is the second of the signal, or is reached by a step that is not flat, or follows a rise
      of more than the tolerance. */
  lemma RangeIff(speeds: seq<real>, tol: real, r: Range)
    ensures r in RangesFrom(speeds, tol, 1)
       <==> IsValley(speeds, tol, r)
            && (r.start == 1 || !Flat(speeds[r.start] - speeds[r.start - 1], tol)
                || speeds[r.start - 1] > speeds[r.start - 2] + tol)
  {
    RangesOrdered(speeds, tol, 1);
    if r in RangesFrom(speeds, tol, 1) {
      RangeStartsInside(speeds, tol, 1, r);
    }
    if 0 < r.start <= r.end < |speeds| && r.start < |speeds| - 1 {
      RangesFromIff(speeds, tol, 1, r);
    }
  }

  /** In particular no sharply entered valley is missed, flat bottoms included. */
  lemma ValleyReported(speeds: seq<real>, tol: real, i: nat, r: Range)
    requires 0 < i <= r.start && IsValley(speeds, tol, r)
    requires !Flat(speeds[r.start] - speeds[r.start - 1], tol)
    ensures r in RangesFrom(speeds, tol, i)
  {
    RangesFromIff(speeds, tol, i, r);
  }

  lemma {:induction false} RangeStartsInside(speeds: seq<real>, tol: real, i: nat, r: Range)
    requires i > 0 && r in RangesFrom(speeds, tol, i)
    ensures i <= r.start <= r.end < |speeds| && r.start < |speeds| - 1
    decreases |speeds| - i
  {
    if r !in RangeAt(speeds, tol, i) {
      RangeStartsInside(speeds, tol, NextScan(speeds, tol, i), r);
    }
  }

  /** The apex is the slowest raw sample of its range, the first one on ties. */
  lemma ApexIsFirstSlowest(speeds: seq<real>, range: Range)
    requires range.start <= range.end < |speeds|
    ensures var apex := ApexOf(speeds, range);
      && (forall i :: range.start <= i <= range.end ==> speeds[apex] <= speeds[i])
      && (forall i :: range.start <= i < apex ==> speeds[apex] < speeds[i])
  {
    forall i | range.start <= i <= range.end
      ensures speeds[ApexOf(speeds, range)] <= speeds[i]
      ensures i < ApexOf(speeds, range) ==> speeds[ApexOf(speeds, range)] < speeds[i]
    {
      ApexAgainst(speeds, range, i);
    }
  }

  lemma ApexAgainst(speeds: seq<real>, range: Range, i: nat)
    requires range.start <= i <= range.end < |speeds|
    ensures var apex := ApexOf(speeds, range);
      speeds[apex] <= speeds[i] && (i < apex ==> speeds[apex] < speeds[i])
  {
    LeastIsFirst(speeds[range.start..range.end + 1], i - range.start);
  }

  lemma LeastIsFirst(xs: seq<real>, i: nat)
    requires i < |xs|
    ensures var k := IndexOfLeast(xs); xs[k] <= xs[i] && (i < k ==> xs[k] < xs[i])
  {
    var k := IndexOfLeast(xs);
    assert xs[k] == Least(xs);
    if i < k {
      assert xs[..k][i] == xs[i];
    }
  }

  /** Walking back from just before the apex, speeds do not fall until `l`, where they stop
      rising. */
  ghost predicate LeftSummit(speeds: seq<real>, i: nat, l: nat)
    requires i < |speeds|
  {
    && l <= i
    && (forall k :: l < k <= i ==> speeds[k - 1] >= speeds[k])
    && (l == 0 || speeds[l - 1] < speeds[l])
  }

  ghost predicate RightSummit(speeds: seq<real>, i: nat, r: nat)
    requires i < |speeds|
  {
    && i <= r < |speeds|
    && (forall k :: i <= k < r ==> speeds[k + 1] >= speeds[k])
    && (r == |speeds| - 1 || speeds[r + 1] < speeds[r])
  }

  lemma {:induction false} LeftPeakIs(speeds: seq<real>, i: nat, peak: real) returns (l: nat)
    requires i < |speeds|
    ensures LeftSummit(speeds, i, l) && LeftPeak(speeds, i, peak) == MaxReal(peak, speeds[l]) && speeds[i] <= speeds[l]
  {
    if i == 0 || speeds[i - 1] < speeds[i] {
      l := i;
    } else {
      l := LeftPeakIs(speeds, i - 1, MaxReal(peak, speeds[i]));
    }
  }

  lemma {:induction false} RightPeakIs(speeds: seq<real>, i: nat, peak: real) returns (r: nat)
    requires i < |speeds|
    ensures RightSummit(speeds, i, r) && speeds[i] <= speeds[r]
    ensures RightPeak(speeds, i, peak) == MaxReal(peak, speeds[r])
    decreases |speeds| - i
  {
    if i == |speeds| - 1 || speeds[i + 1] < speeds[i] {
      r := i;
    } else {
      r := RightPeakIs(speeds, i + 1, MaxReal(peak, speeds[i]));
    }
  }

  /** Prominence is the lower of the two nearest summits above the apex, never negative, and
      zero at the ends of the signal. */
  lemma ProminenceIs(speeds: seq<real>, idx: nat) returns (l: nat, r: nat)
    requires idx < |speeds|
    ensures ProminenceAt(speeds, idx) >= 0.0
    ensures idx == 0 || idx == |speeds| - 1 ==> ProminenceAt(speeds, idx) == 0.0
    ensures 0 < idx < |speeds| - 1 ==>
      && LeftSummit(speeds, idx - 1, l) && RightSummit(speeds, idx + 1, r)
      && ProminenceAt(speeds, idx)
           == MinReal(MaxReal(speeds[idx], speeds[l]), MaxReal(speeds[idx], speeds[r])) - speeds[idx]
  {
    l, r := idx, idx;
    if idx > 0 {
      l := LeftPeakIs(speeds, idx - 1, speeds[idx]);
    }
    if idx < |speeds| - 1 {
      r := RightPeakIs(speeds, idx + 1, speeds[idx]);
    }
  }
}
