/** Relational facts of the whole detector: a constant added to every speed moves nothing, and
    a lap whose speed is monotone in distance has no corner. */
module CornerInvariance {
  import opened Extremes
  import opened Sorting
  import opened CornerAnalysis

  // ---- adding a constant ----------------------------------------------------------------

  function Adder(k: real): real -> real {
    x => x + k
  }

  function Shift(xs: seq<real>, k: real): (r: seq<real>)
    ensures |r| == |xs| && forall i :: 0 <= i < |xs| ==> r[i] == xs[i] + k
  {
    MapSeq(xs, Adder(k))
  }

  lemma ShiftSlice(xs: seq<real>, k: real, lo: nat, hi: nat)
    requires lo <= hi <= |xs|
    ensures Shift(xs, k)[lo..hi] == Shift(xs[lo..hi], k)
  {
  }

  lemma ShiftMiddle(xs: seq<real>, k: real)
    requires xs != []
    ensures Middle(Shift(xs, k)) == Middle(xs) + k
  {
  }

  lemma ShiftMedian(xs: seq<real>, k: real)
    requires xs != []
    ensures Median(Shift(xs, k)) == Median(xs) + k
  {
    SortMap(xs, Adder(k), AtMost, AtMost);
    SortPermutes(xs, AtMost);
    ShiftMiddle(SortBy(xs, AtMost), k);
  }

  lemma ShiftSmoothedAt(xs: seq<real>, k: real, r: nat, i: nat)
    requires i < |xs|
    ensures SmoothedAt(Shift(xs, k), r, i) == SmoothedAt(xs, r, i) + k
  {
    ShiftSlice(xs, k, Low(i, r), High(i, r, |xs|));
    ShiftMedian(xs[Low(i, r)..High(i, r, |xs|)], k);
  }

  lemma ShiftSmoothed(xs: seq<real>, k: real, window: int)
    requires window >= 1
    ensures Smoothed(Shift(xs, k), window) == Shift(Smoothed(xs, window), k)
  {
    if window > 1 && |xs| > 2 {
      var a, b := Smoothed(Shift(xs, k), window), Shift(Smoothed(xs, window), k);
      forall i | 0 <= i < |xs|
        ensures a[i] == b[i]
      {
        ShiftSmoothedAt(xs, k, Radius(window), i);
      }
    }
  }

  lemma {:induction false} ShiftLeast(xs: seq<real>, k: real)
    requires xs != []
    ensures Least(Shift(xs, k)) == Least(xs) + k
  {
    if |xs| > 1 {
      ShiftLeast(xs[..|xs| - 1], k);
      ShiftSlice(xs, k, 0, |xs| - 1);
      assert Shift(xs, k)[..|xs| - 1] == Shift(xs[..|xs| - 1], k);
    }
  }

  lemma {:induction false} ShiftPlateau(xs: seq<real>, k: real, tol: real, i: nat)
    requires i < |xs|
    ensures PlateauEnd(Shift(xs, k), tol, i) == PlateauEnd(xs, tol, i)
    decreases |xs| - i
  {
    if i < |xs| - 1 && Abs(xs[i + 1] - xs[i]) <= tol {
      ShiftPlateau(xs, k, tol, i + 1);
    }
  }

  lemma ShiftFloor(xs: seq<real>, k: real, start: nat, end: nat)
    requires start <= end < |xs|
    ensures Floor(Shift(xs, k), start, end) == Floor(xs, start, end) + k
  {
    ShiftSlice(xs, k, start, end + 1);
    ShiftLeast(xs[start..end + 1], k);
  }

  lemma ShiftDeep(xs: seq<real>, k: real, tol: real, start: nat, end: nat)
    requires 0 < start <= end < |xs|
    ensures Deep(Shift(xs, k), tol, start, end) == Deep(xs, tol, start, end)
  {
    ShiftFloor(xs, k, start, end);
  }

  /** The valley scan does the same on both signals at sample `i`. */
  ghost predicate SameScan(xs: seq<real>, ys: seq<real>, tol: real, i: nat)
    requires 0 < i < |xs| - 1 && |xs| == |ys|
  {
    RangeAt(ys, tol, i) == RangeAt(xs, tol, i) && NextScan(ys, tol, i) == NextScan(xs, tol, i)
  }

  lemma {:induction false} SameRanges(xs: seq<real>, ys: seq<real>, tol: real, i: nat)
    requires i > 0 && |xs| == |ys| && forall j :: i <= j < |xs| - 1 ==> SameScan(xs, ys, tol, j)
    ensures RangesFrom(ys, tol, i) == RangesFrom(xs, tol, i)
    decreases |xs| - i
  {
    if i < |xs| - 1 {
      assert SameScan(xs, ys, tol, i);
      SameRanges(xs, ys, tol, NextScan(xs, tol, i));
    }
  }

  lemma ShiftRanges(xs: seq<real>, k: real, tol: real)
    ensures RangesFrom(Shift(xs, k), tol, 1) == RangesFrom(xs, tol, 1)
  {
    forall i | 1 <= i < |xs| - 1
      ensures SameScan(xs, Shift(xs, k), tol, i)
    {
      ShiftPlateau(xs, k, tol, i);
      ShiftDeep(xs, k, tol, i, PlateauEnd(xs, tol, i));
    }
    SameRanges(xs, Shift(xs, k), tol, 1);
  }

  lemma {:induction false} ShiftLeftPeak(xs: seq<real>, k: real, i: int, peak: real)
    requires -1 <= i < |xs|
    ensures LeftPeak(Shift(xs, k), i, peak + k) == LeftPeak(xs, i, peak) + k
    decreases i + 1
  {
    if i >= 0 {
      ShiftLeftPeak(xs, k, i - 1, MaxReal(peak, xs[i]));
    }
  }

  lemma {:induction false} ShiftRightPeak(xs: seq<real>, k: real, i: nat, peak: real)
    ensures RightPeak(Shift(xs, k), i, peak + k) == RightPeak(xs, i, peak) + k
    decreases |xs| - i
  {
    if i < |xs| {
      ShiftRightPeak(xs, k, i + 1, MaxReal(peak, xs[i]));
    }
  }

  lemma ShiftProminence(xs: seq<real>, k: real, idx: nat)
    requires idx < |xs|
    ensures ProminenceAt(Shift(xs, k), idx) == ProminenceAt(xs, idx)
  {
    ShiftLeftPeak(xs, k, idx - 1, xs[idx]);
    ShiftRightPeak(xs, k, idx + 1, xs[idx]);
  }

  lemma {:induction false} ShiftIndexOf(xs: seq<real>, k: real, x: real)
    requires x in xs
    ensures x + k in Shift(xs, k) && IndexOf(Shift(xs, k), x + k) == IndexOf(xs, x)
  {
    var i :| 0 <= i < |xs| && xs[i] == x;
    assert Shift(xs, k)[i] == x + k;
    if xs[0] != x {
      assert Shift(xs, k)[1..] == Shift(xs[1..], k);
      assert x in xs[1..];
      ShiftIndexOf(xs[1..], k, x);
    }
  }

  lemma ShiftIndexOfLeast(xs: seq<real>, k: real)
    requires xs != []
    ensures IndexOfLeast(Shift(xs, k)) == IndexOfLeast(xs)
  {
    ShiftLeast(xs, k);
    ShiftIndexOf(xs, k, Least(xs));
  }

  lemma ShiftApex(xs: seq<real>, k: real, range: Range)
    requires range.start <= range.end < |xs|
    ensures ApexOf(Shift(xs, k), range) == ApexOf(xs, range)
  {
    ShiftSlice(xs, k, range.start, range.end + 1);
    ShiftIndexOfLeast(xs[range.start..range.end + 1], k);
  }

  lemma ShiftCandidateAt(xs: seq<real>, smoothed: seq<real>, c: real, range: Range, m: real)
    requires |smoothed| == |xs| && range.start <= range.end < |xs|
    ensures CandidateAt(Shift(xs, c), Shift(smoothed, c), range, m) == CandidateAt(xs, smoothed, range, m)
  {
    ShiftApex(xs, c, range);
    ShiftProminence(smoothed, c, ApexOf(xs, range));
  }

  lemma ShiftCandidates(xs: seq<real>, k: real, p: Params)
    requires p.Valid()
    ensures Candidates(Shift(xs, k), p) == Candidates(xs, p)
  {
    var smoothed := Smoothed(xs, p.window);
    ShiftSmoothed(xs, k, p.window);
    ShiftRanges(smoothed, k, p.tolerance);
    RangesOrdered(smoothed, p.tolerance, 1);
    var ranges := RangesFrom(smoothed, p.tolerance, 1);
    forall i | 0 <= i < |ranges|
      ensures CandidateAt(Shift(xs, k), Shift(smoothed, k), ranges[i], p.minProminence)
           == CandidateAt(xs, smoothed, ranges[i], p.minProminence)
    {
      ShiftCandidateAt(xs, smoothed, k, ranges[i], p.minProminence);
    }
    assert CandidateParts(Shift(xs, k), Shift(smoothed, k), ranges, p.minProminence)
        == CandidateParts(xs, smoothed, ranges, p.minProminence);
  }

  lemma {:induction false} ShiftEntry(xs: seq<real>, k: real, idx: nat, tol: real)
    requires idx < |xs|
    ensures EntryIndex(Shift(xs, k), idx, tol) == EntryIndex(xs, idx, tol)
  {
    if idx > 0 {
      ShiftEntry(xs, k, idx - 1, tol);
    }
  }

  lemma {:induction false} ShiftExit(xs: seq<real>, k: real, idx: nat, tol: real)
    requires idx < |xs|
    ensures ExitIndex(Shift(xs, k), idx, tol) == ExitIndex(xs, idx, tol)
    decreases |xs| - idx
  {
    if idx < |xs| - 1 {
      ShiftExit(xs, k, idx + 1, tol);
    }
  }

  lemma {:induction false} ShiftWindows(xs: seq<real>, c: real, d: seq<real>, cs: seq<Candidate>, tol: real, k: nat)
    requires |xs| == |d| && OnTrack(cs, d) && k <= |cs|
    ensures Windows(Shift(xs, c), d, cs, tol, k) == Windows(xs, d, cs, tol, k)
  {
    if k > 0 {
      ShiftWindows(xs, c, d, cs, tol, k - 1);
      ShiftEntry(xs, c, cs[k - 1].apex, tol);
      ShiftExit(xs, c, cs[k - 1].apex, tol);
    }
  }

  function Faster(k: real): Frame -> Frame {
    (f: Frame) => f.(speed := f.speed + k)
  }

  lemma ShiftSignal(speeds: seq<real>, k: real, d: seq<real>, p: Params)
    requires p.Valid() && |speeds| == |d|
    ensures SignalWindows(Shift(speeds, k), d, p) == SignalWindows(speeds, d, p)
  {
    ShiftCandidates(speeds, k, p);
    CandidatesFacts(speeds, p);
    var cs := Select(Candidates(speeds, p), d, p.separation);
    ShiftWindows(speeds, k, d, cs, p.tolerance, |cs|);
  }

  lemma ShiftOrdered(frames: seq<Frame>, k: real)
    ensures var shifted := Ordered(MapSeq(frames, Faster(k)));
      && Speeds(shifted) == Shift(Speeds(Ordered(frames)), k)
      && Distances(shifted) == Distances(Ordered(frames))
  {
    SortMap(frames, Faster(k), NotFarther, NotFarther);
  }

  /** Adding one constant to every speed of a lap changes no detected entry, apex or exit
      sample and no prominence. */
  lemma ShiftedLap(frames: seq<Frame>, k: real, p: Params)
    requires p.Valid()
    ensures LapWindows(MapSeq(frames, Faster(k)), p) == LapWindows(frames, p)
  {
    ShiftOrdered(frames, k);
    ShiftSignal(Speeds(Ordered(frames)), k, Distances(Ordered(frames)), p);
    assert |Ordered(frames)| == |Speeds(Ordered(frames))|;
    assert |Ordered(MapSeq(frames, Faster(k)))| == |Speeds(Ordered(MapSeq(frames, Faster(k))))|;
  }

  // ---- monotone laps --------------------------------------------------------------------

  predicate AtLeast(a: real, b: real) {
    a >= b
  }

  function Reversed(xs: seq<real>): (r: seq<real>)
    ensures |r| == |xs| && forall i :: 0 <= i < |xs| ==> r[i] == xs[|xs| - 1 - i]
  {
    seq(|xs|, i requires 0 <= i < |xs| => xs[|xs| - 1 - i])
  }

  lemma {:induction false} ReversedPermutes(xs: seq<real>)
    ensures multiset(Reversed(xs)) == multiset(xs)
  {
    if xs != [] {
      var front, last := xs[..|xs| - 1], xs[|xs| - 1];
      ReversedPermutes(front);
      assert Reversed(xs) == [last] + Reversed(front);
      assert xs == front + [last];
    }
  }

  lemma ReversedMiddle(xs: seq<real>)
    requires xs != []
    ensures Middle(Reversed(xs)) == Middle(xs)
  {
  }

  lemma ReversedSorted(xs: seq<real>)
    requires Sorted(xs, AtLeast)
    ensures Sorted(Reversed(xs), AtMost)
  {
    forall i, j | 0 <= i < j < |xs|
      ensures AtMost(Reversed(xs)[i], Reversed(xs)[j])
    {
      assert AtLeast(xs[|xs| - 1 - j], xs[|xs| - 1 - i]);
    }
  }

  lemma SortReverses(xs: seq<real>)
    requires Sorted(xs, AtLeast)
    ensures SortBy(xs, AtMost) == Reversed(xs)
  {
    ReversedPermutes(xs);
    ReversedSorted(xs);
    SortPermutes(xs, AtMost);
    SortSorts(xs, AtMost);
    SortedUnique(SortBy(xs, AtMost), Reversed(xs), AtMost);
  }

  /** The median of a monotone list is its middle. */
  lemma MonotoneMedian(xs: seq<real>)
    requires xs != [] && (Sorted(xs, AtMost) || Sorted(xs, AtLeast))
    ensures Median(xs) == Middle(xs)
  {
    if Sorted(xs, AtMost) {
      SortOfSorted(xs, AtMost);
    } else {
      SortReverses(xs);
      ReversedMiddle(xs);
    }
  }

  lemma SliceSorted(xs: seq<real>, lo: nat, hi: nat, le: (real, real) -> bool)
    requires lo <= hi <= |xs| && Sorted(xs, le)
    ensures Sorted(xs[lo..hi], le)
  {
  }

  lemma SliceMiddle(xs: seq<real>, lo: nat, hi: nat)
    requires lo < hi <= |xs|
    ensures Middle(xs[lo..hi]) == (xs[(lo + hi - 1) / 2] + xs[(lo + hi) / 2]) / 2.0
  {
    assert lo + (hi - lo - 1) / 2 == (lo + hi - 1) / 2 && lo + (hi - lo) / 2 == (lo + hi) / 2;
  }

  /** The mean of the two middle samples of a window whose edges add up to `s`. */
  function MidMean(xs: seq<real>, s: nat): real
    requires 0 < s && s / 2 < |xs|
  {
    (xs[(s - 1) / 2] + xs[s / 2]) / 2.0
  }

  function EdgeSum(i: nat, r: nat, n: nat): nat
    requires i < n
  {
    Low(i, r) + High(i, r, n)
  }

  lemma EdgeSumRises(i: nat, j: nat, r: nat, n: nat)
    requires i <= j < n
    ensures 0 < EdgeSum(i, r, n) <= EdgeSum(j, r, n) && EdgeSum(j, r, n) / 2 < n
  {
  }

  lemma MidMeanMonotone(xs: seq<real>, s: nat, t: nat)
    requires 0 < s <= t && t / 2 < |xs|
    ensures Sorted(xs, AtMost) ==> MidMean(xs, s) <= MidMean(xs, t)
    ensures Sorted(xs, AtLeast) ==> MidMean(xs, s) >= MidMean(xs, t)
  {
    MonotoneAt(xs, (s - 1) / 2, (t - 1) / 2);
    MonotoneAt(xs, s / 2, t / 2);
  }

  lemma MonotoneWindow(xs: seq<real>, lo: nat, hi: nat)
    requires lo < hi <= |xs| && (Sorted(xs, AtMost) || Sorted(xs, AtLeast))
    ensures Median(xs[lo..hi]) == MidMean(xs, lo + hi)
  {
    if Sorted(xs, AtMost) {
      SliceSorted(xs, lo, hi, AtMost);
    } else {
      SliceSorted(xs, lo, hi, AtLeast);
    }
    MonotoneMedian(xs[lo..hi]);
    SliceMiddle(xs, lo, hi);
  }

  lemma SmoothedMiddle(xs: seq<real>, r: nat, i: nat)
    requires i < |xs| && (Sorted(xs, AtMost) || Sorted(xs, AtLeast))
    ensures 0 < EdgeSum(i, r, |xs|) && EdgeSum(i, r, |xs|) / 2 < |xs|
    ensures SmoothedAt(xs, r, i) == MidMean(xs, EdgeSum(i, r, |xs|))
  {
    EdgeSumRises(i, i, r, |xs|);
    MonotoneWindow(xs, Low(i, r), High(i, r, |xs|));
  }

  lemma SmoothedPair(xs: seq<real>, r: nat, i: nat, j: nat)
    requires i < j < |xs|
    ensures Sorted(xs, AtMost) ==> SmoothedAt(xs, r, i) <= SmoothedAt(xs, r, j)
    ensures Sorted(xs, AtLeast) ==> SmoothedAt(xs, r, i) >= SmoothedAt(xs, r, j)
  {
    if Sorted(xs, AtMost) || Sorted(xs, AtLeast) {
      SmoothedMiddle(xs, r, i);
      SmoothedMiddle(xs, r, j);
      EdgeSumRises(i, j, r, |xs|);
      MidMeanMonotone(xs, EdgeSum(i, r, |xs|), EdgeSum(j, r, |xs|));
    }
  }

  /** Median smoothing with shrinking edge windows preserves monotonicity, both ways. */
  lemma SmoothedMonotone(xs: seq<real>, window: int)
    requires window >= 1
    ensures Sorted(xs, AtMost) ==> Sorted(Smoothed(xs, window), AtMost)
    ensures Sorted(xs, AtLeast) ==> Sorted(Smoothed(xs, window), AtLeast)
  {
    if window > 1 && |xs| > 2 {
      var s := Smoothed(xs, window);
      forall i, j | 0 <= i < j < |xs|
        ensures Sorted(xs, AtMost) ==> s[i] <= s[j]
        ensures Sorted(xs, AtLeast) ==> s[i] >= s[j]
      {
        SmoothedPair(xs, Radius(window), i, j);
      }
    }
  }

  lemma MonotoneAt(xs: seq<real>, i: nat, j: nat)
    requires i <= j < |xs|
    ensures Sorted(xs, AtMost) ==> xs[i] <= xs[j]
    ensures Sorted(xs, AtLeast) ==> xs[i] >= xs[j]
  {
    assert i < j && Sorted(xs, AtMost) ==> AtMost(xs[i], xs[j]);
    assert i < j && Sorted(xs, AtLeast) ==> AtLeast(xs[i], xs[j]);
  }

  /** A monotone signal has no valley below both its sides. */
  lemma MonotoneShallow(xs: seq<real>, tol: real, start: nat, end: nat)
    requires tol >= 0.0 && 0 < start <= end < |xs| && (Sorted(xs, AtMost) || Sorted(xs, AtLeast))
    ensures !Deep(xs, tol, start, end)
  {
    var slice := xs[start..end + 1];
    var v := Floor(xs, start, end);
    var i :| 0 <= i < |slice| && slice[i] == v;
    var right := Min(end + 1, |xs| - 1);
    MonotoneAt(xs, start - 1, start + i);
    MonotoneAt(xs, start + i, right);
  }

  lemma {:induction false} MonotoneNoRanges(xs: seq<real>, tol: real, i: nat)
    requires tol >= 0.0 && i > 0 && (Sorted(xs, AtMost) || Sorted(xs, AtLeast))
    ensures RangesFrom(xs, tol, i) == []
    decreases |xs| - i
  {
    if i < |xs| - 1 {
      MonotoneShallow(xs, tol, i, PlateauEnd(xs, tol, i));
      MonotoneNoRanges(xs, tol, NextScan(xs, tol, i));
    }
  }

  /** Speed never falls, or never rises, along the track. */
  ghost predicate MonotoneLap(frames: seq<Frame>) {
    || (forall f, g :: f in frames && g in frames && f.distance <= g.distance ==> f.speed <= g.speed)
    || (forall f, g :: f in frames && g in frames && f.distance <= g.distance ==> f.speed >= g.speed)
  }

  lemma MonotoneSpeeds(frames: seq<Frame>)
    requires MonotoneLap(frames)
    ensures Sorted(Speeds(Ordered(frames)), AtMost) || Sorted(Speeds(Ordered(frames)), AtLeast)
  {
    var ordered := Ordered(frames);
    SortPermutes(frames, NotFarther);
    SameMembers(ordered, frames);
    SortSorts(frames, NotFarther);
    var rising := forall f, g :: f in frames && g in frames && f.distance <= g.distance ==> f.speed <= g.speed;
    forall i, j | 0 <= i < j < |ordered|
      ensures if rising then ordered[i].speed <= ordered[j].speed else ordered[i].speed >= ordered[j].speed
    {
      assert NotFarther(ordered[i], ordered[j]);
      assert ordered[i] in frames && ordered[j] in frames;
    }
  }

  /** A lap whose speed is monotone in distance yields no corner. */
  lemma MonotoneNoCorner(frames: seq<Frame>, p: Params)
    requires p.Valid() && MonotoneLap(frames)
    ensures LapWindows(frames, p) == []
  {
    var ordered := Ordered(frames);
    var speeds, d := Speeds(ordered), Distances(ordered);
    MonotoneSpeeds(frames);
    SmoothedMonotone(speeds, p.window);
    MonotoneNoRanges(Smoothed(speeds, p.window), p.tolerance, 1);
    assert Candidates(speeds, p) == [];
    assert Select([], d, p.separation) == [];
  }
}
