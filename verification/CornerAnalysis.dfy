/** Corner detection on one lap's speed-over-distance profile: what each stage computes, and
    the loops that compute it.  Speeds and distances are real numbers. */
module CornerAnalysis {
  import opened Extremes
  import opened Sorting

  datatype Frame = Frame(distance: real, speed: real, brake: bool, gear: int)

  datatype LapKey = LapKey(driver: string, lap: int)

  datatype Candidate = Candidate(apex: nat, prominence: real)

  /** A run of samples, both ends included. */
  datatype Range = Range(start: nat, end: nat)

  /** The constructor of the analyzer rejects any other parameters. */
  datatype Params = Params(minProminence: real, window: int, separation: real, tolerance: real) {
    predicate Valid() {
      minProminence >= 0.0 && window >= 1 && separation >= 0.0 && tolerance >= 0.0
    }
  }

  predicate AtMost(a: real, b: real) {
    a <= b
  }

  predicate NotFarther(a: Frame, b: Frame) {
    a.distance <= b.distance
  }

  predicate MoreProminent(a: Candidate, b: Candidate) {
    a.prominence >= b.prominence
  }

  predicate ApexBefore(a: Candidate, b: Candidate) {
    a.apex <= b.apex
  }

  // ---- smoothing ------------------------------------------------------------------------

  /** The middle of an ordered list, or the mean of its two middles. */
  function Middle(ordered: seq<real>): real
    requires ordered != []
  {
    var n := |ordered|;
    if n % 2 == 1 then ordered[n / 2] else (ordered[n / 2 - 1] + ordered[n / 2]) / 2.0
  }

  function Median(values: seq<real>): real
    requires values != []
  {
    SortPermutes(values, AtMost);
    Middle(SortBy(values, AtMost))
  }

  /** Window edges at sample `i`: shortened, not padded, at both ends. */
  function Low(i: nat, radius: nat): nat {
    Max(0, i - radius)
  }

  function High(i: nat, radius: nat, n: nat): nat {
    Min(n, i + radius + 1)
  }

  function Radius(window: int): nat
    requires window >= 1
  {
    (if window % 2 == 0 then window + 1 else window) / 2
  }

  function SmoothedAt(speeds: seq<real>, radius: nat, i: nat): real
    requires i < |speeds|
  {
    Median(speeds[Low(i, radius)..High(i, radius, |speeds|)])
  }

  function Smoothed(speeds: seq<real>, window: int): (r: seq<real>)
    requires window >= 1
    ensures |r| == |speeds|
  {
    if window <= 1 || |speeds| <= 2 then speeds
    else
      seq(|speeds|, i requires 0 <= i < |speeds| => SmoothedAt(speeds, Radius(window), i))
  }

  method SmoothSpeeds(speeds: seq<real>, window: int) returns (smoothed: seq<real>)
    requires window >= 1
    ensures smoothed == Smoothed(speeds, window)
  {
    if window <= 1 || |speeds| <= 2 {
      return speeds;
    }
    var width := if window % 2 == 0 then window + 1 else window;
    var radius := width / 2;
    smoothed := [];
    for i := 0 to |speeds|
      invariant |smoothed| == i
      invariant forall j :: 0 <= j < i ==> smoothed[j] == SmoothedAt(speeds, radius, j)
    {
      var lo := Max(0, i - radius);
      var hi := Min(|speeds|, i + radius + 1);
      smoothed := smoothed + [Median(speeds[lo..hi])];
    }
  }

  // ---- local minima ---------------------------------------------------------------------

  predicate StartsValley(speeds: seq<real>, tol: real, i: nat)
    requires 0 < i < |speeds| - 1
  {
    speeds[i] <= speeds[i - 1] + tol && speeds[i] <= speeds[i + 1] + tol
  }

  /** The last sample of the near-flat run that starts at `i`. */
  function PlateauEnd(speeds: seq<real>, tol: real, i: nat): (end: nat)
    requires i < |speeds|
    ensures i <= end < |speeds|
    decreases |speeds| - i
  {
    if i < |speeds| - 1 && Abs(speeds[i + 1] - speeds[i]) <= tol then PlateauEnd(speeds, tol, i + 1) else i
  }

  /** The lowest speed of a run of samples. */
  function Floor(speeds: seq<real>, start: nat, end: nat): real
    requires start <= end < |speeds|
  {
    Least(speeds[start..end + 1])
  }

  predicate BelowBoth(valley: real, left: real, right: real, tol: real) {
    valley < left - tol && valley < right - tol
  }

  /** The valley bottom lies below both neighbours by more than the tolerance. */
  predicate Deep(speeds: seq<real>, tol: real, start: nat, end: nat)
    requires 0 < start <= end < |speeds|
  {
    BelowBoth(Floor(speeds, start, end), speeds[start - 1], speeds[Min(end + 1, |speeds| - 1)], tol)
  }

  /** What the scan finds at sample `i`: the near-flat run that starts there, if it is a
      valley. */
  function RangeAt(speeds: seq<real>, tol: real, i: nat): seq<Range>
    requires 0 < i < |speeds| - 1
  {
    var end := PlateauEnd(speeds, tol, i);
    if StartsValley(speeds, tol, i) && Deep(speeds, tol, i, end) then [Range(i, end)] else []
  }

  /** Where the scan goes on after sample `i`. */
  function NextScan(speeds: seq<real>, tol: real, i: nat): (next: nat)
    requires 0 < i < |speeds| - 1
    ensures i < next <= |speeds|
  {
    if StartsValley(speeds, tol, i) then PlateauEnd(speeds, tol, i) + 1 else i + 1
  }

  function RangesFrom(speeds: seq<real>, tol: real, i: nat): seq<Range>
    requires i > 0
    decreases |speeds| - i
  {
    if i >= |speeds| - 1 then []
    else RangeAt(speeds, tol, i) + RangesFrom(speeds, tol, NextScan(speeds, tol, i))
  }

  ghost predicate InSignal(ranges: seq<Range>, lo: nat, hi: nat) {
    forall k :: 0 <= k < |ranges| ==> lo <= ranges[k].start <= ranges[k].end < hi
  }

  ghost predicate Disjoint(ranges: seq<Range>) {
    forall j, k :: 0 <= j < k < |ranges| ==> ranges[j].end < ranges[k].start
  }

  lemma RangesJoin(here: seq<Range>, rest: seq<Range>, lo: nat, mid: nat, hi: nat)
    requires |here| <= 1 && lo <= mid <= hi
    requires InSignal(here, lo, mid) && InSignal(rest, mid, hi) && Disjoint(rest)
    ensures InSignal(here + rest, lo, hi) && Disjoint(here + rest)
  {
  }

  /** Ranges lie inside the signal, in order, and never overlap. */
  lemma {:induction false} RangesOrdered(speeds: seq<real>, tol: real, i: nat)
    requires i > 0
    ensures InSignal(RangesFrom(speeds, tol, i), i, |speeds|) && Disjoint(RangesFrom(speeds, tol, i))
    decreases |speeds| - i
  {
    if i < |speeds| - 1 {
      var next := NextScan(speeds, tol, i);
      RangesOrdered(speeds, tol, next);
      RangesJoin(RangeAt(speeds, tol, i), RangesFrom(speeds, tol, next), i, next, |speeds|);
    }
  }

  method WalkPlateau(speeds: seq<real>, tol: real, start: nat) returns (i: nat)
    requires start < |speeds|
    ensures i == PlateauEnd(speeds, tol, start)
  {
    i := start;
    while i < |speeds| - 1 && Abs(speeds[i + 1] - speeds[i]) <= tol
      invariant start <= i < |speeds|
      invariant PlateauEnd(speeds, tol, i) == PlateauEnd(speeds, tol, start)
      decreases |speeds| - i
    {
      i := i + 1;
    }
  }

  /** What is found so far grows by the range at `i`, if any. */
  lemma RangesNext(found: seq<Range>, speeds: seq<real>, tol: real, i: nat)
    requires 0 < i < |speeds| - 1
    ensures found + RangesFrom(speeds, tol, i)
         == (found + RangeAt(speeds, tol, i)) + RangesFrom(speeds, tol, NextScan(speeds, tol, i))
  {
  }

  /** One turn of the scan: the range that starts at `i`, if any, and the next sample. */
  method ScanSample(speeds: seq<real>, tol: real, i: nat) returns (found: seq<Range>, next: nat)
    requires 0 < i < |speeds| - 1
    ensures found == RangeAt(speeds, tol, i) && next == NextScan(speeds, tol, i)
  {
    found, next := [], i;
    var left, current, right := speeds[i - 1], speeds[i], speeds[i + 1];
    if current <= left + tol && current <= right + tol {
      var end := WalkPlateau(speeds, tol, i);
      var rightValue := speeds[Min(end + 1, |speeds| - 1)];
      var valley := Least(speeds[i..end + 1]);
      if valley < left - tol && valley < rightValue - tol {
        found := [Range(i, end)];
      }
      next := end;
    }
    next := next + 1;
  }

  method FindLocalMinimaRanges(speeds: seq<real>, tol: real) returns (ranges: seq<Range>)
    ensures ranges == RangesFrom(speeds, tol, 1)
  {
    var n := |speeds|;
    if n < 3 {
      return [];
    }
    ranges := [];
    var i: nat := 1;
    while i < n - 1
      invariant 0 < i
      invariant ranges + RangesFrom(speeds, tol, i) == RangesFrom(speeds, tol, 1)
      decreases n - i
    {
      RangesNext(ranges, speeds, tol, i);
      var found;
      found, i := ScanSample(speeds, tol, i);
      ranges := ranges + found;
    }
    assert ranges + [] == ranges;
  }

  // ---- prominence -----------------------------------------------------------------------

  function LeftPeak(speeds: seq<real>, i: int, peak: real): real
    requires -1 <= i < |speeds|
    decreases i + 1
  {
    if i < 0 then peak
    else
      var p := MaxReal(peak, speeds[i]);
      if i > 0 && speeds[i - 1] < speeds[i] then p else LeftPeak(speeds, i - 1, p)
  }

  function RightPeak(speeds: seq<real>, i: nat, peak: real): real
    decreases |speeds| - i
  {
    if i >= |speeds| then peak
    else
      var p := MaxReal(peak, speeds[i]);
      if i < |speeds| - 1 && speeds[i + 1] < speeds[i] then p else RightPeak(speeds, i + 1, p)
  }

  function ProminenceAt(speeds: seq<real>, idx: nat): real
    requires idx < |speeds|
  {
    MinReal(LeftPeak(speeds, idx - 1, speeds[idx]), RightPeak(speeds, idx + 1, speeds[idx])) - speeds[idx]
  }

  method Prominence(speeds: seq<real>, idx: nat) returns (p: real)
    requires idx < |speeds|
    ensures p == ProminenceAt(speeds, idx)
  {
    var n, apexSpeed := |speeds|, speeds[idx];
    var leftPeak, rightPeak := apexSpeed, apexSpeed;
    var i: int := idx - 1;
    while i > -1
      invariant -1 <= i < n
      invariant LeftPeak(speeds, i, leftPeak) == LeftPeak(speeds, idx - 1, apexSpeed)
    {
      leftPeak := MaxReal(leftPeak, speeds[i]);
      if i > 0 && speeds[i - 1] < speeds[i] {
        break;
      }
      i := i - 1;
    }
    assert leftPeak == LeftPeak(speeds, idx - 1, apexSpeed);
    i := idx + 1;
    while i < n
      invariant 0 <= i <= n
      invariant RightPeak(speeds, i, rightPeak) == RightPeak(speeds, idx + 1, apexSpeed)
    {
      rightPeak := MaxReal(rightPeak, speeds[i]);
      if i < n - 1 && speeds[i + 1] < speeds[i] {
        break;
      }
      i := i + 1;
    }
    assert rightPeak == RightPeak(speeds, idx + 1, apexSpeed);
    p := MinReal(leftPeak, rightPeak) - apexSpeed;
  }

  // ---- entry and exit -------------------------------------------------------------------

  function EntryIndex(speeds: seq<real>, idx: nat, tol: real): (r: nat)
    requires idx < |speeds|
    ensures r <= idx
  {
    if idx > 0 && speeds[idx - 1] >= speeds[idx] - tol then EntryIndex(speeds, idx - 1, tol) else idx
  }

  function ExitIndex(speeds: seq<real>, idx: nat, tol: real): (r: nat)
    requires idx < |speeds|
    ensures idx <= r < |speeds|
    decreases |speeds| - idx
  {
    if idx < |speeds| - 1 && speeds[idx + 1] >= speeds[idx] - tol then ExitIndex(speeds, idx + 1, tol) else idx
  }

  method FindEntryIndex(speeds: seq<real>, apex: nat, tol: real) returns (idx: nat)
    requires apex < |speeds|
    ensures idx == EntryIndex(speeds, apex, tol)
  {
    idx := apex;
    while idx > 0
      invariant idx <= apex && EntryIndex(speeds, idx, tol) == EntryIndex(speeds, apex, tol)
    {
      var previous, current := speeds[idx - 1], speeds[idx];
      if previous >= current - tol {
        idx := idx - 1;
      } else {
        break;
      }
    }
  }

  method FindExitIndex(speeds: seq<real>, apex: nat, tol: real) returns (idx: nat)
    requires apex < |speeds|
    ensures idx == ExitIndex(speeds, apex, tol)
  {
    idx := apex;
    while idx < |speeds| - 1
      invariant idx < |speeds| && ExitIndex(speeds, idx, tol) == ExitIndex(speeds, apex, tol)
      decreases |speeds| - idx
    {
      var current, following := speeds[idx], speeds[idx + 1];
      if following >= current - tol {
        idx := idx + 1;
      } else {
        break;
      }
    }
  }

  // ---- candidates -----------------------------------------------------------------------

  /** `list.index`: the first position of `x`. */
  function IndexOf(xs: seq<real>, x: real): (i: nat)
    requires x in xs
    ensures i < |xs| && xs[i] == x && x !in xs[..i]
  {
    if xs[0] == x then 0 else 1 + IndexOf(xs[1..], x)
  }

  function IndexOfLeast(xs: seq<real>): (i: nat)
    requires xs != []
    ensures i < |xs|
  {
    IndexOf(xs, Least(xs))
  }

  /** The slowest raw sample of a range, the first one on ties. */
  function ApexOf(speeds: seq<real>, range: Range): (apex: nat)
    requires range.start <= range.end < |speeds|
    ensures range.start <= apex <= range.end
  {
    range.start + IndexOfLeast(speeds[range.start..range.end + 1])
  }

  /** At most one candidate per range: its apex, if prominent enough in the smoothed signal. */
  function CandidateAt(speeds: seq<real>, smoothed: seq<real>, range: Range, minProminence: real): (r: seq<Candidate>)
    requires |smoothed| == |speeds| && range.start <= range.end < |speeds|
    ensures |r| <= 1
    ensures r != [] ==> range.start <= r[0].apex <= range.end && r[0].prominence >= minProminence
  {
    var apex := ApexOf(speeds, range);
    var p := ProminenceAt(smoothed, apex);
    if p >= minProminence then [Candidate(apex, p)] else []
  }

  method RefineRange(speeds: seq<real>, smoothed: seq<real>, range: Range, minProminence: real)
    returns (r: seq<Candidate>)
    requires |smoothed| == |speeds| && range.start <= range.end < |speeds|
    ensures r == CandidateAt(speeds, smoothed, range, minProminence)
  {
    var apex := ApexOf(speeds, range);
    var prominence := Prominence(smoothed, apex);
    r := if prominence >= minProminence then [Candidate(apex, prominence)] else [];
  }

  function CandidateParts(speeds: seq<real>, smoothed: seq<real>, ranges: seq<Range>, minProminence: real)
      : (parts: seq<seq<Candidate>>)
    requires |smoothed| == |speeds| && InSignal(ranges, 0, |speeds|)
    ensures |parts| == |ranges|
  {
    seq(|ranges|, i requires 0 <= i < |ranges| => CandidateAt(speeds, smoothed, ranges[i], minProminence))
  }

  function Flatten(parts: seq<seq<Candidate>>): seq<Candidate> {
    if parts == [] then [] else Flatten(parts[..|parts| - 1]) + parts[|parts| - 1]
  }

  function Candidates(speeds: seq<real>, p: Params): seq<Candidate>
    requires p.Valid()
  {
    var smoothed := Smoothed(speeds, p.window);
    var ranges := RangesFrom(smoothed, p.tolerance, 1);
    RangesOrdered(smoothed, p.tolerance, 1);
    Flatten(CandidateParts(speeds, smoothed, ranges, p.minProminence))
  }

  method CandidateCorners(speeds: seq<real>, p: Params) returns (candidates: seq<Candidate>)
    requires p.Valid()
    ensures candidates == Candidates(speeds, p)
  {
    var smoothed := SmoothSpeeds(speeds, p.window);
    var ranges := FindLocalMinimaRanges(smoothed, p.tolerance);
    RangesOrdered(smoothed, p.tolerance, 1);
    ghost var parts := CandidateParts(speeds, smoothed, ranges, p.minProminence);
    candidates := [];
    for k := 0 to |ranges|
      invariant candidates == Flatten(parts[..k])
    {
      var refined := RefineRange(speeds, smoothed, ranges[k], p.minProminence);
      assert parts[..k + 1][..k] == parts[..k] && parts[k] == refined;
      candidates := candidates + refined;
    }
    assert parts[..|ranges|] == parts;
  }

  /** Candidates sit at increasing samples, and are prominent enough. */
  ghost predicate Ascending(cs: seq<Candidate>) {
    forall i, j :: 0 <= i < j < |cs| ==> cs[i].apex < cs[j].apex
  }

  ghost predicate Bounded(cs: seq<Candidate>, last: int, minProminence: real) {
    forall i :: 0 <= i < |cs| ==> cs[i].apex <= last && cs[i].prominence >= minProminence
  }

  lemma AppendAscending(cs: seq<Candidate>, r: seq<Candidate>, range: Range, last: int, minProminence: real)
    requires Ascending(cs) && Bounded(cs, last, minProminence) && last < range.start <= range.end
    requires |r| <= 1 && (r != [] ==> range.start <= r[0].apex <= range.end && r[0].prominence >= minProminence)
    ensures Ascending(cs + r) && Bounded(cs + r, range.end, minProminence)
  {
  }

  /** Each part holds at most one candidate, inside its own range. */
  ghost predicate InRanges(parts: seq<seq<Candidate>>, ranges: seq<Range>, minProminence: real)
    requires |parts| == |ranges|
  {
    forall i :: 0 <= i < |parts| ==>
      && ranges[i].start <= ranges[i].end
      && |parts[i]| <= 1
      && (parts[i] != [] ==>
            ranges[i].start <= parts[i][0].apex <= ranges[i].end && parts[i][0].prominence >= minProminence)
  }

  lemma {:induction false} FlattenAscends(parts: seq<seq<Candidate>>, ranges: seq<Range>, minProminence: real)
    requires |parts| == |ranges| && Disjoint(ranges) && InRanges(parts, ranges, minProminence)
    ensures Ascending(Flatten(parts))
    ensures Bounded(Flatten(parts), if parts == [] then -1 else ranges[|ranges| - 1].end, minProminence)
  {
    if parts != [] {
      var n := |parts| - 1;
      FlattenAscends(parts[..n], ranges[..n], minProminence);
      var floor := if n == 0 then -1 else ranges[n - 1].end;
      AppendAscending(Flatten(parts[..n]), parts[n], ranges[n], floor, minProminence);
    }
  }

  lemma CandidatesFacts(speeds: seq<real>, p: Params)
    requires p.Valid()
    ensures var cs := Candidates(speeds, p);
      && OnTrack(cs, speeds) && Ascending(cs)
      && (forall i :: 0 <= i < |cs| ==> cs[i].prominence >= p.minProminence)
  {
    var smoothed := Smoothed(speeds, p.window);
    var ranges := RangesFrom(smoothed, p.tolerance, 1);
    RangesOrdered(smoothed, p.tolerance, 1);
    FlattenAscends(CandidateParts(speeds, smoothed, ranges, p.minProminence), ranges, p.minProminence);
  }

  // ---- selection ------------------------------------------------------------------------

  /** Every apex is a sample of the signal. */
  predicate OnTrack(cs: seq<Candidate>, signal: seq<real>) {
    forall i :: 0 <= i < |cs| ==> cs[i].apex < |signal|
  }

  predicate Close(a: Candidate, b: Candidate, distances: seq<real>, separation: real)
    requires a.apex < |distances| && b.apex < |distances|
  {
    Abs(distances[a.apex] - distances[b.apex]) < separation
  }

  predicate TooClose(c: Candidate, selected: seq<Candidate>, distances: seq<real>, separation: real)
    requires c.apex < |distances| && OnTrack(selected, distances)
  {
    exists i :: 0 <= i < |selected| && Close(c, selected[i], distances, separation)
  }

  /** Strongest first: keep what is not too close to something already kept. */
  function Greedy(ranked: seq<Candidate>, distances: seq<real>, separation: real): (kept: seq<Candidate>)
    requires OnTrack(ranked, distances)
    ensures OnTrack(kept, distances) && forall c :: c in kept ==> c in ranked
  {
    if ranked == [] then []
    else
      var c, kept := ranked[|ranked| - 1], Greedy(ranked[..|ranked| - 1], distances, separation);
      if TooClose(c, kept, distances, separation) then kept else kept + [c]
  }

  lemma SortOnTrack(cs: seq<Candidate>, le: (Candidate, Candidate) -> bool, distances: seq<real>)
    requires OnTrack(cs, distances)
    ensures OnTrack(SortBy(cs, le), distances)
  {
    SortPermutes(cs, le);
    SameMembers(SortBy(cs, le), cs);
    forall i | 0 <= i < |SortBy(cs, le)|
      ensures SortBy(cs, le)[i].apex < |distances|
    {
      assert SortBy(cs, le)[i] in cs;
    }
  }

  function Select(cs: seq<Candidate>, distances: seq<real>, separation: real): (r: seq<Candidate>)
    requires OnTrack(cs, distances)
    ensures OnTrack(r, distances)
  {
    SortOnTrack(cs, MoreProminent, distances);
    var kept := Greedy(SortBy(cs, MoreProminent), distances, separation);
    SortOnTrack(kept, ApexBefore, distances);
    SortBy(kept, ApexBefore)
  }

  method SelectNonOverlapping(candidates: seq<Candidate>, distances: seq<real>, separation: real)
    returns (selected: seq<Candidate>)
    requires OnTrack(candidates, distances)
    ensures selected == Select(candidates, distances, separation)
  {
    if candidates == [] {
      return [];
    }
    SortOnTrack(candidates, MoreProminent, distances);
    var ranked := SortBy(candidates, MoreProminent);
    selected := [];
    for k := 0 to |ranked|
      invariant OnTrack(ranked[..k], distances) && selected == Greedy(ranked[..k], distances, separation)
    {
      assert ranked[..k + 1][..k] == ranked[..k];
      var tooClose := exists i :: 0 <= i < |selected| && Close(ranked[k], selected[i], distances, separation);
      if !tooClose {
        selected := selected + [ranked[k]];
      }
    }
    assert ranked[..|ranked|] == ranked;
    selected := SortBy(selected, ApexBefore);
  }

  // ---- corner windows -------------------------------------------------------------------

  datatype Window = Window(entry: nat, apex: nat, exit: nat, prominence: real)

  /** The raw walk around candidate `i`, clipped at the midpoints to its neighbours. */
  function Clipped(speeds: seq<real>, cs: seq<Candidate>, i: nat, tol: real): (w: Window)
    requires OnTrack(cs, speeds) && i < |cs|
    ensures w.apex == cs[i].apex && w.prominence == cs[i].prominence
    ensures w.entry < |speeds| && w.exit < |speeds|
  {
    var apex := cs[i].apex;
    var entry, exit := EntryIndex(speeds, apex, tol), ExitIndex(speeds, apex, tol);
    Window(
      if i > 0 then Max(entry, (cs[i - 1].apex + apex) / 2) else entry, apex,
      if i < |cs| - 1 then Min(exit, (apex + cs[i + 1].apex) / 2) else exit, cs[i].prominence)
  }

  /** Ordered strictly in index and in distance. */
  predicate Proper(w: Window, distances: seq<real>) {
    && w.entry < w.apex < w.exit < |distances|
    && distances[w.entry] < distances[w.apex] < distances[w.exit]
  }

  function Windows(speeds: seq<real>, distances: seq<real>, cs: seq<Candidate>, tol: real, k: nat): (ws: seq<Window>)
    requires |speeds| == |distances| && OnTrack(cs, distances) && k <= |cs|
    ensures forall i :: 0 <= i < |ws| ==> Proper(ws[i], distances)
  {
    if k == 0 then []
    else
      var w := Clipped(speeds, cs, k - 1, tol);
      Windows(speeds, distances, cs, tol, k - 1) + if Proper(w, distances) then [w] else []
  }

  function Ordered(frames: seq<Frame>): seq<Frame> {
    SortBy(frames, NotFarther)
  }

  function Speeds(frames: seq<Frame>): (r: seq<real>)
    ensures |r| == |frames|
  {
    seq(|frames|, i requires 0 <= i < |frames| => frames[i].speed)
  }

  function Distances(frames: seq<Frame>): (r: seq<real>)
    ensures |r| == |frames|
  {
    seq(|frames|, i requires 0 <= i < |frames| => frames[i].distance)
  }

  /** The stages after sorting: candidates, selection, clipped windows. */
  function SignalWindows(speeds: seq<real>, distances: seq<real>, p: Params): (ws: seq<Window>)
    requires p.Valid() && |speeds| == |distances|
    ensures forall i :: 0 <= i < |ws| ==> Proper(ws[i], distances)
  {
    CandidatesFacts(speeds, p);
    var cs := Select(Candidates(speeds, p), distances, p.separation);
    Windows(speeds, distances, cs, p.tolerance, |cs|)
  }

  /** All stages: the windows of the corners of one lap. */
  function LapWindows(frames: seq<Frame>, p: Params): (ws: seq<Window>)
    requires p.Valid()
    ensures forall i :: 0 <= i < |ws| ==> Proper(ws[i], Distances(Ordered(frames)))
  {
    var ordered := Ordered(frames);
    if |ordered| < 3 then [] else SignalWindows(Speeds(ordered), Distances(ordered), p)
  }

  datatype Corner = Corner(
    driver: string, lap: int, number: nat, entryDistance: real, apexDistance: real, exitDistance: real,
    entrySpeed: real, apexSpeed: real, exitSpeed: real, prominence: real, brakedBeforeApex: bool, gearAtApex: int)

  function CornerRecord(key: LapKey, ordered: seq<Frame>, w: Window, number: nat): Corner
    requires Proper(w, Distances(ordered))
  {
    Corner(key.driver, key.lap, number,
           ordered[w.entry].distance, ordered[w.apex].distance, ordered[w.exit].distance,
           ordered[w.entry].speed, ordered[w.apex].speed, ordered[w.exit].speed, w.prominence,
           exists i :: w.entry <= i <= w.apex && ordered[i].brake, ordered[w.apex].gear)
  }

  /** Corner records are numbered from one. */
  function Records(key: LapKey, ordered: seq<Frame>, ws: seq<Window>): seq<Corner>
    requires forall i :: 0 <= i < |ws| ==> Proper(ws[i], Distances(ordered))
  {
    seq(|ws|, i requires 0 <= i < |ws| => CornerRecord(key, ordered, ws[i], i + 1))
  }

  lemma RecordsSnoc(key: LapKey, ordered: seq<Frame>, ws: seq<Window>, w: Window)
    requires forall i :: 0 <= i < |ws| ==> Proper(ws[i], Distances(ordered))
    requires Proper(w, Distances(ordered))
    ensures Records(key, ordered, ws + [w]) == Records(key, ordered, ws) + [CornerRecord(key, ordered, w, |ws| + 1)]
  {
  }

  /** The clipped window of one candidate. */
  method ClipWindow(speeds: seq<real>, candidates: seq<Candidate>, i: nat, tol: real) returns (w: Window)
    requires OnTrack(candidates, speeds) && i < |candidates|
    ensures w == Clipped(speeds, candidates, i, tol)
  {
    var apex := candidates[i].apex;
    var entry := FindEntryIndex(speeds, apex, tol);
    var exit := FindExitIndex(speeds, apex, tol);
    if i > 0 {
      entry := Max(entry, (candidates[i - 1].apex + apex) / 2);
    }
    if i < |candidates| - 1 {
      exit := Min(exit, (apex + candidates[i + 1].apex) / 2);
    }
    w := Window(entry, apex, exit, candidates[i].prominence);
  }

  method DetectCornersForLap(key: LapKey, frames: seq<Frame>, p: Params) returns (corners: seq<Corner>)
    requires p.Valid()
    ensures corners == Records(key, Ordered(frames), LapWindows(frames, p))
  {
    var ordered := SortBy(frames, NotFarther);
    if |ordered| < 3 {
      return [];
    }
    var speeds, distances := Speeds(ordered), Distances(ordered);
    var raw := CandidateCorners(speeds, p);
    CandidatesFacts(speeds, p);
    var candidates := SelectNonOverlapping(raw, distances, p.separation);
    corners := BuildRecords(key, ordered, speeds, candidates, p.tolerance);
  }

  /** The final loop over the candidates. */
  method BuildRecords(key: LapKey, ordered: seq<Frame>, speeds: seq<real>, candidates: seq<Candidate>, tol: real)
    returns (corners: seq<Corner>)
    requires |speeds| == |ordered| && OnTrack(candidates, speeds)
    ensures corners == RecordsUpTo(key, ordered, speeds, candidates, tol, |candidates|)
  {
    corners := [];
    var distances := Distances(ordered);
    for i := 0 to |candidates|
      invariant corners == RecordsUpTo(key, ordered, speeds, candidates, tol, i)
    {
      var w := ClipWindow(speeds, candidates, i, tol);
      RecordsNext(key, ordered, speeds, candidates, tol, i);
      corners := AppendRecord(key, ordered, distances, corners, w);
    }
  }

  /** Skip a window that is not strictly ordered; otherwise record it under the next number. */
  method AppendRecord(key: LapKey, ordered: seq<Frame>, distances: seq<real>, corners: seq<Corner>, w: Window)
    returns (grown: seq<Corner>)
    requires distances == Distances(ordered) && w.entry < |ordered| && w.apex < |ordered| && w.exit < |ordered|
    ensures grown == if Proper(w, distances) then corners + [CornerRecord(key, ordered, w, |corners| + 1)] else corners
  {
    grown := corners;
    if w.entry < w.apex < w.exit {
      if distances[w.entry] < distances[w.apex] < distances[w.exit] {
        grown := corners + [CornerRecord(key, ordered, w, |corners| + 1)];
      }
    }
  }

  /** The records of the first `k` candidates. */
  function RecordsUpTo(key: LapKey, ordered: seq<Frame>, speeds: seq<real>, cs: seq<Candidate>, tol: real, k: nat)
      : seq<Corner>
    requires |speeds| == |ordered| && OnTrack(cs, speeds) && k <= |cs|
  {
    Records(key, ordered, Windows(speeds, Distances(ordered), cs, tol, k))
  }

  /** What one more candidate adds to the records. */
  lemma RecordsNext(key: LapKey, ordered: seq<Frame>, speeds: seq<real>, cs: seq<Candidate>, tol: real, i: nat)
    requires |speeds| == |ordered| && OnTrack(cs, speeds) && i < |cs|
    ensures var w, before := Clipped(speeds, cs, i, tol), RecordsUpTo(key, ordered, speeds, cs, tol, i);
      RecordsUpTo(key, ordered, speeds, cs, tol, i + 1)
        == if Proper(w, Distances(ordered)) then before + [CornerRecord(key, ordered, w, |before| + 1)] else before
  {
    var d, w := Distances(ordered), Clipped(speeds, cs, i, tol);
    WindowsNext(speeds, d, cs, tol, i);
    if Proper(w, d) {
      RecordsSnoc(key, ordered, Windows(speeds, d, cs, tol, i), w);
    }
  }

  lemma WindowsNext(speeds: seq<real>, distances: seq<real>, cs: seq<Candidate>, tol: real, i: nat)
    requires |speeds| == |distances| && OnTrack(cs, distances) && i < |cs|
    ensures var w := Clipped(speeds, cs, i, tol);
      Windows(speeds, distances, cs, tol, i + 1)
        == Windows(speeds, distances, cs, tol, i) + if Proper(w, distances) then [w] else []
  {
  }
}
