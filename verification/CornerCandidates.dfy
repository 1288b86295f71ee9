/** Which candidates there are: one for every reported range whose apex is prominent enough,
    said without the functions that compute them. */
module CornerCandidates {
  import opened Extremes
  import opened Sorting
  import opened CornerAnalysis
  import opened CornerStages

  /** The slowest raw sample of a range, the first one on ties. */
  ghost predicate FirstSlowest(speeds: seq<real>, r: Range, a: nat) {
    && r.start <= a <= r.end < |speeds|
    && (forall i :: r.start <= i <= r.end ==> speeds[a] <= speeds[i])
    && (forall i :: r.start <= i < a ==> speeds[a] < speeds[i])
  }

  /** How far the lower of two summits rises above a sample, if at all. */
  function RiseOfLower(base: real, left: real, right: real): real {
    var lower := if left < right then left else right;
    if lower > base then lower - base else 0.0
  }

  /** The prominence of sample `a` is how far the lower of its two nearest summits rises above
      it; the last sample has none. */
  ghost predicate HasProminence(signal: seq<real>, a: nat, x: real)
    requires 0 < a < |signal|
  {
    if a == |signal| - 1 then x == 0.0
    else exists l: nat, r: nat :: LeftSummit(signal, a - 1, l) && RightSummit(signal, a + 1, r)
           && x == RiseOfLower(signal[a], signal[l], signal[r])
  }

  lemma ApexIff(speeds: seq<real>, r: Range, a: nat)
    requires r.start <= r.end < |speeds|
    ensures FirstSlowest(speeds, r, a) <==> a == ApexOf(speeds, r)
  {
    ApexIsFirstSlowest(speeds, r);
  }

  lemma SummitsUnique(signal: seq<real>, a: nat, l: nat, l': nat, r: nat, r': nat)
    requires 0 < a < |signal| - 1
    requires LeftSummit(signal, a - 1, l) && LeftSummit(signal, a - 1, l')
    requires RightSummit(signal, a + 1, r) && RightSummit(signal, a + 1, r')
    ensures l == l' && r == r'
  {
  }

  lemma ProminenceIff(signal: seq<real>, a: nat, x: real)
    requires 0 < a < |signal|
    ensures HasProminence(signal, a, x) <==> x == ProminenceAt(signal, a)
  {
    var l, r := ProminenceIs(signal, a);
    if a < |signal| - 1 {
      assert ProminenceAt(signal, a) == RiseOfLower(signal[a], signal[l], signal[r]);
      if HasProminence(signal, a, x) {
        var l': nat, r': nat :| LeftSummit(signal, a - 1, l') && RightSummit(signal, a + 1, r')
                                && x == RiseOfLower(signal[a], signal[l'], signal[r']);
        SummitsUnique(signal, a, l, l', r, r');
      }
    }
  }

  lemma {:induction false} FlattenMembers(parts: seq<seq<Candidate>>, c: Candidate)
    ensures c in Flatten(parts) <==> exists k :: 0 <= k < |parts| && c in parts[k]
  {
    if parts != [] {
      FlattenMembers(parts[..|parts| - 1], c);
      assert forall k :: 0 <= k < |parts| - 1 ==> parts[..|parts| - 1][k] == parts[k];
    }
  }

  /** What makes `c` the candidate of range `r`. */
  ghost predicate CandidateOf(speeds: seq<real>, smoothed: seq<real>, r: Range, minProminence: real, c: Candidate) {
    && |smoothed| == |speeds| && 0 < r.start
    && FirstSlowest(speeds, r, c.apex)
    && HasProminence(smoothed, c.apex, c.prominence) && c.prominence >= minProminence
  }

  lemma CandidateOfIff(speeds: seq<real>, smoothed: seq<real>, r: Range, minProminence: real, c: Candidate)
    requires |smoothed| == |speeds| && 0 < r.start <= r.end < |speeds|
    ensures CandidateOf(speeds, smoothed, r, minProminence, c) <==> c in CandidateAt(speeds, smoothed, r, minProminence)
  {
    ApexIff(speeds, r, c.apex);
    if FirstSlowest(speeds, r, c.apex) {
      ProminenceIff(smoothed, c.apex, c.prominence);
    }
  }

  /** Completeness and soundness of candidate detection: the candidates are exactly the first
      slowest raw samples of the ranges found in the smoothed signal, each with the prominence
      it has there, when that is at least the minimum. */
  lemma CandidateIff(speeds: seq<real>, p: Params, c: Candidate)
    requires p.Valid()
    ensures var smoothed := Smoothed(speeds, p.window);
      c in Candidates(speeds, p)
      <==> exists r :: r in RangesFrom(smoothed, p.tolerance, 1)
                       && CandidateOf(speeds, smoothed, r, p.minProminence, c)
  {
    var smoothed := Smoothed(speeds, p.window);
    var ranges := RangesFrom(smoothed, p.tolerance, 1);
    RangesOrdered(smoothed, p.tolerance, 1);
    var parts := CandidateParts(speeds, smoothed, ranges, p.minProminence);
    FlattenMembers(parts, c);
    forall k | 0 <= k < |ranges|
      ensures c in parts[k] <==> CandidateOf(speeds, smoothed, ranges[k], p.minProminence, c)
    {
      CandidateOfIff(speeds, smoothed, ranges[k], p.minProminence, c);
    }
    if k :| 0 <= k < |parts| && c in parts[k] {
      assert ranges[k] in ranges;
    }
    if r :| r in ranges && CandidateOf(speeds, smoothed, r, p.minProminence, c) {
      var k :| 0 <= k < |ranges| && ranges[k] == r;
      assert c in parts[k];
    }
  }

  /** So every sharply entered valley of the smoothed signal has its candidate, if its slowest
      raw sample is prominent enough. */
  lemma ValleyHasCandidate(speeds: seq<real>, p: Params, r: Range, c: Candidate)
    requires p.Valid() && IsValley(Smoothed(speeds, p.window), p.tolerance, r)
    requires var s := Smoothed(speeds, p.window); !Flat(s[r.start] - s[r.start - 1], p.tolerance)
    requires CandidateOf(speeds, Smoothed(speeds, p.window), r, p.minProminence, c)
    ensures c in Candidates(speeds, p)
  {
    ValleyReported(Smoothed(speeds, p.window), p.tolerance, 1, r);
    CandidateIff(speeds, p, c);
  }
}
