/** Distance sectors of a lap and the telemetry samples nearest to their boundaries. */
module Sectors {
  import opened Extremes

  ghost predicate Within(distances: seq<real>, lo: real, hi: real) {
    forall i :: 0 <= i < |distances| ==> lo <= distances[i] <= hi
  }

  /** The `k`-th of `n` equal cuts of the span. */
  function Cut(lo: real, span: real, k: nat, n: nat): real
    requires n > 0
  {
    lo + span * k as real / n as real
  }

  /** Sectors are equally long. */
  lemma CutsEquallySpaced(lo: real, span: real, k: nat, n: nat)
    requires n > 0
    ensures Cut(lo, span, k + 1, n) - Cut(lo, span, k, n) == span / n as real
  {
    var a, b, m := span * k as real, span * (k + 1) as real, n as real;
    assert b == a + span;
    assert (a + span) / m == a / m + span / m;
  }

  lemma CutsRise(lo: real, span: real, j: nat, k: nat, n: nat)
    requires n > 0 && span >= 0.0 && j <= k
    ensures Cut(lo, span, j, n) <= Cut(lo, span, k, n)
  {
    var a, b, m := span * j as real, span * k as real, n as real;
    assert b - a == span * (k - j) as real >= 0.0;
    assert b / m - a / m == (b - a) / m >= 0.0;
  }

  lemma CutEnds(lo: real, span: real, n: nat)
    requires n > 0
    ensures Cut(lo, span, 0, n) == lo && Cut(lo, span, n, n) == lo + span
  {
  }

  /** All `n + 1` cuts. */
  function Cuts(lo: real, span: real, n: nat): (cuts: seq<real>)
    requires n > 0
    ensures |cuts| == n + 1
  {
    seq(n + 1, k requires 0 <= k <= n => Cut(lo, span, k, n))
  }

  ghost predicate Rising(cuts: seq<real>) {
    forall j, k :: 0 <= j < k < |cuts| ==> cuts[j] <= cuts[k]
  }

  lemma CutsFacts(lo: real, span: real, n: nat)
    requires n > 0 && span >= 0.0
    ensures var cuts := Cuts(lo, span, n); Rising(cuts) && cuts[0] == lo && cuts[n] == lo + span
  {
    CutEnds(lo, span, n);
    forall j, k | 0 <= j < k <= n
      ensures Cut(lo, span, j, n) <= Cut(lo, span, k, n)
    {
      CutsRise(lo, span, j, k, n);
    }
  }

  /** Half-open sectors, the last one closed. */
  predicate InSector(d: real, cuts: seq<real>, k: nat)
    requires k + 1 < |cuts|
  {
    cuts[k] <= d && if k + 2 == |cuts| then d <= cuts[k + 1] else d < cuts[k + 1]
  }

  lemma SectorExists(d: real, cuts: seq<real>, top: nat) returns (k: nat)
    requires top + 1 < |cuts| && Rising(cuts) && cuts[0] <= d
    requires if top + 2 == |cuts| then d <= cuts[top + 1] else d < cuts[top + 1]
    ensures k <= top && InSector(d, cuts, k)
  {
    if cuts[top] <= d {
      k := top;
    } else {
      k := SectorExists(d, cuts, top - 1);
    }
  }

  /** A distance inside the span lies in exactly one sector. */
  lemma OneSector(d: real, cuts: seq<real>) returns (s: nat)
    requires |cuts| >= 2 && Rising(cuts) && cuts[0] <= d <= cuts[|cuts| - 1]
    ensures s + 1 < |cuts|
    ensures cuts[s] <= d && (d < cuts[s + 1] || (d == cuts[s + 1] && s + 2 == |cuts|))
    ensures forall k: nat :: k + 1 < |cuts| ==> (InSector(d, cuts, k) <==> k == s)
  {
    s := SectorExists(d, cuts, |cuts| - 2);
  }

  /** How many of the distances lie in sector `k`. */
  function CountIn(distances: seq<real>, cuts: seq<real>, k: nat): nat
    requires k + 1 < |cuts|
  {
    if distances == [] then 0
    else
      CountIn(distances[..|distances| - 1], cuts, k) + if InSector(distances[|distances| - 1], cuts, k) then 1 else 0
  }

  function CountUpTo(distances: seq<real>, cuts: seq<real>, k: nat): nat
    requires k < |cuts|
  {
    if k == 0 then 0 else CountUpTo(distances, cuts, k - 1) + CountIn(distances, cuts, k - 1)
  }

  /** One more distance is counted in its sector alone. */
  lemma {:induction false} CountStep(distances: seq<real>, d: real, cuts: seq<real>, s: nat, k: nat)
    requires k < |cuts| && forall j: nat :: j + 1 < |cuts| ==> (InSector(d, cuts, j) <==> j == s)
    ensures CountUpTo(distances + [d], cuts, k) == CountUpTo(distances, cuts, k) + if s < k then 1 else 0
  {
    if k > 0 {
      CountStep(distances, d, cuts, s, k - 1);
      assert (distances + [d])[..|distances|] == distances;
    }
  }

  /** Every frame of a lap falls in exactly one sector, a zero span included. */
  lemma {:induction false} CountsCover(distances: seq<real>, cuts: seq<real>)
    requires |cuts| >= 2 && Rising(cuts) && Within(distances, cuts[0], cuts[|cuts| - 1])
    ensures CountUpTo(distances, cuts, |cuts| - 1) == |distances|
  {
    if distances == [] {
      CountEmpty(cuts, |cuts| - 1);
    } else {
      var front, d := distances[..|distances| - 1], distances[|distances| - 1];
      CountsCover(front, cuts);
      var s := OneSector(d, cuts);
      CountStep(front, d, cuts, s, |cuts| - 1);
      assert front + [d] == distances;
    }
  }

  lemma {:induction false} CountEmpty(cuts: seq<real>, k: nat)
    requires k < |cuts|
    ensures CountUpTo([], cuts, k) == 0
  {
    if k > 0 {
      CountEmpty(cuts, k - 1);
    }
  }

  datatype SectorRow = SectorRow(sector: nat, nFrames: nat, start: real, end: real)

  function TotalFrames(rows: seq<SectorRow>): nat {
    if rows == [] then 0 else TotalFrames(rows[..|rows| - 1]) + rows[|rows| - 1].nFrames
  }

  /** The row of a sector that has frames. */
  ghost predicate RowOf(row: SectorRow, distances: seq<real>, cuts: seq<real>) {
    && 1 <= row.sector < |cuts|
    && row.nFrames == CountIn(distances, cuts, row.sector - 1) > 0
    && row.start == cuts[row.sector - 1] && row.end == cuts[row.sector]
  }

  ghost predicate SectorsRise(rows: seq<SectorRow>, k: nat) {
    && (forall i :: 0 <= i < |rows| ==> rows[i].sector <= k)
    && (forall i, j :: 0 <= i < j < |rows| ==> rows[i].sector < rows[j].sector)
  }

  ghost predicate AllRows(rows: seq<SectorRow>, distances: seq<real>, cuts: seq<real>) {
    forall i :: 0 <= i < |rows| ==> RowOf(rows[i], distances, cuts)
  }

  /** One row per nonempty sector among the first `k`, in order; the rows account for every
      frame in those sectors. */
  ghost predicate RowsUpTo(rows: seq<SectorRow>, distances: seq<real>, cuts: seq<real>, k: nat) {
    && k < |cuts|
    && TotalFrames(rows) == CountUpTo(distances, cuts, k)
    && AllRows(rows, distances, cuts)
    && SectorsRise(rows, k)
  }

  lemma SectorsSnoc(rows: seq<SectorRow>, row: SectorRow, k: nat)
    requires SectorsRise(rows, k) && row.sector == k + 1
    ensures SectorsRise(rows + [row], k + 1)
  {
  }

  lemma TotalSnoc(rows: seq<SectorRow>, row: SectorRow)
    ensures TotalFrames(rows + [row]) == TotalFrames(rows) + row.nFrames
  {
    assert (rows + [row])[..|rows|] == rows;
  }

  lemma AllRowsSnoc(rows: seq<SectorRow>, row: SectorRow, distances: seq<real>, cuts: seq<real>)
    requires AllRows(rows, distances, cuts) && RowOf(row, distances, cuts)
    ensures AllRows(rows + [row], distances, cuts)
  {
  }

  lemma CountNext(distances: seq<real>, cuts: seq<real>, k: nat)
    requires k + 1 < |cuts|
    ensures CountUpTo(distances, cuts, k + 1) == CountUpTo(distances, cuts, k) + CountIn(distances, cuts, k)
  {
  }

  lemma RowAdded(rows: seq<SectorRow>, row: SectorRow, distances: seq<real>, cuts: seq<real>, k: nat)
    requires k + 1 < |cuts| && RowsUpTo(rows, distances, cuts, k)
    requires row.sector == k + 1 && RowOf(row, distances, cuts)
    ensures RowsUpTo(rows + [row], distances, cuts, k + 1)
  {
    TotalSnoc(rows, row);
    SectorsSnoc(rows, row, k);
    AllRowsSnoc(rows, row, distances, cuts);
    CountNext(distances, cuts, k);
  }

  lemma RowSkipped(rows: seq<SectorRow>, distances: seq<real>, cuts: seq<real>, k: nat)
    requires k + 1 < |cuts| && RowsUpTo(rows, distances, cuts, k) && CountIn(distances, cuts, k) == 0
    ensures RowsUpTo(rows, distances, cuts, k + 1)
  {
    CountNext(distances, cuts, k);
  }

  /** The rows of a lap account for every frame. */
  method LapSectors(distances: seq<real>, n: nat) returns (rows: seq<SectorRow>)
    requires distances != [] && n > 0
    ensures TotalFrames(rows) == |distances|
    ensures RowsUpTo(rows, distances, Cuts(Least(distances), Greatest(distances) - Least(distances), n), n)
  {
    var lo := Least(distances);
    var span := Greatest(distances) - lo;
    ghost var cuts := Cuts(lo, span, n);
    rows := [];
    for k := 0 to n
      invariant RowsUpTo(rows, distances, cuts, k)
    {
      var start, end := Cut(lo, span, k, n), Cut(lo, span, k + 1, n);
      var count := CountFrames(distances, start, end, k == n - 1, cuts, k);
      if count > 0 {
        var row := SectorRow(k + 1, count, start, end);
        RowAdded(rows, row, distances, cuts, k);
        rows := rows + [row];
      } else {
        RowSkipped(rows, distances, cuts, k);
      }
    }
    CutsFacts(lo, span, n);
    CountsCover(distances, cuts);
  }

  /** The filter of one sector: closed above only when it is the last. */
  method CountFrames(distances: seq<real>, start: real, end: real, last: bool, ghost cuts: seq<real>, ghost k: nat)
    returns (count: nat)
    requires k + 1 < |cuts| && start == cuts[k] && end == cuts[k + 1] && (last <==> k + 2 == |cuts|)
    ensures count == CountIn(distances, cuts, k)
  {
    count := 0;
    for i := 0 to |distances|
      invariant count == CountIn(distances[..i], cuts, k)
    {
      assert distances[..i + 1][..i] == distances[..i];
      if start <= distances[i] && (if last then distances[i] <= end else distances[i] < end) {
        count := count + 1;
      }
    }
    assert distances[..|distances|] == distances;
  }

  // ---- boundary points ------------------------------------------------------------------

  /** `min` with a key: the first of the nearest samples. */
  function Nearest(distances: seq<real>, target: real): (r: nat)
    requires distances != []
    ensures r < |distances|
    ensures forall i :: 0 <= i < |distances| ==> Abs(distances[r] - target) <= Abs(distances[i] - target)
    ensures forall i :: 0 <= i < r ==> Abs(distances[r] - target) < Abs(distances[i] - target)
  {
    if |distances| == 1 then 0
    else
      var n := |distances| - 1;
      var best := Nearest(distances[..n], target);
      if Abs(distances[n] - target) < Abs(distances[best] - target) then n else best
  }

  /** A later target has no earlier nearest sample. */
  lemma NearestRises(distances: seq<real>, s: real, t: real)
    requires distances != [] && s <= t
    ensures distances[Nearest(distances, s)] <= distances[Nearest(distances, t)]
  {
    var a, b := distances[Nearest(distances, s)], distances[Nearest(distances, t)];
    assert Abs(a - s) <= Abs(b - s) && Abs(b - t) <= Abs(a - t);
  }

  /** The samples nearest to the cuts. */
  ghost predicate NearestTo(points: seq<real>, distances: seq<real>, cuts: seq<real>)
    requires distances != []
  {
    |points| == |cuts| && forall i :: 0 <= i < |cuts| ==> points[i] == distances[Nearest(distances, cuts[i])]
  }

  lemma NearestToRising(points: seq<real>, distances: seq<real>, cuts: seq<real>)
    requires distances != [] && NearestTo(points, distances, cuts) && Rising(cuts)
    ensures Rising(points)
  {
    forall i, j | 0 <= i < j < |points|
      ensures points[i] <= points[j]
    {
      NearestRises(distances, cuts[i], cuts[j]);
    }
  }

  lemma EndPoints(points: seq<real>, distances: seq<real>, cuts: seq<real>)
    requires distances != [] && cuts != [] && NearestTo(points, distances, cuts)
    requires cuts[0] in distances && cuts[|cuts| - 1] in distances
    ensures points[0] == cuts[0] && points[|points| - 1] == cuts[|cuts| - 1]
  {
    ExactNearest(distances, cuts[0]);
    ExactNearest(distances, cuts[|cuts| - 1]);
  }

  lemma ExactNearest(distances: seq<real>, d: real)
    requires d in distances
    ensures distances[Nearest(distances, d)] == d
  {
    var i :| 0 <= i < |distances| && distances[i] == d;
    assert Abs(distances[Nearest(distances, d)] - d) <= Abs(distances[i] - d);
  }

  /** What the samples nearest to cuts that span the lap are. */
  lemma BoundaryFacts(points: seq<real>, distances: seq<real>, cuts: seq<real>)
    requires distances != [] && |cuts| >= 2 && Rising(cuts) && NearestTo(points, distances, cuts)
    requires cuts[0] == Least(distances) && cuts[|cuts| - 1] == Greatest(distances)
    ensures Rising(points) && points[0] == Least(distances) && points[|points| - 1] == Greatest(distances)
  {
    NearestToRising(points, distances, cuts);
    EndPoints(points, distances, cuts);
  }

  /** The boundary points are the samples nearest to the sector cuts: nondecreasing, from the
      least to the greatest distance of the lap. */
  method SectorBoundaryPoints(distances: seq<real>, n: int) returns (points: seq<real>)
    ensures distances == [] || n < 1 ==> points == []
    ensures distances != [] && n >= 1 ==>
      && NearestTo(points, distances, Cuts(Least(distances), Greatest(distances) - Least(distances), n))
      && Rising(points) && points[0] == Least(distances) && points[n] == Greatest(distances)
  {
    points := [];
    if distances == [] || n < 1 {
      return;
    }
    var lo := Least(distances);
    var span := Greatest(distances) - lo;
    points := CollectNearest(distances, lo, span, n);
    CutsFacts(lo, span, n);
    BoundaryFacts(points, distances, Cuts(lo, span, n));
  }

  /** One row per cut: the nearest sample. */
  method CollectNearest(distances: seq<real>, lo: real, span: real, n: nat) returns (points: seq<real>)
    requires distances != [] && n >= 1
    ensures NearestTo(points, distances, Cuts(lo, span, n))
  {
    ghost var cuts := Cuts(lo, span, n);
    points := [];
    for boundary := 0 to n + 1
      invariant |points| == boundary
      invariant forall i :: 0 <= i < boundary ==> points[i] == distances[Nearest(distances, cuts[i])]
    {
      var target := Cut(lo, span, boundary, n);
      assert target == cuts[boundary];
      points := points + [distances[Nearest(distances, target)]];
    }
  }
}
