/** What a lap's corner records say, written out on the frames and the selected candidates. */
module CornerRecords {
  import opened Extremes
  import opened Sorting
  import opened CornerAnalysis
  import opened CornerStages

  // ---- windows --------------------------------------------------------------------------

  /** From the apex of candidate `i` walk out while speed keeps rising, then pull each end in to
      the midpoint to the neighbouring apex, if there is one. */
  ghost predicate IsWindow(speeds: seq<real>, cs: seq<Candidate>, i: nat, tol: real, entry: nat, exit: nat)
    requires OnTrack(cs, speeds) && i < |cs|
  {
    var a := cs[i].apex;
    exists e: nat, x: nat ::
      && e <= a <= x < |speeds| && IsEntry(speeds, a, tol, e) && IsExit(speeds, a, tol, x)
      && entry == (if i > 0 && (cs[i - 1].apex + a) / 2 > e then (cs[i - 1].apex + a) / 2 else e)
      && exit == (if i + 1 < |cs| && (a + cs[i + 1].apex) / 2 < x then (a + cs[i + 1].apex) / 2 else x)
  }

  lemma WindowIff(speeds: seq<real>, cs: seq<Candidate>, i: nat, tol: real, entry: nat, exit: nat)
    requires OnTrack(cs, speeds) && i < |cs|
    ensures IsWindow(speeds, cs, i, tol, entry, exit)
       <==> entry == Clipped(speeds, cs, i, tol).entry && exit == Clipped(speeds, cs, i, tol).exit
  {
    var a := cs[i].apex;
    var e, x := EntryIndex(speeds, a, tol), ExitIndex(speeds, a, tol);
    EntryIff(speeds, a, tol, e);
    ExitIff(speeds, a, tol, x);
    if IsWindow(speeds, cs, i, tol, entry, exit) {
      var e': nat, x': nat :|
        && e' <= a <= x' < |speeds| && IsEntry(speeds, a, tol, e') && IsExit(speeds, a, tol, x')
        && entry == (if i > 0 && (cs[i - 1].apex + a) / 2 > e' then (cs[i - 1].apex + a) / 2 else e')
        && exit == (if i + 1 < |cs| && (a + cs[i + 1].apex) / 2 < x' then (a + cs[i + 1].apex) / 2 else x');
      EntryIff(speeds, a, tol, e');
      ExitIff(speeds, a, tol, x');
    }
  }

  /** Entry, apex and exit are three different samples, one behind the other on the track. */
  predicate StrictlyOrdered(ordered: seq<Frame>, entry: nat, apex: nat, exit: nat) {
    && entry < apex < exit < |ordered|
    && ordered[entry].distance < ordered[apex].distance < ordered[exit].distance
  }

  /** Candidate `i` makes a corner. */
  ghost predicate MakesCorner(ordered: seq<Frame>, speeds: seq<real>, cs: seq<Candidate>, i: nat, tol: real)
    requires OnTrack(cs, speeds) && i < |cs|
  {
    exists entry: nat, exit: nat ::
      IsWindow(speeds, cs, i, tol, entry, exit) && StrictlyOrdered(ordered, entry, cs[i].apex, exit)
  }

  /** The record of candidate `i`, field by field. */
  ghost predicate IsRecord(key: LapKey, ordered: seq<Frame>, speeds: seq<real>, cs: seq<Candidate>, i: nat, tol: real,
                           corner: Corner)
    requires OnTrack(cs, speeds) && i < |cs|
  {
    var a := cs[i].apex;
    exists entry: nat, exit: nat ::
      && IsWindow(speeds, cs, i, tol, entry, exit) && StrictlyOrdered(ordered, entry, a, exit)
      && corner.driver == key.driver && corner.lap == key.lap
      && corner.entryDistance == ordered[entry].distance && corner.entrySpeed == ordered[entry].speed
      && corner.apexDistance == ordered[a].distance && corner.apexSpeed == ordered[a].speed
      && corner.exitDistance == ordered[exit].distance && corner.exitSpeed == ordered[exit].speed
      && corner.prominence == cs[i].prominence && corner.gearAtApex == ordered[a].gear
      && (corner.brakedBeforeApex <==> exists j :: entry <= j <= a && ordered[j].brake)
  }

  // ---- which candidates are recorded ------------------------------------------------------

  /** Increasing numbers below `k`. */
  ghost predicate Climbs(from: seq<nat>, k: nat) {
    && (forall j :: 0 <= j < |from| ==> from[j] < k)
    && (forall i, j :: 0 <= i < j < |from| ==> from[i] < from[j])
  }

  function KeepGood(all: seq<Window>, good: seq<bool>): seq<Window>
    requires |all| == |good|
  {
    if all == [] then []
    else
      var n := |all| - 1;
      KeepGood(all[..n], good[..n]) + if good[n] then [all[n]] else []
  }

  /** `from` lists the good positions in order, and `ws` what stands there. */
  ghost predicate Picks(all: seq<Window>, good: seq<bool>, ws: seq<Window>, from: seq<nat>)
    requires |all| == |good|
  {
    && |from| == |ws| && Climbs(from, |all|)
    && (forall j :: 0 <= j < |from| ==> good[from[j]] && ws[j] == all[from[j]])
    && (forall i: nat :: i < |all| && good[i] ==> i in from)
  }

  lemma {:induction false} GoodPositions(all: seq<Window>, good: seq<bool>) returns (from: seq<nat>)
    requires |all| == |good|
    ensures Picks(all, good, KeepGood(all, good), from)
  {
    from := [];
    if all != [] {
      var n := |all| - 1;
      from := GoodPositions(all[..n], good[..n]);
      PicksNext(all, good, KeepGood(all[..n], good[..n]), from);
      if good[n] {
        from := from + [n];
      }
    }
  }

  lemma ClimbsNext(from: seq<nat>, k: nat)
    requires Climbs(from, k)
    ensures Climbs(from, k + 1) && Climbs(from + [k], k + 1)
  {
  }

  lemma PicksNext(all: seq<Window>, good: seq<bool>, ws: seq<Window>, from: seq<nat>)
    requires |all| == |good| && all != [] && Picks(all[..|all| - 1], good[..|all| - 1], ws, from)
    ensures var n := |all| - 1;
      if good[n] then Picks(all, good, ws + [all[n]], from + [n]) else Picks(all, good, ws + [], from)
  {
    var n := |all| - 1;
    ClimbsNext(from, n);
    assert forall j :: 0 <= j < |from| ==> good[..n][from[j]] == good[from[j]] && all[..n][from[j]] == all[from[j]];
    forall i: nat | i < n && good[i]
      ensures i in from && i in from + [n]
    {
      assert good[..n][i];
    }
    assert ws + [] == ws;
    assert (from + [n])[|from|] == n;
  }

  /** The clipped windows of the first `k` candidates, and which of them are proper. */
  ghost predicate AllWindows(speeds: seq<real>, d: seq<real>, cs: seq<Candidate>, tol: real, all: seq<Window>,
                             good: seq<bool>)
    requires OnTrack(cs, speeds)
  {
    && |all| == |good| <= |cs|
    && forall i :: 0 <= i < |all| ==> all[i] == Clipped(speeds, cs, i, tol) && good[i] == Proper(all[i], d)
  }

  lemma {:induction false} WindowsAreKept(speeds: seq<real>, d: seq<real>, cs: seq<Candidate>, tol: real,
                                          all: seq<Window>, good: seq<bool>)
    requires |speeds| == |d| && OnTrack(cs, d) && AllWindows(speeds, d, cs, tol, all, good)
    ensures Windows(speeds, d, cs, tol, |all|) == KeepGood(all, good)
  {
    if all != [] {
      var n := |all| - 1;
      WindowsAreKept(speeds, d, cs, tol, all[..n], good[..n]);
      WindowsNext(speeds, d, cs, tol, n);
    }
  }

  lemma ProperIff(ordered: seq<Frame>, speeds: seq<real>, cs: seq<Candidate>, i: nat, tol: real)
    requires |speeds| == |ordered| && OnTrack(cs, speeds) && i < |cs|
    ensures Proper(Clipped(speeds, cs, i, tol), Distances(ordered)) <==> MakesCorner(ordered, speeds, cs, i, tol)
  {
    var w := Clipped(speeds, cs, i, tol);
    WindowIff(speeds, cs, i, tol, w.entry, w.exit);
    if MakesCorner(ordered, speeds, cs, i, tol) {
      var entry: nat, exit: nat :|
        IsWindow(speeds, cs, i, tol, entry, exit) && StrictlyOrdered(ordered, entry, cs[i].apex, exit);
      WindowIff(speeds, cs, i, tol, entry, exit);
    }
  }

  lemma RecordIs(key: LapKey, ordered: seq<Frame>, speeds: seq<real>, cs: seq<Candidate>, i: nat, tol: real,
                 number: nat)
    requires |speeds| == |ordered| && OnTrack(cs, speeds) && i < |cs|
    requires Proper(Clipped(speeds, cs, i, tol), Distances(ordered))
    ensures var corner := CornerRecord(key, ordered, Clipped(speeds, cs, i, tol), number);
      IsRecord(key, ordered, speeds, cs, i, tol, corner) && corner.number == number
  {
    var w := Clipped(speeds, cs, i, tol);
    WindowIff(speeds, cs, i, tol, w.entry, w.exit);
    assert StrictlyOrdered(ordered, w.entry, cs[i].apex, w.exit);
  }

  /** `from[j]` is the candidate of record `j`. */
  ghost predicate RecordsOf(key: LapKey, ordered: seq<Frame>, speeds: seq<real>, cs: seq<Candidate>, tol: real,
                            corners: seq<Corner>, from: seq<nat>)
    requires OnTrack(cs, speeds)
  {
    && |from| == |corners|
    && (forall j :: 0 <= j < |from| ==>
          from[j] < |cs| && corners[j].number == j + 1
          && IsRecord(key, ordered, speeds, cs, from[j], tol, corners[j]))
    && (forall i, j :: 0 <= i < j < |from| ==> from[i] < from[j])
    && (forall i: nat :: i < |cs| ==> (i in from <==> MakesCorner(ordered, speeds, cs, i, tol)))
  }

  lemma WindowRecords(key: LapKey, ordered: seq<Frame>, speeds: seq<real>, cs: seq<Candidate>, tol: real,
                      all: seq<Window>, good: seq<bool>, from: seq<nat>)
    requires |speeds| == |ordered| && OnTrack(cs, speeds)
    requires AllWindows(speeds, Distances(ordered), cs, tol, all, good) && |all| == |cs|
    requires Picks(all, good, Windows(speeds, Distances(ordered), cs, tol, |cs|), from)
    ensures RecordsOf(key, ordered, speeds, cs, tol, RecordsUpTo(key, ordered, speeds, cs, tol, |cs|), from)
  {
    forall i: nat | i < |cs|
      ensures i in from <==> MakesCorner(ordered, speeds, cs, i, tol)
    {
      ProperIff(ordered, speeds, cs, i, tol);
    }
    var corners := RecordsUpTo(key, ordered, speeds, cs, tol, |cs|);
    forall j: nat | j < |from|
      ensures corners[j].number == j + 1 && IsRecord(key, ordered, speeds, cs, from[j], tol, corners[j])
    {
      RecordAt(key, ordered, speeds, cs, tol, from[j], j);
    }
  }

  lemma RecordAt(key: LapKey, ordered: seq<Frame>, speeds: seq<real>, cs: seq<Candidate>, tol: real, i: nat, j: nat)
    requires |speeds| == |ordered| && OnTrack(cs, speeds) && i < |cs|
    requires var ws := Windows(speeds, Distances(ordered), cs, tol, |cs|);
      j < |ws| && ws[j] == Clipped(speeds, cs, i, tol)
    ensures var corner := RecordsUpTo(key, ordered, speeds, cs, tol, |cs|)[j];
      corner.number == j + 1 && IsRecord(key, ordered, speeds, cs, i, tol, corner)
  {
    var w, corner := Clipped(speeds, cs, i, tol), RecordsUpTo(key, ordered, speeds, cs, tol, |cs|)[j];
    assert corner == CornerRecord(key, ordered, w, j + 1);
    RecordIs(key, ordered, speeds, cs, i, tol, j + 1);
  }

  lemma LapRecords(key: LapKey, ordered: seq<Frame>, speeds: seq<real>, cs: seq<Candidate>, tol: real)
    returns (from: seq<nat>)
    requires |speeds| == |ordered| && OnTrack(cs, speeds)
    ensures RecordsOf(key, ordered, speeds, cs, tol, RecordsUpTo(key, ordered, speeds, cs, tol, |cs|), from)
  {
    var d := Distances(ordered);
    var all := seq(|cs|, i requires 0 <= i < |cs| => Clipped(speeds, cs, i, tol));
    var good := seq(|cs|, i requires 0 <= i < |cs| => Proper(Clipped(speeds, cs, i, tol), d));
    WindowsAreKept(speeds, d, cs, tol, all, good);
    from := GoodPositions(all, good);
    WindowRecords(key, ordered, speeds, cs, tol, all, good, from);
  }

  /** The selected candidates of a lap. */
  function LapCandidates(frames: seq<Frame>, p: Params): (cs: seq<Candidate>)
    requires p.Valid()
    ensures OnTrack(cs, Speeds(Ordered(frames)))
  {
    var speeds, distances := Speeds(Ordered(frames)), Distances(Ordered(frames));
    CandidatesFacts(speeds, p);
    Select(Candidates(speeds, p), distances, p.separation)
  }

  /** The records of a lap of at least three frames: one, in order and numbered from one, for
      each selected candidate whose clipped window is strictly ordered, and no other. */
  lemma CornersAre(key: LapKey, frames: seq<Frame>, p: Params) returns (from: seq<nat>)
    requires p.Valid()
    ensures |frames| < 3 ==> Records(key, Ordered(frames), LapWindows(frames, p)) == []
    ensures |frames| >= 3 ==>
      RecordsOf(key, Ordered(frames), Speeds(Ordered(frames)), LapCandidates(frames, p), p.tolerance,
                Records(key, Ordered(frames), LapWindows(frames, p)), from)
  {
    var ordered := Ordered(frames);
    var speeds := Speeds(ordered);
    SortPermutes(frames, NotFarther);
    from := [];
    if |frames| >= 3 {
      var cs := LapCandidates(frames, p);
      from := LapRecords(key, ordered, speeds, cs, p.tolerance);
    }
  }

  // ---- the order of the frames ------------------------------------------------------------

  /** The frames at one distance, in order. */
  function AtDistance(frames: seq<Frame>, d: real): seq<Frame> {
    if frames == [] then []
    else
      var last := frames[|frames| - 1];
      AtDistance(frames[..|frames| - 1], d) + if last.distance == d then [last] else []
  }

  lemma {:induction false} InsertStays(frames: seq<Frame>, f: Frame, d: real)
    ensures AtDistance(Insert(frames, f, NotFarther), d) == AtDistance(frames + [f], d)
  {
    assert (frames + [f])[..|frames|] == frames;
    if frames != [] && !NotFarther(frames[|frames| - 1], f) {
      var front, last := frames[..|frames| - 1], frames[|frames| - 1];
      InsertStays(front, f, d);
      assert (front + [f])[..|front|] == front;
      var grown := Insert(front, f, NotFarther);
      assert (grown + [last])[..|grown|] == grown;
    }
  }

  /** The analysis sees the lap's own frames, by distance, and frames at one distance in the
      order they came in. */
  lemma {:induction false} OrderedIs(frames: seq<Frame>, d: real)
    ensures multiset(Ordered(frames)) == multiset(frames)
    ensures forall i, j :: 0 <= i < j < |Ordered(frames)| ==> Ordered(frames)[i].distance <= Ordered(frames)[j].distance
    ensures AtDistance(Ordered(frames), d) == AtDistance(frames, d)
    ensures forall i :: 0 <= i < |Ordered(frames)| ==>
      && Speeds(Ordered(frames))[i] == Ordered(frames)[i].speed
      && Distances(Ordered(frames))[i] == Ordered(frames)[i].distance
  {
    SortPermutes(frames, NotFarther);
    SortSorts(frames, NotFarther);
    assert forall i, j :: 0 <= i < j < |Ordered(frames)| ==> NotFarther(Ordered(frames)[i], Ordered(frames)[j]);
    OrderedStable(frames, d);
  }

  lemma {:induction false} OrderedStable(frames: seq<Frame>, d: real)
    ensures AtDistance(Ordered(frames), d) == AtDistance(frames, d)
  {
    if frames != [] {
      var front, f := frames[..|frames| - 1], frames[|frames| - 1];
      OrderedStable(front, d);
      var sorted := Ordered(front);
      InsertStays(sorted, f, d);
      assert (sorted + [f])[..|sorted|] == sorted;
    }
  }
}
