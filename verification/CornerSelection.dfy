/** The greedy separation filter: the unique kernel of the "too close" relation, and the
    chain that the emitted corners form. */
module CornerSelection {
  import opened Sorting
  import opened CornerAnalysis

  // ---- the kernel -----------------------------------------------------------------------

  /** Nothing kept earlier in the ranking is close to candidate `i`. */
  ghost predicate NoneClose(ranked: seq<Candidate>, keep: seq<bool>, d: seq<real>, sep: real, i: nat)
    requires OnTrack(ranked, d) && |keep| == |ranked| && i < |ranked|
  {
    forall j :: 0 <= j < i && keep[j] ==> !Close(ranked[i], ranked[j], d, sep)
  }

  /** Keep exactly what is not close to anything kept earlier in the ranking. */
  ghost predicate IsKernel(ranked: seq<Candidate>, keep: seq<bool>, d: seq<real>, sep: real)
    requires OnTrack(ranked, d)
  {
    && |keep| == |ranked|
    && forall i {:trigger NoneClose(ranked, keep, d, sep, i)} :: 0 <= i < |ranked| ==>
         (keep[i] <==> NoneClose(ranked, keep, d, sep, i))
  }

  function Filter(ranked: seq<Candidate>, keep: seq<bool>): (r: seq<Candidate>)
    requires |keep| == |ranked|
    ensures forall c :: c in r ==> c in ranked
  {
    if ranked == [] then []
    else
      var n := |ranked| - 1;
      Filter(ranked[..n], keep[..n]) + if keep[n] then [ranked[n]] else []
  }

  lemma {:induction false} FilterMembers(ranked: seq<Candidate>, keep: seq<bool>, c: Candidate)
    requires |keep| == |ranked|
    ensures c in Filter(ranked, keep) <==> exists j :: 0 <= j < |ranked| && keep[j] && ranked[j] == c
  {
    if ranked != [] {
      var n := |ranked| - 1;
      FilterMembers(ranked[..n], keep[..n], c);
      if c in Filter(ranked[..n], keep[..n]) {
        var j :| 0 <= j < n && keep[..n][j] && ranked[..n][j] == c;
        assert keep[j] && ranked[j] == c;
      }
      if j :| 0 <= j < |ranked| && keep[j] && ranked[j] == c {
        assert j < n ==> keep[..n][j] && ranked[..n][j] == c;
      }
    }
  }

  /** Kernels are built up front to back. */
  lemma PrefixKernel(ranked: seq<Candidate>, keep: seq<bool>, d: seq<real>, sep: real, n: nat)
    requires OnTrack(ranked, d) && |keep| == |ranked| && n < |ranked|
    ensures IsKernel(ranked[..n], keep[..n], d, sep)
       <==> forall i {:trigger NoneClose(ranked, keep, d, sep, i)} :: 0 <= i < n ==>
              (keep[i] <==> NoneClose(ranked, keep, d, sep, i))
  {
    forall i | 0 <= i < n
      ensures NoneClose(ranked[..n], keep[..n], d, sep, i) <==> NoneClose(ranked, keep, d, sep, i)
    {
    }
  }

  /** Greedy selection computes the kernel. */
  lemma {:induction false} KernelIsGreedy(ranked: seq<Candidate>, keep: seq<bool>, d: seq<real>, sep: real)
    requires OnTrack(ranked, d) && IsKernel(ranked, keep, d, sep)
    ensures Filter(ranked, keep) == Greedy(ranked, d, sep)
  {
    if ranked != [] {
      var n := |ranked| - 1;
      var front, kept := ranked[..n], keep[..n];
      PrefixKernel(ranked, keep, d, sep, n);
      KernelIsGreedy(front, kept, d, sep);
      LastKept(ranked, keep, d, sep);
    }
  }

  lemma LastKept(ranked: seq<Candidate>, keep: seq<bool>, d: seq<real>, sep: real)
    requires ranked != [] && OnTrack(ranked, d) && IsKernel(ranked, keep, d, sep)
    requires Filter(ranked[..|ranked| - 1], keep[..|ranked| - 1]) == Greedy(ranked[..|ranked| - 1], d, sep)
    ensures var n := |ranked| - 1; keep[n] <==> !TooClose(ranked[n], Greedy(ranked[..n], d, sep), d, sep)
  {
    var n := |ranked| - 1;
    var kept := Greedy(ranked[..n], d, sep);
    assert keep[n] <==> NoneClose(ranked, keep, d, sep, n);
    if TooClose(ranked[n], kept, d, sep) {
      var i :| 0 <= i < |kept| && Close(ranked[n], kept[i], d, sep);
      FilterMembers(ranked[..n], keep[..n], kept[i]);
      assert kept[i] in kept;
      var j :| 0 <= j < n && keep[..n][j] && ranked[..n][j] == kept[i];
      assert keep[j] && Close(ranked[n], ranked[j], d, sep);
    } else {
      forall j | 0 <= j < n && keep[j]
        ensures !Close(ranked[n], ranked[j], d, sep)
      {
        FilterMembers(ranked[..n], keep[..n], ranked[j]);
        assert keep[..n][j] && ranked[..n][j] == ranked[j];
        var i :| 0 <= i < |kept| && kept[i] == ranked[j];
        assert !Close(ranked[n], kept[i], d, sep);
      }
    }
  }

  lemma KernelStep(ranked: seq<Candidate>, a: seq<bool>, b: seq<bool>, d: seq<real>, sep: real, i: nat)
    requires OnTrack(ranked, d) && IsKernel(ranked, a, d, sep) && IsKernel(ranked, b, d, sep)
    requires i < |ranked| && a[..i] == b[..i]
    ensures a[i] == b[i]
  {
    assert forall j :: 0 <= j < i ==> a[j] == a[..i][j] == b[..i][j] == b[j];
    assert NoneClose(ranked, a, d, sep, i) <==> NoneClose(ranked, b, d, sep, i);
  }

  lemma {:induction false} KernelsAgree(
      ranked: seq<Candidate>, a: seq<bool>, b: seq<bool>, d: seq<real>, sep: real, k: nat)
    requires OnTrack(ranked, d) && IsKernel(ranked, a, d, sep) && IsKernel(ranked, b, d, sep) && k <= |ranked|
    ensures a[..k] == b[..k]
  {
    if k > 0 {
      KernelsAgree(ranked, a, b, d, sep, k - 1);
      KernelStep(ranked, a, b, d, sep, k - 1);
      assert a[..k] == a[..k - 1] + [a[k - 1]] && b[..k] == b[..k - 1] + [b[k - 1]];
    }
  }

  /** There is exactly one kernel. */
  lemma {:induction false} KernelUnique(ranked: seq<Candidate>, a: seq<bool>, b: seq<bool>, d: seq<real>, sep: real)
    requires OnTrack(ranked, d) && IsKernel(ranked, a, d, sep) && IsKernel(ranked, b, d, sep)
    ensures a == b
  {
    KernelsAgree(ranked, a, b, d, sep, |ranked|);
    assert a[..|ranked|] == a && b[..|ranked|] == b;
  }

  lemma {:induction false} KernelExists(ranked: seq<Candidate>, d: seq<real>, sep: real) returns (keep: seq<bool>)
    requires OnTrack(ranked, d)
    ensures IsKernel(ranked, keep, d, sep)
  {
    if ranked == [] {
      keep := [];
    } else {
      var n := |ranked| - 1;
      var front := KernelExists(ranked[..n], d, sep);
      keep := front + [NoneClose(ranked, front + [false], d, sep, n)];
      assert keep[..n] == front;
      PrefixKernel(ranked, keep, d, sep, n);
    }
  }

  // ---- what the selection promises ------------------------------------------------------

  /** The two candidates are far enough apart. */
  function Apart(d: seq<real>, sep: real): (Candidate, Candidate) -> bool {
    (a: Candidate, b: Candidate) => a.apex < |d| && b.apex < |d| ==> !Close(a, b, d, sep)
  }

  lemma {:induction false} GreedyApart(ranked: seq<Candidate>, d: seq<real>, sep: real)
    requires OnTrack(ranked, d)
    ensures Sorted(Greedy(ranked, d, sep), Apart(d, sep))
  {
    if ranked != [] {
      GreedyApart(ranked[..|ranked| - 1], d, sep);
      var c, kept := ranked[|ranked| - 1], Greedy(ranked[..|ranked| - 1], d, sep);
      if !TooClose(c, kept, d, sep) {
        assert forall i :: 0 <= i < |kept| ==> !Close(c, kept[i], d, sep) && !Close(kept[i], c, d, sep);
      }
    }
  }

  lemma {:induction false} GreedySorted(
      ranked: seq<Candidate>, d: seq<real>, sep: real, le: (Candidate, Candidate) -> bool)
    requires OnTrack(ranked, d) && Sorted(ranked, le)
    ensures Sorted(Greedy(ranked, d, sep), le)
  {
    if ranked != [] {
      var n := |ranked| - 1;
      GreedySorted(ranked[..n], d, sep, le);
      var kept := Greedy(ranked[..n], d, sep);
      forall i | 0 <= i < |kept|
        ensures le(kept[i], ranked[n])
      {
        assert kept[i] in ranked[..n];
      }
    }
  }

  lemma ApartPair(ranked: seq<Candidate>, d: seq<real>, sep: real, i: nat, j: nat)
    requires OnTrack(ranked, d) && Sorted(ranked, Apart(d, sep)) && i < j < |ranked|
    ensures !Close(ranked[j], ranked[i], d, sep)
  {
    assert Apart(d, sep)(ranked[i], ranked[j]);
  }

  lemma LastApart(ranked: seq<Candidate>, d: seq<real>, sep: real)
    requires OnTrack(ranked, d) && Sorted(ranked, Apart(d, sep)) && ranked != []
    ensures !TooClose(ranked[|ranked| - 1], ranked[..|ranked| - 1], d, sep)
  {
    var n := |ranked| - 1;
    forall i | 0 <= i < n
      ensures !Close(ranked[n], ranked[..n][i], d, sep)
    {
      ApartPair(ranked, d, sep, i, n);
    }
  }

  lemma {:induction false} GreedyOfApart(ranked: seq<Candidate>, d: seq<real>, sep: real)
    requires OnTrack(ranked, d) && Sorted(ranked, Apart(d, sep))
    ensures Greedy(ranked, d, sep) == ranked
  {
    if ranked != [] {
      var n := |ranked| - 1;
      SortedPrefix(ranked, n, Apart(d, sep));
      GreedyOfApart(ranked[..n], d, sep);
      LastApart(ranked, d, sep);
    }
  }

  /** Selected apexes are pairwise at least the separation apart. */
  lemma SelectedApart(cs: seq<Candidate>, d: seq<real>, sep: real)
    requires OnTrack(cs, d)
    ensures Sorted(Select(cs, d, sep), Apart(d, sep))
    ensures var r := Select(cs, d, sep);
      forall i, j :: 0 <= i < j < |r| ==> FarApart(d[r[i].apex], d[r[j].apex], sep)
  {
    SortOnTrack(cs, MoreProminent, d);
    var kept := Greedy(SortBy(cs, MoreProminent), d, sep);
    GreedyApart(SortBy(cs, MoreProminent), d, sep);
    SortPermutes(kept, ApexBefore);
    PairwisePermutes(kept, SortBy(kept, ApexBefore), Apart(d, sep));
    var r := Select(cs, d, sep);
    forall i, j | 0 <= i < j < |r|
      ensures FarApart(d[r[i].apex], d[r[j].apex], sep)
    {
      assert Apart(d, sep)(r[i], r[j]);
    }
  }

  /** At least the separation lies between two distances. */
  predicate FarApart(x: real, y: real, sep: real) {
    x - y >= sep || y - x >= sep
  }

  ghost predicate Dominated(c: Candidate, selected: seq<Candidate>, d: seq<real>, sep: real)
    requires c.apex < |d| && OnTrack(selected, d)
  {
    exists i :: 0 <= i < |selected| && Close(c, selected[i], d, sep) && selected[i].prominence >= c.prominence
  }

  lemma {:induction false} GreedyDominates(ranked: seq<Candidate>, d: seq<real>, sep: real, k: nat)
    requires OnTrack(ranked, d) && Sorted(ranked, MoreProminent) && k < |ranked|
    ensures ranked[k] in Greedy(ranked, d, sep) || Dominated(ranked[k], Greedy(ranked, d, sep), d, sep)
  {
    var n := |ranked| - 1;
    var kept := Greedy(ranked[..n], d, sep);
    if k < n {
      GreedyDominates(ranked[..n], d, sep, k);
      if Dominated(ranked[k], kept, d, sep) {
        var i :| 0 <= i < |kept| && Close(ranked[k], kept[i], d, sep) && kept[i].prominence >= ranked[k].prominence;
        assert Greedy(ranked, d, sep)[i] == kept[i];
      }
    } else if TooClose(ranked[n], kept, d, sep) {
      var i :| 0 <= i < |kept| && Close(ranked[n], kept[i], d, sep);
      assert kept[i] in ranked[..n];
      var j :| 0 <= j < n && ranked[..n][j] == kept[i];
      assert MoreProminent(ranked[j], ranked[n]);
    }
  }

  lemma DominatedPermutes(c: Candidate, kept: seq<Candidate>, selected: seq<Candidate>, d: seq<real>, sep: real)
    requires c.apex < |d| && OnTrack(kept, d) && OnTrack(selected, d)
    requires multiset(kept) == multiset(selected) && Dominated(c, kept, d, sep)
    ensures Dominated(c, selected, d, sep)
  {
    SameMembers(kept, selected);
    var i :| 0 <= i < |kept| && Close(c, kept[i], d, sep) && kept[i].prominence >= c.prominence;
    assert kept[i] in selected;
    var j :| 0 <= j < |selected| && selected[j] == kept[i];
  }

  /** Only candidates are selected, and each candidate that is not lies closer than the
      separation to a selected one that is at least as prominent. */
  lemma SelectDominates(cs: seq<Candidate>, d: seq<real>, sep: real, c: Candidate)
    requires OnTrack(cs, d)
    ensures c in Select(cs, d, sep) ==> c in cs
    ensures c in cs ==> c.apex < |d| && (c in Select(cs, d, sep) || Dominated(c, Select(cs, d, sep), d, sep))
  {
    SortOnTrack(cs, MoreProminent, d);
    var ranked := SortBy(cs, MoreProminent);
    var kept := Greedy(ranked, d, sep);
    var selected := SortBy(kept, ApexBefore);
    SortPermutes(cs, MoreProminent);
    SameMembers(ranked, cs);
    SortPermutes(kept, ApexBefore);
    SameMembers(selected, kept);
    SortSorts(cs, MoreProminent);
    if c in cs {
      var k :| 0 <= k < |ranked| && ranked[k] == c;
      GreedyDominates(ranked, d, sep, k);
      SortOnTrack(kept, ApexBefore, d);
      if Dominated(c, kept, d, sep) {
        DominatedPermutes(c, kept, selected, d, sep);
      }
    }
  }

  /** `a` is served before `b`: more prominent, or as prominent and earlier on the lap. */
  predicate Stronger(a: Candidate, b: Candidate) {
    a.prominence > b.prominence || (a.prominence == b.prominence && a.apex < b.apex)
  }

  /** Greedy decides each candidate by what it has kept so far, and never changes its mind. */
  lemma {:induction false} GreedyAt(ranked: seq<Candidate>, d: seq<real>, sep: real, k: nat, j: nat)
    requires OnTrack(ranked, d) && Sorted(ranked, DifferentApex) && k < |ranked| && j < |ranked|
    ensures ranked[k] in Greedy(ranked, d, sep) <==> !TooClose(ranked[k], Greedy(ranked[..k], d, sep), d, sep)
    ensures j < k ==> (ranked[j] in Greedy(ranked[..k], d, sep) <==> ranked[j] in Greedy(ranked, d, sep))
  {
    var n := |ranked| - 1;
    var front, kept := ranked[..n], Greedy(ranked[..n], d, sep);
    assert forall i :: 0 <= i < n ==> DifferentApex(front[i], ranked[n]);
    assert ranked[n] !in kept;
    SortedPrefix(ranked, n, DifferentApex);
    if k < n {
      GreedyAt(front, d, sep, k, if j < n then j else k);
      assert front[..k] == ranked[..k] && front[k] == ranked[k] && ranked[k] != ranked[n];
      assert j < k ==> front[j] == ranked[j] && ranked[j] != ranked[n];
    } else {
      assert j < k ==> ranked[j] != ranked[n];
    }
  }

  lemma RankedStronger(cs: seq<Candidate>, i: nat, j: nat)
    requires Ascending(cs) && |SortBy(cs, MoreProminent)| == |cs| && i < |cs| && j < |cs|
    ensures var ranked := SortBy(cs, MoreProminent); Stronger(ranked[i], ranked[j]) <==> i < j
  {
    var ranked := SortBy(cs, MoreProminent);
    RankedDifferent(cs);
    SortStable(cs, MoreProminent, ApexBefore);
    SortSorts(cs, MoreProminent);
    assert i < j ==> MoreProminent(ranked[i], ranked[j]) && DifferentApex(ranked[i], ranked[j]);
    assert j < i ==> MoreProminent(ranked[j], ranked[i]) && DifferentApex(ranked[j], ranked[i]);
  }

  lemma RankedDifferent(cs: seq<Candidate>)
    requires Ascending(cs)
    ensures Sorted(SortBy(cs, MoreProminent), DifferentApex)
  {
    assert Sorted(cs, DifferentApex);
    SortPermutes(cs, MoreProminent);
    PairwisePermutes(cs, SortBy(cs, MoreProminent), DifferentApex);
  }

  lemma SelectMembers(cs: seq<Candidate>, d: seq<real>, sep: real, c: Candidate)
    requires OnTrack(cs, d)
    ensures OnTrack(SortBy(cs, MoreProminent), d)
    ensures c in Select(cs, d, sep) <==> c in Greedy(SortBy(cs, MoreProminent), d, sep)
  {
    SortOnTrack(cs, MoreProminent, d);
    var kept := Greedy(SortBy(cs, MoreProminent), d, sep);
    SortPermutes(kept, ApexBefore);
    SameMembers(kept, SortBy(kept, ApexBefore));
  }

  /** `s` is selected, was served before `c`, and lies closer to it than the separation. */
  ghost predicate Blocks(cs: seq<Candidate>, d: seq<real>, sep: real, s: Candidate, c: Candidate)
    requires OnTrack(cs, d)
  {
    && s in Select(cs, d, sep) && Stronger(s, c) && s.apex < |d| && c.apex < |d|
    && !FarApart(d[s.apex], d[c.apex], sep)
  }

  /** What greedy has kept when it comes to candidate `k`: the selected ones served before. */
  lemma KeptBefore(cs: seq<Candidate>, d: seq<real>, sep: real, j: nat, k: nat)
    requires OnTrack(cs, d) && Ascending(cs) && OnTrack(SortBy(cs, MoreProminent), d)
    requires j < |SortBy(cs, MoreProminent)| && k < |SortBy(cs, MoreProminent)|
    ensures var ranked := SortBy(cs, MoreProminent);
      ranked[j] in Greedy(ranked[..k], d, sep)
      <==> ranked[j] in Select(cs, d, sep) && Stronger(ranked[j], ranked[k])
  {
    var ranked := SortBy(cs, MoreProminent);
    SortPermutes(cs, MoreProminent);
    RankedDifferent(cs);
    SelectMembers(cs, d, sep, ranked[j]);
    RankedStronger(cs, j, k);
    GreedyAt(ranked, d, sep, k, j);
    if ranked[j] in ranked[..k] {
      var i :| 0 <= i < k && ranked[..k][i] == ranked[j];
      assert DifferentApex(ranked[i], ranked[j]) || j <= i;
    }
  }

  lemma CloseIsBlocked(cs: seq<Candidate>, d: seq<real>, sep: real, k: nat) returns (s: Candidate)
    requires OnTrack(cs, d) && Ascending(cs) && k < |SortBy(cs, MoreProminent)| && OnTrack(SortBy(cs, MoreProminent), d)
    requires var ranked := SortBy(cs, MoreProminent);
      TooClose(ranked[k], Greedy(ranked[..k], d, sep), d, sep)
    ensures Blocks(cs, d, sep, s, SortBy(cs, MoreProminent)[k])
  {
    var ranked := SortBy(cs, MoreProminent);
    var kept := Greedy(ranked[..k], d, sep);
    var i :| 0 <= i < |kept| && Close(ranked[k], kept[i], d, sep);
    s := kept[i];
    assert s in ranked[..k];
    var j :| 0 <= j < k && ranked[..k][j] == s;
    KeptBefore(cs, d, sep, j, k);
  }

  lemma BlockedIsClose(cs: seq<Candidate>, d: seq<real>, sep: real, k: nat, s: Candidate)
    requires OnTrack(cs, d) && Ascending(cs) && k < |SortBy(cs, MoreProminent)| && OnTrack(SortBy(cs, MoreProminent), d)
    requires Blocks(cs, d, sep, s, SortBy(cs, MoreProminent)[k])
    ensures var ranked := SortBy(cs, MoreProminent);
      TooClose(ranked[k], Greedy(ranked[..k], d, sep), d, sep)
  {
    var ranked := SortBy(cs, MoreProminent);
    SelectMembers(cs, d, sep, s);
    var j :| 0 <= j < |ranked| && ranked[j] == s;
    KeptBefore(cs, d, sep, j, k);
    var kept := Greedy(ranked[..k], d, sep);
    var i :| 0 <= i < |kept| && kept[i] == s;
    assert Close(ranked[k], kept[i], d, sep);
  }

  /** The selection in its own terms: a candidate is selected exactly when no selected candidate
      that is served before it, more prominent or as prominent and earlier, is too close. */
  lemma SelectIff(cs: seq<Candidate>, d: seq<real>, sep: real, c: Candidate)
    requires OnTrack(cs, d) && Ascending(cs) && c in cs
    ensures c in Select(cs, d, sep) <==> !exists s :: Blocks(cs, d, sep, s, c)
  {
    var ranked := SortBy(cs, MoreProminent);
    SortPermutes(cs, MoreProminent);
    SameMembers(ranked, cs);
    SelectMembers(cs, d, sep, c);
    RankedDifferent(cs);
    var k :| 0 <= k < |ranked| && ranked[k] == c;
    GreedyAt(ranked, d, sep, k, k);
    if TooClose(c, Greedy(ranked[..k], d, sep), d, sep) {
      var s := CloseIsBlocked(cs, d, sep, k);
    } else if s :| Blocks(cs, d, sep, s, c) {
      BlockedIsClose(cs, d, sep, k, s);
    }
  }

  /** Candidates in order of apex, and of falling prominence at equal apexes: a total order. */
  predicate ApexThenProminence(a: Candidate, b: Candidate) {
    a.apex < b.apex || (a.apex == b.apex && a.prominence >= b.prominence)
  }

  lemma SelectSorted(kept: seq<Candidate>)
    requires Sorted(kept, MoreProminent)
    ensures Sorted(SortBy(kept, ApexBefore), ApexThenProminence)
  {
    SortStable(kept, ApexBefore, MoreProminent);
  }

  lemma SelectionOrder(cs: seq<Candidate>, d: seq<real>, sep: real)
    requires OnTrack(cs, d)
    ensures Sorted(Select(cs, d, sep), ApexThenProminence)
  {
    SortOnTrack(cs, MoreProminent, d);
    SortSorts(cs, MoreProminent);
    GreedySorted(SortBy(cs, MoreProminent), d, sep, MoreProminent);
    SelectSorted(Greedy(SortBy(cs, MoreProminent), d, sep));
  }

  /** A list already in selection order whose apexes are apart is its own selection. */
  lemma ApartIsSelected(selected: seq<Candidate>, d: seq<real>, sep: real)
    requires OnTrack(selected, d) && Sorted(selected, ApexThenProminence) && Sorted(selected, Apart(d, sep))
    ensures Select(selected, d, sep) == selected
  {
    var ranked := SortBy(selected, MoreProminent);
    SortOnTrack(selected, MoreProminent, d);
    SortPermutes(selected, MoreProminent);
    SortSorts(selected, MoreProminent);
    PairwisePermutes(selected, ranked, Apart(d, sep));
    GreedyOfApart(ranked, d, sep);
    SelectSorted(ranked);
    SortPermutes(ranked, ApexBefore);
    SortedUnique(SortBy(ranked, ApexBefore), selected, ApexThenProminence);
  }

  /** Selecting again changes nothing. */
  lemma SelectIdempotent(cs: seq<Candidate>, d: seq<real>, sep: real)
    requires OnTrack(cs, d)
    ensures Select(Select(cs, d, sep), d, sep) == Select(cs, d, sep)
  {
    SelectionOrder(cs, d, sep);
    SelectedApart(cs, d, sep);
    ApartIsSelected(Select(cs, d, sep), d, sep);
  }

  // ---- the chain of corners -------------------------------------------------------------

  predicate DifferentApex(a: Candidate, b: Candidate) {
    a.apex != b.apex
  }

  /** Selection keeps apexes strictly increasing. */
  lemma SelectAscends(cs: seq<Candidate>, d: seq<real>, sep: real)
    requires OnTrack(cs, d) && Ascending(cs)
    ensures Ascending(Select(cs, d, sep))
  {
    SortOnTrack(cs, MoreProminent, d);
    var ranked := SortBy(cs, MoreProminent);
    var kept := Greedy(ranked, d, sep);
    var selected := SortBy(kept, ApexBefore);
    assert Sorted(cs, DifferentApex);
    SortPermutes(cs, MoreProminent);
    PairwisePermutes(cs, ranked, DifferentApex);
    GreedySorted(ranked, d, sep, DifferentApex);
    SortPermutes(kept, ApexBefore);
    PairwisePermutes(kept, selected, DifferentApex);
    SortSorts(kept, ApexBefore);
    forall i, j | 0 <= i < j < |selected|
      ensures selected[i].apex < selected[j].apex
    {
      assert DifferentApex(selected[i], selected[j]) && ApexBefore(selected[i], selected[j]);
    }
  }

  /** No window of the first `k` candidates ends behind this sample: the midpoint to the next
      candidate, or the end of the signal. */
  function Bound(cs: seq<Candidate>, n: nat, k: nat): nat
    requires k <= |cs|
  {
    if k == 0 then 0 else if k < |cs| then (cs[k - 1].apex + cs[k].apex) / 2 else n
  }

  /** Each window ends before every later one begins. */
  ghost predicate Chain(ws: seq<Window>) {
    forall i, j :: 0 <= i < j < |ws| ==> ws[i].exit <= ws[j].entry
  }

  ghost predicate ExitBy(ws: seq<Window>, bound: int) {
    forall i :: 0 <= i < |ws| ==> ws[i].exit <= bound
  }

  lemma ChainAppend(ws: seq<Window>, w: Window, low: int, high: int)
    requires Chain(ws) && ExitBy(ws, low) && low <= w.entry && low <= high && w.exit <= high
    ensures Chain(ws + [w]) && ExitBy(ws + [w], high) && Chain(ws + []) && ExitBy(ws + [], high)
  {
    assert ws + [] == ws;
  }

  /** A window is clipped at the midpoints to its neighbours. */
  lemma ClippedInside(speeds: seq<real>, cs: seq<Candidate>, k: nat, tol: real)
    requires 0 < k <= |cs| && OnTrack(cs, speeds)
    ensures Bound(cs, |speeds|, k - 1) <= Clipped(speeds, cs, k - 1, tol).entry
    ensures Clipped(speeds, cs, k - 1, tol).exit <= Bound(cs, |speeds|, k)
  {
  }

  lemma BoundsRise(speeds: seq<real>, cs: seq<Candidate>, k: nat)
    requires Ascending(cs) && OnTrack(cs, speeds) && 0 < k <= |cs|
    ensures Bound(cs, |speeds|, k - 1) <= Bound(cs, |speeds|, k)
  {
    if 1 < k < |cs| {
      assert cs[k - 2].apex < cs[k - 1].apex < cs[k].apex;
    }
  }

  lemma {:induction false} WindowsChain(speeds: seq<real>, d: seq<real>, cs: seq<Candidate>, tol: real, k: nat)
    requires |speeds| == |d| && OnTrack(cs, d) && Ascending(cs) && k <= |cs|
    ensures Chain(Windows(speeds, d, cs, tol, k))
    ensures ExitBy(Windows(speeds, d, cs, tol, k), Bound(cs, |speeds|, k))
  {
    if k > 0 {
      WindowsChain(speeds, d, cs, tol, k - 1);
      WindowsNext(speeds, d, cs, tol, k - 1);
      ClippedInside(speeds, cs, k, tol);
      BoundsRise(speeds, cs, k);
      ChainAppend(Windows(speeds, d, cs, tol, k - 1), Clipped(speeds, cs, k - 1, tol),
                  Bound(cs, |speeds|, k - 1), Bound(cs, |speeds|, k));
    }
  }

  lemma SignalChain(speeds: seq<real>, d: seq<real>, p: Params)
    requires p.Valid() && |speeds| == |d|
    ensures Chain(SignalWindows(speeds, d, p))
  {
    CandidatesFacts(speeds, p);
    SelectAscends(Candidates(speeds, p), d, p.separation);
    var cs := Select(Candidates(speeds, p), d, p.separation);
    WindowsChain(speeds, d, cs, p.tolerance, |cs|);
  }

  lemma LapChain(frames: seq<Frame>, p: Params)
    requires p.Valid()
    ensures Chain(LapWindows(frames, p))
  {
    SignalChain(Speeds(Ordered(frames)), Distances(Ordered(frames)), p);
  }

  ghost predicate CornerChain(corners: seq<Corner>) {
    && (forall i :: 0 <= i < |corners| ==>
          && corners[i].number == i + 1
          && corners[i].entryDistance < corners[i].apexDistance < corners[i].exitDistance)
    && (forall i, j :: 0 <= i < j < |corners| ==> corners[i].exitDistance <= corners[j].entryDistance)
  }

  lemma RecordFields(key: LapKey, ordered: seq<Frame>, ws: seq<Window>, i: nat)
    requires i < |ws| && forall j :: 0 <= j < |ws| ==> Proper(ws[j], Distances(ordered))
    ensures ws[i].entry < ws[i].exit < |ordered|
    ensures var c := Records(key, ordered, ws)[i];
      && c.number == i + 1 && c.entryDistance < c.apexDistance < c.exitDistance
      && c.entryDistance == ordered[ws[i].entry].distance && c.exitDistance == ordered[ws[i].exit].distance
  {
    assert Proper(ws[i], Distances(ordered));
  }

  lemma RecordsChain(key: LapKey, ordered: seq<Frame>, ws: seq<Window>)
    requires Sorted(ordered, NotFarther) && Chain(ws)
    requires forall i :: 0 <= i < |ws| ==> Proper(ws[i], Distances(ordered))
    ensures CornerChain(Records(key, ordered, ws))
  {
    var corners := Records(key, ordered, ws);
    forall i | 0 <= i < |corners|
      ensures corners[i].number == i + 1
      ensures corners[i].entryDistance < corners[i].apexDistance < corners[i].exitDistance
    {
      RecordFields(key, ordered, ws, i);
    }
    forall i, j | 0 <= i < j < |corners|
      ensures corners[i].exitDistance <= corners[j].entryDistance
    {
      RecordFields(key, ordered, ws, i);
      RecordFields(key, ordered, ws, j);
      assert ws[i].exit < ws[j].entry ==> NotFarther(ordered[ws[i].exit], ordered[ws[j].entry]);
    }
  }

  /** The corners of a lap form a chain along the track, skipped candidates or not: entry
      before apex before exit, each exit no later than every later entry, numbered from
      one. */
  lemma CornersChain(key: LapKey, frames: seq<Frame>, p: Params)
    requires p.Valid()
    ensures CornerChain(Records(key, Ordered(frames), LapWindows(frames, p)))
  {
    LapChain(frames, p);
    SortSorts(frames, NotFarther);
    RecordsChain(key, Ordered(frames), LapWindows(frames, p));
  }
}
