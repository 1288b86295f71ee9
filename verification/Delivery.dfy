/** What the strict checker does to whole delivery patterns: block shuffling, delay jitter
    and loss, as the network simulations produce them. */
module DeliveryOrders {
  import opened Extremes
  import opened ReplayWindow

  /** A delivered order of sequence numbers, with every other check passing. */
  function Arrivals(ns: seq<int>): seq<Event> {
    seq(|ns|, i requires 0 <= i < |ns| => Arrival(ns[i], true))
  }

  ghost predicate Positive(ns: seq<int>) {
    forall i :: 0 <= i < |ns| ==> ns[i] > 0
  }

  ghost predicate Distinct(ns: seq<int>) {
    forall i, j :: 0 <= i < j < |ns| ==> ns[i] != ns[j]
  }

  ghost predicate Increasing(ns: seq<int>) {
    forall i, j :: 0 <= i < j < |ns| ==> ns[i] < ns[j]
  }

  /** The largest of `floor` and the numbers. */
  function Highest(floor: int, ns: seq<int>): int {
    if ns == [] then floor else Max(Highest(floor, ns[..|ns| - 1]), ns[|ns| - 1])
  }

  lemma {:induction false} HighestBounds(floor: int, ns: seq<int>)
    ensures floor <= Highest(floor, ns) && forall i :: 0 <= i < |ns| ==> ns[i] <= Highest(floor, ns)
    ensures Highest(floor, ns) == floor || Highest(floor, ns) in ns
  {
    if ns != [] {
      var front := ns[..|ns| - 1];
      HighestBounds(floor, front);
      assert forall i :: 0 <= i < |front| ==> ns[i] == front[i];
      assert ns[|ns| - 1] in ns;
    }
  }

  /** How many numbers exceed everything delivered before them, and `floor`. */
  function Maxima(floor: int, ns: seq<int>): nat {
    if ns == [] then 0
    else
      var front := ns[..|ns| - 1];
      Maxima(floor, front) + if ns[|ns| - 1] > Highest(floor, front) then 1 else 0
  }

  /** The positions whose number exceeds `floor` and everything before it. */
  ghost function MaximumPositions(floor: int, ns: seq<int>): set<int> {
    set i | 0 <= i < |ns| && IsMaximum(floor, ns, i)
  }

  ghost predicate IsMaximum(floor: int, ns: seq<int>, i: int)
    requires 0 <= i < |ns|
  {
    ns[i] > floor && forall j :: 0 <= j < i ==> ns[j] < ns[i]
  }

  lemma PrefixMaximum(floor: int, ns: seq<int>, n: int, i: int)
    requires 0 <= i < n <= |ns|
    ensures IsMaximum(floor, ns, i) <==> IsMaximum(floor, ns[..n], i)
  {
    assert forall j :: 0 <= j <= i ==> ns[..n][j] == ns[j];
  }

  lemma LastMaximum(floor: int, ns: seq<int>)
    requires ns != []
    ensures IsMaximum(floor, ns, |ns| - 1) <==> ns[|ns| - 1] > Highest(floor, ns[..|ns| - 1])
  {
    var n := |ns| - 1;
    HighestBounds(floor, ns[..n]);
    assert forall j :: 0 <= j < n ==> ns[..n][j] == ns[j];
  }

  lemma {:induction false} MaximaCount(floor: int, ns: seq<int>)
    ensures Maxima(floor, ns) == |MaximumPositions(floor, ns)|
  {
    if ns != [] {
      var n := |ns| - 1;
      MaximaCount(floor, ns[..n]);
      LastMaximum(floor, ns);
      PositionsNext(floor, ns);
    }
  }

  lemma PositionsNext(floor: int, ns: seq<int>)
    requires ns != []
    ensures var n := |ns| - 1;
      |MaximumPositions(floor, ns)| == |MaximumPositions(floor, ns[..n])| + if IsMaximum(floor, ns, n) then 1 else 0
  {
    var n := |ns| - 1;
    var before := MaximumPositions(floor, ns[..n]);
    forall i | 0 <= i < n
      ensures i in MaximumPositions(floor, ns) <==> i in before
    {
      PrefixMaximum(floor, ns, n, i);
    }
    if IsMaximum(floor, ns, n) {
      assert MaximumPositions(floor, ns) == before + {n};
    } else {
      assert MaximumPositions(floor, ns) == before;
    }
  }

  lemma {:induction false} LastIsHighest(p: Policy, ns: seq<int>)
    requires p.strict && Positive(ns)
    ensures Run(p, Arrivals(ns)).last == Highest(0, ns)
  {
    if ns != [] {
      var front := ns[..|ns| - 1];
      LastIsHighest(p, front);
      assert Arrivals(ns)[..|ns| - 1] == Arrivals(front);
      StrictVerdict(p, Arrivals(front), ns[|ns| - 1], true);
    }
  }

  /** The strict checker accepts exactly the left-to-right maxima of the delivered order. */
  lemma AcceptsMaxima(p: Policy, ns: seq<int>, i: nat)
    requires p.strict && Positive(ns) && i < |ns|
    ensures Verdict(p, Arrivals(ns), i) <==> forall j :: 0 <= j < i ==> ns[j] < ns[i]
  {
    var before := ns[..i];
    assert Arrivals(ns)[..i] == Arrivals(before);
    LastIsHighest(p, before);
    StrictVerdict(p, Arrivals(before), ns[i], true);
    HighestBounds(0, before);
    assert forall j :: 0 <= j < i ==> before[j] == ns[j];
    if forall j :: 0 <= j < i ==> ns[j] < ns[i] {
      assert Highest(0, before) in before ==> Highest(0, before) < ns[i];
    }
  }

  /** Distinct numbers never trip the replay test. */
  lemma {:induction false} SeenWereDelivered(p: Policy, ns: seq<int>)
    ensures forall x :: x in Run(p, Arrivals(ns)).seen ==> x in ns
  {
    if ns != [] {
      var front := ns[..|ns| - 1];
      SeenWereDelivered(p, front);
      assert Arrivals(ns)[..|ns| - 1] == Arrivals(front);
      assert ns == front + [ns[|ns| - 1]];
    }
  }

  // ---- relay, then validator ------------------------------------------------------------

  /** The numbers a checker lets through, in order. */
  ghost function Forwarded(p: Policy, events: seq<Event>): seq<int> {
    if events == [] then []
    else
      var before := events[..|events| - 1];
      match events[|events| - 1]
      case Reset => Forwarded(p, before)
      case Arrival(n, clean) =>
        Forwarded(p, before) + if Passes(p.strict, Run(p, before), n, clean) then [n] else []
  }

  lemma {:induction false} ForwardedIncrease(p: Policy, events: seq<Event>)
    requires p.strict && forall i :: 0 <= i < |events| ==> events[i].Arrival?
    ensures var ns := Forwarded(p, events);
      Increasing(ns) && Positive(ns) && forall i :: 0 <= i < |ns| ==> ns[i] <= Run(p, events).last
  {
    if events != [] {
      var before, e := events[..|events| - 1], events[|events| - 1];
      ForwardedIncrease(p, before);
      StrictVerdict(p, before, e.seqNo, e.clean);
      StrictInvariant(p, before);
    }
  }

  /** The same order at a second checker, whose own stateless checks come out as `clean`. */
  function Rechecked(ns: seq<int>, clean: seq<bool>): seq<Event>
    requires |clean| == |ns|
  {
    seq(|ns|, i requires 0 <= i < |ns| => Arrival(ns[i], clean[i]))
  }

  lemma {:induction false} LastBelow(p: Policy, ns: seq<int>, clean: seq<bool>, n: int)
    requires p.strict && |clean| == |ns| && n > 0 && forall i :: 0 <= i < |ns| ==> ns[i] < n
    ensures Run(p, Rechecked(ns, clean)).last < n
  {
    if ns != [] {
      var front, flags := ns[..|ns| - 1], clean[..|ns| - 1];
      LastBelow(p, front, flags, n);
      assert Rechecked(ns, clean)[..|ns| - 1] == Rechecked(front, flags);
    }
  }

  /** Defence in depth costs nothing: whatever arrives at a strict relay, and whatever it
      rejects, the sequence check of a strict validator behind it accepts exactly the forwarded
      packets that the validator's own stateless checks find clean. */
  lemma ForwardedAccepted(relay: Policy, validator: Policy, events: seq<Event>, clean: seq<bool>, i: nat)
    requires relay.strict && validator.strict && forall j :: 0 <= j < |events| ==> events[j].Arrival?
    requires i < |Forwarded(relay, events)| == |clean|
    ensures Verdict(validator, Rechecked(Forwarded(relay, events), clean), i) <==> clean[i]
  {
    var ns := Forwarded(relay, events);
    var before := Rechecked(ns[..i], clean[..i]);
    ForwardedIncrease(relay, events);
    LastBelow(validator, ns[..i], clean[..i], ns[i]);
    StrictVerdict(validator, before, ns[i], clean[i]);
    assert Rechecked(ns, clean)[..i] == before;
  }

  // ---- shuffled blocks ------------------------------------------------------------------

  /** `b` is `a` with each consecutive block of `window` elements rearranged. */
  ghost predicate BlocksPermuted<T>(a: seq<T>, b: seq<T>, window: nat)
    requires window > 0
    decreases |a|
  {
    && |a| == |b|
    && if |a| <= window then multiset(a) == multiset(b)
       else multiset(a[..window]) == multiset(b[..window]) && BlocksPermuted(a[window..], b[window..], window)
  }

  ghost predicate Aligned(n: int, window: nat)
    requires window > 0
    decreases n
  {
    n == 0 || (n >= window && Aligned(n - window, window))
  }

  lemma {:induction false} AppendBlock<T>(a: seq<T>, b: seq<T>, c: seq<T>, d: seq<T>, window: nat)
    requires window > 0 && Aligned(|a|, window) && BlocksPermuted(a, b, window)
    requires |c| == |d| <= window && multiset(c) == multiset(d)
    ensures BlocksPermuted(a + c, b + d, window)
    decreases |a|
  {
    if |a| == 0 {
      assert a + c == c && b + d == d;
    } else if |a| + |c| <= window {
      assert |a| == window && c == [] && d == [];
      assert a + c == a && b + d == b;
    } else {
      assert (a + c)[..window] == a[..window] && (b + d)[..window] == b[..window];
      assert (a + c)[window..] == a[window..] + c && (b + d)[window..] == b[window..] + d;
      if |a| == window {
        assert a[..window] == a && b[..window] == b;
      }
      AppendBlock(a[window..], b[window..], c, d, window);
    }
  }

  lemma {:induction false} AlignedNext(n: nat, window: nat)
    requires window > 0 && Aligned(n, window)
    ensures Aligned(n + window, window)
  {
  }

  /** `x`, now at position `i`, stood less than `window` places away in `a`. */
  ghost predicate StoodNear<T>(a: seq<T>, x: T, i: int, window: nat) {
    exists j :: 0 <= j < |a| && i < j + window && j < i + window && a[j] == x
  }

  /** Rearranging blocks permutes the list and moves nothing by `window` or more. */
  lemma {:induction false} BlocksLocal<T(!new)>(a: seq<T>, b: seq<T>, window: nat)
    requires window > 0 && BlocksPermuted(a, b, window)
    ensures multiset(a) == multiset(b)
    ensures forall i :: 0 <= i < |b| ==> StoodNear(a, b[i], i, window)
    decreases |a|
  {
    if |a| <= window {
      forall i | 0 <= i < |b|
        ensures StoodNear(a, b[i], i, window)
      {
        assert b[i] in multiset(a);
        var j :| 0 <= j < |a| && a[j] == b[i];
      }
    } else {
      BlocksLocal(a[..window], b[..window], window);
      BlocksLocal(a[window..], b[window..], window);
      assert a == a[..window] + a[window..] && b == b[..window] + b[window..];
      forall i | 0 <= i < |b|
        ensures StoodNear(a, b[i], i, window)
      {
        if i < window {
          assert StoodNear(a[..window], b[..window][i], i, window);
          var j :| 0 <= j < window && i < j + window && j < i + window && a[..window][j] == b[i];
          assert a[j] == b[i];
        } else {
          var k := i - window;
          assert StoodNear(a[window..], b[window..][k], k, window);
          var j :| 0 <= j < |a| - window && k < j + window && j < k + window && a[window..][j] == b[i];
          assert a[j + window] == b[i];
        }
      }
    }
  }

  lemma {:induction false} MaximaSplit(floor: int, xs: seq<int>, ys: seq<int>)
    ensures Highest(floor, xs + ys) == Highest(Highest(floor, xs), ys)
    ensures Maxima(floor, xs + ys) == Maxima(floor, xs) + Maxima(Highest(floor, xs), ys)
    decreases |ys|
  {
    if ys == [] {
      assert xs + ys == xs;
    } else {
      var front := ys[..|ys| - 1];
      MaximaSplit(floor, xs, front);
      assert (xs + ys)[..|xs + ys| - 1] == xs + front;
    }
  }

  lemma {:induction false} MaximaPositive(floor: int, ns: seq<int>)
    requires exists i :: 0 <= i < |ns| && ns[i] > floor
    ensures Maxima(floor, ns) >= 1
  {
    var front := ns[..|ns| - 1];
    HighestBounds(floor, front);
    if Highest(floor, front) != floor {
      var i :| 0 <= i < |front| && front[i] == Highest(floor, front);
      MaximaPositive(floor, front);
    }
  }

  /** `n / window`, rounded up. */
  function Blocks(n: nat, window: nat): nat
    requires window > 0
  {
    if n == 0 then 0 else if n <= window then 1 else 1 + Blocks(n - window, window)
  }

  lemma {:induction false} BlocksIsCeiling(n: nat, window: nat)
    requires window > 0
    ensures Blocks(n, window) * window >= n
    ensures n > 0 ==> (Blocks(n, window) - 1) * window < n
  {
    if n > window {
      BlocksIsCeiling(n - window, window);
      var k := Blocks(n - window, window);
      assert (1 + k) * window == window + k * window;
      assert (k - 1) * window == k * window - window;
    } else if n > 0 {
      assert 1 * window == window && 0 * window == 0;
    }
  }

  /** However the blocks of an increasing list are shuffled, each holds a maximum. */
  lemma {:induction false} BlocksAccepted(floor: int, a: seq<int>, b: seq<int>, window: nat)
    requires window > 0 && Increasing(a) && BlocksPermuted(a, b, window)
    requires forall i :: 0 <= i < |a| ==> a[i] > floor
    ensures Maxima(floor, b) >= Blocks(|a|, window)
    decreases |a|
  {
    if a == [] {
    } else if |a| <= window {
      BlockHasMaximum(floor, a, b);
    } else {
      var a0, b0, a1, b1 := a[..window], b[..window], a[window..], b[window..];
      BlockHasMaximum(floor, a0, b0);
      BlockBelowRest(floor, a, b0, window);
      BlocksAccepted(Highest(floor, b0), a1, b1, window);
      MaximaSplit(floor, b0, b1);
      assert b0 + b1 == b;
    }
  }

  lemma BlockBelowRest(floor: int, a: seq<int>, b0: seq<int>, window: nat)
    requires 0 < window < |a| && Increasing(a) && multiset(a[..window]) == multiset(b0)
    requires forall i :: 0 <= i < |a| ==> a[i] > floor
    ensures forall i :: 0 <= i < |a| - window ==> a[window..][i] > Highest(floor, b0)
  {
    HighestBounds(floor, b0);
    forall i | 0 <= i < |a| - window
      ensures a[window..][i] > Highest(floor, b0)
    {
      if Highest(floor, b0) in b0 {
        assert Highest(floor, b0) in multiset(a[..window]);
        var k :| 0 <= k < window && a[..window][k] == Highest(floor, b0);
        assert a[k] < a[i + window];
      }
    }
  }

  lemma BlockHasMaximum(floor: int, a: seq<int>, b: seq<int>)
    requires a != [] && multiset(a) == multiset(b) && a[0] > floor
    ensures Maxima(floor, b) >= 1
  {
    assert a[0] in multiset(b);
    var i :| 0 <= i < |b| && b[i] == a[0];
    MaximaPositive(floor, b);
  }

  // ---- delay jitter ---------------------------------------------------------------------

  const SEND_INTERVAL_MS := 5.0
  const BASE_NETWORK_DELAY_MS := 10.0

  datatype Delivery = Delivery(index: nat, seqNo: int, time: real)

  function NetworkDelay(offset: real): real {
    if BASE_NETWORK_DELAY_MS + offset > 0.0 then BASE_NETWORK_DELAY_MS + offset else 0.0
  }

  function DeliveryTime(index: nat, offset: real): real {
    index as real * SEND_INTERVAL_MS + NetworkDelay(offset)
  }

  /** `sorted` by delivery time, then by index. */
  predicate Earlier(a: Delivery, b: Delivery) {
    a.time < b.time || (a.time == b.time && a.index <= b.index)
  }

  /** Packets sent with offsets inside the jitter amplitude. */
  ghost predicate Sent(items: seq<Delivery>, offsets: seq<real>, jitter: real) {
    && |items| == |offsets|
    && forall i :: 0 <= i < |items| ==>
         -jitter <= offsets[i] <= jitter && items[i].index == i && items[i].time == DeliveryTime(i, offsets[i])
  }

  /** A packet overtakes an earlier one only if it was sent less than twice the amplitude
      later. */
  lemma OvertakeBound(items: seq<Delivery>, offsets: seq<real>, jitter: real, i: nat, k: nat)
    requires Sent(items, offsets, jitter) && i < k < |items| && !Earlier(items[i], items[k])
    ensures (k - i) as real * SEND_INTERVAL_MS < 2.0 * jitter
  {
    assert items[k].time < items[i].time;
    assert (k - i) as real * SEND_INTERVAL_MS == k as real * SEND_INTERVAL_MS - i as real * SEND_INTERVAL_MS;
    assert NetworkDelay(offsets[i]) - NetworkDelay(offsets[k]) <= 2.0 * jitter;
  }

  /** Small jitter cannot reorder: the list is already in delivery order. */
  lemma SmallJitterOrdered(items: seq<Delivery>, offsets: seq<real>, jitter: real)
    requires Sent(items, offsets, jitter) && 2.0 * jitter <= SEND_INTERVAL_MS
    ensures forall i, k :: 0 <= i < k < |items| ==> Earlier(items[i], items[k])
  {
    forall i, k | 0 <= i < k < |items|
      ensures Earlier(items[i], items[k])
    {
      assert (k - i) as real * SEND_INTERVAL_MS >= SEND_INTERVAL_MS;
      if !Earlier(items[i], items[k]) {
        OvertakeBound(items, offsets, jitter, i, k);
      }
    }
  }

  /** A larger offset never arrives earlier, and less so than it is larger. */
  lemma LaterOffset(k: nat, a: real, b: real)
    requires a <= b
    ensures DeliveryTime(k, a) <= DeliveryTime(k, b) <= DeliveryTime(k, a) + (b - a)
  {
  }

  /** When packet `k` arrives: sent every five milliseconds, under way for ten, more or less the
      offset, and never for less than nothing. */
  function ArrivesAt(offsets: seq<real>, k: int): real
    requires 0 <= k < |offsets|
  {
    5.0 * k as real + if 10.0 + offsets[k] > 0.0 then 10.0 + offsets[k] else 0.0
  }

  /** No packet sent after `k` arrives before it. */
  ghost predicate OnTime(offsets: seq<real>, k: int)
    requires 0 <= k < |offsets|
  {
    forall m :: k < m < |offsets| ==> ArrivesAt(offsets, m) >= ArrivesAt(offsets, k)
  }

  ghost function OnTimePackets(offsets: seq<real>): set<int> {
    set k | 0 <= k < |offsets| && OnTime(offsets, k)
  }

  // ---- loss -----------------------------------------------------------------------------

  /** The numbers that get through when the sender counts up from `base + 1`. */
  function Survivors(base: int, dropped: seq<bool>): seq<int> {
    if dropped == [] then []
    else
      var front := Survivors(base, dropped[..|dropped| - 1]);
      if dropped[|dropped| - 1] then front else front + [base + |dropped|]
  }

  lemma {:induction false} SurvivorsIncrease(base: int, dropped: seq<bool>)
    ensures Increasing(Survivors(base, dropped))
    ensures forall i :: 0 <= i < |Survivors(base, dropped)| ==> base < Survivors(base, dropped)[i] <= base + |dropped|
  {
    if dropped != [] {
      SurvivorsIncrease(base, dropped[..|dropped| - 1]);
    }
  }

  lemma {:induction false} IncreasingMaxima(floor: int, ns: seq<int>)
    requires Increasing(ns) && forall i :: 0 <= i < |ns| ==> ns[i] > floor
    ensures Maxima(floor, ns) == |ns| && (ns != [] ==> Highest(floor, ns) == ns[|ns| - 1])
  {
    if ns != [] {
      IncreasingMaxima(floor, ns[..|ns| - 1]);
    }
  }

  /** The drop runs of length at least `g` between two delivered packets, each named by the
      positions of those packets. */
  ghost function LongRuns(dropped: seq<bool>, g: int): set<(int, int)> {
    set k, m | 0 <= k < |dropped| && 0 <= m < |dropped| && IsRun(dropped, k, m) && m - k - 1 >= g :: (k, m)
  }

  ghost predicate IsRun(dropped: seq<bool>, k: int, m: int)
    requires 0 <= k < |dropped| && 0 <= m < |dropped|
  {
    k < m && !dropped[k] && !dropped[m] && forall j :: k < j < m ==> dropped[j]
  }

  /** Position of the last delivered packet, or -1. */
  ghost function LastDelivered(dropped: seq<bool>): int {
    if dropped == [] then -1
    else if !dropped[|dropped| - 1] then |dropped| - 1
    else LastDelivered(dropped[..|dropped| - 1])
  }

  lemma {:induction false} LastDeliveredIs(base: int, dropped: seq<bool>)
    ensures var k, ns := LastDelivered(dropped), Survivors(base, dropped);
      && -1 <= k < |dropped|
      && (forall j :: k < j < |dropped| ==> dropped[j])
      && (k >= 0 ==> !dropped[k] && ns != [] && ns[|ns| - 1] == base + k + 1)
      && (k < 0 ==> ns == [])
  {
    if dropped != [] && dropped[|dropped| - 1] {
      LastDeliveredIs(base, dropped[..|dropped| - 1]);
    }
  }

  lemma RunsStep(dropped: seq<bool>, lost: bool, a: nat, m: nat)
    requires a < |dropped| && m <= |dropped|
    ensures IsRun(dropped + [lost], a, m)
       <==> if m < |dropped| then IsRun(dropped, a, m) else !lost && a == LastDelivered(dropped)
  {
    var grown := dropped + [lost];
    LastDeliveredIs(0, dropped);
    assert forall j :: 0 <= j < |dropped| ==> grown[j] == dropped[j];
    if m == |dropped| && a < LastDelivered(dropped) {
      assert !grown[LastDelivered(dropped)];
    }
  }

  /** The run that one more packet completes, if any. */
  ghost function NewRun(dropped: seq<bool>, lost: bool, g: int): set<(int, int)> {
    var k, n := LastDelivered(dropped), |dropped|;
    if !lost && k >= 0 && n - k - 1 >= g then {(k, n)} else {}
  }

  lemma LongRunsGrow(dropped: seq<bool>, lost: bool, g: int)
    ensures LongRuns(dropped + [lost], g) == LongRuns(dropped, g) + NewRun(dropped, lost, g)
  {
    var k, n, grown := LastDelivered(dropped), |dropped|, dropped + [lost];
    LastDeliveredIs(0, dropped);
    forall a, m
      ensures (a, m) in LongRuns(grown, g) <==> (a, m) in LongRuns(dropped, g) + NewRun(dropped, lost, g)
    {
      if 0 <= a < n && 0 <= m <= n {
        RunsStep(dropped, lost, a, m);
      }
    }
  }

  /** One more packet adds a long run exactly when it is delivered after a long enough gap. */
  lemma LongRunsStep(dropped: seq<bool>, lost: bool, g: int)
    ensures var k := LastDelivered(dropped);
      |LongRuns(dropped + [lost], g)| ==
        |LongRuns(dropped, g)| + if !lost && k >= 0 && |dropped| - k - 1 >= g then 1 else 0
  {
    LongRunsGrow(dropped, lost, g);
    assert (LastDelivered(dropped), |dropped|) !in LongRuns(dropped, g);
  }
}
