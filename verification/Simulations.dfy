/** The network simulations, driving a real strict checker object for one car.  Their packets
    carry valid signatures and commitments, so the sequence verdict is the final one. */
module NetworkSimulations {
  import opened Extremes
  import opened Optional
  import opened Packets
  import opened Sorting
  import opened ReplayWindow
  import opened ValidatorSequenceCheckers
  import opened DeliveryOrders

  const CAR_NODE := "mercedes_car"

  function CarPacket(seqNo: int): Packet {
    Packet(Some(CAR_NODE), None, None, Some(seqNo), None, None, None, None, None, None, None, None, None)
  }

  /** The checker has been fed exactly the deliveries `ns`. */
  ghost predicate Tracks(checker: ValidatorSequenceChecker, ns: seq<int>)
    reads checker
  {
    && checker.Valid()
    && checker.strict && !checker.checkTimestamps
    && Lookup(checker.States(), CAR_NODE) == Run(checker.WindowPolicy(), Arrivals(ns))
  }

  method NewSequenceChecker(maxGap: int) returns (checker: ValidatorSequenceChecker)
    ensures fresh(checker) && Tracks(checker, []) && checker.maxGap == maxGap
    ensures checker.gapCount == 0 && checker.replayCount == 0
  {
    checker := new ValidatorSequenceChecker(60_000, maxGap, false, true);
  }

  /** One delivery: accepted iff it exceeds everything before it. */
  method Validate(checker: ValidatorSequenceChecker, n: int, ghost ns: seq<int>) returns (accepted: bool)
    requires Tracks(checker, ns) && Positive(ns) && n > 0
    modifies checker
    ensures Tracks(checker, ns + [n])
    ensures accepted <==> n > Highest(0, ns)
    ensures n !in ns ==> checker.replayCount == old(checker.replayCount)
    ensures checker.gapCount == old(checker.gapCount)
                                + if Highest(0, ns) > 0 && n - Highest(0, ns) > checker.maxGap then 1 else 0
  {
    ghost var p := checker.WindowPolicy();
    LastIsHighest(p, ns);
    StrictVerdict(p, Arrivals(ns), n, true);
    SeenWereDelivered(p, ns);
    assert Arrivals(ns + [n])[..|ns|] == Arrivals(ns);
    var result := checker.Check(CarPacket(n), 0);
    accepted := result.passed;
  }

  /** One more delivery. */
  lemma DeliverStep(ns: seq<int>, i: nat)
    requires Positive(ns) && i < |ns|
    ensures var before, n := ns[..i], ns[i];
      && ns[..i + 1] == before + [n] && Positive(before) && n > 0
      && (Distinct(ns) ==> n !in before)
      && Highest(0, ns[..i + 1]) == Max(Highest(0, before), n)
      && Maxima(0, ns[..i + 1]) == Maxima(0, before) + if n > Highest(0, before) then 1 else 0
  {
    assert ns[..i + 1][..i] == ns[..i];
  }

  /** The delivery loop of the jitter experiment: the simulator's own out-of-order count is
      the checker's rejection count, and acceptances are the left-to-right maxima. */
  method DeliverAll(ns: seq<int>)
    returns (accepted: nat, rejected: nat, outOfOrder: nat, checker: ValidatorSequenceChecker)
    requires Positive(ns)
    ensures accepted == Maxima(0, ns) && accepted + rejected == |ns|
    ensures outOfOrder == rejected
    ensures checker.Valid() && (Distinct(ns) ==> checker.replayCount == 0)
  {
    checker := NewSequenceChecker(1000);
    accepted, rejected, outOfOrder := 0, 0, 0;
    var lastSequence: Option<int> := None;
    for i := 0 to |ns|
      invariant fresh(checker) && Tracks(checker, ns[..i])
      invariant accepted == Maxima(0, ns[..i]) && accepted + rejected == i && outOfOrder == rejected
      invariant lastSequence == if i == 0 then None else Some(Highest(0, ns[..i]))
      invariant Distinct(ns) ==> checker.replayCount == 0
    {
      ghost var before := ns[..i];
      DeliverStep(ns, i);
      if lastSequence.Some? && ns[i] <= lastSequence.value {
        outOfOrder := outOfOrder + 1;
      }
      var ok := Validate(checker, ns[i], before);
      if ok {
        accepted := accepted + 1;
      } else {
        rejected := rejected + 1;
      }
      if lastSequence.None? || ns[i] > lastSequence.value {
        lastSequence := Some(ns[i]);
      }
    }
    assert ns[..|ns|] == ns;
  }

  /** A random shuffle only rearranges, whatever it is given. */
  ghost predicate Rearranges<T(!new)>(shuffle: (nat, seq<T>) -> seq<T>) {
    forall k, chunk :: multiset(shuffle(k, chunk)) == multiset(chunk)
  }

  lemma RearrangedChunk<T(!new)>(shuffle: (nat, seq<T>) -> seq<T>, k: nat, chunk: seq<T>)
    requires Rearranges(shuffle)
    ensures multiset(shuffle(k, chunk)) == multiset(chunk)
  {
  }

  /** The blocks from `start` on, each as its own shuffle leaves it. */
  function ShuffledFrom<T>(packets: seq<T>, start: nat, k: nat, window: nat, shuffle: (nat, seq<T>) -> seq<T>): seq<T>
    requires window > 0
    decreases |packets| - start
  {
    if start >= |packets| then []
    else
      shuffle(k, packets[start..Min(start + window, |packets|)])
      + ShuffledFrom(packets, start + window, k + 1, window, shuffle)
  }

  lemma NextShuffled<T>(packets: seq<T>, reordered: seq<T>, mixed: seq<T>, start: nat, k: nat, window: nat,
                        shuffle: (nat, seq<T>) -> seq<T>)
    requires window > 0 && start < |packets| == |reordered| && reordered[start..] == packets[start..]
    requires var end := Min(start + window, |packets|);
      mixed == shuffle(k, reordered[start..end]) && |mixed| == end - start
    ensures var end := Min(start + window, |packets|);
      (reordered[..start] + mixed + reordered[end..])[..end]
      + ShuffledFrom(packets, start + window, k + 1, window, shuffle)
        == reordered[..start] + ShuffledFrom(packets, start, k, window, shuffle)
  {
    var end := Min(start + window, |packets|);
    assert reordered[start..end] == reordered[start..][..end - start] == packets[start..][..end - start];
    assert packets[start..][..end - start] == packets[start..end];
    assert (reordered[..start] + mixed + reordered[end..])[..end] == reordered[..start] + mixed;
  }

  /** Shuffle each block of `window` packets in place.  `shuffle` is the random permutation of
      the k-th block; a zero step is a range error, and a negative one visits no block. */
  method ApplyReordering<T(!new)>(packets: seq<T>, window: int, shuffle: (nat, seq<T>) -> seq<T>)
    returns (r: Option<seq<T>>)
    requires Rearranges(shuffle)
    ensures r.None? <==> window == 0
    ensures window < 0 ==> r == Some(packets)
    ensures window > 0 ==> BlocksPermuted(packets, r.value, window)
    ensures window > 0 ==> r.value == ShuffledFrom(packets, 0, 0, window, shuffle)
  {
    if window == 0 { return None; }
    if window < 0 { return Some(packets); }
    var reordered := packets;
    var n, start: nat, k: nat := |packets|, 0, 0;
    while start < n
      invariant Progress(packets, reordered, start, window)
      invariant reordered[..Min(start, n)] + ShuffledFrom(packets, start, k, window, shuffle)
             == ShuffledFrom(packets, 0, 0, window, shuffle)
    {
      var end := Min(start + window, n);
      var chunk := reordered[start..end];
      var mixed := shuffle(k, chunk);
      RearrangedChunk(shuffle, k, chunk);
      SameMembersLength(mixed, chunk);
      NextShuffled(packets, reordered, mixed, start, k, window, shuffle);
      NextChunk(packets, reordered, mixed, start, window);
      reordered := reordered[..start] + mixed + reordered[end..];
      start, k := start + window, k + 1;
    }
    assert packets[..n] == packets && reordered[..n] == reordered;
    r := Some(reordered);
  }

  /** The blocks before `start` are rearranged, the rest is untouched. */
  ghost predicate Progress<T>(packets: seq<T>, reordered: seq<T>, start: nat, window: int) {
    var done := Min(start, |packets|);
    && window > 0 && |reordered| == |packets| && (start < |packets| ==> Aligned(start, window))
    && BlocksPermuted(packets[..done], reordered[..done], window)
    && reordered[done..] == packets[done..]
  }

  lemma NextChunk<T>(packets: seq<T>, reordered: seq<T>, mixed: seq<T>, start: nat, window: int)
    requires Progress(packets, reordered, start, window) && start < |packets|
    requires multiset(mixed) == multiset(reordered[start..Min(start + window, |packets|)])
    ensures var end := Min(start + window, |packets|);
      Progress(packets, reordered[..start] + mixed + reordered[end..], start + window, window)
  {
    ChunkDone(packets, reordered, mixed, start, Min(start + window, |packets|), window);
    AlignedNext(start, window);
  }

  /** Writing a rearranged chunk back extends the finished prefix by one block. */
  lemma ChunkDone<T>(packets: seq<T>, reordered: seq<T>, mixed: seq<T>, start: nat, end: nat, window: nat)
    requires window > 0 && |packets| == |reordered| && start <= end <= |packets| && end - start <= window
    requires Aligned(start, window) && BlocksPermuted(packets[..start], reordered[..start], window)
    requires packets[start..] == reordered[start..] && multiset(mixed) == multiset(reordered[start..end])
    ensures |mixed| == end - start
    ensures var next := reordered[..start] + mixed + reordered[end..];
      BlocksPermuted(packets[..end], next[..end], window) && next[end..] == packets[end..]
  {
    SameMembersLength(mixed, reordered[start..end]);
    var next := reordered[..start] + mixed + reordered[end..];
    assert packets[start..end] == packets[start..][..end - start] == reordered[start..end];
    AppendBlock(packets[..start], reordered[..start], packets[start..end], mixed, window);
    assert packets[..end] == packets[..start] + packets[start..end];
    assert next[..end] == reordered[..start] + mixed;
    assert packets[end..] == packets[start..][end - start..] == reordered[end..];
  }

  lemma SameMembersLength<T>(xs: seq<T>, ys: seq<T>)
    requires multiset(xs) == multiset(ys)
    ensures |xs| == |ys|
  {
    assert |multiset(xs)| == |xs| && |multiset(ys)| == |ys|;
  }

  /** The `n` packets after number `base`. */
  function CountingFrom(base: nat, n: nat): (ns: seq<int>)
    ensures |ns| == n && forall i :: 0 <= i < n ==> ns[i] == base + 1 + i
  {
    seq(n, i requires 0 <= i < n => base + 1 + i)
  }

  /** The reordering experiment on `n` packets numbered from `base + 1`.  A zero window is an
      error.  Otherwise nothing counts as a replay, and accepted are the packets that exceed all
      delivered before them in the shuffled order: at least one per block, and, as a negative
      window shuffles nothing, all of them there. */
  method SimPacketReordering(base: nat, n: nat, window: int, shuffle: (nat, seq<int>) -> seq<int>)
    returns (counts: Option<ReorderCounts>)
    requires Rearranges(shuffle)
    ensures counts.None? <==> window == 0
    ensures counts.Some? ==> counts.value.accepted + counts.value.rejected == n && counts.value.replays == 0
    ensures window > 0 ==>
      counts.value.accepted == |MaximumPositions(0, ShuffledFrom(CountingFrom(base, n), 0, 0, window, shuffle))|
    ensures window > 0 ==> counts.value.accepted >= Blocks(n, window)
    ensures window < 0 ==> counts.value.accepted == n
  {
    var packets := CountingFrom(base, n);
    var reordered := ApplyReordering(packets, window, shuffle);
    if reordered.None? {
      return None;
    }
    var ns := reordered.value;
    ReorderedFacts(packets, ns, window);
    MaximaCount(0, ns);
    var accepted, rejected, outOfOrder, checker := DeliverAll(ns);
    counts := Some(ReorderCounts(accepted, rejected, checker.replayCount));
  }

  datatype ReorderCounts = ReorderCounts(accepted: nat, rejected: nat, replays: nat)

  /** What the checker sees of a reordered list of increasing numbers. */
  lemma ReorderedFacts(packets: seq<int>, ns: seq<int>, window: int)
    requires window != 0 && Increasing(packets) && Positive(packets)
    requires if window > 0 then BlocksPermuted(packets, ns, window) else ns == packets
    ensures |ns| == |packets| && Positive(ns) && Distinct(ns)
    ensures if window > 0 then Maxima(0, ns) >= Blocks(|packets|, window) else Maxima(0, ns) == |packets|
  {
    if window > 0 {
      BlocksLocal(packets, ns, window);
      BlocksAccepted(0, packets, ns, window);
    } else {
      IncreasingMaxima(0, packets);
    }
    SameMembers(packets, ns);
    forall i | 0 <= i < |ns|
      ensures ns[i] > 0
    {
      assert ns[i] in packets;
    }
    PermutedDistinct(packets, ns);
  }

  lemma PermutedDistinct(a: seq<int>, b: seq<int>)
    requires multiset(a) == multiset(b) && Increasing(a)
    ensures Distinct(b)
  {
    forall i, j | 0 <= i < j < |b|
      ensures b[i] != b[j]
    {
      if b[i] == b[j] {
        OccursTwice(b, i, j);
        OccursOnce(a, b[i]);
      }
    }
  }

  lemma {:induction false} OccursOnce(a: seq<int>, x: int)
    requires Increasing(a)
    ensures multiset(a)[x] <= 1
  {
    if a != [] {
      var front, last := a[..|a| - 1], a[|a| - 1];
      OccursOnce(front, x);
      assert a == front + [last];
      assert last !in multiset(front) by {
        assert last !in front;
      }
    }
  }

  function Numbers(items: seq<Delivery>): (ns: seq<int>)
    ensures |ns| == |items| && forall i :: 0 <= i < |items| ==> ns[i] == items[i].seqNo
  {
    seq(|items|, i requires 0 <= i < |items| => items[i].seqNo)
  }

  lemma NumbersPositive(items: seq<Delivery>, delivered: seq<Delivery>, base: nat)
    requires multiset(delivered) == multiset(items)
    requires forall i :: 0 <= i < |items| ==> items[i].seqNo == base + 1 + i
    ensures Positive(Numbers(delivered))
  {
    SameMembers(items, delivered);
    forall i | 0 <= i < |delivered|
      ensures delivered[i].seqNo > 0
    {
      assert delivered[i] in items;
    }
  }

  lemma SmallJitterAccepts(items: seq<Delivery>, offsets: seq<real>, jitter: real, base: nat)
    requires Sent(items, offsets, jitter) && 2.0 * jitter <= SEND_INTERVAL_MS
    requires forall i :: 0 <= i < |items| ==> items[i].seqNo == base + 1 + i
    ensures SortBy(items, Earlier) == items && Maxima(0, Numbers(items)) == |items|
  {
    SmallJitterOrdered(items, offsets, jitter);
    SortOfSorted(items, Earlier);
    IncreasingMaxima(0, Numbers(items));
  }

  /** The delivered packets are the sent ones by arrival time, then by number. */
  ghost predicate DeliveredInOrder(items: seq<Delivery>, delivered: seq<Delivery>) {
    && multiset(delivered) == multiset(items)
    && (forall i, j :: 0 <= i < j < |delivered| ==> Earlier(delivered[i], delivered[j]))
  }

  ghost predicate SentFrom(items: seq<Delivery>, offsets: seq<real>, base: nat) {
    && |items| == |offsets|
    && forall i :: 0 <= i < |items| ==>
         items[i].index == i && items[i].seqNo == base + 1 + i && items[i].time == ArrivesAt(offsets, i)
  }

  /** Each packet is delivered at exactly one place. */
  lemma PlaceOf(items: seq<Delivery>, delivered: seq<Delivery>, offsets: seq<real>, base: nat, k: nat) returns (p: nat)
    requires SentFrom(items, offsets, base) && multiset(delivered) == multiset(items) && k < |items|
    ensures p < |delivered| && delivered[p] == items[k]
    ensures forall q :: 0 <= q < |delivered| ==>
      delivered[q].index < |items| && delivered[q] == items[delivered[q].index] && (delivered[q].index == k <==> q == p)
  {
    SameMembers(items, delivered);
    assert items[k] in delivered;
    p :| 0 <= p < |delivered| && delivered[p] == items[k];
    forall q | 0 <= q < |delivered|
      ensures delivered[q].index < |items| && delivered[q] == items[delivered[q].index]
      ensures delivered[q].index == k <==> q == p
    {
      assert delivered[q] in items;
      if delivered[q] == delivered[p] && q != p {
        OccursTwice(delivered, Min(p, q), Max(p, q));
        OnceSent(items, offsets, base, k);
      }
    }
  }

  lemma OnceSent(items: seq<Delivery>, offsets: seq<real>, base: nat, k: nat)
    requires SentFrom(items, offsets, base) && k < |items|
    ensures multiset(items)[items[k]] == 1
  {
    assert items == items[..k] + [items[k]] + items[k + 1..];
    assert items[k] !in items[..k] && items[k] !in items[k + 1..];
    assert items[k] !in multiset(items[..k]) && items[k] !in multiset(items[k + 1..]);
  }

  /** A delivered packet is accepted exactly when nothing sent after it arrived before it. */
  lemma MaximumIsOnTime(items: seq<Delivery>, delivered: seq<Delivery>, offsets: seq<real>, base: nat, p: nat)
    requires SentFrom(items, offsets, base) && DeliveredInOrder(items, delivered) && p < |delivered|
    ensures |delivered| == |offsets| && delivered[p].index < |offsets|
    ensures IsMaximum(0, Numbers(delivered), p) <==> OnTime(offsets, delivered[p].index)
  {
    SameMembers(items, delivered);
    assert delivered[p] in items;
    var k := delivered[p].index;
    assert delivered[p] == items[k];
    forall q: nat | q < p
      ensures delivered[q].seqNo < delivered[p].seqNo || !OnTime(offsets, k)
    {
      assert Earlier(delivered[q], delivered[p]) && delivered[q] in items;
      DifferentPlaces(items, delivered, offsets, base, q, p);
    }
    if !OnTime(offsets, k) {
      var m :| k < m < |offsets| && ArrivesAt(offsets, m) < ArrivesAt(offsets, k);
      var q := PlaceOf(items, delivered, offsets, base, m);
      assert q < p;
      assert Numbers(delivered)[q] > Numbers(delivered)[p];
    }
  }

  lemma DifferentPlaces(items: seq<Delivery>, delivered: seq<Delivery>, offsets: seq<real>, base: nat, q: nat, p: nat)
    requires SentFrom(items, offsets, base) && multiset(delivered) == multiset(items) && q < p < |delivered|
    ensures delivered[q].seqNo != delivered[p].seqNo
  {
    SameMembers(items, delivered);
    assert delivered[p] in items && delivered[q] in items;
    var place := PlaceOf(items, delivered, offsets, base, delivered[p].index);
  }

  /** As many places are maxima as packets are on time: each packet stands at its own place. */
  lemma OnTimeCount(items: seq<Delivery>, delivered: seq<Delivery>, offsets: seq<real>, base: nat)
    requires SentFrom(items, offsets, base) && DeliveredInOrder(items, delivered)
    ensures Maxima(0, Numbers(delivered)) == |OnTimePackets(offsets)|
  {
    SameMembers(items, delivered);
    var ns := Numbers(delivered);
    MaximaCount(0, ns);
    forall p: nat | p < |delivered|
      ensures delivered[p].index < |offsets| && (IsMaximum(0, ns, p) <==> OnTime(offsets, delivered[p].index))
    {
      MaximumIsOnTime(items, delivered, offsets, base, p);
    }
    var places := MaximumPositions(0, ns);
    var at := seq(|delivered|, i requires 0 <= i < |delivered| => delivered[i].index);
    forall k | k in OnTimePackets(offsets)
      ensures exists p :: p in places && at[p] == k
    {
      var p := PlaceOf(items, delivered, offsets, base, k);
      assert p in places && at[p] == k;
    }
    forall p, q | p in places && q in places && p != q
      ensures at[p] != at[q]
    {
      var place := PlaceOf(items, delivered, offsets, base, delivered[p].index);
    }
    assert forall p :: p in places ==> at[p] in OnTimePackets(offsets);
    SameSize(places, OnTimePackets(offsets), at, |delivered|);
  }

  /** Each place below `n` holds its own one of the packets, and each packet has a place. */
  ghost predicate Matched(places: set<int>, packets: set<int>, at: seq<int>, n: nat) {
    && n <= |at| && (forall p {:trigger p in places} :: p in places ==> 0 <= p < n)
    && (forall p :: p in places ==> at[p] in packets)
    && (forall k :: k in packets ==> exists p :: p in places && at[p] == k)
    && (forall p, q :: p in places && q in places && p != q ==> at[p] != at[q])
  }

  lemma MatchedStep(places: set<int>, packets: set<int>, at: seq<int>, n: nat)
    requires Matched(places, packets, at, n) && n > 0
    ensures n - 1 in places ==> Matched(places - {n - 1}, packets - {at[n - 1]}, at, n - 1)
    ensures n - 1 !in places ==> Matched(places, packets, at, n - 1)
  {
  }

  lemma {:induction false} SameSize(places: set<int>, packets: set<int>, at: seq<int>, n: nat)
    requires Matched(places, packets, at, n)
    ensures |places| == |packets|
  {
    if n == 0 {
      assert forall p {:trigger p in places} :: p !in places;
      assert forall k {:trigger k in packets} :: k !in packets;
    } else {
      MatchedStep(places, packets, at, n);
      if n - 1 in places {
        SameSize(places - {n - 1}, packets - {at[n - 1]}, at, n - 1);
      } else {
        SameSize(places, packets, at, n - 1);
      }
    }
  }

  /** The time-jitter experiment: accepted are exactly the packets that nothing sent later
      overtakes, out-of-order equals rejected in every run, and jitter of at most half the send
      interval delivers and accepts everything in order. */
  method SimTimeJitter(base: nat, offsets: seq<real>, jitter: real)
    returns (accepted: nat, rejected: nat, outOfOrder: nat)
    requires forall i :: 0 <= i < |offsets| ==> -jitter <= offsets[i] <= jitter
    ensures accepted + rejected == |offsets| && outOfOrder == rejected
    ensures accepted == |OnTimePackets(offsets)|
    ensures 2.0 * jitter <= SEND_INTERVAL_MS ==> accepted == |offsets|
  {
    var items: seq<Delivery> := [];
    for index := 0 to |offsets|
      invariant Sent(items, offsets[..index], jitter)
      invariant forall i :: 0 <= i < |items| ==> items[i].seqNo == base + 1 + i
    {
      items := items + [Delivery(index, base + 1 + index, DeliveryTime(index, offsets[index]))];
    }
    assert offsets[..|offsets|] == offsets;
    var delivered := SortBy(items, Earlier);
    JitterFacts(items, offsets, jitter, base);
    ghost var checker;
    accepted, rejected, outOfOrder, checker := DeliverAll(Numbers(delivered));
  }

  lemma JitterFacts(items: seq<Delivery>, offsets: seq<real>, jitter: real, base: nat)
    requires Sent(items, offsets, jitter) && forall i :: 0 <= i < |items| ==> items[i].seqNo == base + 1 + i
    ensures var ns := Numbers(SortBy(items, Earlier));
      && |ns| == |offsets| && Positive(ns) && Maxima(0, ns) == |OnTimePackets(offsets)|
      && (2.0 * jitter <= SEND_INTERVAL_MS ==> Maxima(0, ns) == |offsets|)
  {
    var delivered := SortBy(items, Earlier);
    SortPermutes(items, Earlier);
    SortSorts(items, Earlier);
    NumbersPositive(items, delivered, base);
    assert SentFrom(items, offsets, base);
    OnTimeCount(items, delivered, offsets, base);
    if 2.0 * jitter <= SEND_INTERVAL_MS {
      SmallJitterAccepts(items, offsets, jitter, base);
    }
  }

  /** In the delivered order, a packet comes before one sent earlier only when the two were
      sent less than twice the amplitude apart. */
  lemma DeliveredOvertake(items: seq<Delivery>, offsets: seq<real>, jitter: real, p: nat, r: nat)
    requires Sent(items, offsets, jitter) && p < r < |items|
    ensures |SortBy(items, Earlier)| == |items|
    ensures var d := SortBy(items, Earlier);
      d[p].index > d[r].index ==> (d[p].index - d[r].index) as real * SEND_INTERVAL_MS < 2.0 * jitter
  {
    var d := SortBy(items, Earlier);
    SortPermutes(items, Earlier);
    SameMembers(items, d);
    SortSorts(items, Earlier);
    if d[p].index > d[r].index {
      assert d[p] in items && d[r] in items;
      assert items[d[p].index] == d[p] && items[d[r].index] == d[r];
      OvertakeBound(items, offsets, jitter, d[r].index, d[p].index);
    }
  }

  datatype LossCounts = LossCounts(
    generated: nat, dropped: nat, transmitted: nat, accepted: nat, rejected: nat, gaps: nat, replays: nat)

  lemma SurvivorsStep(base: nat, before: seq<bool>)
    ensures Survivors(base, before + [true]) == Survivors(base, before)
    ensures Survivors(base, before + [false]) == Survivors(base, before) + [base + |before| + 1]
  {
    assert (before + [true])[..|before|] == before && (before + [false])[..|before|] == before;
  }

  /** The next packet of a lossy stream, as the checker sees it. */
  lemma LossStep(base: nat, before: seq<bool>)
    ensures var ns, n, k := Survivors(base, before), base + |before| + 1, LastDelivered(before);
      && Positive(ns) && n !in ns && n > Highest(0, ns)
      && Highest(0, ns) == (if k < 0 then 0 else base + k + 1)
  {
    SurvivorsIncrease(base, before);
    IncreasingMaxima(0, Survivors(base, before));
    LastDeliveredIs(base, before);
  }

  /** Transmitting one packet of a lossy stream. */
  method Transmit(checker: ValidatorSequenceChecker, base: nat, ghost before: seq<bool>, n: int)
    returns (accepted: bool)
    requires Tracks(checker, Survivors(base, before)) && n == base + |before| + 1
    modifies checker
    ensures Tracks(checker, Survivors(base, before + [false]))
    ensures accepted && checker.replayCount == old(checker.replayCount)
    ensures checker.gapCount - old(checker.gapCount) ==
              |LongRuns(before + [false], checker.maxGap)| - |LongRuns(before, checker.maxGap)|
  {
    LossStep(base, before);
    SurvivorsStep(base, before);
    LongRunsStep(before, false, checker.maxGap);
    LastDeliveredIs(base, before);
    accepted := Validate(checker, n, Survivors(base, before));
  }

  /** A loss scenario for an arbitrary drop pattern: every delivered packet is accepted, and
      the checker's gaps are exactly the drop runs, between two delivered packets, of length
      at least `maxGap`. */
  method ScenarioLoss(base: nat, dropped: seq<bool>, maxGap: int) returns (result: LossCounts)
    ensures result.generated == |dropped| == result.dropped + result.transmitted
    ensures result.transmitted == |Survivors(base, dropped)|
    ensures result.accepted == result.transmitted && result.rejected == 0 && result.replays == 0
    ensures result.gaps == |LongRuns(dropped, maxGap)|
  {
    var checker := NewSequenceChecker(maxGap);
    var lost, transmitted, accepted, rejected := 0, 0, 0, 0;
    for i := 0 to |dropped|
      invariant fresh(checker) && Tracks(checker, Survivors(base, dropped[..i])) && checker.maxGap == maxGap
      invariant i == lost + transmitted && transmitted == |Survivors(base, dropped[..i])|
      invariant accepted == transmitted && rejected == 0 && checker.replayCount == 0
      invariant checker.gapCount == |LongRuns(dropped[..i], maxGap)|
    {
      ghost var before := dropped[..i];
      assert dropped[..i + 1] == before + [dropped[i]];
      if dropped[i] {
        SurvivorsStep(base, before);
        LongRunsStep(before, true, maxGap);
        lost := lost + 1;
      } else {
        SurvivorsStep(base, before);
        transmitted := transmitted + 1;
        var ok := Transmit(checker, base, before, base + i + 1);
        if ok {
          accepted := accepted + 1;
        } else {
          rejected := rejected + 1;
        }
      }
    }
    assert dropped[..|dropped|] == dropped;
    result := LossCounts(|dropped|, lost, transmitted, accepted, rejected, checker.gapCount, checker.replayCount);
  }
}
