/** Key rotation as interleaved atomic steps.  Each lock section of the scheduler is one
    action; recorders, the checker thread and forced rotations interleave freely. */
module KeyRotation {
  import opened Optional

  type Thread = nat

  datatype Reason = AgeExceeded | CountExceeded | ManualForce

  datatype RotationEvent = RotationEvent(num: nat, reason: Reason, oldAge: int, oldCount: nat)

  /** A rotation between its two lock sections, and then until it is logged.  `since` counts
      the packets recorded between its snapshot and its reset, and `overlap` the packets that
      other rotations' resets discarded in that time. */
  datatype Rotation = Rotation(event: RotationEvent, reset: bool, since: nat, overlap: nat)

  /** The scheduler's fields, and the bookkeeping the theorems speak of: everything recorded,
      the rotations in flight, and those whose reset is done. */
  datatype State = State(
    packetCount: nat, sessionStart: int, rotationCount: nat, log: seq<RotationEvent>,
    recorded: nat, inFlight: map<Thread, Rotation>, completed: seq<Rotation>)

  datatype Action =
    | Record
    | Begin(thread: Thread, reason: Reason, now: int)
    | ResetCounters(thread: Thread, now: int)
    | AppendLog(thread: Thread)

  function Initial(now: int): State {
    State(0, now, 0, [], 0, map[], [])
  }

  function Pending(m: map<Thread, Rotation>, recorded: nat, discarded: nat): map<Thread, Rotation> {
    map t | t in m ::
      if m[t].reset then m[t]
      else m[t].(since := m[t].since + recorded, overlap := m[t].overlap + discarded)
  }

  /** An action of a thread that is not at that point does nothing. */
  function Apply(s: State, a: Action): State {
    match a
    case Record =>
      s.(packetCount := s.packetCount + 1, recorded := s.recorded + 1, inFlight := Pending(s.inFlight, 1, 0))
    case Begin(t, reason, now) =>
      if t in s.inFlight then s
      else
        var event := RotationEvent(s.rotationCount + 1, reason, now - s.sessionStart, s.packetCount);
        s.(rotationCount := s.rotationCount + 1, inFlight := s.inFlight[t := Rotation(event, false, 0, 0)])
    case ResetCounters(t, now) =>
      if t !in s.inFlight || s.inFlight[t].reset then s
      else
        var mine := s.inFlight[t].(reset := true);
        s.(packetCount := 0, sessionStart := now, completed := s.completed + [mine],
           inFlight := Pending(s.inFlight, 0, s.packetCount)[t := mine])
    case AppendLog(t) =>
      if t !in s.inFlight || !s.inFlight[t].reset then s
      else s.(log := s.log + [s.inFlight[t].event], inFlight := s.inFlight - {t})
  }

  function Run(start: int, actions: seq<Action>): State {
    if actions == [] then Initial(start) else Apply(Run(start, actions[..|actions| - 1]), actions[|actions| - 1])
  }

  // ---- the numbers handed out -----------------------------------------------------------

  ghost predicate Logged(s: State, k: int) {
    exists i :: 0 <= i < |s.log| && s.log[i].num == k
  }

  ghost predicate Flying(s: State, k: int) {
    exists t :: t in s.inFlight && s.inFlight[t].event.num == k
  }

  /** The numbers 1..rotationCount are handed out once each: every one is either logged or
      held by a rotation in flight, never both and never twice. */
  ghost predicate NumbersExact(s: State) {
    && (forall k :: 1 <= k <= s.rotationCount <==> Logged(s, k) || Flying(s, k))
    && (forall k :: !(Logged(s, k) && Flying(s, k)))
    && (forall i, j :: 0 <= i < j < |s.log| ==> s.log[i].num != s.log[j].num)
    && (forall t, u :: t in s.inFlight && u in s.inFlight && t != u ==>
          s.inFlight[t].event.num != s.inFlight[u].event.num)
    && |s.log| + |s.inFlight| == s.rotationCount
  }

  lemma NumbersStep(s: State, a: Action)
    requires NumbersExact(s)
    ensures NumbersExact(Apply(s, a))
  {
    match a
    case Record =>
      SameNumbers(s, Apply(s, a));
    case Begin(t, reason, now) =>
      if t !in s.inFlight {
        BeginNumbers(s, t, reason, now);
      }
    case ResetCounters(t, now) =>
      if t in s.inFlight && !s.inFlight[t].reset {
        SameNumbers(s, Apply(s, a));
      }
    case AppendLog(t) =>
      if t in s.inFlight && s.inFlight[t].reset {
        AppendNumbers(s, t);
      }
  }

  lemma SameNumbers(s: State, s': State)
    requires NumbersExact(s) && s'.log == s.log && s'.rotationCount == s.rotationCount
    requires s'.inFlight.Keys == s.inFlight.Keys
    requires forall t :: t in s.inFlight ==> s'.inFlight[t].event == s.inFlight[t].event
    ensures NumbersExact(s')
  {
    forall k
      ensures Logged(s', k) == Logged(s, k) && Flying(s', k) == Flying(s, k)
    {
      if Flying(s, k) {
        var t :| t in s.inFlight && s.inFlight[t].event.num == k;
        assert t in s'.inFlight && s'.inFlight[t].event.num == k;
      }
    }
    assert |s'.inFlight| == |s'.inFlight.Keys| && |s.inFlight| == |s.inFlight.Keys|;
  }

  lemma BeginNumbers(s: State, t: Thread, reason: Reason, now: int)
    requires NumbersExact(s) && t !in s.inFlight
    ensures NumbersExact(Apply(s, Begin(t, reason, now)))
  {
    var s' := Apply(s, Begin(t, reason, now));
    var n := s.rotationCount + 1;
    assert s'.inFlight[t].event.num == n;
    forall k
      ensures Logged(s', k) == Logged(s, k) && (Flying(s', k) <==> Flying(s, k) || k == n)
    {
      if Flying(s, k) {
        var u :| u in s.inFlight && s.inFlight[u].event.num == k;
        assert u in s'.inFlight && s'.inFlight[u].event.num == k;
      }
    }
    assert !Logged(s, n) && !Flying(s, n);
    forall u | u in s.inFlight
      ensures s.inFlight[u].event.num != n
    {
      assert Flying(s, s.inFlight[u].event.num);
    }
  }

  lemma AppendNumbers(s: State, t: Thread)
    requires NumbersExact(s) && t in s.inFlight && s.inFlight[t].reset
    ensures NumbersExact(Apply(s, AppendLog(t)))
  {
    var s' := Apply(s, AppendLog(t));
    var n := s.inFlight[t].event.num;
    assert s'.log[|s.log|].num == n;
    assert Flying(s, n);
    forall k
      ensures Logged(s', k) <==> Logged(s, k) || k == n
      ensures Flying(s', k) <==> Flying(s, k) && k != n
    {
      if Logged(s, k) {
        var i :| 0 <= i < |s.log| && s.log[i].num == k;
        assert s'.log[i].num == k;
      }
      if Flying(s, k) && k != n {
        var u :| u in s.inFlight && s.inFlight[u].event.num == k;
        assert u in s'.inFlight && s'.inFlight[u].event.num == k;
      }
    }
    forall i | 0 <= i < |s.log|
      ensures s.log[i].num != n
    {
      assert Logged(s, s.log[i].num);
    }
    assert s'.inFlight.Keys == s.inFlight.Keys - {t};
    assert |s'.inFlight| == |s.inFlight| - 1 by {
      assert |s'.inFlight.Keys| == |s.inFlight.Keys| - 1;
      assert |s'.inFlight| == |s'.inFlight.Keys| && |s.inFlight| == |s.inFlight.Keys|;
    }
  }

  // ---- where the packets went -----------------------------------------------------------

  function TotalOld(rs: seq<Rotation>): nat {
    if rs == [] then 0 else TotalOld(rs[..|rs| - 1]) + rs[|rs| - 1].event.oldCount
  }

  function TotalSince(rs: seq<Rotation>): nat {
    if rs == [] then 0 else TotalSince(rs[..|rs| - 1]) + rs[|rs| - 1].since
  }

  function TotalOverlap(rs: seq<Rotation>): nat {
    if rs == [] then 0 else TotalOverlap(rs[..|rs| - 1]) + rs[|rs| - 1].overlap
  }

  /** Between its snapshot and its reset a rotation is open. */
  predicate Opened(s: State, t: Thread) {
    t in s.inFlight && !s.inFlight[t].reset
  }

  /** The exact account under every interleaving: what overlapping resets discarded is counted
      twice, and nothing else is. */
  ghost predicate Accounted(s: State) {
    && s.recorded + TotalOverlap(s.completed) == s.packetCount + TotalOld(s.completed) + TotalSince(s.completed)
    && (forall t :: Opened(s, t) ==>
          s.packetCount + s.inFlight[t].overlap == s.inFlight[t].event.oldCount + s.inFlight[t].since)
  }

  lemma AccountReset(s: State, t: Thread, now: int)
    requires Accounted(s) && Opened(s, t)
    ensures Accounted(Apply(s, ResetCounters(t, now)))
  {
    var s', mine := Apply(s, ResetCounters(t, now)), s.inFlight[t].(reset := true);
    assert s'.completed == s.completed + [mine] && s'.completed[..|s.completed|] == s.completed;
    assert TotalOld(s'.completed) == TotalOld(s.completed) + mine.event.oldCount;
    assert TotalSince(s'.completed) == TotalSince(s.completed) + mine.since;
    assert TotalOverlap(s'.completed) == TotalOverlap(s.completed) + mine.overlap;
  }

  lemma AccountStep(s: State, a: Action)
    requires Accounted(s)
    ensures Accounted(Apply(s, a))
  {
    match a
    case ResetCounters(t, now) =>
      if t in s.inFlight && !s.inFlight[t].reset {
        AccountReset(s, t, now);
      }
    case Record =>
    case Begin(_, _, _) =>
    case AppendLog(_) =>
  }

  /** Every interleaving keeps the numbering and the account. */
  lemma {:induction false} RunInvariant(start: int, actions: seq<Action>)
    ensures NumbersExact(Run(start, actions)) && Accounted(Run(start, actions))
  {
    if actions != [] {
      RunInvariant(start, actions[..|actions| - 1]);
      NumbersStep(Run(start, actions[..|actions| - 1]), actions[|actions| - 1]);
      AccountStep(Run(start, actions[..|actions| - 1]), actions[|actions| - 1]);
    }
  }

  /** The state is that of some interleaving. */
  ghost predicate Reached(s: State) {
    exists start, actions :: s == Run(start, actions)
  }

  lemma ReachedStep(s: State, a: Action)
    requires Reached(s)
    ensures Reached(Apply(s, a))
  {
    var start, actions :| s == Run(start, actions);
    RunSnoc(start, actions, a);
  }

  lemma ReachedInvariant(s: State)
    requires Reached(s)
    ensures NumbersExact(s) && Accounted(s)
  {
    var start, actions :| s == Run(start, actions);
    RunInvariant(start, actions);
  }

  /** How many packets a schedule records. */
  function Recorded(actions: seq<Action>): nat {
    if actions == [] then 0
    else Recorded(actions[..|actions| - 1]) + if actions[|actions| - 1].Record? then 1 else 0
  }

  /** The ledger counts every recorded packet once. */
  lemma {:induction false} RecordedIsCounted(start: int, actions: seq<Action>)
    ensures Run(start, actions).recorded == Recorded(actions)
  {
    if actions != [] {
      RecordedIsCounted(start, actions[..|actions| - 1]);
    }
  }

  /** The schedule's packets are the current count, the snapshots, and those recorded between a
      snapshot and its reset. */
  ghost predicate Conserved(start: int, actions: seq<Action>) {
    var s := Run(start, actions);
    Recorded(actions) == s.packetCount + TotalOld(s.completed) + TotalSince(s.completed)
  }

  // ---- which schedules keep the simple account --------------------------------------------

  /** The action resets the rotation of thread `t`. */
  predicate Resets(s: State, a: Action, t: Thread) {
    a.ResetCounters? && a.thread == t && Opened(s, t)
  }

  /** The action is another rotation's reset: it discards packets while `u` is open, so both
      rotations report them. */
  predicate Robs(s: State, a: Action, u: Thread) {
    a.ResetCounters? && a.thread != u && Opened(s, a.thread) && Opened(s, u) && s.packetCount > 0
  }

  ghost predicate ResetsAt(start: int, actions: seq<Action>, i: nat, t: Thread)
    requires i < |actions|
  {
    Resets(Run(start, actions[..i]), actions[i], t)
  }

  ghost predicate RobsAt(start: int, actions: seq<Action>, i: nat, u: Thread)
    requires i < |actions|
  {
    Robs(Run(start, actions[..i]), actions[i], u)
  }

  /** While some rotation is open, another one's reset discards packets; later the first one
      resets as well. */
  ghost predicate SomeClash(start: int, actions: seq<Action>) {
    exists i: nat, k: nat, u: Thread ::
      i < k < |actions| && RobsAt(start, actions, i, u) && ResetsAt(start, actions, k, u)
  }

  ghost predicate Robbed(start: int, actions: seq<Action>, u: Thread) {
    exists i: nat :: i < |actions| && RobsAt(start, actions, i, u)
  }

  /** Earlier steps of a longer schedule are those of the shorter one. */
  lemma StepsKept(start: int, front: seq<Action>, a: Action, i: nat, u: Thread)
    requires i <= |front|
    ensures RobsAt(start, front + [a], i, u)
       <==> if i < |front| then RobsAt(start, front, i, u) else Robs(Run(start, front), a, u)
    ensures ResetsAt(start, front + [a], i, u)
       <==> if i < |front| then ResetsAt(start, front, i, u) else Resets(Run(start, front), a, u)
  {
    assert (front + [a])[..i] == front[..i];
    assert front[..|front|] == front;
  }

  lemma RobbedSnoc(start: int, front: seq<Action>, a: Action, u: Thread)
    ensures Robbed(start, front + [a], u) <==> Robbed(start, front, u) || Robs(Run(start, front), a, u)
  {
    forall i: nat | i <= |front|
      ensures RobsAt(start, front + [a], i, u)
         <==> if i < |front| then RobsAt(start, front, i, u) else Robs(Run(start, front), a, u)
    {
      StepsKept(start, front, a, i, u);
    }
    assert Robs(Run(start, front), a, u) ==> RobsAt(start, front + [a], |front|, u);
  }

  lemma ClashSnoc(start: int, front: seq<Action>, a: Action)
    ensures SomeClash(start, front + [a])
       <==> SomeClash(start, front)
            || (a.ResetCounters? && Opened(Run(start, front), a.thread) && Robbed(start, front, a.thread))
  {
    var grown := front + [a];
    forall i: nat, u | i <= |front|
      ensures RobsAt(start, grown, i, u)
         <==> if i < |front| then RobsAt(start, front, i, u) else Robs(Run(start, front), a, u)
      ensures ResetsAt(start, grown, i, u)
         <==> if i < |front| then ResetsAt(start, front, i, u) else Resets(Run(start, front), a, u)
    {
      StepsKept(start, front, a, i, u);
    }
    if a.ResetCounters? && Opened(Run(start, front), a.thread) && Robbed(start, front, a.thread) {
      var i: nat :| i < |front| && RobsAt(start, front, i, a.thread);
      assert RobsAt(start, grown, i, a.thread) && ResetsAt(start, grown, |front|, a.thread);
    }
    if SomeClash(start, front) {
      var i: nat, k: nat, u :| i < k < |front| && RobsAt(start, front, i, u) && ResetsAt(start, front, k, u);
      assert RobsAt(start, grown, i, u) && ResetsAt(start, grown, k, u);
    }
    if SomeClash(start, grown) {
      var i: nat, k: nat, u :| i < k < |grown| && RobsAt(start, grown, i, u) && ResetsAt(start, grown, k, u);
      assert RobsAt(start, front, i, u);
    }
  }

  /** An open rotation that another reset has discarded packets under. */
  predicate Doubled(s: State, u: Thread) {
    Opened(s, u) && s.inFlight[u].overlap > 0
  }

  lemma DoubledStep(s: State, a: Action, u: Thread)
    ensures Doubled(Apply(s, a), u) <==> !Resets(s, a, u) && (Doubled(s, u) || Robs(s, a, u))
  {
  }

  lemma TotalOverlapStep(s: State, a: Action)
    ensures TotalOverlap(Apply(s, a).completed) == TotalOverlap(s.completed)
              + if a.ResetCounters? && Opened(s, a.thread) then s.inFlight[a.thread].overlap else 0
  {
    var done := Apply(s, a).completed;
    assert done != s.completed ==> done[..|done| - 1] == s.completed;
  }

  /** The threads ever robbed are the open rotations with a nonzero overlap. */
  ghost predicate RobbedAreDoubled(start: int, actions: seq<Action>) {
    forall u :: Robbed(start, actions, u) <==> Doubled(Run(start, actions), u)
  }

  lemma RobbedStep(start: int, front: seq<Action>, a: Action)
    requires RobbedAreDoubled(start, front) && !SomeClash(start, front + [a])
    ensures RobbedAreDoubled(start, front + [a])
  {
    ClashSnoc(start, front, a);
    RunSnoc(start, front, a);
    forall u
      ensures Robbed(start, front + [a], u) <==> Doubled(Run(start, front + [a]), u)
    {
      RobbedSnoc(start, front, a, u);
      DoubledStep(Run(start, front), a, u);
    }
  }

  lemma ClashStep(start: int, front: seq<Action>, a: Action)
    requires SomeClash(start, front) <==> TotalOverlap(Run(start, front).completed) > 0
    requires !SomeClash(start, front) ==> RobbedAreDoubled(start, front)
    ensures SomeClash(start, front + [a]) <==> TotalOverlap(Run(start, front + [a]).completed) > 0
  {
    ClashSnoc(start, front, a);
    RunSnoc(start, front, a);
    TotalOverlapStep(Run(start, front), a);
    if a.ResetCounters? {
      assert Doubled(Run(start, front), a.thread) ==> TotalOverlap(Run(start, front + [a]).completed) > 0;
    }
  }

  /** Until there is a clash, the threads ever robbed are the open rotations with a nonzero
      overlap; the first clash is what puts a nonzero overlap on the books. */
  lemma {:induction false} ClashIsOverlap(start: int, actions: seq<Action>)
    ensures SomeClash(start, actions) <==> TotalOverlap(Run(start, actions).completed) > 0
    ensures !SomeClash(start, actions) ==> RobbedAreDoubled(start, actions)
  {
    if actions != [] {
      var front, a := actions[..|actions| - 1], actions[|actions| - 1];
      assert actions == front + [a];
      ClashIsOverlap(start, front);
      ClashSnoc(start, front, a);
      ClashStep(start, front, a);
      if !SomeClash(start, actions) {
        RobbedStep(start, front, a);
      }
    }
  }

  /** In general the simple account holds exactly for the schedules without a clash.  Mere
      overlap does no harm when the first reset finds no packet to discard, or while the second
      one is still to come. */
  lemma ConservedIff(start: int, actions: seq<Action>)
    ensures Conserved(start, actions) <==> !SomeClash(start, actions)
  {
    RunInvariant(start, actions);
    RecordedIsCounted(start, actions);
    ClashIsOverlap(start, actions);
  }

  ghost predicate SomeOpen(s: State) {
    exists t :: Opened(s, t)
  }

  /** No rotation takes its snapshot while another is open. */
  ghost predicate Serial(start: int, actions: seq<Action>) {
    forall i :: 0 <= i < |actions| && actions[i].Begin? ==> !SomeOpen(Run(start, actions[..i]))
  }

  /** At most one rotation is open. */
  ghost predicate Alone(s: State) {
    forall t, u :: Opened(s, t) && Opened(s, u) ==> t == u
  }

  lemma AloneStep(s: State, a: Action)
    requires Alone(s) && (a.Begin? ==> !SomeOpen(s))
    ensures Alone(Apply(s, a))
  {
    forall t, u | Opened(Apply(s, a), t) && Opened(Apply(s, a), u)
      ensures t == u
    {
      assert Opened(s, t) || a.Begin?;
      assert Opened(s, u) || a.Begin?;
    }
  }

  lemma {:induction false} SerialAlone(start: int, actions: seq<Action>)
    requires Serial(start, actions)
    ensures Alone(Run(start, actions))
  {
    if actions != [] {
      var front := actions[..|actions| - 1];
      assert forall i :: 0 <= i < |front| ==> front[..i] == actions[..i];
      SerialAlone(start, front);
      AloneStep(Run(start, front), actions[|actions| - 1]);
    }
  }

  /** In particular rotations that do not overlap keep it: packets recorded are the current
      count, the snapshots, and those recorded between snapshot and reset. */
  lemma SerialConserves(start: int, actions: seq<Action>)
    requires Serial(start, actions)
    ensures Conserved(start, actions)
  {
    forall i: nat, u | i < |actions|
      ensures !RobsAt(start, actions, i, u)
    {
      assert forall j :: 0 <= j < i ==> actions[..i][..j] == actions[..j];
      SerialAlone(start, actions[..i]);
    }
    ConservedIff(start, actions);
  }

  lemma RunSnoc(start: int, actions: seq<Action>, a: Action)
    ensures Run(start, actions + [a]) == Apply(Run(start, actions), a)
  {
    assert (actions + [a])[..|actions|] == actions;
  }

  /** Two open rotations that reset one after the other break the simple account whenever
      there was a packet to retire: both report it. */
  lemma OverlapCountsTwice(start: int, actions: seq<Action>, t: Thread, u: Thread, now: int)
    requires var s := Run(start, actions);
      t != u && Opened(s, t) && Opened(s, u) && s.packetCount > 0
    ensures !Conserved(start, actions + [ResetCounters(t, now)] + [ResetCounters(u, now)])
  {
    var one := actions + [ResetCounters(t, now)];
    var two := one + [ResetCounters(u, now)];
    RunSnoc(start, actions, ResetCounters(t, now));
    assert two[..|actions|] == actions && two[..|one|] == one;
    assert RobsAt(start, two, |actions|, u) && ResetsAt(start, two, |one|, u);
    ConservedIff(start, two);
  }

  /** Such a run exists: one packet and two overlapping rotations. */
  lemma OverlapWitness(start: int)
    ensures !Conserved(start, [Record] + [Begin(1, CountExceeded, start)] + [Begin(2, ManualForce, start)]
                              + [ResetCounters(1, start)] + [ResetCounters(2, start)])
  {
    var a1, a2 := Begin(1, CountExceeded, start), Begin(2, ManualForce, start);
    RunSnoc(start, [], Record);
    assert [] + [Record] == [Record];
    RunSnoc(start, [Record], a1);
    RunSnoc(start, [Record] + [a1], a2);
    OverlapCountsTwice(start, [Record] + [a1] + [a2], 1, 2, start);
  }

  /** Logged so far in order, with at most one rotation in flight, holding the next number. */
  ghost predicate InOrder(s: State) {
    && (forall i :: 0 <= i < |s.log| ==> s.log[i].num == i + 1)
    && (forall t, u :: t in s.inFlight && u in s.inFlight ==> t == u)
    && (forall t :: t in s.inFlight ==> s.inFlight[t].event.num == |s.log| + 1)
  }

  lemma InOrderStep(s: State, a: Action)
    requires InOrder(s) && NumbersExact(s) && (a.Begin? ==> s.inFlight == map[])
    ensures InOrder(Apply(s, a))
  {
    EmptyMap(s.inFlight);
  }

  /** When each rotation starts only after the previous one is logged, the log reads
      1, 2, 3, ... */
  lemma {:induction false} LogInOrder(start: int, actions: seq<Action>)
    requires forall i :: 0 <= i < |actions| && actions[i].Begin? ==> Run(start, actions[..i]).inFlight == map[]
    ensures InOrder(Run(start, actions))
  {
    if actions != [] {
      var front := actions[..|actions| - 1];
      assert forall i :: 0 <= i < |front| ==> front[..i] == actions[..i];
      LogInOrder(start, front);
      RunInvariant(start, front);
      InOrderStep(Run(start, front), actions[|actions| - 1]);
    }
  }

  lemma EmptyMap(m: map<Thread, Rotation>)
    ensures m == map[] <==> |m| == 0
  {
  }

  /** The three steps of one rotation in a row. */
  function Rotated(s: State, t: Thread, reason: Reason, now: int, later: int): State {
    Apply(Apply(Apply(s, Begin(t, reason, now)), ResetCounters(t, later)), AppendLog(t))
  }

  lemma WholeRotation(s: State, t: Thread, reason: Reason, now: int, later: int)
    requires t !in s.inFlight
    ensures var s1 := Apply(s, Begin(t, reason, now));
      var s2 := Apply(s1, ResetCounters(t, later));
      t in s2.inFlight && s2.inFlight[t].reset && s2.inFlight[t].event == s1.inFlight[t].event
    ensures var s3 := Rotated(s, t, reason, now, later);
      && s3.log == s.log + [RotationEvent(s.rotationCount + 1, reason, now - s.sessionStart, s.packetCount)]
      && s3.packetCount == 0 && s3.sessionStart == later && s3.rotationCount == s.rotationCount + 1
      && s3.recorded == s.recorded && s3.inFlight.Keys == s.inFlight.Keys
  {
  }

  // ---- the object -----------------------------------------------------------------------

  class KeyScheduler {
    const maxAge: int
    const maxPackets: int
    var packetCount: nat
    var sessionStart: int
    var rotationCount: nat
    var rotationLog: seq<RotationEvent>
    ghost var state: State

    /** The fields mirror a ledger that some interleaving reaches; `ReachedInvariant` says
        what that is worth. */
    ghost predicate Valid()
      reads this
    {
      && state.packetCount == packetCount && state.sessionStart == sessionStart
      && state.rotationCount == rotationCount && state.log == rotationLog
      && Reached(state)
    }

    constructor (maxAge: int, maxPackets: int, now: int)
      ensures Valid() && state == Initial(now)
      ensures this.maxAge == maxAge && this.maxPackets == maxPackets
    {
      this.maxAge, this.maxPackets := maxAge, maxPackets;
      packetCount, sessionStart, rotationCount, rotationLog := 0, now, 0, [];
      state := Initial(now);
      new;
      assert state == Run(now, []);
    }

    method RecordPacket()
      requires Valid()
      modifies this
      ensures Valid() && state == Apply(old(state), Record)
      ensures packetCount == old(packetCount) + 1 && sessionStart == old(sessionStart)
      ensures rotationCount == old(rotationCount) && rotationLog == old(rotationLog)
    {
      packetCount := packetCount + 1;
      Advance(Record);
    }

    ghost method Advance(a: Action)
      requires Reached(state)
      modifies this`state
      ensures state == Apply(old(state), a) && Reached(state)
    {
      ReachedStep(state, a);
      state := Apply(state, a);
    }

    /** Age is tested before count. */
    method ShouldRotate(now: int) returns (reason: Option<Reason>)
      ensures reason == Some(AgeExceeded) <==> now - sessionStart >= maxAge
      ensures reason == Some(CountExceeded) <==> now - sessionStart < maxAge && packetCount >= maxPackets
      ensures reason.None? <==> now - sessionStart < maxAge && packetCount < maxPackets
    {
      var age, count := now - sessionStart, packetCount;
      if age >= maxAge {
        return Some(AgeExceeded);
      }
      if count >= maxPackets {
        return Some(CountExceeded);
      }
      return None;
    }

    /** The first lock section: snapshot and number. */
    method BeginRotation(ghost thread: Thread, reason: Reason, now: int) returns (event: RotationEvent)
      requires Valid() && thread !in state.inFlight
      modifies this
      ensures Valid() && state == Apply(old(state), Begin(thread, reason, now))
      ensures thread in state.inFlight && state.inFlight[thread] == Rotation(event, false, 0, 0)
      ensures event == RotationEvent(old(rotationCount) + 1, reason, now - old(sessionStart), old(packetCount))
      ensures rotationCount == old(rotationCount) + 1 && packetCount == old(packetCount)
      ensures sessionStart == old(sessionStart) && rotationLog == old(rotationLog)
    {
      var oldAge := now - sessionStart;
      var oldCount := packetCount;
      rotationCount := rotationCount + 1;
      event := RotationEvent(rotationCount, reason, oldAge, oldCount);
      Advance(Begin(thread, reason, now));
    }

    /** The second lock section. */
    method ResetUsage(ghost thread: Thread, now: int)
      requires Valid() && thread in state.inFlight && !state.inFlight[thread].reset
      modifies this
      ensures Valid() && state == Apply(old(state), ResetCounters(thread, now))
      ensures packetCount == 0 && sessionStart == now
      ensures rotationCount == old(rotationCount) && rotationLog == old(rotationLog)
    {
      packetCount := 0;
      sessionStart := now;
      Advance(ResetCounters(thread, now));
    }

    method Log(ghost thread: Thread, event: RotationEvent)
      requires Valid() && thread in state.inFlight
      requires state.inFlight[thread].reset && state.inFlight[thread].event == event
      modifies this
      ensures Valid() && state == Apply(old(state), AppendLog(thread))
      ensures rotationLog == old(rotationLog) + [event] && rotationCount == old(rotationCount)
      ensures packetCount == old(packetCount) && sessionStart == old(sessionStart)
    {
      rotationLog := rotationLog + [event];
      Advance(AppendLog(thread));
    }

    /** A rotation that nothing interrupts retires exactly the packets it reports. */
    method DoRotation(ghost thread: Thread, reason: Reason, now: int, later: int)
      requires Valid() && thread !in state.inFlight
      modifies this
      ensures Valid() && state == Rotated(old(state), thread, reason, now, later)
      ensures packetCount == 0 && sessionStart == later && rotationCount == old(rotationCount) + 1
      ensures rotationLog == old(rotationLog)
                + [RotationEvent(rotationCount, reason, now - old(sessionStart), old(packetCount))]
    {
      WholeRotation(state, thread, reason, now, later);
      var event := BeginRotation(thread, reason, now);
      ResetUsage(thread, later);
      Log(thread, event);
    }

    method ForceRotation(ghost thread: Thread, now: int, later: int)
      requires Valid() && thread !in state.inFlight
      modifies this
      ensures Valid() && packetCount == 0 && sessionStart == later && rotationCount == old(rotationCount) + 1
      ensures rotationLog == old(rotationLog)
                + [RotationEvent(rotationCount, ManualForce, now - old(sessionStart), old(packetCount))]
    {
      DoRotation(thread, ManualForce, now, later);
    }

    /** One turn of the checker thread. */
    method RunOnce(ghost thread: Thread, now: int, later: int) returns (rotated: bool)
      requires Valid() && thread !in state.inFlight
      modifies this
      ensures Valid()
      ensures rotated <==> now - old(sessionStart) >= maxAge || old(packetCount) >= maxPackets
      ensures rotated ==>
        var reason := if now - old(sessionStart) >= maxAge then AgeExceeded else CountExceeded;
        && packetCount == 0 && sessionStart == later && rotationCount == old(rotationCount) + 1
        && rotationLog == old(rotationLog)
             + [RotationEvent(rotationCount, reason, now - old(sessionStart), old(packetCount))]
      ensures !rotated ==> state == old(state)
    {
      var reason := ShouldRotate(now);
      rotated := reason.Some?;
      if rotated {
        DoRotation(thread, reason.value, now, later);
      }
    }
  }
}
