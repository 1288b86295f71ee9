/** What one check of one packet finds, as both checkers compute it. */
module CheckFindings {
  import opened Packets
  import opened ReplayWindow

  datatype Error = InvalidSequence | ReplayDetected | OutOfOrder | StaleTimestamp | MissingSignature

  datatype Warning = LargeGap(gap: int) | FutureTimestamp(age: int)

  datatype CheckConfig = CheckConfig(
    strict: bool, checkTimestamps: bool, checkSignatures: bool, maxAgeMs: int, maxGap: int)

  class CheckResult {
    var passed: bool
    var warnings: seq<Warning>
    var errors: seq<Error>

    constructor ()
      ensures passed && warnings == [] && errors == []
    {
      passed, warnings, errors := true, [], [];
    }

    /** Append a warning when `found`. */
    method Warn(found: bool, w: Warning)
      modifies this
      ensures passed == old(passed) && errors == old(errors) && warnings == When(found, old(warnings), w)
    {
      if found {
        warnings := warnings + [w];
      }
    }

    /** Append an error, and fail the packet, when `found`. */
    method Fail(found: bool, e: Error)
      modifies this
      ensures passed == (old(passed) && !found) && errors == When(found, old(errors), e) && warnings == old(warnings)
    {
      if found {
        errors := errors + [e];
        passed := false;
      }
    }
  }

  predicate Stale(cfg: CheckConfig, ts: int, now: int) {
    cfg.checkTimestamps && ts > 0 && now - ts > cfg.maxAgeMs
  }

  predicate Gap(cfg: CheckConfig, st: NodeState, seqNo: int) {
    st.last > 0 && seqNo - st.last > cfg.maxGap
  }

  /** The checks that do not look at the numbering state. */
  predicate Clean(cfg: CheckConfig, ts: int, now: int, signed: bool) {
    !Stale(cfg, ts, now) && (cfg.checkSignatures ==> signed)
  }

  predicate Future(cfg: CheckConfig, ts: int, now: int) {
    cfg.checkTimestamps && ts > 0 && !Stale(cfg, ts, now) && now - ts < -5000
  }

  function Errors(cfg: CheckConfig, st: NodeState, n: int, ts: int, now: int, signed: bool): seq<Error> {
    var e1 := When(n <= 0, [], InvalidSequence);
    var e2 := When(n in st.seen, e1, ReplayDetected);
    var e3 := When(cfg.strict && st.last > 0 && n <= st.last, e2, OutOfOrder);
    var e4 := When(Stale(cfg, ts, now), e3, StaleTimestamp);
    When(cfg.checkSignatures && !signed, e4, MissingSignature)
  }

  function Warnings(cfg: CheckConfig, st: NodeState, n: int, ts: int, now: int): seq<Warning> {
    When(Future(cfg, ts, now), When(Gap(cfg, st, n), [], LargeGap(n - st.last)), FutureTimestamp(now - ts))
  }

  /** At most one error of each kind, in the order of the checks, each under its own
      condition on the packet and the car's state. */
  lemma ErrorsAre(cfg: CheckConfig, st: NodeState, n: int, ts: int, now: int, signed: bool)
    ensures Errors(cfg, st, n, ts, now, signed)
         == (if n <= 0 then [InvalidSequence] else [])
          + (if n in st.seen then [ReplayDetected] else [])
          + (if cfg.strict && 0 < st.last && n <= st.last then [OutOfOrder] else [])
          + (if cfg.checkTimestamps && 0 < ts < now - cfg.maxAgeMs then [StaleTimestamp] else [])
          + (if cfg.checkSignatures && !signed then [MissingSignature] else [])
  {
  }

  /** The verdict is that there is no error. */
  lemma PassesIffNoErrors(cfg: CheckConfig, st: NodeState, n: int, ts: int, now: int, signed: bool)
    ensures Passes(cfg.strict, st, n, Clean(cfg, ts, now, signed)) <==> Errors(cfg, st, n, ts, now, signed) == []
  {
  }

  /** A packet is warned about for its gap and for a stamp more than five seconds ahead, in
      that order, with the amounts. */
  lemma WarningsAre(cfg: CheckConfig, st: NodeState, n: int, ts: int, now: int)
    ensures Warnings(cfg, st, n, ts, now)
         == (if 0 < st.last < n - cfg.maxGap then [LargeGap(n - st.last)] else [])
          + (if cfg.checkTimestamps && ts > 0 && now - ts < -5000 && now - ts <= cfg.maxAgeMs
             then [FutureTimestamp(now - ts)] else [])
  {
  }

  /** The body of both `check` methods up to the state update: each test appends its own
      finding, and the verdict is the numbering core's. */
  method Inspect(cfg: CheckConfig, last: int, seen: set<int>, n: int, ts: int, now: int, signed: bool)
    returns (result: CheckResult)
    ensures fresh(result)
    ensures result.errors == Errors(cfg, NodeState(last, seen), n, ts, now, signed)
    ensures result.warnings == Warnings(cfg, NodeState(last, seen), n, ts, now)
    ensures result.passed == Passes(cfg.strict, NodeState(last, seen), n, Clean(cfg, ts, now, signed))
  {
    result := new CheckResult();
    result.Fail(n <= 0, InvalidSequence);
    result.Fail(n in seen, ReplayDetected);
    result.Fail(cfg.strict && last > 0 && n <= last, OutOfOrder);
    result.Warn(last > 0 && n - last > cfg.maxGap, LargeGap(n - last));
    if cfg.checkTimestamps && ts > 0 {
      var age := now - ts;
      if age > cfg.maxAgeMs {
        result.Fail(true, StaleTimestamp);
      } else {
        result.Warn(age < -5000, FutureTimestamp(age));
      }
    }
    result.Fail(cfg.checkSignatures && !signed, MissingSignature);
  }

  /** The rolling window: add, then discard the minimum when the window overflows. */
  method Slide(window: nat, seen: set<int>, n: int) returns (kept: set<int>)
    ensures kept == Remember(window, seen, n)
  {
    kept := seen + {n};
    if |kept| > window {
      assert n in kept;
      MinExists(kept);
      var oldest :| oldest in kept && forall x :: x in kept ==> oldest <= x;
      assert oldest == MinOf(kept);
      kept := kept - {oldest};
    }
  }
}

/** Sequence ordering and replay defence at the validator. */
module ValidatorSequenceCheckers {
  import opened Packets
  import opened ReplayWindow
  import opened CheckFindings

  const REPLAY_WINDOW: nat := 50_000

  /** The car whose state a packet is checked against. */
  function CheckedNode(p: Packet): string {
    NonEmptyOr(p.originalNode, p.nodeId.GetOr("unknown"))
  }

  class ValidatorSequenceChecker {
    const maxAgeMs: int
    const maxGap: int
    const checkTimestamps: bool
    const strict: bool
    var lastSeq: map<string, int>
    var seenSeqs: map<string, set<int>>
    var checkedCount: nat
    var passedCount: nat
    var failedCount: nat
    var replayCount: nat
    var gapCount: nat

    ghost predicate Valid()
      reads this
    {
      lastSeq.Keys == seenSeqs.Keys && checkedCount == passedCount + failedCount
    }

    ghost function States(): map<string, NodeState>
      reads this
      requires Valid()
    {
      Zip(lastSeq, seenSeqs)
    }

    function Config(): CheckConfig {
      CheckConfig(strict, checkTimestamps, false, maxAgeMs, maxGap)
    }

    ghost function WindowPolicy(): Policy {
      Policy(strict, REPLAY_WINDOW)
    }

    constructor (maxAgeMs: int, maxGap: int, checkTimestamps: bool, strict: bool)
      ensures Valid() && States() == map[]
      ensures Config() == CheckConfig(strict, checkTimestamps, false, maxAgeMs, maxGap)
      ensures checkedCount == passedCount == failedCount == replayCount == gapCount == 0
    {
      this.maxAgeMs, this.maxGap := maxAgeMs, maxGap;
      this.checkTimestamps, this.strict := checkTimestamps, strict;
      lastSeq, seenSeqs := map[], map[];
      checkedCount, passedCount, failedCount, replayCount, gapCount := 0, 0, 0, 0, 0;
    }

    /** Look up a car's state, creating the entry of a new car. */
    method Enter(node: string) returns (last: int, seen: set<int>)
      requires Valid()
      modifies this`lastSeq, this`seenSeqs
      ensures Valid() && NodeState(last, seen) == Lookup(old(States()), node)
      ensures States() == old(States())[node := NodeState(last, seen)]
    {
      if node !in lastSeq {
        ZipUpdate(lastSeq, seenSeqs, node, 0, {});
        lastSeq := lastSeq[node := 0];
        seenSeqs := seenSeqs[node := {}];
      }
      last, seen := lastSeq[node], seenSeqs[node];
    }

    /** Record an accepted number. */
    method Admit(node: string, n: int, seen: set<int>)
      requires Valid()
      modifies this`lastSeq, this`seenSeqs
      ensures Valid() && States() == old(States())[node := NodeState(n, Remember(REPLAY_WINDOW, seen, n))]
    {
      var kept := Slide(REPLAY_WINDOW, seen, n);
      ZipUpdate(lastSeq, seenSeqs, node, n, kept);
      lastSeq := lastSeq[node := n];
      seenSeqs := seenSeqs[node := kept];
    }

    /** An accepted number moves its car's state on. */
    method Advance(node: string, last: int, seen: set<int>, n: int, passed: bool, ghost clean: bool,
                   ghost before: map<string, NodeState>)
      requires Valid() && NodeState(last, seen) == Lookup(before, node)
      requires States() == before[node := NodeState(last, seen)]
      requires passed == Passes(WindowPolicy().strict, NodeState(last, seen), n, clean)
      modifies this`lastSeq, this`seenSeqs
      ensures Valid()
      ensures States() == StepAll(WindowPolicy(), before, NodeEvent(node, Arrival(n, clean)))
    {
      if passed {
        Admit(node, n, seen);
      }
    }

    /** The statistics of one check. */
    method Tally(passed: bool, replayed: bool, gapped: bool)
      requires Valid()
      modifies this`checkedCount, this`passedCount, this`failedCount, this`replayCount, this`gapCount
      ensures Valid() && States() == old(States())
      ensures checkedCount == old(checkedCount) + 1 && passedCount == old(passedCount) + (if passed then 1 else 0)
      ensures replayCount == old(replayCount) + (if replayed then 1 else 0)
      ensures gapCount == old(gapCount) + (if gapped then 1 else 0)
    {
      if replayed {
        replayCount := replayCount + 1;
      }
      if gapped {
        gapCount := gapCount + 1;
      }
      checkedCount := checkedCount + 1;
      if passed {
        passedCount := passedCount + 1;
      } else {
        failedCount := failedCount + 1;
      }
    }

    /** The checks of one packet of a car, and the state update. */
    method Judge(node: string, n: int, ts: int, now: int) returns (result: CheckResult, last: int, seen: set<int>)
      requires Valid()
      modifies this`lastSeq, this`seenSeqs
      ensures Valid() && fresh(result) && NodeState(last, seen) == Lookup(old(States()), node)
      ensures result.errors == Errors(Config(), NodeState(last, seen), n, ts, now, false)
      ensures result.warnings == Warnings(Config(), NodeState(last, seen), n, ts, now)
      ensures result.passed == Passes(strict, NodeState(last, seen), n, !Stale(Config(), ts, now))
      ensures States()
           == StepAll(WindowPolicy(), old(States()), NodeEvent(node, Arrival(n, !Stale(Config(), ts, now))))
    {
      last, seen := Enter(node);
      result := Inspect(Config(), last, seen, n, ts, now, false);
      Advance(node, last, seen, n, result.passed, !Stale(Config(), ts, now), old(States()));
    }

    /** One packet: the verdict is the core's, the car's state takes the core's step, every
        other car is untouched, and each counter moves by its own finding. */
    method Check(packet: Packet, now: int) returns (result: CheckResult)
      requires Valid()
      modifies this
      ensures Valid() && fresh(result)
      ensures var node, n, ts := CheckedNode(packet), packet.sequenceNo.GetOr(0), packet.timestamp.GetOr(0);
        var st := Lookup(old(States()), node);
        && result.errors == Errors(Config(), st, n, ts, now, false)
        && result.warnings == Warnings(Config(), st, n, ts, now)
        && result.passed == Passes(strict, st, n, !Stale(Config(), ts, now))
        && States() == StepAll(WindowPolicy(), old(States()), NodeEvent(node, Arrival(n, !Stale(Config(), ts, now))))
        && replayCount == old(replayCount) + (if n in st.seen then 1 else 0)
        && gapCount == old(gapCount) + (if Gap(Config(), st, n) then 1 else 0)
      ensures checkedCount == old(checkedCount) + 1
      ensures passedCount == old(passedCount) + (if result.passed then 1 else 0)
    {
      var node := CheckedNode(packet);
      var n := packet.sequenceNo.GetOr(0);
      var ts := packet.timestamp.GetOr(0);
      var last, seen;
      result, last, seen := Judge(node, n, ts, now);
      Tally(result.passed, n in seen, last > 0 && n - last > maxGap);
    }

    method ResetNode(node: string)
      requires Valid()
      modifies this`lastSeq, this`seenSeqs
      ensures Valid() && States() == StepAll(WindowPolicy(), old(States()), NodeEvent(node, Reset))
    {
      lastSeq := lastSeq - {node};
      seenSeqs := seenSeqs - {node};
    }
  }
}

/** Sequence and replay integrity at the relay: always strict, with a signature-presence
    check and a shorter window. */
module IntegrityCheckers {
  import opened Packets
  import opened ReplayWindow
  import opened CheckFindings

  const REPLAY_WINDOW_SIZE: nat := 10_000

  class IntegrityChecker {
    const maxAgeMs: int
    const maxGap: int
    const checkTimestamps: bool
    const checkSignatures: bool
    var lastSequence: map<string, int>
    var seenSequences: map<string, set<int>>
    var checkedCount: nat
    var passedCount: nat
    var failedCount: nat
    var replayCount: nat
    var outOfOrder: nat

    ghost predicate Valid()
      reads this
    {
      lastSequence.Keys == seenSequences.Keys && checkedCount == passedCount + failedCount
    }

    ghost function States(): map<string, NodeState>
      reads this
      requires Valid()
    {
      Zip(lastSequence, seenSequences)
    }

    function Config(): CheckConfig {
      CheckConfig(true, checkTimestamps, checkSignatures, maxAgeMs, maxGap)
    }

    ghost function WindowPolicy(): Policy {
      Policy(true, REPLAY_WINDOW_SIZE)
    }

    constructor (maxAgeMs: int, maxGap: int, checkTimestamps: bool, checkSignatures: bool)
      ensures Valid() && States() == map[]
      ensures Config() == CheckConfig(true, checkTimestamps, checkSignatures, maxAgeMs, maxGap)
      ensures checkedCount == passedCount == failedCount == replayCount == outOfOrder == 0
    {
      this.maxAgeMs, this.maxGap := maxAgeMs, maxGap;
      this.checkTimestamps, this.checkSignatures := checkTimestamps, checkSignatures;
      lastSequence, seenSequences := map[], map[];
      checkedCount, passedCount, failedCount, replayCount, outOfOrder := 0, 0, 0, 0, 0;
    }

    /** Look up a car's state, creating the entry of a new car. */
    method Enter(node: string) returns (last: int, seen: set<int>)
      requires Valid()
      modifies this`lastSequence, this`seenSequences
      ensures Valid() && NodeState(last, seen) == Lookup(old(States()), node)
      ensures States() == old(States())[node := NodeState(last, seen)]
    {
      if node !in lastSequence {
        ZipUpdate(lastSequence, seenSequences, node, 0, {});
        lastSequence := lastSequence[node := 0];
        seenSequences := seenSequences[node := {}];
      }
      last, seen := lastSequence[node], seenSequences[node];
    }

    /** Record an accepted number. */
    method Admit(node: string, n: int, seen: set<int>)
      requires Valid()
      modifies this`lastSequence, this`seenSequences
      ensures Valid() && States() == old(States())[node := NodeState(n, Remember(REPLAY_WINDOW_SIZE, seen, n))]
    {
      var kept := Slide(REPLAY_WINDOW_SIZE, seen, n);
      ZipUpdate(lastSequence, seenSequences, node, n, kept);
      lastSequence := lastSequence[node := n];
      seenSequences := seenSequences[node := kept];
    }

    /** An accepted number moves its car's state on. */
    method Advance(node: string, last: int, seen: set<int>, n: int, passed: bool, ghost clean: bool,
                   ghost before: map<string, NodeState>)
      requires Valid() && NodeState(last, seen) == Lookup(before, node)
      requires States() == before[node := NodeState(last, seen)]
      requires passed == Passes(WindowPolicy().strict, NodeState(last, seen), n, clean)
      modifies this`lastSequence, this`seenSequences
      ensures Valid()
      ensures States() == StepAll(WindowPolicy(), before, NodeEvent(node, Arrival(n, clean)))
    {
      if passed {
        Admit(node, n, seen);
      }
    }

    /** The statistics of one check. */
    method Tally(passed: bool, replayed: bool, late: bool)
      requires Valid()
      modifies this`checkedCount, this`passedCount, this`failedCount, this`replayCount, this`outOfOrder
      ensures Valid() && States() == old(States())
      ensures checkedCount == old(checkedCount) + 1 && passedCount == old(passedCount) + (if passed then 1 else 0)
      ensures replayCount == old(replayCount) + (if replayed then 1 else 0)
      ensures outOfOrder == old(outOfOrder) + (if late then 1 else 0)
    {
      if replayed {
        replayCount := replayCount + 1;
      }
      if late {
        outOfOrder := outOfOrder + 1;
      }
      checkedCount := checkedCount + 1;
      if passed {
        passedCount := passedCount + 1;
      } else {
        failedCount := failedCount + 1;
      }
    }

    /** The checks of one packet of a car, and the state update. */
    method Judge(node: string, n: int, ts: int, now: int, signed: bool)
      returns (result: CheckResult, last: int, seen: set<int>)
      requires Valid()
      modifies this`lastSequence, this`seenSequences
      ensures Valid() && fresh(result) && NodeState(last, seen) == Lookup(old(States()), node)
      ensures result.errors == Errors(Config(), NodeState(last, seen), n, ts, now, signed)
      ensures result.warnings == Warnings(Config(), NodeState(last, seen), n, ts, now)
      ensures result.passed == Passes(true, NodeState(last, seen), n, Clean(Config(), ts, now, signed))
      ensures States()
           == StepAll(WindowPolicy(), old(States()), NodeEvent(node, Arrival(n, Clean(Config(), ts, now, signed))))
    {
      last, seen := Enter(node);
      result := Inspect(Config(), last, seen, n, ts, now, signed);
      Advance(node, last, seen, n, result.passed, Clean(Config(), ts, now, signed), old(States()));
    }

    method Check(packet: Packet, now: int) returns (result: CheckResult)
      requires Valid()
      modifies this
      ensures Valid() && fresh(result)
      ensures var node, n, ts := packet.nodeId.GetOr("unknown"), packet.sequenceNo.GetOr(0), packet.timestamp.GetOr(0);
        var st := Lookup(old(States()), node);
        var signed := Truthy(packet.signature) || Truthy(packet.signatureBytes);
        && result.errors == Errors(Config(), st, n, ts, now, signed)
        && result.warnings == Warnings(Config(), st, n, ts, now)
        && result.passed == Passes(true, st, n, Clean(Config(), ts, now, signed))
        && States()
             == StepAll(WindowPolicy(), old(States()), NodeEvent(node, Arrival(n, Clean(Config(), ts, now, signed))))
        && replayCount == old(replayCount) + (if n in st.seen then 1 else 0)
        && outOfOrder == old(outOfOrder) + (if st.last > 0 && n <= st.last then 1 else 0)
      ensures checkedCount == old(checkedCount) + 1
      ensures passedCount == old(passedCount) + (if result.passed then 1 else 0)
    {
      var node := packet.nodeId.GetOr("unknown");
      var n := packet.sequenceNo.GetOr(0);
      var ts := packet.timestamp.GetOr(0);
      var signed := Truthy(packet.signature) || Truthy(packet.signatureBytes);
      var last, seen;
      result, last, seen := Judge(node, n, ts, now, signed);
      Tally(result.passed, n in seen, last > 0 && n <= last);
    }

    method ResetNode(node: string)
      requires Valid()
      modifies this`lastSequence, this`seenSequences
      ensures Valid() && States() == StepAll(WindowPolicy(), old(States()), NodeEvent(node, Reset))
    {
      lastSequence := lastSequence - {node};
      seenSequences := seenSequences - {node};
    }
  }
}
