/** The numbering core that the relay's and the validator's checkers share: per car a last
    accepted number and a bounded window of accepted numbers that evicts its minimum. */
module ReplayWindow {

  datatype NodeState = NodeState(last: int, seen: set<int>)

  const FRESH := NodeState(0, {})

  /** `window` is the number of remembered sequence numbers. */
  datatype Policy = Policy(strict: bool, window: nat)

  /** `clean` says that the checks that do not look at the numbering state succeeded. */
  datatype Event = Arrival(seqNo: int, clean: bool) | Reset

  ghost function MinOf(s: set<int>): (m: int)
    requires exists x :: x in s
    ensures m in s && forall x :: x in s ==> m <= x
  {
    MinExists(s);
    var m :| m in s && forall x :: x in s ==> m <= x;
    m
  }

  lemma {:induction false} MinExists(s: set<int>)
    requires exists x :: x in s
    ensures exists m :: m in s && forall x :: x in s ==> m <= x
  {
    var m :| m in s;
    var rest := s - {m};
    assert forall x :: x in s ==> x == m || x in rest;
    if exists x :: x in rest {
      MinExists(rest);
      var least :| least in rest && forall x :: x in rest ==> least <= x;
      assert (if m < least then m else least) in s;
    } else {
      assert m in s;
    }
  }

  ghost function Remember(window: nat, seen: set<int>, seqNo: int): set<int> {
    var grown := seen + {seqNo};
    assert seqNo in grown;
    if |grown| > window then grown - {MinOf(grown)} else grown
  }

  predicate Passes(strict: bool, st: NodeState, seqNo: int, clean: bool) {
    clean && seqNo > 0 && seqNo !in st.seen && !(strict && st.last > 0 && seqNo <= st.last)
  }

  ghost function Step(p: Policy, st: NodeState, e: Event): NodeState {
    match e
    case Reset => FRESH
    case Arrival(n, clean) =>
      if Passes(p.strict, st, n, clean) then NodeState(n, Remember(p.window, st.seen, n)) else st
  }

  ghost function Run(p: Policy, events: seq<Event>): NodeState {
    if events == [] then FRESH else Step(p, Run(p, events[..|events| - 1]), events[|events| - 1])
  }

  ghost predicate Verdict(p: Policy, events: seq<Event>, i: nat)
    requires i < |events|
  {
    events[i].Arrival? && Passes(p.strict, Run(p, events[..i]), events[i].seqNo, events[i].clean)
  }

  /** The distinct numbers accepted since the last reset. */
  ghost function Accepted(p: Policy, events: seq<Event>): set<int> {
    if events == [] then {}
    else
      var before := events[..|events| - 1];
      match events[|events| - 1]
      case Reset => {}
      case Arrival(n, clean) =>
        Accepted(p, before) + if Passes(p.strict, Run(p, before), n, clean) then {n} else {}
  }

  /** `top` holds the `k` largest members of `all`, or all of them when there are fewer. */
  ghost predicate IsLargest(k: nat, top: set<int>, all: set<int>) {
    && top <= all
    && |top| == (if |all| < k then |all| else k)
    && forall x, y :: x in top && y in all && y !in top ==> y < x
  }

  // ---- what the window holds ------------------------------------------------------------

  lemma RememberKeepsLargest(window: nat, seen: set<int>, all: set<int>, n: int)
    requires IsLargest(window, seen, all) && n !in seen
    ensures IsLargest(window, Remember(window, seen, n), all + {n})
  {
    var grown := seen + {n};
    var all' := all + {n};
    assert |grown| == |seen| + 1;
    if n in all {
      assert all' == all;
      SubsetSize(seen + {n}, all);
      assert |seen| == window;
      assert MinOf(grown) == n;
      assert grown - {n} == seen;
    } else {
      assert |all'| == |all| + 1;
      if |grown| > window {
        assert |grown - {MinOf(grown)}| == window;
        SubsetSize(grown, all');
      } else {
        assert |seen| == |all|;
        SubsetOfSameSize(seen, all);
      }
    }
  }

  lemma {:induction false} SubsetSize(a: set<int>, b: set<int>)
    requires a <= b
    ensures |a| <= |b|
  {
    assert b == a + (b - a) && a !! (b - a);
  }

  lemma SubsetOfSameSize(a: set<int>, b: set<int>)
    requires a <= b && |a| == |b|
    ensures a == b
  {
    assert b == a + (b - a) && a !! (b - a);
    assert |b - a| == 0;
  }

  /** Exactness of the bounded window: in every run, strict or not and with resets anywhere,
      it holds exactly the `window` largest numbers accepted since the reset. */
  lemma {:induction false} WindowExact(p: Policy, events: seq<Event>)
    ensures IsLargest(p.window, Run(p, events).seen, Accepted(p, events))
  {
    if events != [] {
      var before := events[..|events| - 1];
      WindowExact(p, before);
      match events[|events| - 1]
      case Reset =>
      case Arrival(n, clean) =>
        if Passes(p.strict, Run(p, before), n, clean) {
          RememberKeepsLargest(p.window, Run(p, before).seen, Accepted(p, before), n);
        } else {
          assert Accepted(p, before) + {} == Accepted(p, before);
        }
    }
  }

  /** In non-strict mode a number accepted before passes again exactly when at least `window`
      larger numbers have been accepted since the reset. */
  lemma ReacceptanceIff(p: Policy, events: seq<Event>, n: int)
    requires !p.strict && n in Accepted(p, events)
    ensures Passes(p.strict, Run(p, events), n, true)
       <==> |set y | y in Accepted(p, events) && y > n| >= p.window
  {
    var st, all := Run(p, events), Accepted(p, events);
    var above := set y | y in all && y > n;
    WindowExact(p, events);
    AcceptedPositive(p, events);
    if n in st.seen {
      assert above <= st.seen - {n};
      SubsetSize(above, st.seen - {n});
    } else {
      assert st.seen <= above;
      SubsetSize(st.seen, above);
      if |st.seen| == |all| {
        SubsetOfSameSize(st.seen, all);
      }
    }
  }

  lemma {:induction false} AcceptedPositive(p: Policy, events: seq<Event>)
    ensures forall x :: x in Accepted(p, events) ==> x > 0
  {
    if events != [] {
      AcceptedPositive(p, events[..|events| - 1]);
    }
  }

  /** The arrivals 1, 2, ..., k. */
  function CountUp(k: nat): seq<Event> {
    if k == 0 then [] else CountUp(k - 1) + [Arrival(k, true)]
  }

  function UpTo(k: nat): (r: set<int>)
    ensures |r| == k && forall x :: x in r <==> 1 <= x <= k
  {
    if k == 0 then {} else UpTo(k - 1) + {k}
  }

  /** Without strict ordering a new positive number is always accepted. */
  lemma NewAccepted(p: Policy, before: seq<Event>, n: int)
    requires !p.strict && n > 0 && n !in Accepted(p, before)
    ensures Accepted(p, before + [Arrival(n, true)]) == Accepted(p, before) + {n}
  {
    WindowExact(p, before);
    assert (before + [Arrival(n, true)])[..|before|] == before;
  }

  lemma {:induction false} CountUpAccepted(p: Policy, k: nat)
    requires !p.strict
    ensures Accepted(p, CountUp(k)) == UpTo(k)
  {
    if k > 0 {
      var before := CountUp(k - 1);
      CountUpAccepted(p, k - 1);
      NewAccepted(p, before, k);
    }
  }

  /** The promise that seen numbers are rejected fails at the plainest input: after 1, 2, ...,
      k without strict ordering, the number 1 passes again as soon as k exceeds the window. */
  lemma OneReaccepted(p: Policy, k: nat)
    requires !p.strict && k >= 1
    ensures 1 in Accepted(p, CountUp(k))
    ensures Passes(p.strict, Run(p, CountUp(k)), 1, true) <==> k > p.window
  {
    CountUpAccepted(p, k);
    ReacceptanceIff(p, CountUp(k), 1);
    assert (set y | y in Accepted(p, CountUp(k)) && y > 1) == UpTo(k) - {1};
  }

  // ---- strict mode ----------------------------------------------------------------------

  /** The last number is the largest accepted one, or zero; the window holds accepted numbers
      only. */
  ghost predicate StrictState(st: NodeState, all: set<int>) {
    && st.last >= 0
    && (forall x :: x in all ==> 0 < x <= st.last)
    && (st.last > 0 ==> st.last in all)
    && st.seen <= all
  }

  lemma StrictStateStep(p: Policy, st: NodeState, all: set<int>, n: int, clean: bool)
    requires p.strict && StrictState(st, all)
    ensures Passes(p.strict, st, n, clean) <==> clean && n > st.last
    ensures Passes(p.strict, st, n, clean) ==> StrictState(NodeState(n, Remember(p.window, st.seen, n)), all + {n})
  {
    assert n in st.seen ==> n in all;
    assert Remember(p.window, st.seen, n) <= st.seen + {n};
  }

  /** In strict mode the last number is the largest accepted one, and bounds the window. */
  lemma {:induction false} StrictInvariant(p: Policy, events: seq<Event>)
    requires p.strict
    ensures StrictState(Run(p, events), Accepted(p, events))
  {
    if events != [] {
      var before := events[..|events| - 1];
      StrictInvariant(p, before);
      match events[|events| - 1]
      case Reset =>
      case Arrival(n, clean) =>
        StrictStateStep(p, Run(p, before), Accepted(p, before), n, clean);
        assert Accepted(p, before) + {} == Accepted(p, before);
    }
  }

  /** The strict verdict depends on the last number only: the window never decides. */
  lemma {:induction false} StrictVerdict(p: Policy, events: seq<Event>, n: int, clean: bool)
    requires p.strict
    ensures Passes(p.strict, Run(p, events), n, clean) <==> clean && n > Run(p, events).last
  {
    StrictInvariant(p, events);
    StrictStateStep(p, Run(p, events), Accepted(p, events), n, clean);
  }

  /** What strict mode keeps of one car's state. */
  ghost predicate Ordered(st: NodeState) {
    st.last >= 0 && forall x :: x in st.seen ==> x <= st.last
  }

  lemma StrictStep(p: Policy, st: NodeState, n: int, clean: bool)
    requires p.strict && Ordered(st)
    ensures Passes(p.strict, st, n, clean) <==> clean && n > st.last
    ensures var st' := Step(p, st, Arrival(n, clean));
      Ordered(st') && st'.last == if clean && n > st.last then n else st.last
  {
  }

  /** A checker that never forgets. */
  ghost function StepUnbounded(strict: bool, st: NodeState, e: Event): NodeState {
    match e
    case Reset => FRESH
    case Arrival(n, clean) =>
      if Passes(strict, st, n, clean) then NodeState(n, st.seen + {n}) else st
  }

  ghost function RunUnbounded(strict: bool, events: seq<Event>): NodeState {
    if events == [] then FRESH
    else StepUnbounded(strict, RunUnbounded(strict, events[..|events| - 1]), events[|events| - 1])
  }

  /** In strict mode forgetting is invisible: after every run, and for every next arrival,
      the bounded checker and the one with unbounded history give the same verdict. */
  lemma BoundedIsUnbounded(p: Policy, events: seq<Event>, n: int, clean: bool)
    requires p.strict
    ensures Passes(p.strict, Run(p, events), n, clean)
       <==> Passes(p.strict, RunUnbounded(p.strict, events), n, clean)
  {
    StrictVerdict(p, events, n, clean);
    UnboundedState(p, events);
    StrictInvariant(p, events);
  }

  lemma {:induction false} UnboundedState(p: Policy, events: seq<Event>)
    requires p.strict
    ensures RunUnbounded(p.strict, events) == NodeState(Run(p, events).last, Accepted(p, events))
  {
    if events != [] {
      var before := events[..|events| - 1];
      UnboundedState(p, before);
      StrictInvariant(p, before);
      match events[|events| - 1]
      case Reset =>
      case Arrival(n, clean) =>
        StrictVerdict(p, before, n, clean);
        assert Accepted(p, before) + {} == Accepted(p, before);
    }
  }

  // ---- several cars ---------------------------------------------------------------------

  datatype NodeEvent = NodeEvent(node: string, event: Event)

  function Lookup(states: map<string, NodeState>, node: string): NodeState {
    if node in states then states[node] else FRESH
  }

  /** The two dictionaries of a checker, read as one. */
  ghost function Zip(last: map<string, int>, seen: map<string, set<int>>): map<string, NodeState>
    requires last.Keys == seen.Keys
  {
    map n | n in last :: NodeState(last[n], seen[n])
  }

  lemma ZipUpdate(last: map<string, int>, seen: map<string, set<int>>, node: string, l: int, s: set<int>)
    requires last.Keys == seen.Keys
    ensures last[node := l].Keys == seen[node := s].Keys
    ensures Zip(last[node := l], seen[node := s]) == Zip(last, seen)[node := NodeState(l, s)]
  {
  }

  /** An arrival creates its car's entry even when it is rejected; a reset removes it. */
  ghost function StepAll(p: Policy, states: map<string, NodeState>, e: NodeEvent): map<string, NodeState> {
    if e.event.Reset? then states - {e.node}
    else states[e.node := Step(p, Lookup(states, e.node), e.event)]
  }

  ghost function RunAll(p: Policy, events: seq<NodeEvent>): map<string, NodeState> {
    if events == [] then map[]
    else StepAll(p, RunAll(p, events[..|events| - 1]), events[|events| - 1])
  }

  /** The events of one car, in order. */
  function Own(events: seq<NodeEvent>, node: string): seq<Event> {
    if events == [] then []
    else
      var before := Own(events[..|events| - 1], node);
      if events[|events| - 1].node == node then before + [events[|events| - 1].event] else before
  }

  /** Cars do not interfere: in an interleaved run each car's state is that of its own events
      run alone, and therefore so is the verdict on its next arrival. */
  lemma {:induction false} CarsIndependent(p: Policy, events: seq<NodeEvent>, node: string)
    ensures Lookup(RunAll(p, events), node) == Run(p, Own(events, node))
  {
    if events != [] {
      var before := events[..|events| - 1];
      CarsIndependent(p, before, node);
      var e := events[|events| - 1];
      if e.node == node {
        assert Own(events, node)[..|Own(events, node)| - 1] == Own(before, node);
      }
    }
  }
}
