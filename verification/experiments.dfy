/** The experiment drivers' own logic: replaying precomputed action queues
    tick by tick (`execute_all_actions` in Decentralized_Control_Experiment.py),
    finding the taxis that could serve a passenger alone, and counting the
    successes of the collaboration experiment
    (ControllerWrapper/Collaboration_Experiment.py). */
module Experiments {
  import opened Results
  import opened Grid
  import opened Search
  import opened Paths
  import opened Taxis
  import Actions

  // ---------------------------------------------------------------------
  // Executing all precomputed actions
  // ---------------------------------------------------------------------

  /** The length of the longest queue. */
  function Longest(qs: seq<seq<int>>): (m: nat)
    ensures forall i :: 0 <= i < |qs| ==> |qs[i]| <= m
    ensures qs != [] ==> exists i :: 0 <= i < |qs| && |qs[i]| == m
    ensures qs == [] ==> m == 0
    decreases |qs|
  {
    if qs == [] then 0
    else
      var rest := Longest(qs[1..]);
      assert forall i :: 1 <= i < |qs| ==> qs[i] == qs[1..][i - 1];
      if |qs[0]| >= rest then |qs[0]| else rest
  }

  /** The number of actions left in all queues together. */
  function Total(qs: seq<seq<int>>): nat
    decreases |qs|
  {
    if qs == [] then 0 else |qs[0]| + Total(qs[1..])
  }

  /** Queues that are each no longer hold no more actions in total, and
      strictly fewer when one of them is strictly shorter. */
  lemma {:induction false} ShorterQueuesShrinkTotal(qs: seq<seq<int>>, rs: seq<seq<int>>)
    requires |rs| == |qs| && forall i :: 0 <= i < |qs| ==> |rs[i]| <= |qs[i]|
    ensures Total(rs) <= Total(qs)
    ensures (exists i :: 0 <= i < |qs| && |rs[i]| < |qs[i]|) ==> Total(rs) < Total(qs)
    decreases |qs|
  {
    if qs != [] {
      assert forall i :: 1 <= i < |qs| ==> qs[i] == qs[1..][i - 1] && rs[i] == rs[1..][i - 1];
      ShorterQueuesShrinkTotal(qs[1..], rs[1..]);
    }
  }

  /** The joint action vector of one tick: each queue's front action, or
      standby for a queue that is already empty. */
  function TickActions(qs: seq<seq<int>>): (r: seq<int>)
    ensures |r| == |qs|
  {
    seq(|qs|, i requires 0 <= i < |qs| => if qs[i] != [] then qs[i][0] else Actions.Standby)
  }

  /** The queues after one tick: every non-empty queue loses its front. */
  function TickRest(qs: seq<seq<int>>): (r: seq<seq<int>>)
    ensures |r| == |qs|
  {
    seq(|qs|, i requires 0 <= i < |qs| => if qs[i] != [] then qs[i][1..] else [])
  }

  /** A tick taken while some queue still holds an action removes at least
      one action, so the replay loop ends. */
  lemma TickShrinksTotal(qs: seq<seq<int>>)
    requires exists i :: 0 <= i < |qs| && qs[i] != []
    ensures Total(TickRest(qs)) < Total(qs)
  {
    var i :| 0 <= i < |qs| && qs[i] != [];
    assert |TickRest(qs)[i]| < |qs[i]|;
    ShorterQueuesShrinkTotal(qs, TickRest(qs));
  }

  /** What is left of queue `q` after `t` ticks. */
  function Drop(q: seq<int>, t: nat): seq<int>
  {
    if t <= |q| then q[t..] else []
  }

  /** The action queue `q` contributes at tick `t`. */
  function At(q: seq<int>, t: nat): int
  {
    if t < |q| then q[t] else Actions.Standby
  }

  /** Tick `t` hands out `At(q, t)` and leaves `Drop(q, t + 1)`. */
  lemma DropStep(q: seq<int>, t: nat)
    ensures Drop(q, t) != [] <==> t < |q|
    ensures Drop(q, t) != [] ==> Drop(q, t)[0] == At(q, t) && Drop(q, t)[1..] == Drop(q, t + 1)
    ensures Drop(q, t) == [] ==> Drop(q, t + 1) == [] && At(q, t) == Actions.Standby
  {
  }

  /** After `t` ticks, queue `i` holds what follows its first `t` actions. */
  predicate QueuesAt(actions: seq<seq<int>>, qs: seq<seq<int>>, t: nat)
  {
    |qs| == |actions| && forall i :: 0 <= i < |qs| ==> qs[i] == Drop(actions[i], t)
  }

  /** Each vector of the trace has one entry per queue: at tick `t`, the
      queue's `t`-th action, or standby once the queue is used up. */
  predicate TraceMatches(actions: seq<seq<int>>, trace: seq<seq<int>>)
  {
    forall t :: 0 <= t < |trace| ==>
      |trace[t]| == |actions| && forall i :: 0 <= i < |actions| ==> trace[t][i] == At(actions[i], t)
  }

  /** A tick taken while some queue is not used up extends the trace by the
      right vector, leaves the queues one tick further on, and stays within
      the longest queue's length. */
  lemma TickAdvances(actions: seq<seq<int>>, qs: seq<seq<int>>, trace: seq<seq<int>>)
    requires QueuesAt(actions, qs, |trace|) && TraceMatches(actions, trace)
    requires exists i :: 0 <= i < |qs| && qs[i] != []
    ensures QueuesAt(actions, TickRest(qs), |trace| + 1)
    ensures TraceMatches(actions, trace + [TickActions(qs)])
    ensures |trace| < Longest(actions)
  {
    var t := |trace|;
    forall i | 0 <= i < |qs|
      ensures TickActions(qs)[i] == At(actions[i], t) && TickRest(qs)[i] == Drop(actions[i], t + 1)
    {
      DropStep(actions[i], t);
    }
    var k :| 0 <= k < |qs| && qs[k] != [];
    DropStep(actions[k], t);
  }

  /** Once every queue is used up after `t` ticks, no queue is longer than
      `t`. */
  lemma QueuesExhausted(actions: seq<seq<int>>, qs: seq<seq<int>>, t: nat)
    requires QueuesAt(actions, qs, t) && forall i :: 0 <= i < |qs| ==> qs[i] == []
    ensures Longest(actions) <= t
  {
    forall i | 0 <= i < |actions| ensures |actions[i]| <= t {
      DropStep(actions[i], t);
    }
    if actions != [] {
      var w :| 0 <= w < |actions| && |actions[w]| == Longest(actions);
    }
  }

  /** `execute_all_actions`: while some queue still holds an action, one
      joint action vector is sent to the environment. The trace of vectors
      sent has as many ticks as the longest queue has actions; at tick `t`
      taxi `i` receives the `t`-th action of its queue, or standby once its
      queue is used up; and every queue ends empty. */
  method ExecuteAllActions(actions: seq<seq<int>>) returns (trace: seq<seq<int>>, remaining: seq<seq<int>>)
    ensures |trace| == Longest(actions)
    ensures forall t :: 0 <= t < |trace| ==> |trace[t]| == |actions|
    ensures forall t, i :: 0 <= t < |trace| && 0 <= i < |actions| ==> trace[t][i] == At(actions[i], t)
    ensures |remaining| == |actions| && forall i :: 0 <= i < |remaining| ==> remaining[i] == []
  {
    var qs := actions;
    trace := [];
    while exists i :: 0 <= i < |qs| && qs[i] != []
      invariant QueuesAt(actions, qs, |trace|) && TraceMatches(actions, trace)
      invariant |trace| <= Longest(actions)
      decreases Total(qs)
    {
      TickShrinksTotal(qs);
      TickAdvances(actions, qs, trace);
      trace := trace + [TickActions(qs)];
      qs := TickRest(qs);
    }
    QueuesExhausted(actions, qs, |trace|);
    remaining := qs;
  }

  // ---------------------------------------------------------------------
  // Serving a passenger without collaboration
  // ---------------------------------------------------------------------

  /** Every taxi of the roster has a location and a fuel entry. */
  predicate Drivable(state: EnvState, taxis: seq<Taxi>)
  {
    forall i :: 0 <= i < |taxis| ==> taxis[i].index < |state.taxiLocations| && taxis[i].index < |state.fuels|
  }

  /** Every taxi after the first has a location and a fuel entry too. */
  lemma DrivableTail(state: EnvState, taxis: seq<Taxi>)
    requires Drivable(state, taxis) && taxis != []
    ensures Drivable(state, taxis[1..])
  {
    assert forall i :: 0 <= i < |taxis| - 1 ==> taxis[1..][i] == taxis[i + 1];
  }

  /** Any stretch of the roster has locations and fuel entries too. */
  lemma DrivableSlice(state: EnvState, taxis: seq<Taxi>, lo: nat, hi: nat)
    requires Drivable(state, taxis) && lo <= hi <= |taxis|
    ensures Drivable(state, taxis[lo..hi])
  {
    assert forall i :: 0 <= i < hi - lo ==> taxis[lo..hi][i] == taxis[lo + i];
  }

  /** Scans the roster with each taxi's cost to reach the passenger given:
      the indices of the taxis, in roster order, whose cost plus the
      passenger's own trip of length `trip` is strictly below the taxi's fuel.
      The first taxi without a cost ends the scan with its error. */
  function Scan(state: EnvState, taxis: seq<Taxi>, costs: seq<Result<nat, PathError>>, trip: nat): Result<seq<nat>, PathError>
    requires Drivable(state, taxis) && |costs| == |taxis|
    decreases |taxis|
  {
    if taxis == [] then Success([])
    else
      var t := taxis[0];
      DrivableTail(state, taxis);
      var cost :- costs[0];
      var rest :- Scan(state, taxis[1..], costs[1..], trip);
      Success((if cost + trip < state.fuels[t.index] then [t.index] else []) + rest)
  }

  /** Scanning two rosters one after the other is scanning the joined roster:
      the first failure wins, and otherwise the lists are concatenated, which
      keeps the capable taxis in roster order. */
  lemma {:induction false} ScanJoins(state: EnvState, a: seq<Taxi>, ca: seq<Result<nat, PathError>>,
                                     b: seq<Taxi>, cb: seq<Result<nat, PathError>>, trip: nat)
    requires Drivable(state, a) && Drivable(state, b) && |ca| == |a| && |cb| == |b|
    ensures Drivable(state, a + b)
    ensures Scan(state, a + b, ca + cb, trip) ==
              match Scan(state, a, ca, trip)
              case Failure(e) => Failure(e)
              case Success(ra) =>
                match Scan(state, b, cb, trip)
                case Failure(e) => Failure(e)
                case Success(rb) => Success(ra + rb)
    decreases |a|
  {
    assert forall i :: 0 <= i < |a + b| ==> (a + b)[i] == if i < |a| then a[i] else b[i - |a|];
    if a == [] {
      assert a + b == b && ca + cb == cb;
      if Scan(state, b, cb, trip).Success? {
        assert [] + Scan(state, b, cb, trip).value == Scan(state, b, cb, trip).value;
      }
    } else {
      assert (a + b)[0] == a[0] && (ca + cb)[0] == ca[0];
      assert (a + b)[1..] == a[1..] + b && (ca + cb)[1..] == ca[1..] + cb;
      DrivableTail(state, a);
      ScanJoins(state, a[1..], ca[1..], b, cb, trip);
      if ca[0].Success? && Scan(state, a[1..], ca[1..], trip).Success? && Scan(state, b, cb, trip).Success? {
        var head := if ca[0].value + trip < state.fuels[a[0].index] then [a[0].index] else [];
        var ra, rb := Scan(state, a[1..], ca[1..], trip).value, Scan(state, b, cb, trip).value;
        assert (head + ra) + rb == head + (ra + rb);
      }
    }
  }

  /** A taxi is listed exactly when it has a cost whose sum with the
      passenger's trip is strictly below its fuel; a taxi whose fuel only
      equals that sum is not listed. */
  lemma {:induction false} ScanMembers(state: EnvState, taxis: seq<Taxi>, costs: seq<Result<nat, PathError>>, trip: nat, x: nat)
    requires Drivable(state, taxis) && |costs| == |taxis|
    requires Scan(state, taxis, costs, trip).Success?
    ensures x in Scan(state, taxis, costs, trip).value <==>
              exists i :: && 0 <= i < |taxis| && taxis[i].index == x && costs[i].Success?
                          && costs[i].value + trip < state.fuels[taxis[i].index]
    decreases |taxis|
  {
    if taxis != [] {
      DrivableTail(state, taxis);
      ScanMembers(state, taxis[1..], costs[1..], trip, x);
      assert forall i :: 1 <= i < |taxis| ==> taxis[i] == taxis[1..][i - 1] && costs[i] == costs[1..][i - 1];
      assert forall i :: 0 <= i < |taxis| - 1 ==> taxis[1..][i] == taxis[i + 1] && costs[1..][i] == costs[i + 1];
    }
  }

  /** The scan fails exactly when some taxi has no cost. */
  lemma {:induction false} ScanFails(state: EnvState, taxis: seq<Taxi>, costs: seq<Result<nat, PathError>>, trip: nat)
    requires Drivable(state, taxis) && |costs| == |taxis|
    ensures Scan(state, taxis, costs, trip).Failure? <==> exists i :: 0 <= i < |taxis| && costs[i].Failure?
    decreases |taxis|
  {
    if taxis != [] {
      DrivableTail(state, taxis);
      ScanFails(state, taxis[1..], costs[1..], trip);
      assert forall i :: 1 <= i < |taxis| ==> costs[i] == costs[1..][i - 1];
      assert forall i :: 0 <= i < |taxis| - 1 ==> costs[1..][i] == costs[i + 1];
    }
  }

  /** Scanning a single taxi. */
  lemma ScanOne(state: EnvState, t: Taxi, cost: Result<nat, PathError>, trip: nat)
    requires t.index < |state.taxiLocations| && t.index < |state.fuels|
    ensures Drivable(state, [t])
    ensures cost.Failure? ==> Scan(state, [t], [cost], trip) == Failure(cost.error)
    ensures cost.Success? ==>
              Scan(state, [t], [cost], trip) ==
                Success(if cost.value + trip < state.fuels[t.index] then [t.index] else [])
  {
    assert [t][0] == t && [cost][0] == cost && [t][1..] == [] && [cost][1..] == [];
    assert Scan(state, [], [], trip) == Success([]);
    if cost.Success? {
      var head := if cost.value + trip < state.fuels[t.index] then [t.index] else [];
      assert head + [] == head;
    }
  }

  /** Scanning one more taxi with a cost: its index is appended exactly when
      its cost plus the trip is strictly below its fuel. */
  lemma ScanStep(state: EnvState, taxis: seq<Taxi>, costs: seq<Result<nat, PathError>>, trip: nat,
                 i: nat, capable: seq<nat>)
    requires Drivable(state, taxis) && |costs| == |taxis| && i < |taxis| && costs[i].Success?
    requires Drivable(state, taxis[..i]) && Scan(state, taxis[..i], costs[..i], trip) == Success(capable)
    ensures Drivable(state, taxis[..i + 1])
    ensures Scan(state, taxis[..i + 1], costs[..i + 1], trip) ==
              Success(capable + if costs[i].value + trip < state.fuels[taxis[i].index] then [taxis[i].index] else [])
  {
    var t, cost := taxis[i], costs[i];
    DrivableSlice(state, taxis, i, i + 1);
    DrivableSlice(state, taxis, 0, i + 1);
    assert taxis[i..i + 1] == [t];
    assert taxis[..i + 1] == taxis[..i] + [t] && costs[..i + 1] == costs[..i] + [cost];
    ScanOne(state, t, cost, trip);
    ScanJoins(state, taxis[..i], costs[..i], [t], [cost], trip);
  }

  /** A taxi without a cost fails the scan of the whole roster with that
      error when every taxi before it has one. */
  lemma ScanStops(state: EnvState, taxis: seq<Taxi>, costs: seq<Result<nat, PathError>>, trip: nat,
                  i: nat, capable: seq<nat>)
    requires Drivable(state, taxis) && |costs| == |taxis| && i < |taxis| && costs[i].Failure?
    requires Drivable(state, taxis[..i]) && Scan(state, taxis[..i], costs[..i], trip) == Success(capable)
    ensures Scan(state, taxis, costs, trip) == Failure(costs[i].error)
  {
    DrivableSlice(state, taxis, i, |taxis|);
    assert taxis[i..][0] == taxis[i] && costs[i..][0] == costs[i];
    assert Scan(state, taxis[i..], costs[i..], trip) == Failure(costs[i].error);
    assert taxis == taxis[..i] + taxis[i..] && costs == costs[..i] + costs[i..];
    ScanJoins(state, taxis[..i], costs[..i], taxis[i..], costs[i..], trip);
  }

  /** Each taxi's cost to drive from its location to the pick-up cell. */
  function PickupCosts(g: EnvGraph, state: EnvState, taxis: seq<Taxi>, pickup: Cell): (r: seq<Result<nat, PathError>>)
    requires Valid(g) && Drivable(state, taxis)
    ensures |r| == |taxis|
  {
    seq(|taxis|, i requires 0 <= i < |taxis| => PathCost(g, state.taxiLocations[taxis[i].index], pickup))
  }

  /** The taxis able to serve a passenger at `pickup` alone, when the
      passenger's own trip costs `trip`. */
  function SoloList(g: EnvGraph, state: EnvState, taxis: seq<Taxi>, pickup: Cell, trip: nat): Result<seq<nat>, PathError>
    requires Valid(g) && Drivable(state, taxis)
  {
    Scan(state, taxis, PickupCosts(g, state, taxis, pickup), trip)
  }

  /** A taxi is listed exactly when it has a route to the pick-up cell whose
      cost plus the passenger's trip is strictly below its fuel; the scan
      fails exactly when some taxi has no route to the pick-up cell. */
  lemma SoloListMembers(g: EnvGraph, state: EnvState, taxis: seq<Taxi>, pickup: Cell, trip: nat, x: nat)
    requires Valid(g) && Drivable(state, taxis)
    ensures SoloList(g, state, taxis, pickup, trip).Failure? <==>
              exists i :: 0 <= i < |taxis| && PathCost(g, state.taxiLocations[taxis[i].index], pickup).Failure?
    ensures SoloList(g, state, taxis, pickup, trip).Success? ==>
              (x in SoloList(g, state, taxis, pickup, trip).value <==>
                 exists i :: && 0 <= i < |taxis| && taxis[i].index == x
                             && PathCost(g, state.taxiLocations[taxis[i].index], pickup).Success?
                             && PathCost(g, state.taxiLocations[taxis[i].index], pickup).value + trip
                                  < state.fuels[taxis[i].index])
  {
    var costs := PickupCosts(g, state, taxis, pickup);
    assert forall i :: 0 <= i < |taxis| ==> costs[i] == PathCost(g, state.taxiLocations[taxis[i].index], pickup);
    ScanFails(state, taxis, costs, trip);
    if Scan(state, taxis, costs, trip).Success? {
      ScanMembers(state, taxis, costs, trip, x);
    }
  }

  /** The scan of `no_collaboration_case`'s loop, over taxis whose costs to
      reach the passenger are given: it walks the roster in order, stops at
      the first missing cost, and appends the index of each taxi whose cost
      plus the trip is strictly below its fuel. */
  method ScanRoster(state: EnvState, taxis: seq<Taxi>, costs: seq<Result<nat, PathError>>, trip: nat)
    returns (r: Result<seq<nat>, PathError>)
    requires Drivable(state, taxis) && |costs| == |taxis|
    ensures r == Scan(state, taxis, costs, trip)
  {
    var capable: seq<nat> := [];
    var i := 0;
    DrivableSlice(state, taxis, 0, 0);
    while i < |taxis|
      invariant 0 <= i <= |taxis|
      invariant Drivable(state, taxis[..i])
      invariant Scan(state, taxis[..i], costs[..i], trip) == Success(capable)
    {
      match costs[i]
      case Failure(e) =>
        ScanStops(state, taxis, costs, trip, i, capable);
        return Failure(e);
      case Success(cost) =>
        ScanStep(state, taxis, costs, trip, i, capable);
        if cost + trip < state.fuels[taxis[i].index] {
          capable := capable + [taxis[i].index];
        } else {
          assert capable + [] == capable;
        }
      i := i + 1;
    }
    assert taxis[..i] == taxis && costs[..i] == costs;
    return Success(capable);
  }

  /** `no_collaboration_case`: the cost of the passenger's own trip is taken
      once; then each taxi's cost to the pick-up cell is added to it and
      compared with the taxi's fuel, and the capable taxis' indices are listed
      in roster order. A missing route ends the computation with its error.
      The route costs do not depend on one another, so they are all looked up
      before the scan. */
  method NoCollaborationCase(g: EnvGraph, state: EnvState, taxis: seq<Taxi>, passenger: nat)
    returns (r: Result<seq<nat>, PathError>)
    requires Valid(g) && Drivable(state, taxis)
    requires passenger < |state.passengerStarts| && passenger < |state.passengerDestinations|
    ensures var pickup, dropoff := state.passengerStarts[passenger], state.passengerDestinations[passenger];
            r == match PathCost(g, pickup, dropoff)
                 case Failure(e) => Failure(e)
                 case Success(trip) => SoloList(g, state, taxis, pickup, trip)
  {
    var pickup, dropoff := state.passengerStarts[passenger], state.passengerDestinations[passenger];
    var tripCost := PathCost(g, pickup, dropoff);
    if tripCost.Failure? {
      return Failure(tripCost.error);
    }
    var costs := PickupCosts(g, state, taxis, pickup);
    r := ScanRoster(state, taxis, costs, tripCost.value);
  }

  // ---------------------------------------------------------------------
  // Counting the collaboration experiment's successes
  // ---------------------------------------------------------------------

  /** One repetition of the experiment, as far as the counting sees it: the
      taxis able to serve the passenger alone, and whether the collaborating
      taxis delivered the passenger (only looked at when no taxi could). */
  datatype Trial = Trial(capable: seq<nat>, rescued: bool)

  /** The repetitions in which some taxi could serve the passenger alone. */
  function SoloWins(trials: seq<Trial>): nat
    decreases |trials|
  {
    if trials == [] then 0
    else SoloWins(trials[..|trials| - 1]) + (if trials[|trials| - 1].capable != [] then 1 else 0)
  }

  /** The repetitions in which the passenger arrived, alone or together. */
  function Delivered(trials: seq<Trial>): nat
    decreases |trials|
  {
    if trials == [] then 0
    else
      var last := trials[|trials| - 1];
      Delivered(trials[..|trials| - 1]) + (if last.capable != [] || last.rescued then 1 else 0)
  }

  /** The positions of the repetitions in which collaboration was tried. */
  function Consulted(trials: seq<Trial>): seq<nat>
    decreases |trials|
  {
    if trials == [] then []
    else Consulted(trials[..|trials| - 1]) + (if trials[|trials| - 1].capable == [] then [|trials| - 1] else [])
  }

  /** A solo success always counts as a collaborative one, so the counts are
      ordered: `SoloWins <= Delivered <= |trials|`; and collaboration is tried
      exactly in the repetitions no taxi could handle alone. */
  lemma {:induction false} CountsAreOrdered(trials: seq<Trial>)
    ensures SoloWins(trials) <= Delivered(trials) <= |trials|
    ensures forall k :: k in Consulted(trials) <==> 0 <= k < |trials| && trials[k].capable == []
    decreases |trials|
  {
    if trials != [] {
      var front := trials[..|trials| - 1];
      CountsAreOrdered(front);
      assert forall k :: 0 <= k < |front| ==> front[k] == trials[k];
    }
  }

  /** `collaboration_experiment`, with each repetition's random environment
      and both strategies' outcomes given as `trials`: the number of
      repetitions served without collaboration and with it. */
  method CollaborationExperiment(trials: seq<Trial>) returns (noCollab: nat, collab: nat, consulted: seq<nat>)
    ensures noCollab == SoloWins(trials) && collab == Delivered(trials)
    ensures consulted == Consulted(trials)
    ensures noCollab <= collab <= |trials|
  {
    noCollab, collab, consulted := 0, 0, [];
    var test := 0;
    while test < |trials|
      invariant 0 <= test <= |trials|
      invariant noCollab == SoloWins(trials[..test]) && collab == Delivered(trials[..test])
      invariant consulted == Consulted(trials[..test])
    {
      assert trials[..test + 1][..test] == trials[..test];
      if trials[test].capable != [] {
        noCollab := noCollab + 1;
        collab := collab + 1;
      } else {
        consulted := consulted + [test];
        if trials[test].rescued {
          collab := collab + 1;
        }
      }
      test := test + 1;
    }
    assert trials[..test] == trials;
    CountsAreOrdered(trials);
  }
}
