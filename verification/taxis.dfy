/** A taxi's route planning and the hand-out of that route one step at a time
    (`Taxi` in TaxiWrapper/taxi_wrapper.py), and the bidding taxi's table of
    distances to every passenger (TaxiWrapper/BiddingTaxi.py). */
module Taxis {
  import opened Results
  import opened Grid
  import opened Search
  import opened Paths

  /** The parts of the environment's state the wrappers read: per taxi its
      location and fuel, per passenger the pick-up and drop-off cells. */
  datatype EnvState = EnvState(
    taxiLocations: seq<Cell>,
    fuels: seq<int>,
    passengerStarts: seq<Cell>,
    passengerDestinations: seq<Cell>)

  /** A taxi wrapper: which taxi of the environment it drives, the passenger
      allocated to it (if any), the rest of its planned route, and the step it
      handed out last. `previousAction` is `None` before the first step. */
  datatype Taxi = Taxi(
    index: nat,
    passenger: Option<nat>,
    pathCords: seq<Cell>,
    pathActions: seq<int>,
    previousCoordinate: Cell,
    previousAction: Option<int>)

  /** The taxi's index and allocated passenger make sense in this state. */
  predicate Fits(state: EnvState, taxi: Taxi)
  {
    && taxi.index < |state.taxiLocations|
    && (taxi.passenger.Some? ==> taxi.passenger.value < |state.passengerDestinations|)
  }

  /** The taxi's current location in the environment. */
  function Location(state: EnvState, taxi: Taxi): Cell
    requires Fits(state, taxi)
  {
    state.taxiLocations[taxi.index]
  }

  /** A freshly constructed wrapper: no plan, and the last step is taken to be
      the taxi's current cell, so the first request is not read as a stall. */
  function NewTaxi(state: EnvState, index: nat, passenger: Option<nat>): (t: Taxi)
    requires index < |state.taxiLocations|
    ensures Fits(state, t) <==> (passenger.Some? ==> passenger.value < |state.passengerDestinations|)
    ensures t.index == index && t.passenger == passenger
    ensures t.pathCords == [] && t.pathActions == []
    ensures t.previousCoordinate == state.taxiLocations[index] && t.previousAction == None
    ensures NextStep(t, state.taxiLocations[index]) == (t, None)
  {
    Taxi(index, passenger, [], [], state.taxiLocations[index], None)
  }

  /** The `dest` argument of `compute_shortest_path`: left out, an empty list
      (which the `if not dest` test treats exactly like a missing one), or a
      cell. */
  datatype DestArg = Omitted | EmptyList | Point(cell: Cell)

  /** Where `compute_shortest_path` heads: the given cell; without one, the
      allocated passenger's destination; without a passenger, nowhere. */
  function Goal(state: EnvState, taxi: Taxi, dest: DestArg): (r: Option<Cell>)
    requires Fits(state, taxi)
    ensures r.None? <==> !dest.Point? && taxi.passenger.None?
  {
    match dest
    case Point(c) => Some(c)
    case _ =>
      match taxi.passenger
      case Some(p) => Some(state.passengerDestinations[p])
      case None => None
  }

  /** `Taxi.compute_shortest_path(dest)`: replaces the plan by the route from
      the taxi's location to its goal, or by an empty plan when there is no
      goal. When the route cannot be found the error is passed on and the taxi
      is left as it was. */
  function ComputeShortestPath(g: EnvGraph, state: EnvState, taxi: Taxi, dest: DestArg): (r: Result<Taxi, PathError>)
    requires Valid(g) && Fits(state, taxi)
    ensures r.Success? ==>
              && r.value.index == taxi.index && r.value.passenger == taxi.passenger
              && r.value.previousCoordinate == taxi.previousCoordinate
              && r.value.previousAction == taxi.previousAction
              && |r.value.pathCords| == |r.value.pathActions|
    ensures Goal(state, taxi, dest).None? ==> r.Success? && r.value.pathCords == []
  {
    match Goal(state, taxi, dest)
    case None => Success(taxi.(pathCords := [], pathActions := []))
    case Some(goal) =>
      var route :- GetPath(g, Location(state, taxi), goal);
      Success(taxi.(pathCords := route.cords, pathActions := route.actions))
  }

  /** With a goal, `compute_shortest_path` succeeds exactly when the goal can
      be reached; the new plan is then as long as the distance to the goal,
      empty exactly when the taxi is already there, and ends at the goal. */
  lemma ComputedPlanIsShortest(g: EnvGraph, state: EnvState, taxi: Taxi, dest: DestArg)
    requires Valid(g) && Fits(state, taxi)
    requires Goal(state, taxi, dest).Some?
    ensures var goal, r := Goal(state, taxi, dest).value, ComputeShortestPath(g, state, taxi, dest);
            && (r.Success? <==> Routable(g, Location(state, taxi), goal))
            && (r.Success? ==>
                  IsDistance(g, CorsToNode(g, Location(state, taxi)), CorsToNode(g, goal), |r.value.pathCords|))
            && (r.Success? ==>
                  (r.value.pathCords == [] <==> CorsToNode(g, Location(state, taxi)) == CorsToNode(g, goal)))
            && (r.Success? && r.value.pathCords != [] ==>
                  g.cols > 0 && r.value.pathCords[|r.value.pathCords| - 1] == NodeToCors(g, CorsToNode(g, goal)))
  {
    var goal := Goal(state, taxi, dest).value;
    if GetPath(g, Location(state, taxi), goal).Success? {
      RouteIsShortest(g, Location(state, taxi), goal);
    }
  }

  /** An empty destination list is treated exactly like a missing one. */
  lemma EmptyDestIsOmitted(g: EnvGraph, state: EnvState, taxi: Taxi)
    requires Valid(g) && Fits(state, taxi)
    ensures ComputeShortestPath(g, state, taxi, EmptyList) == ComputeShortestPath(g, state, taxi, Omitted)
  {
  }

  /** What `get_next_step` returns: a cell and the action meant to reach it
      (the action is `None` when a stall is detected before any step). */
  datatype Step = Step(cell: Cell, action: Option<int>)

  /** `Taxi.get_next_step`, given the taxi's current location. If the taxi is
      not where its last step was meant to take it, that step was blocked and
      is handed out again; otherwise the head of the plan is handed out and
      removed; with nothing left, no step is returned. */
  function NextStep(taxi: Taxi, location: Cell): (r: (Taxi, Option<Step>))
    ensures r.1.None? <==> location == taxi.previousCoordinate && (taxi.pathCords == [] || taxi.pathActions == [])
    ensures r.1.None? || location != taxi.previousCoordinate ==> r.0 == taxi
    ensures r.0.index == taxi.index && r.0.passenger == taxi.passenger
    ensures r.1.Some? ==> r.1.value == Step(r.0.previousCoordinate, r.0.previousAction)
    ensures r.1.Some? && location == taxi.previousCoordinate ==>
              && r.1.value.action.Some?
              && [r.1.value.cell] + r.0.pathCords == taxi.pathCords
              && [r.1.value.action.value] + r.0.pathActions == taxi.pathActions
  {
    if location != taxi.previousCoordinate then
      (taxi, Some(Step(taxi.previousCoordinate, taxi.previousAction)))
    else if taxi.pathCords != [] && taxi.pathActions != [] then
      var c, a := taxi.pathCords[0], taxi.pathActions[0];
      (taxi.(pathCords := taxi.pathCords[1..], pathActions := taxi.pathActions[1..],
             previousCoordinate := c, previousAction := Some(a)),
       Some(Step(c, Some(a))))
    else
      (taxi, None)
  }

  /** A blocked step is handed out again and again, without touching the
      plan, for as long as the taxi stays put. */
  lemma StalledStepRepeats(taxi: Taxi, location: Cell)
    requires location != taxi.previousCoordinate
    ensures NextStep(NextStep(taxi, location).0, location) == NextStep(taxi, location)
    ensures NextStep(taxi, location).1 == Some(Step(taxi.previousCoordinate, taxi.previousAction))
  {
  }

  /** The steps handed out when every step succeeds, i.e. the taxi is always
      where its last step was meant to take it. */
  function Follow(taxi: Taxi): (r: (seq<Cell>, seq<int>))
    decreases |taxi.pathCords|
  {
    var (next, step) := NextStep(taxi, taxi.previousCoordinate);
    match step
    case None => ([], [])
    case Some(st) =>
      var rest := Follow(next);
      ([st.cell] + rest.0, [st.action.value] + rest.1)
  }

  /** When no step is blocked, the taxi hands out exactly its plan: every
      coordinate and action, in order. */
  lemma {:induction false} FollowReplaysPlan(taxi: Taxi)
    requires |taxi.pathCords| == |taxi.pathActions|
    ensures Follow(taxi) == (taxi.pathCords, taxi.pathActions)
    decreases |taxi.pathCords|
  {
    var (next, step) := NextStep(taxi, taxi.previousCoordinate);
    if step.Some? {
      FollowReplaysPlan(next);
    }
  }

  /** A plan computed on a map with at least two columns whose rows are walled
      at the right edge, starting from a cell of the grid: the actions handed
      out move the taxi along the coordinates handed out, and the last of them
      is the goal. */
  lemma PlanLeadsToGoal(g: EnvGraph, state: EnvState, taxi: Taxi, dest: DestArg)
    requires Valid(g) && g.cols >= 2 && Aligned(g) && Fits(state, taxi)
    requires 0 <= Location(state, taxi).col < g.cols
    requires ComputeShortestPath(g, state, taxi, dest).Success?
    ensures var steps := Follow(ComputeShortestPath(g, state, taxi, dest).value);
            && Replay(Location(state, taxi), steps.1) == steps.0
            && (steps.0 != [] ==>
                  && Goal(state, taxi, dest).Some?
                  && steps.0[|steps.0| - 1] == NodeToCors(g, CorsToNode(g, Goal(state, taxi, dest).value)))
  {
    var planned := ComputeShortestPath(g, state, taxi, dest).value;
    FollowReplaysPlan(planned);
    if Goal(state, taxi, dest).Some? {
      ComputedPlanIsShortest(g, state, taxi, dest);
    }
    match Goal(state, taxi, dest)
    case None =>
    case Some(goal) =>
      ReplayMatchesRoute(g, Location(state, taxi), goal);
  }

  /** `BiddingTaxi.compute_shortest_path(start, dest)`: the coordinate list of
      the route, so that its length is the route's cost. */
  function RouteCords(g: EnvGraph, start: Cell, dest: Cell): (r: Result<seq<Cell>, PathError>)
    requires Valid(g)
    ensures r.Success? ==> PathCost(g, start, dest) == Success(|r.value|)
    ensures r.Failure? ==> PathCost(g, start, dest) == Failure(r.error)
  {
    var route :- GetPath(g, start, dest);
    Success(route.cords)
  }

  /** `BiddingTaxi.calculate_distances_to_all_passengers`: for each of the
      first `numPassengers` passengers, the length of the route from the taxi
      to the passenger's pick-up cell. The first passenger that cannot be
      reached ends the computation with that route's error. */
  method DistancesToAllPassengers(g: EnvGraph, state: EnvState, taxi: Taxi, numPassengers: nat)
    returns (r: Result<seq<nat>, PathError>)
    requires Valid(g) && Fits(state, taxi)
    requires numPassengers <= |state.passengerStarts|
    ensures r.Success? <==> forall k :: 0 <= k < numPassengers ==>
                              PathCost(g, Location(state, taxi), state.passengerStarts[k]).Success?
    ensures r.Success? ==> |r.value| == numPassengers
    ensures r.Success? ==> forall k :: 0 <= k < numPassengers ==>
                             PathCost(g, Location(state, taxi), state.passengerStarts[k]) == Success(r.value[k])
    ensures r.Failure? ==>
              exists k :: && 0 <= k < numPassengers
                          && PathCost(g, Location(state, taxi), state.passengerStarts[k]) == Failure(r.error)
                          && forall j :: 0 <= j < k ==> PathCost(g, Location(state, taxi), state.passengerStarts[j]).Success?
  {
    var here := Location(state, taxi);
    var distances: seq<nat> := [];
    var i := 0;
    while i < numPassengers
      invariant 0 <= i <= numPassengers
      invariant |distances| == i
      invariant forall j :: 0 <= j < i ==> PathCost(g, here, state.passengerStarts[j]) == Success(distances[j])
    {
      var cords := RouteCords(g, here, state.passengerStarts[i]);
      if cords.Failure? {
        return Failure(cords.error);
      }
      distances := distances + [|cords.value|];
      i := i + 1;
    }
    return Success(distances);
  }

  /** Every entry of a distance table is the length of a shortest route from
      the taxi to that passenger, never negative, and zero exactly when the
      taxi already stands on the passenger's cell. */
  lemma DistancesAreShortest(g: EnvGraph, here: Cell, starts: seq<Cell>, distances: seq<nat>)
    requires Valid(g) && |distances| == |starts|
    requires forall k :: 0 <= k < |starts| ==> PathCost(g, here, starts[k]) == Success(distances[k])
    ensures forall k :: 0 <= k < |starts| ==>
              && IsDistance(g, CorsToNode(g, here), CorsToNode(g, starts[k]), distances[k])
              && (distances[k] == 0 <==> CorsToNode(g, here) == CorsToNode(g, starts[k]))
              && Routable(g, here, starts[k])
  {
    forall k | 0 <= k < |starts| {
      PathCostMeasures(g, here, starts[k]);
    }
  }
}
