/** The central controller (ControllerWrapper/controller_wrapper.py): it asks
    every taxi for its next step, routes all taxis to one meeting point, and
    tells whether some taxi still has a route to drive. */
module Control {
  import opened Results
  import opened Grid
  import opened Search
  import opened Paths
  import opened Taxis
  import Actions

  /** The taxis whose route still has coordinates to visit, in roster order. */
  function Unfinished(taxis: seq<Taxi>): (r: seq<Taxi>)
    ensures |r| <= |taxis|
    ensures forall t :: t in r <==> t in taxis && t.pathCords != []
    decreases |taxis|
  {
    if taxis == [] then []
    else (if taxis[0].pathCords != [] then [taxis[0]] else []) + Unfinished(taxis[1..])
  }

  /** `Controller.not_all_taxis_completed_path`: true exactly when some taxi
      still has coordinates to visit. (The method's documentation describes
      the `False` case the other way round; the code is what is modelled.) */
  function AnyUnfinished(taxis: seq<Taxi>): (r: bool)
    ensures r <==> exists i :: 0 <= i < |taxis| && taxis[i].pathCords != []
  {
    var pending := Unfinished(taxis);
    assert forall i :: 0 <= i < |taxis| ==> taxis[i] in taxis;
    assert pending != [] ==> pending[0] in pending;
    pending != []
  }

  /** Every taxi of the roster makes sense in this state. */
  predicate AllFit(state: EnvState, taxis: seq<Taxi>)
  {
    forall i :: 0 <= i < |taxis| ==> Fits(state, taxis[i])
  }

  /** `Controller.get_next_step`. While some taxi has a route left, every
      taxi is asked for its next step and the joint action vector collects
      one entry per taxi: the step's action, or standby when the taxi has no
      step to give. When every route is done nothing is asked and no vector
      is produced. */
  method NextSteps(state: EnvState, taxis: seq<Taxi>) returns (next: seq<Taxi>, vector: Option<seq<Option<int>>>)
    requires AllFit(state, taxis)
    ensures vector.None? <==> !AnyUnfinished(taxis)
    ensures vector.None? ==> next == taxis
    ensures vector.Some? ==> |vector.value| == |taxis| && |next| == |taxis|
    ensures vector.Some? ==> forall i :: 0 <= i < |taxis| ==>
              var t, here := taxis[i], Location(state, taxis[i]);
              && (here != t.previousCoordinate ==>
                    next[i] == t && vector.value[i] == t.previousAction)
              && (here == t.previousCoordinate && t.pathCords != [] && t.pathActions != [] ==>
                    && vector.value[i] == Some(t.pathActions[0])
                    && next[i].pathActions == t.pathActions[1..]
                    && next[i].pathCords == t.pathCords[1..]
                    && next[i].previousCoordinate == t.pathCords[0]
                    && next[i].previousAction == Some(t.pathActions[0])
                    && next[i].index == t.index && next[i].passenger == t.passenger)
              && (here == t.previousCoordinate && (t.pathCords == [] || t.pathActions == []) ==>
                    next[i] == t && vector.value[i] == Some(Actions.Standby))
    ensures vector.Some? ==> forall i :: 0 <= i < |taxis| ==>
              next[i] == NextStep(taxis[i], Location(state, taxis[i])).0
  {
    if !AnyUnfinished(taxis) {
      return taxis, None;
    }
    next := [];
    var steps: seq<Option<int>> := [];
    var i := 0;
    while i < |taxis|
      invariant 0 <= i <= |taxis|
      invariant |next| == i && |steps| == i
      invariant forall j :: 0 <= j < i ==>
                  var (t, step) := NextStep(taxis[j], Location(state, taxis[j]));
                  next[j] == t && steps[j] == (if step.Some? then step.value.action else Some(Actions.Standby))
    {
      var (t, step) := NextStep(taxis[i], Location(state, taxis[i]));
      next := next + [t];
      steps := steps + [if step.Some? then step.value.action else Some(Actions.Standby)];
      i := i + 1;
    }
    vector := Some(steps);
  }

  /** The outcome of `Controller.set_meeting_point`: either every taxi got a
      new route, or the taxi at position `at` had no route to the point, which
      stopped the loop with the taxis before it already re-routed. */
  datatype Meeting = Met(taxis: seq<Taxi>) | Stopped(taxis: seq<Taxi>, at: nat, error: PathError)

  /** Applies the taxis' re-routing outcomes in roster order: each success
      replaces its taxi, and the first failure stops with the rest of the
      roster untouched. */
  function Gather(taxis: seq<Taxi>, outcomes: seq<Result<Taxi, PathError>>): (r: Meeting)
    requires |outcomes| == |taxis|
    ensures |r.taxis| == |taxis|
    ensures r.Stopped? ==> r.at < |taxis|
    decreases |taxis|
  {
    if taxis == [] then Met([])
    else
      match outcomes[0]
      case Failure(e) => Stopped(taxis, 0, e)
      case Success(t) =>
        match Gather(taxis[1..], outcomes[1..])
        case Met(ts) => Met([t] + ts)
        case Stopped(ts, at, e) => Stopped([t] + ts, at + 1, e)
  }

  /** What gathering did to the taxi at position `i`: before the stopping
      point (everywhere, when nothing stopped it) the taxi is its successful
      outcome; at the stopping point the outcome is the reported failure; from
      there on taxis are left as they were. */
  lemma {:induction false} GatherPlaces(taxis: seq<Taxi>, outcomes: seq<Result<Taxi, PathError>>, i: nat)
    requires |outcomes| == |taxis| && i < |taxis|
    ensures var r := Gather(taxis, outcomes);
            && ((r.Met? || i < r.at) ==> outcomes[i] == Success(r.taxis[i]))
            && (r.Stopped? && r.at <= i ==> r.taxis[i] == taxis[i])
            && (r.Stopped? && r.at == i ==> outcomes[i] == Failure(r.error))
    decreases |taxis|
  {
    if i > 0 && outcomes[0].Success? {
      GatherPlaces(taxis[1..], outcomes[1..], i - 1);
    }
  }

  /** `Controller.set_meeting_point(point)`: every taxi, in roster order,
      computes its route to the same point; a taxi without a route raises,
      which stops the loop. Re-routing one taxi does not depend on the
      others, so the outcomes are those of each taxi on its own. */
  function SetMeetingPoint(g: EnvGraph, state: EnvState, taxis: seq<Taxi>, point: DestArg): (r: Meeting)
    requires Valid(g) && AllFit(state, taxis)
    ensures |r.taxis| == |taxis|
    ensures r.Stopped? ==> r.at < |taxis|
  {
    Gather(taxis, seq(|taxis|, i requires 0 <= i < |taxis| => ComputeShortestPath(g, state, taxis[i], point)))
  }

  /** What the meeting point did to the taxi at position `i`: a taxi before
      the stopping point (every taxi, when none stopped the loop) holds its
      route to the point; the taxi at the stopping point has no route there;
      that taxi and all after it are left as they were. */
  lemma MeetingPointRoutesTaxi(g: EnvGraph, state: EnvState, taxis: seq<Taxi>, point: DestArg, i: nat)
    requires Valid(g) && AllFit(state, taxis) && i < |taxis|
    ensures var r := SetMeetingPoint(g, state, taxis, point);
            && ((r.Met? || i < r.at) ==> ComputeShortestPath(g, state, taxis[i], point) == Success(r.taxis[i]))
            && (r.Stopped? && r.at <= i ==> r.taxis[i] == taxis[i])
            && (r.Stopped? && r.at == i ==> ComputeShortestPath(g, state, taxis[i], point) == Failure(r.error))
  {
    var outcomes := seq(|taxis|, i requires 0 <= i < |taxis| => ComputeShortestPath(g, state, taxis[i], point));
    GatherPlaces(taxis, outcomes, i);
  }

  /** When every taxi found a route to the meeting point, on any graph, each
      taxi's new plan is as long as the distance to the point and empty
      exactly for a taxi already there. */
  lemma MeetingPointRoutesAreShortest(g: EnvGraph, state: EnvState, taxis: seq<Taxi>, point: Cell)
    requires Valid(g) && AllFit(state, taxis)
    requires SetMeetingPoint(g, state, taxis, Point(point)).Met?
    ensures var routed := SetMeetingPoint(g, state, taxis, Point(point)).taxis;
            forall i :: 0 <= i < |taxis| ==>
              var here, plan := Location(state, taxis[i]), routed[i].pathCords;
              && IsDistance(g, CorsToNode(g, here), CorsToNode(g, point), |plan|)
              && (plan == [] <==> CorsToNode(g, here) == CorsToNode(g, point))
  {
    var routed := SetMeetingPoint(g, state, taxis, Point(point)).taxis;
    forall i | 0 <= i < |taxis|
      ensures var here, plan := Location(state, taxis[i]), routed[i].pathCords;
              && IsDistance(g, CorsToNode(g, here), CorsToNode(g, point), |plan|)
              && (plan == [] <==> CorsToNode(g, here) == CorsToNode(g, point))
    {
      MeetingPointRoutesTaxi(g, state, taxis, Point(point), i);
      ComputedPlanIsShortest(g, state, taxis[i], Point(point));
    }
  }

  /** On a map with at least two columns whose rows are walled at the right
      edge, and with every taxi standing at a coordinate whose column lies in
      the grid: when every taxi found a route to the meeting point, the steps
      each taxi hands out are as many as the distance, and driving them brings
      the taxi to the point. */
  lemma MeetingPointGathersTaxis(g: EnvGraph, state: EnvState, taxis: seq<Taxi>, point: Cell)
    requires Valid(g) && g.cols >= 2 && Aligned(g) && AllFit(state, taxis)
    requires forall i :: 0 <= i < |taxis| ==> 0 <= Location(state, taxis[i]).col < g.cols
    requires SetMeetingPoint(g, state, taxis, Point(point)).Met?
    ensures var routed := SetMeetingPoint(g, state, taxis, Point(point)).taxis;
            forall i :: 0 <= i < |taxis| ==>
              var here, steps := Location(state, taxis[i]), Follow(routed[i]);
              && IsDistance(g, CorsToNode(g, here), CorsToNode(g, point), |steps.0|)
              && Replay(here, steps.1) == steps.0
              && (steps.0 == [] <==> CorsToNode(g, here) == CorsToNode(g, point))
              && (steps.0 != [] ==> steps.0[|steps.0| - 1] == NodeToCors(g, CorsToNode(g, point)))
  {
    var routed := SetMeetingPoint(g, state, taxis, Point(point)).taxis;
    forall i | 0 <= i < |taxis|
      ensures var here, steps := Location(state, taxis[i]), Follow(routed[i]);
              && IsDistance(g, CorsToNode(g, here), CorsToNode(g, point), |steps.0|)
              && Replay(here, steps.1) == steps.0
              && (steps.0 == [] <==> CorsToNode(g, here) == CorsToNode(g, point))
              && (steps.0 != [] ==> steps.0[|steps.0| - 1] == NodeToCors(g, CorsToNode(g, point)))
    {
      MeetingPointRoutesTaxi(g, state, taxis, Point(point), i);
      ComputedPlanIsShortest(g, state, taxis[i], Point(point));
      PlanLeadsToGoal(g, state, taxis[i], Point(point));
      FollowReplaysPlan(routed[i]);
    }
  }
}
