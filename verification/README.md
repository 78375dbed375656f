# Taxi routing and control wrappers, in Dafny

This project models the routing and control layer that the MutliTaxiProjs
repository builds on top of its multi-taxi grid environment:

- **the map graph.** `EnvGraph` turns the text map into a grid graph. It converts
  between node indices and `[row, column]` coordinates, and computes shortest
  routes as coordinate lists plus move actions (south 0, north 1, east 2,
  west 3).
- **the taxi wrapper.** `Taxi` plans a route to a given point or to its
  passenger's destination. It hands the route out one step at a time and
  repeats a step that a collision blocked.
- **the bidding taxi.** It builds a table of distances to every passenger.
- **the controller.** It collects one action per taxi (standby for a taxi
  with nothing to do) and routes all taxis to a meeting point. It also tells
  whether some taxi still has a route to drive.
- **the experiment drivers' own logic.** This covers replaying precomputed
  action queues tick by tick, and finding the taxis able to serve a passenger
  alone on their fuel. It also covers counting the successes of the
  collaboration experiment.

Modules, in dependency order:

| module | file | contents |
|---|---|---|
| `Results` | results.dfy | `Option` and `Result` |
| `Actions` | actions.dfy | the environment's action codes |
| `Grid` | grid.dfy | `EnvGraph`: construction from the map, coordinates, adjacency |
| `Search` | search.dfy | breadth-first shortest path (the stand-in for `networkx.shortest_path`) |
| `Paths` | paths.dfy | `get_path`, its actions and replay, the route cost |
| `Taxis` | taxis.dfy | `Taxi` and `BiddingTaxi` |
| `Control` | control.dfy | `Controller` |
| `Experiments` | experiments.dfy | `execute_all_actions`, `no_collaboration_case`, the success counting of `collaboration_experiment` |

The graph is kept as two flag sequences: `south[i]` and `east[i]` say that
the map scan added the edge from node `i` to `i + cols` or to `i + 1`.
The scan walks the node table of the graph it is building. An edge whose
far end lies outside `[0, rows * cols)` would add a node to that table, and
Python then raises `RuntimeError` at the next step of the scan. A built
graph therefore has exactly the scanned nodes. The search still accepts any
graph with one flag pair per node, so `InGraph` also admits far ends of
edges; on a built graph it is `0 <= n < rows * cols`.

The shortest path is found by breadth-first layers. `Within(g, s, v, k)`
says `v` is at most `k` steps from `s`. A counting argument over the
`Bound(g)` possible nodes shows that `Bound(g)` layers are enough to decide
whether a path exists. The path is then rebuilt backwards, layer by layer.

The model is exact about the source's integer arithmetic. Python's floor
`//` and `%` agree with Dafny's `/` and `%` for the positive column count.
Coordinates are converted without range checks, as in the source.

## Model

| member | source | states |
|---|---|---|
| Actions.CodesNameTheirActions | multitaxienv/config.py:19-23 | each action constant is the position of its name in the environment's action table (standby is 8) |
| Grid.CorsToNode | TaxiWrapper/taxi_wrapper.py:35-39 | defined for every coordinate with no range check; a cell inside the grid names a scanned node; CoordinateRoundTrip and CorsToNodeInjective state its inverse and its injectivity on in-grid cells |
| Grid.NodeToCors | TaxiWrapper/taxi_wrapper.py:29-33 | the coordinate of node n converts back to n, and its column lies in [0, cols) |
| Grid.CoordinateRoundTrip | TaxiWrapper/taxi_wrapper.py:35-39 | converting a coordinate to a node and back returns it exactly when its column lies inside the grid |
| Grid.CorsToNodeInjective | TaxiWrapper/taxi_wrapper.py:35-39 | two in-grid coordinates naming the same node are equal |
| Grid.ScannedNodeRows | TaxiWrapper/taxi_wrapper.py:18-21 | a node is among the scanned nodes `0 .. rows*cols-1` exactly when its row lies inside the grid |
| Grid.FirstFault | TaxiWrapper/taxi_wrapper.py:21-27 | visiting nodes in order, the error is that of the first node whose glyphs are unreadable (`IndexError`) or whose edge leaves the scanned nodes (`RuntimeError`); none exactly when no node is faulty |
| Grid.Build | TaxiWrapper/taxi_wrapper.py:13-27 | building fails on an empty map, fails with a negative node count exactly for a one-row map with columns, and otherwise succeeds exactly when no node's visit is faulty, the error being the first faulty node's; rows is the text-row count minus 2, cols half the first row's width; one south and one east flag per scanned node |
| Grid.BuildSucceedsOnClosedFrame | TaxiWrapper/taxi_wrapper.py:20-27 | on a readable map with rows and columns, building succeeds exactly when the bottom frame is `-` under every cell and the last row's right frame is not `:` |
| Grid.BottomGapFails | TaxiWrapper/taxi_wrapper.py:21-24 | a readable map with no `-` under some cell of the last row raises `RuntimeError` |
| Grid.LastRightGapFails | TaxiWrapper/taxi_wrapper.py:21-27 | a readable map with `:` in the last row's right frame raises `RuntimeError` |
| Grid.OneRowMap | TaxiWrapper/taxi_wrapper.py:18-20 | a one-row map of width two or more raises `NetworkXError`; a narrower one builds the empty graph |
| Grid.SouthEdgeRule | TaxiWrapper/taxi_wrapper.py:23-24 | with at least two columns, a cell and the cell below it are neighbours exactly when the character at position 2c+1 of text row r+2 is not `-`; that character is the lower cell's own glyph, or the bottom frame for the last row |
| Grid.EastEdgeRule | TaxiWrapper/taxi_wrapper.py:26-27 | a cell and the cell to its right are neighbours exactly when the glyph between them is `:` |
| Grid.BuiltGraphIsClosed | TaxiWrapper/taxi_wrapper.py:20-27 | both ends of every edge of a built graph are scanned nodes, and its graph nodes are exactly the scanned ones |
| Grid.RightGapWraps | TaxiWrapper/taxi_wrapper.py:26-27 | a `:` in the right frame joins a row's last cell to the next row's first cell |
| Search.ShortestPath | TaxiWrapper/taxi_wrapper.py:51 | fails with NodeNotFound exactly when an endpoint is not a graph node, and with NoPath exactly when no walk joins them; otherwise returns a walk from s to t that no walk between them is shorter than |
| Search.ShortestPathMeasuresDistance | TaxiWrapper/taxi_wrapper.py:51 | a found path has as many edges as the distance between its endpoints |
| Paths.ActionOf | TaxiWrapper/taxi_wrapper.py:55-63 | every step gets a move action, and on a grid of two or more columns the action's index change is the step's own delta |
| Paths.StepActions | TaxiWrapper/taxi_wrapper.py:53-63 | one action per consecutive pair of path nodes |
| Paths.GetPath | TaxiWrapper/taxi_wrapper.py:41-64 | succeeds exactly when the coordinates name the same node or two connected graph nodes; returns empty lists exactly for the same node; each search failure appears exactly in its case; equally many coordinates and actions; the last coordinate is the target's node |
| Paths.RouteStepsAreEdges | TaxiWrapper/taxi_wrapper.py:51-52 | the first coordinate neighbours the origin, and consecutive coordinates of a route are graph neighbours |
| Paths.RouteIsShortest | TaxiWrapper/taxi_wrapper.py:47-64 | a route has as many coordinates as the distance between origin and target |
| Paths.RouteEndsAtTarget | TaxiWrapper/taxi_wrapper.py:52-64 | a non-empty route ends at the target itself when the target's column is inside the grid |
| Paths.FramedRowsAreAligned | TaxiWrapper/taxi_wrapper.py:26-27 | with no `:` in the right frame, no east edge leaves a row's last cell |
| Paths.ReplayMatchesRoute | TaxiWrapper/taxi_wrapper.py:53-64 | with at least two columns and no east edge leaving a row, performing the route's actions from an origin whose column lies inside the grid visits exactly the route's coordinates |
| Paths.SingleColumnStepUpIsWest | TaxiWrapper/taxi_wrapper.py:56-61 | on a one-column map a step up is given the west action, and performing it moves the taxi out of the grid instead of up |
| Paths.PathCost | ControllerWrapper/Collaboration_Experiment.py:17-20 | a cost is zero exactly for the same node, and the same node always costs zero |
| Paths.PathCostMeasures | ControllerWrapper/Collaboration_Experiment.py:17 | a route cost exists exactly when the target is reachable; it is the distance between the two nodes, and it is zero exactly for the same node |
| Taxis.NewTaxi | TaxiWrapper/taxi_wrapper.py:71-79 | a new taxi keeps its index and passenger, has no plan and no previous action, and its last step is taken to be its current location, so asking it for a step gives none and changes nothing |
| Taxis.Goal | TaxiWrapper/taxi_wrapper.py:90-95 | there is no goal exactly when no point is given and no passenger is allocated |
| Taxis.ComputeShortestPath | TaxiWrapper/taxi_wrapper.py:81-100 | only the plan changes, with as many coordinates as actions; without a point and without a passenger the plan becomes empty |
| Taxis.ComputedPlanIsShortest | TaxiWrapper/taxi_wrapper.py:89-100 | with a goal (the point, else the passenger's destination) planning succeeds exactly when the goal is reachable; the plan is as long as the distance, empty exactly when the taxi is already there, and ends at the goal |
| Taxis.EmptyDestIsOmitted | TaxiWrapper/taxi_wrapper.py:90-95 | an empty destination list plans exactly as a missing destination |
| Taxis.NextStep | TaxiWrapper/taxi_wrapper.py:102-116 | no step exactly when the taxi reached its last step and its plan is empty; a step hands out the new last step; an unblocked step takes the head of the plan and leaves the rest |
| Taxis.StalledStepRepeats | TaxiWrapper/taxi_wrapper.py:107-109 | while the taxi is not where its last step should have taken it, the same step is handed out again and nothing changes |
| Taxis.FollowReplaysPlan | TaxiWrapper/taxi_wrapper.py:111-116 | when no step is blocked, the taxi hands out exactly its planned coordinates and actions in order |
| Taxis.PlanLeadsToGoal | TaxiWrapper/taxi_wrapper.py:81-116 | with at least two columns, no east edge leaving a row, and the taxi at a coordinate whose column lies inside the grid, the handed-out actions move the taxi along the handed-out coordinates to its goal |
| Taxis.RouteCords | TaxiWrapper/BiddingTaxi.py:10-17 | the returned coordinate list is as long as the route cost, and fails exactly as the route does |
| Taxis.DistancesToAllPassengers | TaxiWrapper/BiddingTaxi.py:19-35 | succeeds exactly when every passenger's pick-up cell has a route cost; the table has one entry per passenger, each that cost; otherwise the first unreachable passenger's error is returned |
| Taxis.DistancesAreShortest | TaxiWrapper/BiddingTaxi.py:19-35 | every table entry is the distance to that passenger, and zero exactly when the taxi stands on the pick-up cell |
| Control.Unfinished | ControllerWrapper/controller_wrapper.py:30 | the list holds exactly the taxis with coordinates left to visit |
| Control.AnyUnfinished | ControllerWrapper/controller_wrapper.py:25-31 | true exactly when some taxi still has coordinates to visit |
| Control.NextSteps | ControllerWrapper/controller_wrapper.py:6-16 | no vector when every route is done; otherwise one entry per taxi: a blocked taxi's previous action again, an advancing taxi's next planned action, and standby for a taxi with nothing left; every taxi comes back as its own next-step call leaves it, an advancing one with its plan's head recorded as its previous coordinate and action |
| Control.SetMeetingPoint | ControllerWrapper/controller_wrapper.py:18-23 | one taxi per roster entry comes back, and a stop happens at a roster position; MeetingPointRoutesTaxi states what happens to each taxi |
| Control.GatherPlaces | ControllerWrapper/controller_wrapper.py:18-23 | taxis before the first failure take their new routes, the failing taxi reports its error, and it and all later taxis stay unchanged |
| Control.MeetingPointRoutesTaxi | ControllerWrapper/controller_wrapper.py:18-23 | each taxi before the stopping point holds its own route to the meeting point; the taxi at the stopping point has none; later taxis are untouched |
| Control.MeetingPointRoutesAreShortest | ControllerWrapper/controller_wrapper.py:18-23 | when every taxi is routed, each new plan is as long as the distance to the meeting point, and empty exactly for a taxi already there |
| Control.MeetingPointGathersTaxis | ControllerWrapper/controller_wrapper.py:18-23 | on a map with at least two columns and no east edge leaving a row, with every taxi at a coordinate whose column lies inside the grid: when every taxi is routed, the steps each hands out are as many as the distance, empty exactly for a taxi already there, and driving them brings the taxi to the meeting point |
| Experiments.TickActions | Decentralized_Control_Experiment.py:60 | one entry per queue; TickAdvances states that entry i is the next action of queue i, or standby once it is used up |
| Experiments.TickRest | Decentralized_Control_Experiment.py:60 | one queue per taxi; TickAdvances states that each queue moves one action on and TickShrinksTotal that a tick removes an action |
| Experiments.TickShrinksTotal | Decentralized_Control_Experiment.py:59-61 | a tick taken while some queue is non-empty removes at least one action |
| Experiments.TickAdvances | Decentralized_Control_Experiment.py:59-61 | a tick hands each taxi the next action of its queue, or standby once it is used up, and moves every queue one action on |
| Experiments.ExecuteAllActions | Decentralized_Control_Experiment.py:55-63 | the number of ticks is the longest queue's length; at tick t taxi i gets the t-th action of its queue, or standby; every queue ends empty |
| Experiments.ScanJoins | ControllerWrapper/Collaboration_Experiment.py:19-25 | scanning a roster in two parts gives the first failure, or the two lists concatenated in roster order |
| Experiments.ScanMembers | ControllerWrapper/Collaboration_Experiment.py:19-25 | a taxi is listed exactly when its cost plus the trip is strictly below its fuel |
| Experiments.ScanFails | ControllerWrapper/Collaboration_Experiment.py:19-25 | the scan fails exactly when some taxi has no route cost |
| Experiments.ScanRoster | ControllerWrapper/Collaboration_Experiment.py:18-25 | the loop computes the roster scan |
| Experiments.SoloListMembers | ControllerWrapper/Collaboration_Experiment.py:8-25 | a taxi is listed exactly when it has a route to the passenger and that cost plus the trip is strictly below its fuel; equal fuel is not enough; the list fails exactly when some taxi has no route |
| Experiments.NoCollaborationCase | ControllerWrapper/Collaboration_Experiment.py:8-25 | the trip cost is looked up once; its failure is returned; otherwise the result is the roster scan with that trip cost |
| Experiments.CountsAreOrdered | ControllerWrapper/Collaboration_Experiment.py:86-94 | solo successes never exceed all successes, which never exceed the repetitions; collaboration is tried exactly in the repetitions no taxi could serve alone |
| Experiments.CollaborationExperiment | ControllerWrapper/Collaboration_Experiment.py:64-95 | returns the solo and overall success counts with 0 <= solo <= overall <= repetitions, and tries collaboration exactly where no taxi was capable alone |

## Left out

- The shortest-path search follows networkx's contract, not its tie-breaking. Among several shortest paths the model may pick another one; the model proves the length and the end points, not the choice.
- Paths.ReplayMatchesRoute requires at least two columns, no east edge leaving a row, and an origin whose column lies inside the grid. `cors_to_node` does no range check, so from an out-of-grid coordinate such as `(0, 7)` on a five-column map the route starts at another cell, `(1, 2)`, and replaying from `(0, 7)` does not follow it. With one column a step up is read as west (Paths.SingleColumnStepUpIsWest). With a `:` in the right frame, a row-wrapping edge is emitted as east.
- Move is an assumption about the environment: south and north change the row, east and west the column. The environment's own step function is not part of this model.
- The environment itself is not modelled: `TaxiEnv`, its step, reset, render and random initial states. Its state enters as the `EnvState` value.
- Plain accessors are left out. `get_location` and `get_fuel` read that state. `get_nx` returns a copy of the graph. `update_env_state` replaces the environment a taxi sees, which the model expresses by passing a new `EnvState`.
- Taxis.NewTaxi: each source `Taxi` builds its own `EnvGraph` from the map. The model uses one graph, passed to every operation, so the constructor's map errors are those of Grid.Build and are not repeated here.
- Taxis.ComputeShortestPath: the passenger index, when present, is assumed to name a passenger, as in the repository's constructor calls, which either omit it or pass passenger 0. An out-of-range index raises `IndexError` in the source only when no point is given; the model does not cover taxis that carry such an index.
- Printing is left out. This covers the distance table printed in `calculate_distances_to_all_passengers` and the rendering in `execute_all_actions`.
- `Controller.get_next_step` discards the vector it builds. The model returns it, so that its contents can be stated.
- `collaboration_case` and `collaboration_statistics` are left out. The experiment's trials, with their random environments and collaborative outcomes, enter as a sequence of `Trial` values.
- `decentralized_control`, TaxiCup.py, task_allocation_demo.py, multi_passengers.py and the demo scripts are drivers outside this core.
- Experiments.NoCollaborationCase: `controller.env_graph.path_cost` and `Taxi.path_cost` are called but not defined in any file modelled here; the `Controller` shown has no `env_graph` attribute. Both are modelled as the length of `get_path`'s coordinate list, from the taxi's current location for the latter.
- Taxis.DistancesToAllPassengers: the environment's passenger count enters as a parameter that must not exceed the number of pick-up cells. A larger count makes Python raise an index error.
- Control.SetMeetingPoint looks up every taxi's outcome before applying them in roster order. Re-routing is pure, so the result equals that of the source's loop, which stops at the first exception.
- Experiments.NoCollaborationCase looks up every taxi's cost before scanning. The costs do not depend on one another, so the scan stops at the same taxi with the same error.
- Exceptions are returned as `Failure` values. Errors while building the map are `IndexOutOfRange` (`IndexError`), `NegativeNodeCount` (networkx's error for a negative node count) and `GraphGrewDuringScan` (`RuntimeError` from the node table changing size during the scan); errors from the search are `NodeNotFound` and `NoPath`.
- `node_to_cors` with zero columns divides by zero in Python. The model requires at least one column there.
- Control.AnyUnfinished follows the code: it is true when some taxi still has coordinates. The method's documentation states its `False` case the other way round.
- Taxis.NextStep compares the taxi's location with the last step handed out, as the source does. A taxi whose plan was replaced keeps that step, so a plan computed away from the last step starts by repeating it.
