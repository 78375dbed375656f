/** The environment's primitive actions. An action's integer code is its
    position in the environment's table of action names. */
module Actions {

  const ActionNames: seq<string> :=
    ["south", "north", "east", "west", "pickup", "dropoff",
     "turn_engine_on", "turn_engine_off", "standby", "refuel"]

  const South: int := 0
  const North: int := 1
  const East: int := 2
  const West: int := 3
  const Pickup: int := 4
  const Dropoff: int := 5
  const Standby: int := 8

  /** The named constants are the positions of their names in the action table. */
  lemma CodesNameTheirActions()
    ensures ActionNames[South] == "south" && ActionNames[North] == "north"
    ensures ActionNames[East] == "east" && ActionNames[West] == "west"
    ensures ActionNames[Pickup] == "pickup" && ActionNames[Dropoff] == "dropoff"
    ensures ActionNames[Standby] == "standby"
  {
  }
}
