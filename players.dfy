/** The team ledger of classes/Player.py. */
module Players {
  /** A team: its name, its points and its roster. The roster holds vehicles, whose class is a
      parameter here because the ledger never looks inside them. The constructor's strategy
      argument is not stored, so it is not modelled. */
  class Player<V> {
    const name: string
    var points: int
    var vehicles: seq<V>

    /** A new team has no points and no vehicles. */
    constructor (name: string)
      ensures this.name == name && points == 0 && vehicles == []
    {
      this.name := name;
      points := 0;
      vehicles := [];
    }

    /** add_vehicle: appends at the end of the roster, keeping earlier entries in order. */
    method AddVehicle(vehicle: V)
      modifies this
      ensures vehicles == old(vehicles) + [vehicle]
      ensures points == old(points)
    {
      vehicles := vehicles + [vehicle];
    }

    /** add_points: adds exactly `amount` to the total and leaves the roster alone. */
    method AddPoints(amount: int)
      modifies this
      ensures points == old(points) + amount
      ensures vehicles == old(vehicles)
    {
      points := points + amount;
    }
  }
}
