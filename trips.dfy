/** A fleet table's row and the SQL conditions the cleaning scripts test it with. */
module Trips {
  import opened Sql

  /** A trip as the loader stores it: the four columns it selects from each parquet
      file. Timestamps are seconds; the distance is a floating-point number of miles. */
  datatype Row = Row(
    passengerCount: Option<int>,
    distance: Option<real>,
    pickup: Option<int>,
    dropoff: Option<int>)

  /** Seconds in a day: the longest trip either script keeps. */
  const OneDay := 86400
  /** Miles: the longest trip either script keeps. */
  const MaxDistance := 100.0

  /** `date_diff('second', pickup_datetime, dropoff_datetime)` */
  function DurationSeconds(r: Row): Option<int> {
    Minus(r.dropoff, r.pickup)
  }

  /** `EXTRACT(year FROM pickup_datetime)`, with the calendar left to `yearOf`. */
  function PickupYear(r: Row, yearOf: int -> int): Option<int> {
    Extract(r.pickup, yearOf)
  }

  /** The WHERE conditions of the deletes, as the two scripts write them. */
  datatype Check =
    | NoPassengers       // passenger_count = 0 OR passenger_count IS NULL
    | ZeroDistance       // distance = 0 OR distance IS NULL
    | TooFar             // distance > 100
    | TooLongOrNoPickup  // date_diff(...) > 86400 OR pickup_datetime IS NULL OR pickup_datetime IS NULL
    | TooLongOrMissing   // (date_diff(...) > 86400 OR pickup_datetime IS NULL OR dropoff_datetime IS NULL)

  /** The condition's value for one row. */
  function Matches(c: Check, r: Row): (t: Truth)
    ensures c == NoPassengers ==>
      t != Unknown && (t == True <==> r.passengerCount.None? || r.passengerCount.value == 0)
    ensures c == ZeroDistance ==>
      t != Unknown && (t == True <==> r.distance.None? || r.distance.value == 0.0)
    ensures c == TooFar ==>
      (t == Unknown <==> r.distance.None?) &&
      (t == True <==> r.distance.Some? && r.distance.value > MaxDistance)
    ensures c == TooLongOrNoPickup ==>
      (t == Unknown <==> r.pickup.Some? && r.dropoff.None?) &&
      (t == True <==> r.pickup.None? || (r.dropoff.Some? && r.dropoff.value - r.pickup.value > OneDay))
    ensures c == TooLongOrMissing ==>
      t != Unknown &&
      (t == True <==> r.pickup.None? || r.dropoff.None? || r.dropoff.value - r.pickup.value > OneDay)
  {
    match c
    case NoPassengers => Or(Equals(r.passengerCount, 0), IsNull(r.passengerCount))
    case ZeroDistance => Or(Equals(r.distance, 0.0), IsNull(r.distance))
    case TooFar => GreaterReal(r.distance, MaxDistance)
    case TooLongOrNoPickup =>
      Or(Or(GreaterInt(DurationSeconds(r), OneDay), IsNull(r.pickup)), IsNull(r.pickup))
    case TooLongOrMissing =>
      Or(Or(GreaterInt(DurationSeconds(r), OneDay), IsNull(r.pickup)), IsNull(r.dropoff))
  }

  /** `WHERE <check>` over a whole table. */
  function Where(c: Check): Row -> Truth {
    r => Matches(c, r)
  }

  /** `WHERE EXTRACT(year FROM pickup_datetime) = year`: Unknown exactly for a NULL
      pickup, and otherwise True exactly when the pickup falls in that year. */
  function InYear(year: int, yearOf: int -> int): (p: Row -> Truth)
    ensures forall r :: p(r) == Unknown <==> r.pickup.None?
    ensures forall r :: p(r) == True <==> r.pickup.Some? && yearOf(r.pickup.value) == year
  {
    r => Equals(PickupYear(r, yearOf), year)
  }

  /** `WHERE (<check>) AND EXTRACT(year FROM pickup_datetime) = year`: True exactly when
      the check is True and the row has a pickup in that year, so a row with a NULL
      pickup never matches, not even the check that tests `pickup_datetime IS NULL`. */
  function WhereInYear(c: Check, year: int, yearOf: int -> int): (p: Row -> Truth)
    ensures forall r :: p(r) == True <==>
      Matches(c, r) == True && r.pickup.Some? && yearOf(r.pickup.value) == year
  {
    r => And(Matches(c, r), Equals(PickupYear(r, yearOf), year))
  }

  /** The residual counts clean.py reports after cleaning. */
  datatype Probe =
    | ZeroPassengers  // passenger_count = 0
    | ZeroLength      // distance = 0
    | OverHundred     // distance > 100
    | OverOneDay      // date_diff(...) > 86400

  function Shows(p: Probe, r: Row): (t: Truth)
    ensures p == ZeroPassengers ==> (t == True <==> r.passengerCount == Some(0))
    ensures p == ZeroLength ==> (t == True <==> r.distance == Some(0.0))
    ensures p == OverHundred ==> (t == True <==> r.distance.Some? && r.distance.value > MaxDistance)
    ensures p == OverOneDay ==>
      (t == True <==> r.pickup.Some? && r.dropoff.Some? && r.dropoff.value - r.pickup.value > OneDay)
  {
    match p
    case ZeroPassengers => Equals(r.passengerCount, 0)
    case ZeroLength => Equals(r.distance, 0.0)
    case OverHundred => GreaterReal(r.distance, MaxDistance)
    case OverOneDay => GreaterInt(DurationSeconds(r), OneDay)
  }

  function WhereShows(p: Probe): Row -> Truth {
    r => Shows(p, r)
  }
}
