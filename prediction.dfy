/**
 * The forecast instant and the condition label reported for a predicted moisture.
 * The fitted regression itself is not modelled: the predicted moisture is a real number
 * handed in from outside.
 */
module Prediction {
  import opened Calendar
  import opened Intake
  import opened Preprocess

  /** How far past the last row the forecast looks: ten minutes, in seconds. */
  const Horizon: int := 600

  datatype Condition = Dry | SlightlyWet | Wet

  /** The word the report prints for a condition. */
  function Label(c: Condition): string {
    match c
    case Dry => "Dry"
    case SlightlyWet => "Slightly Wet"
    case Wet => "Wet"
  }

  /** Below 20 is dry, above 50 is wet, and both bounds themselves count as slightly wet. */
  function Classify(moisture: real): (c: Condition)
    ensures c == Dry <==> moisture < 20.0
    ensures c == SlightlyWet <==> 20.0 <= moisture <= 50.0
    ensures c == Wet <==> 50.0 < moisture
  {
    if moisture < 20.0 then Dry
    else if moisture <= 50.0 then SlightlyWet
    else Wet
  }

  function Wetness(c: Condition): int {
    match c
    case Dry => 0
    case SlightlyWet => 1
    case Wet => 2
  }

  /** A wetter prediction never gets a drier label. */
  lemma ClassifyMonotone(v: real, w: real)
    requires v <= w
    ensures Wetness(Classify(v)) <= Wetness(Classify(w))
  {
  }

  /**
   * The instant the forecast is made for: the `time_numeric` of the table's last row, in
   * table order, plus the horizon. It depends on the rows only, never on the clock.
   */
  function NextTime(rows: seq<Row>): (t: int)
    requires rows != [] && HasDateTime(rows[|rows| - 1])
    ensures t == EpochSeconds(RowDateTime(rows[|rows| - 1]).value) + 600
    ensures t % 60 == 0
  {
    var last := TimeNumeric(rows[|rows| - 1]);
    MinuteShift(last);
    last + Horizon
  }

  lemma MinuteShift(t: int)
    requires t % 60 == 0
    ensures (t + Horizon) % 60 == 0
  {
    assert t + Horizon == 60 * (t / 60 + 10);
  }
}
