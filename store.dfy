/**
 * The table of readings that one polling process keeps for its whole lifetime, and the two
 * steps of every polling cycle that change it: fetching appends complete readings, and a
 * training cycle, once the table is large enough, drops in place every row whose date and
 * time do not read in the layout.
 */
module Store {
  import opened Wrappers
  import opened DateTimeText
  import opened Intake
  import opened Preprocess
  import opened Prediction

  /** A training cycle runs only when the table holds more rows than this. */
  const TrainingGate: int := 5

  /** How a training cycle ends. */
  datatype Outcome =
    | Skipped
      // the table had too few rows: nothing was done
    | Unhandled
      // the gate passed but fewer than two rows survived cleaning, so the 80/20 split
      // leaves no training row and raises; nothing in the program catches it
    | Forecast(at: int, moisture: real, condition: string)
      // the instant forecast for, the predicted moisture and the condition label printed for it

  class DataStore {
    /** The rows in insertion order; duplicates are kept. */
    var rows: seq<Row>

    constructor ()
      ensures rows == []
    {
      rows := [];
    }

    /**
     * One fetch step over the response it received. A transport failure, a status other
     * than 200, or a body that does not decode or cannot be iterated leaves the table as it
     * was. Otherwise each complete record's row is appended in response order; an element
     * that is not an object raises, keeping what was appended before it. The count reported
     * on success is the number of elements, skipped records included.
     */
    method Fetch(response: Response) returns (report: FetchReport)
      modifies this
      ensures response.TransportFailure? ==> rows == old(rows) && report == FetchError
      ensures response.Reply? && response.status != 200 ==>
                rows == old(rows) && report == BadStatus(response.status)
      ensures response.Reply? && response.status == 200 && !response.body.Items? ==>
                rows == old(rows) && report == FetchError
      ensures response.Reply? && response.status == 200 && response.body.Items? ==>
                var es := response.body.elements;
                rows == old(rows) + Accepted(es)
                && report == (if AllObjects(es) then Fetched(|es|) else FetchError)
    {
      if response.TransportFailure? {
        return FetchError;
      }
      if response.status != 200 {
        return BadStatus(response.status);
      }
      if !response.body.Items? {
        return FetchError;
      }
      var es := response.body.elements;
      var i := 0;
      while i < |es|
        invariant 0 <= i <= |es|
        invariant AllObjects(es[..i])
        invariant rows == old(rows) + Accepted(es[..i])
      {
        match es[i]
        case NonObject =>
          AcceptedPrefixStop(es, i);
          return FetchError;
        case Object(rec) =>
          if rec.soilMoisture.Some? && rec.time.Some? && rec.date.Some? {
            rows := rows + [Row(rec.time.value, rec.date.value, rec.soilMoisture.value)];
          }
          AcceptedPrefixStep(es, i);
          i := i + 1;
      }
      assert es[..i] == es;
      return Fetched(|es|);
    }

    /** Drops, in place, every row whose `date + " " + time` does not parse; the rest keep their order. */
    method Clean()
      modifies this
      ensures rows == Cleaned(old(rows))
    {
      rows := Cleaned(rows);
    }

    /**
     * One training cycle. The gate compares the size of the table before cleaning, so a
     * table that passes it may keep fewer rows than the gate asks for. `predict` stands for
     * the regression line fitted in this cycle, which the model does not compute.
     */
    method TrainAndPredict(predict: int -> real) returns (outcome: Outcome)
      modifies this
      ensures |old(rows)| <= TrainingGate ==> rows == old(rows) && outcome == Skipped
      ensures |old(rows)| > TrainingGate ==> rows == Cleaned(old(rows))
      ensures |old(rows)| > TrainingGate && |rows| < 2 ==> outcome == Unhandled
      ensures |old(rows)| > TrainingGate && |rows| >= 2 ==>
                var at := NextTime(rows);
                outcome == Forecast(at, predict(at), Label(Classify(predict(at))))
    {
      if |rows| <= TrainingGate {
        return Skipped;
      }
      Clean();
      if |rows| < 2 {
        return Unhandled;
      }
      assert rows[|rows| - 1] in rows;
      var at := NextTime(rows);
      var predicted := predict(at);
      return Forecast(at, predicted, Label(Classify(predicted)));
    }
  }

  /**
   * The gate does not protect the split: six rows that all fail to parse pass the gate,
   * and cleaning then leaves no row at all.
   */
  lemma GateBeforeCleaning()
    ensures var rows := seq(6, _ => Row("", "", 0.0));
            |rows| > TrainingGate && Cleaned(rows) == []
  {
    var rows := seq(6, _ => Row("", "", 0.0));
    assert !HasDateTime(Row("", "", 0.0)) by {
      assert Scan("" + " " + "") == None;
    }
    if Cleaned(rows) != [] {
      assert Cleaned(rows)[0] in Cleaned(rows);
    }
  }
}
