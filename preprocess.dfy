/**
 * The cleaning step of a training cycle: every row's `date`, a space and its `time` are
 * read in the layout `%d-%m-%Y %I:%M %p`; rows that do not read as a datetime leave the
 * table; each remaining row's feature is its datetime in whole seconds since the epoch.
 */
module Preprocess {
  import opened Wrappers
  import opened Calendar
  import opened DateTimeText
  import opened Intake

  /** The datetime a row carries, or None where the parse yields NaT. */
  function RowDateTime(r: Row): (dt: Option<DateTime>)
    ensures dt.Some? ==> IsValid(dt.value) && 1 <= dt.value.year <= 9999
  {
    Parse(r.date + " " + r.time)
  }

  predicate HasDateTime(r: Row) {
    RowDateTime(r).Some?
  }

  /**
   * A row keeps a datetime exactly when its date, one space and its time lay out
   * well-formed fields of the layout, with any whitespace runs, that name a day that
   * exists; every other row becomes NaT.
   */
  lemma HasDateTimeLayout(r: Row)
    ensures HasDateTime(r) <==>
            exists f, w1, w2 :: WellFormed(f) && IsSpaceRun(w1) && IsSpaceRun(w2)
                                && r.date + " " + r.time == Layout(f, w1, w2) && Convert(f).Some?
  {
    var s := r.date + " " + r.time;
    if HasDateTime(r) {
      ParseMatchesLayout(s, RowDateTime(r).value);
    }
    if exists f, w1, w2 :: WellFormed(f) && IsSpaceRun(w1) && IsSpaceRun(w2)
                           && s == Layout(f, w1, w2) && Convert(f).Some? {
      var f, w1, w2 :| WellFormed(f) && IsSpaceRun(w1) && IsSpaceRun(w2)
                       && s == Layout(f, w1, w2) && Convert(f).Some?;
      ParseMatchesLayout(s, Convert(f).value);
    }
  }

  /** The rows that keep their place in the table once the rows without a datetime are dropped. */
  function Cleaned(rows: seq<Row>): (kept: seq<Row>)
    ensures |kept| <= |rows|
    ensures forall r :: r in kept ==> r in rows && HasDateTime(r)
  {
    if rows == [] then []
    else (if HasDateTime(rows[0]) then [rows[0]] else []) + Cleaned(rows[1..])
  }

  /** `a` can be obtained from `b` by deleting elements: the order of what remains is kept. */
  predicate IsSubsequence<T(==)>(a: seq<T>, b: seq<T>)
    decreases |b|
  {
    if a == [] then true
    else if b == [] then false
    else if a[0] == b[0] then IsSubsequence(a[1..], b[1..])
    else IsSubsequence(a, b[1..])
  }

  /** A row stays exactly when it is in the table and carries a datetime. */
  lemma {:induction false} CleanedMembership(rows: seq<Row>, r: Row)
    ensures r in Cleaned(rows) <==> r in rows && HasDateTime(r)
    decreases |rows|
  {
    if rows != [] {
      CleanedMembership(rows[1..], r);
      assert rows == [rows[0]] + rows[1..];
    }
  }

  /** The rows that stay keep their relative order. */
  lemma {:induction false} CleanedKeepsOrder(rows: seq<Row>)
    ensures IsSubsequence(Cleaned(rows), rows)
    decreases |rows|
  {
    if rows != [] {
      CleanedKeepsOrder(rows[1..]);
      var rest := Cleaned(rows[1..]);
      if HasDateTime(rows[0]) {
        assert Cleaned(rows) == [rows[0]] + rest;
        assert Cleaned(rows)[1..] == rest;
      } else {
        assert Cleaned(rows) == rest;
        if rest != [] {
          SkipFirst(rest, rows);
        }
      }
    }
  }

  /** Putting one more element in front of the longer sequence keeps a subsequence one. */
  lemma {:induction false} SkipFirst<T>(a: seq<T>, b: seq<T>)
    requires b != [] && IsSubsequence(a, b[1..])
    ensures IsSubsequence(a, b)
    decreases |b|, |a|
  {
    if a != [] && a[0] == b[0] {
      SubsequenceTail(a, b[1..]);
    }
  }

  /** Dropping the first element of a subsequence keeps it one. */
  lemma {:induction false} SubsequenceTail<T>(a: seq<T>, b: seq<T>)
    requires a != [] && IsSubsequence(a, b)
    ensures IsSubsequence(a[1..], b)
    decreases |b|, |a|
  {
    if a[0] != b[0] {
      SubsequenceTail(a, b[1..]);
    }
    if a[1..] != [] {
      SkipFirst(a[1..], b);
    }
  }

  /** Each row is judged on its own: cleaning a concatenation cleans the two parts. */
  lemma {:induction false} CleanedConcat(a: seq<Row>, b: seq<Row>)
    ensures Cleaned(a + b) == Cleaned(a) + Cleaned(b)
    decreases |a|
  {
    if a == [] {
      assert a + b == b;
    } else {
      assert (a + b)[0] == a[0] && (a + b)[1..] == a[1..] + b;
      CleanedConcat(a[1..], b);
    }
  }

  /** Cleaning drops nothing exactly when every row carries a datetime. */
  lemma {:induction false} CleanedUnchanged(rows: seq<Row>)
    ensures Cleaned(rows) == rows <==> forall r :: r in rows ==> HasDateTime(r)
    decreases |rows|
  {
    if rows != [] {
      CleanedUnchanged(rows[1..]);
      assert rows == [rows[0]] + rows[1..];
      if !HasDateTime(rows[0]) {
        assert |Cleaned(rows)| <= |rows[1..]| < |rows|;
      }
    }
  }

  /** A second cleaning finds nothing more to drop. */
  lemma CleanedIdempotent(rows: seq<Row>)
    ensures Cleaned(Cleaned(rows)) == Cleaned(rows)
  {
    CleanedUnchanged(Cleaned(rows));
  }

  // ---------------------------------------------------------------------------
  // The numeric feature

  /** Nanoseconds since the epoch: the integer a pandas datetime column holds for the value. */
  function EpochNanos(dt: DateTime): (n: int)
    requires IsValid(dt)
    ensures n % 60_000_000_000 == 0
    ensures n / 1_000_000_000 == EpochSeconds(dt)
  {
    var m := EpochMinutes(dt);
    WholeMinuteNanos(m);
    m * 60_000_000_000
  }

  lemma WholeMinuteNanos(m: int)
    ensures (m * 60_000_000_000) % 60_000_000_000 == 0
    ensures (m * 60_000_000_000) / 1_000_000_000 == m * 60
  {
  }

  /**
   * A row's `time_numeric`: its nanosecond count floor-divided by 10^9. The division is
   * exact, so the feature is the row's seconds since the epoch, a whole number of minutes.
   */
  function TimeNumeric(r: Row): (t: int)
    requires HasDateTime(r)
    ensures t == EpochSeconds(RowDateTime(r).value) && t % 60 == 0
  {
    EpochNanos(RowDateTime(r).value) / 1_000_000_000
  }

  /** The feature orders rows as their datetimes fall on the calendar, and tells distinct ones apart. */
  lemma TimeNumericOrder(r1: Row, r2: Row)
    requires HasDateTime(r1) && HasDateTime(r2)
    ensures Precedes(RowDateTime(r1).value, RowDateTime(r2).value) <==> TimeNumeric(r1) < TimeNumeric(r2)
    ensures TimeNumeric(r1) == TimeNumeric(r2) <==> RowDateTime(r1) == RowDateTime(r2)
  {
    EpochSecondsOrder(RowDateTime(r1).value, RowDateTime(r2).value);
  }

  /** A reading written in the layout survives cleaning, and its feature is its epoch seconds. */
  lemma FormattedRowSurvives(dt: DateTime, moisture: real)
    requires IsValid(dt) && 1 <= dt.year <= 9999
    ensures HasDateTime(Row(FormatTime(dt), FormatDate(dt), moisture))
    ensures TimeNumeric(Row(FormatTime(dt), FormatDate(dt), moisture)) == EpochSeconds(dt)
  {
    ParseFormatted(dt);
  }
}
