/**
 * The readings the polling loop receives and the rows it keeps from them.
 *
 * The HTTP request and the JSON decoding are not modelled; a `Response` is what they
 * hand to the loop: a transport failure, or a status code with a decoded body.
 */
module Intake {
  import opened Wrappers

  /** One row of the table: the three columns a complete reading fills. */
  datatype Row = Row(time: string, date: string, soilMoisture: real)

  /** A reading as decoded from JSON; a key that is absent or null is `None`. */
  datatype Record = Record(soilMoisture: Option<real>, time: Option<string>, date: Option<string>)

  /**
   * An element met while iterating the decoded body: a JSON object, or anything else
   * (a string, a number, a nested array), on which looking a key up raises.
   */
  datatype Element = Object(record: Record) | NonObject

  /**
   * A decoded body: not JSON at all, a JSON value that cannot be iterated (a number,
   * a boolean, null), or the elements that iterating it yields (for an array its items).
   */
  datatype Body = Undecodable | NotIterable | Items(elements: seq<Element>)

  datatype Response = TransportFailure | Reply(status: int, body: Body)

  /** The three status lines the fetch step can end with. */
  datatype FetchReport = Fetched(count: nat) | BadStatus(status: int) | FetchError

  predicate IsComplete(rec: Record) {
    rec.soilMoisture.Some? && rec.time.Some? && rec.date.Some?
  }

  /** What one record adds to the table: its row when it is complete, nothing otherwise. */
  function RowsOf(rec: Record): (rows: seq<Row>)
    ensures |rows| == (if IsComplete(rec) then 1 else 0)
    ensures forall r :: r in rows ==> rec == Record(Some(r.soilMoisture), Some(r.time), Some(r.date))
  {
    if IsComplete(rec) then [Row(rec.time.value, rec.date.value, rec.soilMoisture.value)] else []
  }

  predicate AllObjects(es: seq<Element>) {
    forall i :: 0 <= i < |es| ==> es[i].Object?
  }

  /**
   * The rows that iterating `es` appends, in order: each complete record's row, up to the
   * first element that is not an object, where the iteration raises.
   */
  function Accepted(es: seq<Element>): (rows: seq<Row>)
    ensures |rows| <= |es|
  {
    if es == [] then []
    else match es[0]
      case NonObject => []
      case Object(rec) => RowsOf(rec) + Accepted(es[1..])
  }

  /** Iterating the concatenation of two runs of objects appends what each run appends, in order. */
  lemma {:induction false} AcceptedConcat(a: seq<Element>, b: seq<Element>)
    requires AllObjects(a)
    ensures Accepted(a + b) == Accepted(a) + Accepted(b)
    decreases |a|
  {
    if a != [] {
      assert a[0].Object? && (a + b)[0] == a[0];
      assert (a + b)[1..] == a[1..] + b;
      assert AllObjects(a[1..]) by {
        forall i | 0 <= i < |a[1..]| ensures a[1..][i].Object? {
          assert a[1..][i] == a[i + 1];
        }
      }
      AcceptedConcat(a[1..], b);
      var rec := a[0].record;
      assert Accepted(a) == RowsOf(rec) + Accepted(a[1..]);
      assert Accepted(a + b) == RowsOf(rec) + Accepted((a + b)[1..]);
    } else {
      assert a + b == b;
    }
  }

  /**
   * A record reached by the iteration contributes its row exactly when all three keys hold
   * a value, at its own place between the rows of the records before and after it.
   */
  lemma AcceptedRecord(a: seq<Element>, rec: Record, b: seq<Element>)
    requires AllObjects(a)
    ensures Accepted(a + [Object(rec)] + b) == Accepted(a) + RowsOf(rec) + Accepted(b)
    ensures |RowsOf(rec)| == 1 <==> IsComplete(rec)
  {
    AcceptedConcat(a, [Object(rec)] + b);
    assert a + [Object(rec)] + b == a + ([Object(rec)] + b);
    assert ([Object(rec)] + b)[1..] == b;
  }

  /** An element that is not an object ends the iteration: nothing after it is appended. */
  lemma AcceptedStops(a: seq<Element>, b: seq<Element>)
    requires AllObjects(a)
    ensures Accepted(a + [NonObject] + b) == Accepted(a)
  {
    AcceptedConcat(a, [NonObject] + b);
    assert a + [NonObject] + b == a + ([NonObject] + b);
  }

  /** One more object read by the iteration adds what its record yields. */
  lemma AcceptedPrefixStep(es: seq<Element>, i: int)
    requires 0 <= i < |es| && AllObjects(es[..i]) && es[i].Object?
    ensures AllObjects(es[..i + 1])
    ensures Accepted(es[..i + 1]) == Accepted(es[..i]) + RowsOf(es[i].record)
  {
    AcceptedRecord(es[..i], es[i].record, []);
    assert es[..i + 1] == es[..i] + [Object(es[i].record)] + [];
  }

  /** An element that is not an object ends the iteration, and the run was not all objects. */
  lemma AcceptedPrefixStop(es: seq<Element>, i: int)
    requires 0 <= i < |es| && AllObjects(es[..i]) && es[i] == NonObject
    ensures !AllObjects(es)
    ensures Accepted(es) == Accepted(es[..i])
  {
    var before, rest := es[..i], es[i..];
    assert before + rest == es;
    AcceptedConcat(before, rest);
    assert rest[0] == NonObject;
  }

  /** The table grows by the reported count exactly when every element was a complete record. */
  lemma {:induction false} AcceptedCount(es: seq<Element>)
    requires AllObjects(es)
    ensures |Accepted(es)| == |es| <==> forall i :: 0 <= i < |es| ==> IsComplete(es[i].record)
    decreases |es|
  {
    if es != [] {
      AcceptedCount(es[1..]);
      assert forall i :: 1 <= i < |es| ==> es[i] == es[1..][i - 1];
    }
  }

  /** Positions below `n` that hold a complete record. */
  function CompleteBefore(es: seq<Element>, n: int): set<int> {
    set i | 0 <= i < n && i < |es| && es[i].Object? && IsComplete(es[i].record)
  }

  /** A run of objects appends exactly one row per complete record in it. */
  lemma AcceptedCountsComplete(es: seq<Element>)
    requires AllObjects(es)
    ensures |Accepted(es)| == |set i | 0 <= i < |es| && es[i].Object? && IsComplete(es[i].record)|
  {
    AcceptedPrefixCount(es, |es|);
    assert es[..|es|] == es;
    assert CompleteBefore(es, |es|) == set i | 0 <= i < |es| && es[i].Object? && IsComplete(es[i].record);
  }

  lemma {:induction false} AcceptedPrefixCount(es: seq<Element>, n: int)
    requires AllObjects(es) && 0 <= n <= |es|
    ensures |Accepted(es[..n])| == |CompleteBefore(es, n)|
    decreases n
  {
    if n == 0 {
      assert es[..0] == [];
      assert CompleteBefore(es, 0) == {};
    } else {
      AcceptedPrefixCount(es, n - 1);
      var prefix := es[..n - 1];
      assert AllObjects(prefix) by {
        forall i | 0 <= i < |prefix| ensures prefix[i].Object? {
          assert prefix[i] == es[i];
        }
      }
      AcceptedPrefixStep(es, n - 1);
      if IsComplete(es[n - 1].record) {
        assert CompleteBefore(es, n) == CompleteBefore(es, n - 1) + {n - 1};
        assert n - 1 !in CompleteBefore(es, n - 1);
      } else {
        assert CompleteBefore(es, n) == CompleteBefore(es, n - 1);
      }
    }
  }

  /** Every appended row is the content of a complete record of the response. */
  lemma {:induction false} AcceptedFromRecords(es: seq<Element>, r: Row)
    requires r in Accepted(es)
    ensures exists i :: 0 <= i < |es| && es[i] == Object(Record(Some(r.soilMoisture), Some(r.time), Some(r.date)))
    decreases |es|
  {
    match es[0]
    case Object(rec) =>
      if r !in RowsOf(rec) {
        AcceptedFromRecords(es[1..], r);
        var i :| 0 <= i < |es[1..]| && es[1..][i] == Object(Record(Some(r.soilMoisture), Some(r.time), Some(r.date)));
        assert es[i + 1] == es[1..][i];
      }
  }
}
