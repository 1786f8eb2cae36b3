/**
 * The trend series of the instructor panel: each selected row, in
 * submission order, becomes a point numbered from 1 whose height is the
 * trend score of its feeling.
 */
module Trend {
  import Feelings
  import opened Rows

  /** One point of the series: position `n`, the row's timestamp and
      feeling, and the feeling's score. */
  datatype Point = Point(n: nat, timestamp: string, feeling: string, score: int)

  /** The points of `rows`, numbered from `first` on. */
  function SeriesFrom(rows: seq<Row>, first: nat): (t: seq<Point>)
    ensures |t| == |rows|
    ensures forall i :: 0 <= i < |rows| ==> t[i].n == first + i
    ensures forall i :: 0 <= i < |rows| ==>
      t[i].timestamp == rows[i].timestamp && t[i].feeling == rows[i].feeling
    ensures forall i :: 0 <= i < |rows| ==> t[i].score == Feelings.Score(rows[i].feeling)
  {
    if |rows| == 0 then []
    else
      var p := Point(first, rows[0].timestamp, rows[0].feeling, Feelings.Score(rows[0].feeling));
      [p] + SeriesFrom(rows[1..], first + 1)
  }

  /** The line chart's series: one point per row, positions exactly
      1..N in submission order, every score in [-2, 3]. */
  function Series(rows: seq<Row>): (t: seq<Point>)
    ensures |t| == |rows|
    ensures forall i :: 0 <= i < |rows| ==> t[i].n == i + 1
    ensures forall i :: 0 <= i < |rows| ==>
      t[i].timestamp == rows[i].timestamp && t[i].feeling == rows[i].feeling
    ensures forall i :: 0 <= i < |rows| ==> t[i].score == Feelings.Score(rows[i].feeling)
    ensures forall i :: 0 <= i < |rows| ==> -2 <= t[i].score <= 3
  {
    SeriesFrom(rows, 1)
  }

  /** A later submission extends the series by one point at position N+1
      and leaves every earlier point as it was. */
  lemma SeriesAppend(rows: seq<Row>, x: Row)
    ensures Series(rows + [x])
            == Series(rows) + [Point(|rows| + 1, x.timestamp, x.feeling, Feelings.Score(x.feeling))]
  {
    var a := Series(rows + [x]);
    var b := Series(rows) + [Point(|rows| + 1, x.timestamp, x.feeling, Feelings.Score(x.feeling))];
    assert |a| == |b|;
    forall i | 0 <= i < |a| ensures a[i] == b[i] {
      assert (rows + [x])[i] == if i < |rows| then rows[i] else x;
    }
  }
}
