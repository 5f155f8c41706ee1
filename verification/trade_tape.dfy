/** The trade tape of app.js (addHistoryRow): rows are prepended, so the newest
    is first, and once the tape holds more than twenty rows the last one goes. */
module TradeTape {
  import opened Common

  /** Rows kept on the tape. */
  const Capacity: nat := 20

  /** One printed trade. The wall-clock time printed with it is not modelled. */
  datatype Row = Row(price: real, amount: real, side: Side)

  /** addHistoryRow: prepend, then drop the last row if the tape is over capacity. */
  function AddHistoryRow(tape: seq<Row>, row: Row): (t: seq<Row>)
    ensures |t| > 0 && t[0] == row
    ensures |tape| < Capacity ==> |t| == |tape| + 1 && t[1..] == tape
    ensures |tape| >= Capacity ==> |t| == |tape| && t[1..] == tape[..|tape| - 1]
    ensures |tape| <= Capacity ==> |t| <= Capacity
  {
    var t := [row] + tape;
    if |t| > Capacity then t[..|t| - 1] else t
  }

  /** The tape after adding `rows`, oldest first. */
  function AddAll(tape: seq<Row>, rows: seq<Row>): seq<Row>
    decreases |rows|
  {
    if |rows| == 0 then tape
    else AddHistoryRow(AddAll(tape, rows[..|rows| - 1]), rows[|rows| - 1])
  }

  function Reverse(rows: seq<Row>): (r: seq<Row>)
    ensures |r| == |rows|
    ensures forall k :: 0 <= k < |rows| ==> r[k] == rows[|rows| - 1 - k]
    decreases |rows|
  {
    if |rows| == 0 then [] else [rows[|rows| - 1]] + Reverse(rows[..|rows| - 1])
  }

  /** Reference definition of what the tape shows: the newest `Capacity` rows,
      newest first. */
  function Newest(rows: seq<Row>): seq<Row> {
    var r := Reverse(rows);
    if |r| <= Capacity then r else r[..Capacity]
  }

  /** Starting from an empty tape, the tape always holds exactly the newest twenty
      rows added, newest first. */
  lemma {:induction false} AddAllShowsNewest(rows: seq<Row>)
    ensures AddAll([], rows) == Newest(rows)
    decreases |rows|
  {
    if |rows| > 0 {
      var init := rows[..|rows| - 1];
      var last := rows[|rows| - 1];
      AddAllShowsNewest(init);
      var before := Newest(init);
      var after := AddHistoryRow(before, last);
      var want := Newest(rows);
      assert |after| == |want|;
      forall k | 0 <= k < |want|
        ensures after[k] == want[k]
      {
        if k > 0 {
          assert after[k] == before[k - 1];
          assert init[|init| - 1 - (k - 1)] == rows[|rows| - 1 - k];
        }
      }
    }
  }

  /** A tape that starts within capacity never grows beyond it. */
  lemma {:induction false} AddAllBounded(tape: seq<Row>, rows: seq<Row>)
    requires |tape| <= Capacity
    ensures |AddAll(tape, rows)| <= Capacity
    decreases |rows|
  {
    if |rows| > 0 {
      AddAllBounded(tape, rows[..|rows| - 1]);
    }
  }
}
