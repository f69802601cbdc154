/** Counting the marked positions of a sequence, and of several. */
module Sizes {

  function CountTrue(marks: seq<bool>): nat {
    if marks == [] then 0
    else
      var n := |marks| - 1;
      CountTrue(marks[..n]) + if marks[n] then 1 else 0
  }

  function TotalTrue(rows: seq<seq<bool>>): nat {
    if rows == [] then 0 else TotalTrue(rows[..|rows| - 1]) + CountTrue(rows[|rows| - 1])
  }

  /** The recursive count is the number of marked positions. */
  lemma {:induction false} CountIsSize(marks: seq<bool>)
    ensures CountTrue(marks) == |set i | 0 <= i < |marks| && marks[i]|
  {
    var marked := set i | 0 <= i < |marks| && marks[i];
    if marks == [] {
      assert marked == {};
    } else {
      var n := |marks| - 1;
      var rest := set i | 0 <= i < |marks[..n]| && marks[..n][i];
      CountIsSize(marks[..n]);
      assert marked == rest + if marks[n] then {n} else {};
    }
  }

  lemma {:induction false} AllTrue(marks: seq<bool>)
    requires forall i | 0 <= i < |marks| :: marks[i]
    ensures CountTrue(marks) == |marks|
  {
    if marks != [] {
      AllTrue(marks[..|marks| - 1]);
    }
  }

  function Marked(rows: seq<seq<bool>>): set<(int, int)> {
    set i, j | 0 <= i < |rows| && 0 <= j < |rows[i]| && rows[i][j] :: (i, j)
  }

  /** Over several rows, it is the number of marked pairs of row and position. */
  lemma {:induction false} PairCount(rows: seq<seq<bool>>)
    ensures TotalTrue(rows) == |Marked(rows)|
  {
    if rows == [] {
      assert Marked(rows) == {};
    } else {
      var n := |rows| - 1;
      PairCount(rows[..n]);
      LastRow(rows[..n], rows[n]);
      assert rows == rows[..n] + [rows[n]];
    }
  }

  lemma {:induction false} LastRow(rows: seq<seq<bool>>, last: seq<bool>)
    ensures |Marked(rows + [last])| == |Marked(rows)| + CountTrue(last)
  {
    var n := |rows|;
    if last == [] {
      assert Marked(rows + [last]) == Marked(rows);
    } else {
      var k := |last| - 1;
      LastRow(rows, last[..k]);
      var here := if last[k] then {(n, k)} else {};
      var all, before := rows + [last], rows + [last[..k]];
      assert forall i | 0 <= i < n :: all[i] == rows[i] == before[i];
      assert Marked(all) == Marked(before) + here;
      assert Marked(before) !! here;
    }
  }
}
