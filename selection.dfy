/**
 * The shape shared by the three lookup tools: walk the rows in order, keep
 * those that pass the tool's filter, project each kept row to an item, and
 * stop right after the item that brings the output to `limit`.
 */
module Selection {
  import opened Wrappers
  import opened Rows

  /** Every kept row, projected, in row order. */
  function Select<T>(rows: seq<Row>, keep: Row -> bool, project: Row -> T): (r: seq<T>)
    ensures |r| <= |rows|
  {
    if rows == [] then []
    else
      var last := rows[|rows| - 1];
      Select(rows[..|rows| - 1], keep, project) + (if keep(last) then [project(last)] else [])
  }

  /**
   * How many items a tool can return: `if len(out) >= limit: break` runs
   * after the append, so a limit below one still lets the first item through.
   */
  function Cap(limit: int): (n: nat)
    ensures n >= 1 && n >= limit
    ensures limit >= 1 ==> n == limit
    ensures limit < 1 ==> n == 1
  {
    if limit < 1 then 1 else limit
  }

  /** The first `Cap(limit)` items of `s`. */
  function Capped<T>(s: seq<T>, limit: int): (r: seq<T>)
    ensures r <= s
    ensures |r| == if |s| < Cap(limit) then |s| else Cap(limit)
  {
    if |s| < Cap(limit) then s else s[..Cap(limit)]
  }

  /** Selecting from a prefix of the rows gives a prefix of the selection. */
  lemma {:induction false} SelectPrefix<T>(rows: seq<Row>, i: nat, keep: Row -> bool, project: Row -> T)
    requires i <= |rows|
    ensures Select(rows[..i], keep, project) <= Select(rows, keep, project)
    decreases |rows|
  {
    if i < |rows| {
      var init := rows[..|rows| - 1];
      assert init[..i] == rows[..i];
      SelectPrefix(init, i, keep, project);
    } else {
      assert rows[..i] == rows;
    }
  }

  /** One more row: its item, if it is kept, goes at the end of the selection. */
  lemma SelectExtend<T>(rows: seq<Row>, i: nat, keep: Row -> bool, project: Row -> T, picked: Option<T>)
    requires i < |rows|
    requires picked == if keep(rows[i]) then Some(project(rows[i])) else None
    ensures Select(rows[..i + 1], keep, project)
         == Select(rows[..i], keep, project) + (if picked.Some? then [picked.value] else [])
  {
    assert rows[..i + 1][..i] == rows[..i];
  }

  /**
   * A loop that stopped after the item that reached the cap has produced
   * exactly the capped selection.
   */
  lemma CappedAtStop<T>(rows: seq<Row>, i: nat, keep: Row -> bool, project: Row -> T, limit: int)
    requires i <= |rows|
    requires |Select(rows[..i], keep, project)| == Cap(limit)
    ensures Capped(Select(rows, keep, project), limit) == Select(rows[..i], keep, project)
  {
    SelectPrefix(rows, i, keep, project);
  }

  /** A loop that ran through all rows below the cap has produced the whole selection. */
  lemma CappedAtEnd<T>(rows: seq<Row>, keep: Row -> bool, project: Row -> T, limit: int)
    requires |Select(rows, keep, project)| < Cap(limit)
    ensures Capped(Select(rows, keep, project), limit) == Select(rows, keep, project)
  {
  }

  /** Every item of a capped sequence is an item of the whole. */
  lemma CappedWithin<T>(s: seq<T>, limit: int)
    ensures forall x :: x in Capped(s, limit) ==> x in s
  {
    var c := Capped(s, limit);
    forall x | x in c
      ensures x in s
    {
      var k :| 0 <= k < |c| && c[k] == x;
      assert s[k] == x;
    }
  }

  /** The positions of the kept rows, in increasing order. */
  function KeptIndices(rows: seq<Row>, keep: Row -> bool): (idx: seq<nat>)
    ensures forall k :: 0 <= k < |idx| ==> idx[k] < |rows| && keep(rows[idx[k]])
    ensures forall k, l :: 0 <= k < l < |idx| ==> idx[k] < idx[l]
    ensures forall i :: 0 <= i < |rows| && keep(rows[i]) ==> i in idx
  {
    if rows == [] then []
    else
      var n := |rows| - 1;
      var init := KeptIndices(rows[..n], keep);
      assert forall k :: 0 <= k < |init| ==> rows[..n][init[k]] == rows[init[k]];
      init + (if keep(rows[n]) then [n] else [])
  }

  /**
   * The selection is exactly the kept rows, projected, in row order: its k-th
   * item is the projection of the k-th kept row.
   */
  lemma {:induction false} SelectIsKeptRows<T>(rows: seq<Row>, keep: Row -> bool, project: Row -> T)
    ensures |Select(rows, keep, project)| == |KeptIndices(rows, keep)|
    ensures forall k :: 0 <= k < |KeptIndices(rows, keep)| ==>
      Select(rows, keep, project)[k] == project(rows[KeptIndices(rows, keep)[k]])
  {
    if rows != [] {
      var n := |rows| - 1;
      var init := rows[..n];
      SelectIsKeptRows(init, keep, project);
      var idx := KeptIndices(init, keep);
      var sel := Select(init, keep, project);
      assert Select(rows, keep, project) == sel + (if keep(rows[n]) then [project(rows[n])] else []);
      assert KeptIndices(rows, keep) == idx + (if keep(rows[n]) then [n] else []);
      forall k | 0 <= k < |idx|
        ensures sel[k] == project(rows[idx[k]])
      {
        assert init[idx[k]] == rows[idx[k]];
      }
    }
  }
}
