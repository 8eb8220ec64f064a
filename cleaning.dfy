/** The monotonicity filter: one forward pass over the primary time column
    marks, for every adjacent pair whose later time does not exceed the
    earlier one, the EARLIER row of the pair; the marked rows are then removed
    in one go. */
module Cleaning {
  import opened Columns

  /** The marks the pass leaves behind: row i is marked exactly when its
      successor's time is not greater than its own. */
  function RemovalMarks(t: seq<real>): (marks: seq<bool>)
    ensures |marks| == |t|
  {
    seq(|t|, i requires 0 <= i < |t| => i + 1 < |t| && t[i + 1] <= t[i])
  }

  /** The number of adjacent pairs (t[i-1], t[i]) with t[i] <= t[i-1]. */
  function NonIncreasingPairs(t: seq<real>): nat
  {
    if |t| < 2 then 0
    else NonIncreasingPairs(t[..|t| - 1]) + (if t[|t| - 1] <= t[|t| - 2] then 1 else 0)
  }

  /** The marking loop: rows_to_remove starts all false and, for i from 1 to
      n-1, row i-1 is marked when t[i] <= t[i-1]. */
  method MarkNonIncreasing(t: seq<real>) returns (marks: seq<bool>)
    ensures |marks| == |t|
    ensures forall i :: 1 <= i < |t| ==> (marks[i - 1] <==> t[i] <= t[i - 1])
    ensures |t| > 0 ==> !marks[|t| - 1]
    ensures marks == RemovalMarks(t)
  {
    var rowsToRemove := new bool[|t|](_ => false);
    var i := 1;
    while i < |t|
      invariant 1 <= i && (|t| > 0 ==> i <= |t|)
      invariant forall j :: 0 <= j < i - 1 && j < |t| ==> (rowsToRemove[j] <==> t[j + 1] <= t[j])
      invariant forall j :: i - 1 <= j < |t| ==> !rowsToRemove[j]
    {
      if t[i] <= t[i - 1] {
        rowsToRemove[i - 1] := true;
      }
      i := i + 1;
    }
    marks := rowsToRemove[..];
  }

  /** The times that survive the filter. */
  function CleanTimes(t: seq<real>): (r: seq<real>)
    ensures |r| == |t| - CountTrue(RemovalMarks(t))
  {
    Filter(t, RemovalMarks(t))
  }

  /** rows_deleted, the difference of the row counts, is the number of
      non-increasing adjacent pairs. */
  lemma {:induction false} RowsDeletedIsPairCount(t: seq<real>)
    ensures |t| - |CleanTimes(t)| == NonIncreasingPairs(t)
  {
    MarksCount(t);
  }

  lemma {:induction false} MarksCount(t: seq<real>)
    ensures CountTrue(RemovalMarks(t)) == NonIncreasingPairs(t)
    decreases |t|
  {
    var m := RemovalMarks(t);
    if |t| < 2 {
      if |t| == 1 {
        assert m[..0] == [];
      }
    } else {
      var n := |t| - 1;
      var p := t[..n];
      var mp := RemovalMarks(p);
      MarksCount(p);
      // the earlier pairs are marked alike in t and in its prefix
      assert m[..n - 1] == mp[..n - 1];
      assert m[..n][..n - 1] == m[..n - 1];
      assert mp[..n - 1] == mp[..|mp| - 1];
      assert CountTrue(m) == CountTrue(m[..n]);
      assert CountTrue(m[..n]) == CountTrue(m[..n - 1]) + (if t[n] <= t[n - 1] then 1 else 0);
      assert CountTrue(mp) == CountTrue(mp[..n - 1]);
    }
  }

  /** A row is kept exactly when it is the last row or its successor is later. */
  lemma {:induction false} KeptRowRule(t: seq<real>, i: nat)
    requires i < |t|
    ensures i in KeptIndices(RemovalMarks(t)) <==> i == |t| - 1 || t[i] < t[i + 1]
  {
    var m := RemovalMarks(t);
    assert i in KeptIndices(m) <==> !m[i];
  }

  /** Every surviving row other than the original last row has a time strictly
      less than the time of its ORIGINAL successor. */
  lemma {:induction false} KeptBeforeSuccessor(t: seq<real>, k: nat)
    requires k < |CleanTimes(t)|
    ensures |KeptIndices(RemovalMarks(t))| == |CleanTimes(t)|
    ensures var i := KeptIndices(RemovalMarks(t))[k];
      CleanTimes(t)[k] == t[i] && (i + 1 < |t| ==> t[i] < t[i + 1])
  {
    FilterAt(t, RemovalMarks(t), k);
  }

  /** The original last row always survives and stays last. */
  lemma {:induction false} LastRowKept(t: seq<real>)
    requires |t| > 0
    ensures |CleanTimes(t)| > 0 && CleanTimes(t)[|CleanTimes(t)| - 1] == t[|t| - 1]
  {
    var m := RemovalMarks(t);
    assert m[..|t| - 1] == m[..|m| - 1];
  }

  /** A single row is never marked, so its column is returned unchanged. */
  lemma {:induction false} ShortUnchanged<T>(s: seq<T>, t: seq<real>)
    requires |s| == |t| == 1
    ensures Filter(s, RemovalMarks(t)) == s
  {
    FilterNone(s, RemovalMarks(t));
  }

  /** The output need not be strictly increasing: [1, 5, 6, 2] becomes
      [1, 5, 2], because the pair (6, 2) removes the 6 and keeps the 2. */
  lemma {:induction false} NotStrictlyIncreasing()
    ensures CleanTimes([1.0, 5.0, 6.0, 2.0]) == [1.0, 5.0, 2.0]
    ensures exists t: seq<real>, k :: 0 < k < |CleanTimes(t)| && CleanTimes(t)[k] <= CleanTimes(t)[k - 1]
  {
    var t := [1.0, 5.0, 6.0, 2.0];
    assert RemovalMarks(t) == [false, false, true, false];
    DropThirdOfFour(1.0, 5.0, 6.0, 2.0);
    assert CleanTimes(t)[2] <= CleanTimes(t)[1];
  }

  /** The earlier row of a non-increasing pair goes: [0.1, 0.05, 0.2, 0.3]
      loses the 0.1 and keeps the 0.05. */
  lemma {:induction false} EarlierRowRemoved()
    ensures RemovalMarks([0.1, 0.05, 0.2, 0.3]) == [true, false, false, false]
    ensures CleanTimes([0.1, 0.05, 0.2, 0.3]) == [0.05, 0.2, 0.3]
  {
    assert RemovalMarks([0.1, 0.05, 0.2, 0.3]) == [true, false, false, false];
    DropFirstOfFour(0.1, 0.05, 0.2, 0.3);
  }

  /** Four rows of which only the first is marked. */
  lemma {:induction false} DropFirstOfFour<T>(a: T, b: T, c: T, d: T)
    ensures Filter([a, b, c, d], [true, false, false, false]) == [b, c, d]
  {
    assert Filter([a], [true]) == [] by {
      FilterSnoc([], a, [], true);
      assert [] + [a] == [a] && [] + [true] == [true];
    }
    assert Filter([a, b], [true, false]) == [b] by {
      FilterSnoc([a], b, [true], false);
      assert [a] + [b] == [a, b] && [true] + [false] == [true, false];
    }
    assert Filter([a, b, c], [true, false, false]) == [b, c] by {
      FilterSnoc([a, b], c, [true, false], false);
      assert [a, b] + [c] == [a, b, c] && [true, false] + [false] == [true, false, false];
    }
    assert Filter([a, b, c, d], [true, false, false, false]) == [b, c, d] by {
      FilterSnoc([a, b, c], d, [true, false, false], false);
      assert [a, b, c] + [d] == [a, b, c, d] && [true, false, false] + [false] == [true, false, false, false];
    }
  }

  /** Four rows of which only the third is marked. */
  lemma {:induction false} DropThirdOfFour<T>(a: T, b: T, c: T, d: T)
    ensures Filter([a, b, c, d], [false, false, true, false]) == [a, b, d]
  {
    assert Filter([a], [false]) == [a] by {
      FilterSnoc([], a, [], false);
      assert [] + [a] == [a] && [] + [false] == [false];
    }
    assert Filter([a, b], [false, false]) == [a, b] by {
      FilterSnoc([a], b, [false], false);
      assert [a] + [b] == [a, b] && [false] + [false] == [false, false];
    }
    assert Filter([a, b, c], [false, false, true]) == [a, b] by {
      FilterSnoc([a, b], c, [false, false], true);
      assert [a, b] + [c] == [a, b, c] && [false, false] + [true] == [false, false, true];
    }
    assert Filter([a, b, c, d], [false, false, true, false]) == [a, b, d] by {
      FilterSnoc([a, b, c], d, [false, false, true], false);
      assert [a, b, c] + [d] == [a, b, c, d] && [false, false, true] + [false] == [false, false, true, false];
    }
  }
}
