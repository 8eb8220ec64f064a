/** Column-level building blocks shared by the pipeline stages: applying a
    cell function that may raise to a whole column, keeping the rows a mask
    does not mark, and locating the first or last flagged row. */
module Columns {
  import opened Cells

  /** Applying a cell conversion to every cell of a column, in row order; the
      first cell whose conversion raises aborts the whole column with that
      exception. */
  function MapResult<A, B>(f: A -> Result<B>, s: seq<A>): (r: Result<seq<B>>)
    ensures r.Ok? <==> forall i :: 0 <= i < |s| ==> f(s[i]).Ok?
    ensures r.Ok? ==> |r.value| == |s| && forall i :: 0 <= i < |s| ==> f(s[i]) == Ok(r.value[i])
    ensures r.Err? ==> exists i :: 0 <= i < |s| && f(s[i]) == Err(r.error) && forall j :: 0 <= j < i ==> f(s[j]).Ok?
  {
    if s == [] then
      Ok([])
    else
      match f(s[0])
      case Err(e) => Err(e)
      case Ok(b) =>
        match MapResult(f, s[1..])
        case Err(e) =>
          assert forall j :: 0 < j <= |s[1..]| ==> s[j] == s[1..][j - 1];
          Err(e)
        case Ok(rest) => Ok([b] + rest)
  }

  /** Every cell a number or missing: the cells arithmetic and comparisons
      with a number accept. */
  predicate NumericColumn(col: seq<Cell>)
  {
    forall i :: 0 <= i < |col| ==> col[i].Num? || col[i].Missing?
  }

  /** The number of marked rows. */
  function CountTrue(marks: seq<bool>): (n: nat)
    ensures n <= |marks|
  {
    if marks == [] then 0
    else CountTrue(marks[..|marks| - 1]) + (if marks[|marks| - 1] then 1 else 0)
  }

  /** The rows of `s` that `drop` does not mark, in their original order. */
  function Filter<T>(s: seq<T>, drop: seq<bool>): (r: seq<T>)
    requires |drop| == |s|
    ensures |r| == |s| - CountTrue(drop)
  {
    if s == [] then []
    else
      var kept := Filter(s[..|s| - 1], drop[..|s| - 1]);
      assert drop[..|s| - 1] == drop[..|drop| - 1];
      if drop[|s| - 1] then kept else kept + [s[|s| - 1]]
  }

  /** The positions `drop` does not mark, in increasing order. */
  function KeptIndices(drop: seq<bool>): (ks: seq<nat>)
    ensures |ks| == |drop| - CountTrue(drop)
    ensures forall k :: 0 <= k < |ks| ==> ks[k] < |drop| && !drop[ks[k]]
    ensures forall k, l :: 0 <= k < l < |ks| ==> ks[k] < ks[l]
    ensures forall i :: 0 <= i < |drop| ==> (i in ks <==> !drop[i])
  {
    if drop == [] then []
    else
      var n := |drop| - 1;
      var kept := KeptIndices(drop[..n]);
      if drop[n] then kept else kept + [n]
  }

  /** The k-th kept row is the row at the k-th kept position. */
  lemma {:induction false} FilterAt<T>(s: seq<T>, drop: seq<bool>, k: nat)
    requires |drop| == |s| && k < |Filter(s, drop)|
    ensures |KeptIndices(drop)| == |Filter(s, drop)|
    ensures Filter(s, drop)[k] == s[KeptIndices(drop)[k]]
    decreases |s|
  {
    var n := |s| - 1;
    assert drop[..n] == drop[..|drop| - 1];
    var kept := Filter(s[..n], drop[..n]);
    if k < |kept| {
      FilterAt(s[..n], drop[..n], k);
    }
  }

  /** Filtering one more row appends it unless it is marked. */
  lemma {:induction false} FilterSnoc<T>(s: seq<T>, x: T, drop: seq<bool>, b: bool)
    requires |drop| == |s|
    ensures Filter(s + [x], drop + [b]) == if b then Filter(s, drop) else Filter(s, drop) + [x]
  {
    assert (s + [x])[..|s|] == s;
    assert (drop + [b])[..|s|] == drop;
  }

  /** Nothing is removed when nothing is marked. */
  lemma {:induction false} FilterNone<T>(s: seq<T>, drop: seq<bool>)
    requires |drop| == |s| && forall i :: 0 <= i < |drop| ==> !drop[i]
    ensures Filter(s, drop) == s
    decreases |s|
  {
    if s != [] {
      var n := |s| - 1;
      assert forall i :: 0 <= i < n ==> drop[..n][i] == drop[i];
      FilterNone(s[..n], drop[..n]);
      assert drop[..n] == drop[..|drop| - 1];
      assert Filter(s, drop) == s[..n] + [s[n]];
      assert s[..n] + [s[n]] == s;
    }
  }

  // ---------------------------------------------------------------------
  // Row labels

  /** The labels 0, 1, ..., n-1 that a freshly numbered index carries. */
  function Positions(n: nat): (ix: seq<nat>)
    ensures |ix| == n && forall k :: 0 <= k < n ==> ix[k] == k
  {
    seq(n, k requires 0 <= k < n => k)
  }

  lemma {:induction false} InPositions(n: nat, x: nat)
    ensures x in Positions(n) <==> x < n
  {
    if x < n {
      assert Positions(n)[x] == x;
    }
  }

  predicate Increasing(ix: seq<nat>)
  {
    forall k, l :: 0 <= k < l < |ix| ==> ix[k] < ix[l]
  }

  /** Every row label is a label of a mask numbered 0..n-1, where n is the
      number of rows: only then can pandas align the mask with the rows. */
  predicate Aligned(index: seq<nat>)
  {
    forall k :: 0 <= k < |index| ==> index[k] < |index|
  }

  /** No marked row comes before an unmarked one. */
  predicate MarksTrailing(drop: seq<bool>)
  {
    forall i, j :: 0 <= i < j < |drop| && drop[i] ==> drop[j]
  }

  lemma {:induction false} IncreasingGap(ix: seq<nat>, k: nat, l: nat)
    requires Increasing(ix) && k <= l < |ix|
    ensures ix[l] - ix[k] >= l - k
    decreases l - k
  {
    if k < l {
      IncreasingGap(ix, k + 1, l);
    }
  }

  /** Increasing labels line up with a mask numbered 0..n-1 exactly when they
      are 0..n-1 themselves, so the aligned mask is the positional one. */
  lemma {:induction false} AlignedIsPositions(ix: seq<nat>)
    requires Increasing(ix)
    ensures Aligned(ix) <==> ix == Positions(|ix|)
  {
    if Aligned(ix) {
      forall k | 0 <= k < |ix|
        ensures ix[k] == k
      {
        IncreasingGap(ix, 0, k);
        IncreasingGap(ix, k, |ix| - 1);
      }
    }
  }

  /** When the marked rows all come last, the k-th kept position is k. */
  lemma {:induction false} TrailingPositions(drop: seq<bool>, k: nat)
    requires MarksTrailing(drop) && k < |KeptIndices(drop)|
    ensures KeptIndices(drop)[k] == k
    decreases k
  {
    var ks := KeptIndices(drop);
    if k > 0 {
      TrailingPositions(drop, k - 1);
      assert forall l :: 0 <= l < k ==> ks[l] <= k - 1;
    }
    assert k <= ks[k] < |drop|;
    // row k is not marked: it is row ks[k], or it precedes that unmarked row
    assert !drop[k];
    var l :| 0 <= l < |ks| && ks[l] == k;
    assert l == k;
  }

  /** The kept positions line up with a mask numbered 0..n-1 exactly when no
      marked row comes before an unmarked one. */
  lemma {:induction false} KeptIndicesAligned(drop: seq<bool>)
    ensures Aligned(KeptIndices(drop)) <==> MarksTrailing(drop)
  {
    var ks := KeptIndices(drop);
    AlignedIsPositions(ks);
    if Aligned(ks) {
      // the kept rows are then exactly the rows 0..|ks|-1
      forall i, j | 0 <= i < j < |drop| && drop[i]
        ensures drop[j]
      {
        InPositions(|ks|, i);
        InPositions(|ks|, j);
      }
    }
    if MarksTrailing(drop) {
      forall k | 0 <= k < |ks|
        ensures ks[k] < |ks|
      {
        TrailingPositions(drop, k);
      }
    }
  }

  /** The first flagged position (idxmax of a boolean column). */
  function FirstTrue(s: seq<bool>): (k: nat)
    requires true in s
    ensures k < |s| && s[k] && forall j :: 0 <= j < k ==> !s[j]
  {
    if s[0] then 0 else FirstTrue(s[1..]) + 1
  }

  /** A flagged position with no flag before it is the first one. */
  lemma {:induction false} FirstTrueAt(s: seq<bool>, k: nat)
    requires k < |s| && s[k] && forall j :: 0 <= j < k ==> !s[j]
    ensures true in s && FirstTrue(s) == k
  {
    var f := FirstTrue(s);
    assert !(f < k) && !(k < f);
  }

  /** The last flagged position. */
  function LastTrue(s: seq<bool>): (k: nat)
    requires true in s
    ensures k < |s| && s[k] && forall j :: k < j < |s| ==> !s[j]
  {
    if s[|s| - 1] then |s| - 1 else LastTrue(s[..|s| - 1])
  }
}
