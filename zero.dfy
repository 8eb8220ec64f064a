/** The zero-point corrector: the primary time column is shifted so that the
    row where the displacement first becomes non-negative is at time 0. */
module ZeroCorrection {
  import opened Cells
  import opened Columns

  /** `displacement >= 0` on one cell: a missing value compares false, and a
      value that is not a number cannot be compared with 0. */
  function AtLeastZero(c: Cell): (r: Result<bool>)
    ensures c.Num? ==> r == Ok(c.x >= 0.0)
    ensures c.Missing? ==> r == Ok(false)
    ensures !c.Num? && !c.Missing? ==> r == Err(TypeError)
  {
    match c
    case Num(x) => Ok(x >= 0.0)
    case Missing => Ok(false)
    case _ => Err(TypeError)
  }

  /** `displacement == 0` on one cell; equality never raises. */
  function EqualsZero(c: Cell): bool
  {
    c.Num? && c.x == 0.0
  }

  function ZeroFlags(disp: seq<Cell>): (flags: seq<bool>)
    ensures |flags| == |disp|
  {
    seq(|disp|, i requires 0 <= i < |disp| => EqualsZero(disp[i]))
  }

  /** The row whose time becomes the shift, with the branches of the source:
      the first non-negative displacement; else the last zero displacement;
      else the first row, which an empty column does not have. */
  function ReferenceRow(disp: seq<Cell>): (r: Result<nat>)
    ensures r.Ok? ==> r.value < |disp|
  {
    match MapResult(AtLeastZero, disp)
    case Err(e) => Err(e)
    case Ok(nonNegative) =>
      if true in nonNegative then
        Ok(FirstTrue(nonNegative))
      else if true in ZeroFlags(disp) then
        Ok(LastTrue(ZeroFlags(disp)))
      else if |disp| == 0 then
        Err(IndexError)     // time.iloc[0] on an empty column
      else
        Ok(0)
  }

  /** time - time_shift, for the time of row k. */
  function Shift(time: seq<real>, k: nat): (r: seq<real>)
    requires k < |time|
    ensures |r| == |time| && r[k] == 0.0
    ensures forall i, j :: 0 <= i < |r| && 0 <= j < |r| ==> r[i] - r[j] == time[i] - time[j]
    ensures forall i, j :: 0 <= i < |r| && 0 <= j < |r| ==> (r[i] < r[j] <==> time[i] < time[j])
  {
    seq(|time|, i requires 0 <= i < |time| => time[i] - time[k])
  }

  /** zero_correct_time on the time column and the displacement column. */
  function ZeroCorrect(time: seq<real>, disp: seq<Cell>): (r: Result<seq<real>>)
    requires |time| == |disp|
    ensures r.Ok? <==> ReferenceRow(disp).Ok?
    ensures r.Ok? ==> |r.value| == |time| && r.value[ReferenceRow(disp).value] == 0.0
    ensures r.Ok? ==> forall i, j :: 0 <= i < |time| && 0 <= j < |time| ==>
      r.value[i] - r.value[j] == time[i] - time[j] && (r.value[i] < r.value[j] <==> time[i] < time[j])
  {
    match ReferenceRow(disp)
    case Ok(k) => Ok(Shift(time, k))
    case Err(e) => Err(e)
  }

  // ---------------------------------------------------------------------
  // Which row is the reference

  /** If no displacement is non-negative then none is zero either, so the
      "last zero" branch is never taken. */
  lemma {:induction false} ZeroBranchUnreachable(disp: seq<Cell>, nonNegative: seq<bool>)
    requires MapResult(AtLeastZero, disp) == Ok(nonNegative) && true !in nonNegative
    ensures true !in ZeroFlags(disp)
  {
    forall i | 0 <= i < |disp|
      ensures !ZeroFlags(disp)[i]
    {
      assert AtLeastZero(disp[i]) == Ok(nonNegative[i]);
      assert !nonNegative[i];
    }
  }

  predicate NonNegativeAt(disp: seq<Cell>, i: nat)
    requires i < |disp|
  {
    disp[i].Num? && disp[i].x >= 0.0
  }

  /** A cell that is neither a number nor missing makes the comparison raise,
      wherever it is in the column. */
  lemma {:induction false} ReferenceRowTypeError(disp: seq<Cell>, i: nat)
    requires i < |disp| && !disp[i].Num? && !disp[i].Missing?
    ensures ReferenceRow(disp) == Err(TypeError)
  {
    var m := MapResult(AtLeastZero, disp);
    assert AtLeastZero(disp[i]).Err?;
    assert m.Err?;
    var j :| 0 <= j < |disp| && AtLeastZero(disp[j]) == Err(m.error);
  }

  lemma {:induction false} NumericFlags(disp: seq<Cell>) returns (nonNegative: seq<bool>)
    requires NumericColumn(disp)
    ensures MapResult(AtLeastZero, disp) == Ok(nonNegative) && |nonNegative| == |disp|
    ensures forall i :: 0 <= i < |disp| ==> (nonNegative[i] <==> NonNegativeAt(disp, i))
  {
    assert forall i :: 0 <= i < |disp| ==> AtLeastZero(disp[i]).Ok?;
    nonNegative := MapResult(AtLeastZero, disp).value;
    forall i | 0 <= i < |disp|
      ensures nonNegative[i] <==> NonNegativeAt(disp, i)
    {
      assert AtLeastZero(disp[i]) == Ok(nonNegative[i]);
    }
  }

  /** In a numeric column the shift comes from the first non-negative
      displacement. */
  lemma {:induction false} ReferenceRowFirstNonNegative(disp: seq<Cell>, k: nat)
    requires NumericColumn(disp) && k < |disp| && NonNegativeAt(disp, k)
    requires forall j :: 0 <= j < k ==> !NonNegativeAt(disp, j)
    ensures ReferenceRow(disp) == Ok(k)
  {
    var nonNegative := NumericFlags(disp);
    assert forall j :: 0 <= j < k ==> !nonNegative[j];
    FirstTrueAt(nonNegative, k);
    ReferenceRowIsFirst(disp, nonNegative);
  }

  lemma {:induction false} ReferenceRowIsFirst(disp: seq<Cell>, nonNegative: seq<bool>)
    requires MapResult(AtLeastZero, disp) == Ok(nonNegative) && true in nonNegative
    ensures ReferenceRow(disp) == Ok(FirstTrue(nonNegative))
  {
  }

  /** ... and when there is none, from the first row. */
  lemma {:induction false} ReferenceRowFallback(disp: seq<Cell>)
    requires NumericColumn(disp) && |disp| > 0
    requires forall j :: 0 <= j < |disp| ==> !NonNegativeAt(disp, j)
    ensures ReferenceRow(disp) == Ok(0)
  {
    var nonNegative := NumericFlags(disp);
    assert true !in nonNegative by {
      assert forall j :: 0 <= j < |nonNegative| ==> !nonNegative[j];
    }
    ZeroBranchUnreachable(disp, nonNegative);
  }

  /** An empty column has no first row. */
  lemma {:induction false} ReferenceRowEmpty()
    ensures ReferenceRow([]) == Err(IndexError)
  {
    assert MapResult(AtLeastZero, []) == Ok([]);
  }

  /** With the displacements [-1, -1, 2, 3] the reference is row 2. */
  lemma {:induction false} ReferenceRowExample()
    ensures ReferenceRow([Num(-1.0), Num(-1.0), Num(2.0), Num(3.0)]) == Ok(2)
  {
    var d := [Num(-1.0), Num(-1.0), Num(2.0), Num(3.0)];
    ReferenceRowFirstNonNegative(d, 2);
  }
}
