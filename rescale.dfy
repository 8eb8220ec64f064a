/** The unit rescaler (metres to micrometres, newtons to millinewtons) and the
    shift of a series to its first sample used for the adjusted
    displacement-load curve. */
module Rescale {
  import opened Cells
  import opened Columns

  const DisplacementScale: real := 1000000.0   // 1e6
  const LoadScale: real := 1000.0              // 1e3

  /** One cell times a factor: a missing value stays missing, and any cell
      that is not a number cannot be multiplied by a float. */
  function ScaleCell(factor: real, c: Cell): (r: Result<Cell>)
    ensures c.Num? ==> r == Ok(Num(c.x * factor))
    ensures c.Missing? ==> r == Ok(Missing)
    ensures !c.Num? && !c.Missing? ==> r == Err(TypeError)
  {
    if c.Num? then Ok(Num(c.x * factor))
    else if c.Missing? then Ok(Missing)
    else Err(TypeError)
  }

  function ScaleColumn(col: seq<Cell>, factor: real): Result<seq<Cell>>
  {
    MapResult(c => ScaleCell(factor, c), col)
  }

  /** A column scales exactly when every cell is a number or missing; each
      number is multiplied by the factor and each missing value stays. */
  lemma {:induction false} ScaleColumnSpec(col: seq<Cell>, factor: real)
    ensures ScaleColumn(col, factor).Ok? <==> NumericColumn(col)
    ensures ScaleColumn(col, factor).Err? ==> ScaleColumn(col, factor).error == TypeError
    ensures ScaleColumn(col, factor).Ok? ==> var r := ScaleColumn(col, factor).value;
      |r| == |col| && forall i :: 0 <= i < |col| ==>
        (col[i].Num? ==> r[i] == Num(col[i].x * factor)) && (col[i].Missing? ==> r[i].Missing?)
  {
    var f := (c: Cell) => ScaleCell(factor, c);
    var m := MapResult(f, col);
    if m.Err? {
      var j :| 0 <= j < |col| && f(col[j]) == Err(m.error);
    } else {
      forall i | 0 <= i < |col|
        ensures col[i].Num? || col[i].Missing?
      {
        assert f(col[i]).Ok?;
      }
    }
  }

  /** A number scaled by f and then by g is the number scaled by f * g. */
  lemma {:induction false} ScaleNumTwice(x: real, f: real, g: real)
    ensures ScaleCell(g, ScaleCell(f, Num(x)).value).value == ScaleCell(f * g, Num(x)).value
  {
    assert x * f * g == x * (f * g);
  }

  /** Scaling by f and then by g is scaling by f * g. */
  lemma {:induction false} ScaleTwice(col: seq<Cell>, f: real, g: real)
    requires ScaleColumn(col, f).Ok?
    ensures ScaleColumn(ScaleColumn(col, f).value, g) == ScaleColumn(col, f * g)
  {
    var once := ScaleColumn(col, f).value;
    ScaleColumnSpec(col, f);
    ScaleColumnSpec(col, f * g);
    assert NumericColumn(once) by {
      forall i | 0 <= i < |once|
        ensures once[i].Num? || once[i].Missing?
      {
        assert col[i].Num? || col[i].Missing?;
      }
    }
    ScaleColumnSpec(once, g);
    var twice := ScaleColumn(once, g).value;
    var direct := ScaleColumn(col, f * g).value;
    forall i | 0 <= i < |col|
      ensures twice[i] == direct[i]
    {
      if col[i].Num? {
        ScaleNumTwice(col[i].x, f, g);
      }
    }
    assert twice == direct;
  }

  /** Applying the rescaler twice multiplies displacements by 1e12 and loads
      by 1e6, so it is not idempotent. */
  lemma {:induction false} NotIdempotent(col: seq<Cell>)
    requires ScaleColumn(col, DisplacementScale).Ok? && ScaleColumn(col, LoadScale).Ok?
    ensures ScaleColumn(ScaleColumn(col, DisplacementScale).value, DisplacementScale) == ScaleColumn(col, 1000000000000.0)
    ensures ScaleColumn(ScaleColumn(col, LoadScale).value, LoadScale) == ScaleColumn(col, 1000000.0)
    ensures (exists i :: 0 <= i < |col| && col[i].Num? && col[i].x != 0.0) ==>
      ScaleColumn(ScaleColumn(col, DisplacementScale).value, DisplacementScale) != ScaleColumn(col, DisplacementScale)
    ensures (exists i :: 0 <= i < |col| && col[i].Num? && col[i].x != 0.0) ==>
      ScaleColumn(ScaleColumn(col, LoadScale).value, LoadScale) != ScaleColumn(col, LoadScale)
  {
    ScaleTwice(col, DisplacementScale, DisplacementScale);
    ScaleTwice(col, LoadScale, LoadScale);
    if i :| 0 <= i < |col| && col[i].Num? && col[i].x != 0.0 {
      ScaleColumnSpec(col, DisplacementScale);
      ScaleColumnSpec(col, 1000000000000.0);
      assert ScaleColumn(col, 1000000000000.0).value[i] != ScaleColumn(col, DisplacementScale).value[i];
      ScaleColumnSpec(col, LoadScale);
      ScaleColumnSpec(col, 1000000.0);
      assert ScaleColumn(col, 1000000.0).value[i] != ScaleColumn(col, LoadScale).value[i];
    }
  }

  // ---------------------------------------------------------------------
  // Shift to the first sample

  /** One cell minus the first sample; a missing operand gives a missing
      result, and a cell that is not a number cannot be subtracted. */
  function SubtractCell(c: Cell, origin: Cell): (r: Result<Cell>)
    ensures c.Num? && origin.Num? ==> r == Ok(Num(c.x - origin.x))
    ensures (c.Num? || c.Missing?) && (origin.Num? || origin.Missing?) && (c.Missing? || origin.Missing?) ==> r == Ok(Missing)
    ensures !(c.Num? || c.Missing?) || !(origin.Num? || origin.Missing?) ==> r == Err(TypeError)
  {
    if (c.Num? || c.Missing?) && (origin.Num? || origin.Missing?) then
      if c.Num? && origin.Num? then Ok(Num(c.x - origin.x)) else Ok(Missing)
    else
      Err(TypeError)
  }

  /** A series minus its first element; an empty series has no first element. */
  function ShiftToOrigin(col: seq<Cell>): Result<seq<Cell>>
  {
    if col == [] then Err(IndexError)
    else MapResult(c => SubtractCell(c, col[0]), col)
  }

  /** A numeric series that starts with a number starts at 0 after the shift,
      and the difference between any two numeric samples is preserved. */
  lemma {:induction false} ShiftToOriginSpec(col: seq<Cell>)
    requires col != [] && col[0].Num? && NumericColumn(col)
    ensures ShiftToOrigin(col).Ok?
    ensures var r := ShiftToOrigin(col).value;
      |r| == |col| && r[0] == Num(0.0)
      && forall i, j :: 0 <= i < |col| && 0 <= j < |col| && col[i].Num? && col[j].Num? ==>
           r[i].Num? && r[j].Num? && r[i].x - r[j].x == col[i].x - col[j].x
  {
    var f := (c: Cell) => SubtractCell(c, col[0]);
    assert forall i :: 0 <= i < |col| ==> f(col[i]).Ok?;
    var r := MapResult(f, col).value;
    assert f(col[0]) == Ok(r[0]);
    forall i | 0 <= i < |col| && col[i].Num?
      ensures r[i] == Num(col[i].x - col[0].x)
    {
      assert f(col[i]) == Ok(r[i]);
    }
  }

  /** Shifting twice changes nothing more: the shifted series already starts at 0. */
  lemma {:induction false} ShiftToOriginTwice(col: seq<Cell>)
    requires col != [] && col[0].Num? && NumericColumn(col)
    ensures ShiftToOrigin(col).Ok?
    ensures ShiftToOrigin(ShiftToOrigin(col).value) == ShiftToOrigin(col)
  {
    ShiftToOriginSpec(col);
    var once := ShiftToOrigin(col).value;
    var f := (c: Cell) => SubtractCell(c, col[0]);
    forall i | 0 <= i < |col|
      ensures once[i].Num? || once[i].Missing?
      ensures col[i].Missing? ==> once[i].Missing?
    {
      assert f(col[i]) == Ok(once[i]);
    }
    ShiftToOriginSpec(once);
    var twice := ShiftToOrigin(once).value;
    var g := (c: Cell) => SubtractCell(c, once[0]);
    forall i | 0 <= i < |col|
      ensures twice[i] == once[i]
    {
      assert g(once[i]) == Ok(twice[i]);
    }
    assert twice == once;
  }
}
