/** The table object of one file, whose columns the stages of the main loop
    replace in place one after another. */
module Frames {
  import opened Cells
  import opened Columns
  import opened Units
  import opened Times
  import opened Cleaning
  import opened ZeroCorrection
  import opened Rescale
  import opened Pipeline

  class Frame {
    var cols: Table
    /** The row labels. */
    var index: seq<nat>

    /** Eight columns of one length with a label per row, or, after clean_data
        on a table without rows, no column and no label. */
    ghost predicate Valid()
      reads this
    {
      (IsTable(cols) && |index| == Rows(cols)) || (|cols| == 0 && |index| == 0)
    }

    /** The sheet as read, with its rows numbered from 0. */
    constructor (raw: Table)
      requires IsTable(raw)
      ensures Valid() && cols == raw && index == Positions(Rows(raw))
    {
      cols := raw;
      index := Positions(Rows(raw));
    }

    /** `df[col] = df[col].apply(f)` for each listed column in turn; the first
        exception stops the loop. */
    method ApplyToColumns(indices: seq<nat>, f: Cell -> Result<Cell>) returns (err: Option<Error>)
      requires Valid() && IsTable(cols) && InRange(indices, cols)
      modifies this
      ensures index == old(index)
      ensures err.None? <==> ConvertColumns(old(cols), indices, f).Ok?
      ensures err.None? ==> cols == ConvertColumns(old(cols), indices, f).value && Valid() && IsTable(cols)
      ensures err.Some? ==> err.value == ConvertColumns(old(cols), indices, f).error
    {
      var k := 0;
      while k < |indices|
        invariant 0 <= k <= |indices|
        invariant ConvertColumns(old(cols), indices[..k], f) == Ok(cols)
        invariant index == old(index)
      {
        assert indices[..k + 1][..k] == indices[..k];
        var c := indices[k];
        var converted := MapResult(f, cols[c]);
        if converted.Err? {
          ConvertColumnsStops(old(cols), indices, f, k + 1);
          return Some(converted.error);
        }
        cols := cols[c := converted.value];
        k := k + 1;
      }
      assert indices[..k] == indices;
      ConvertColumnsKeepsTable(old(cols), indices, f);
      return None;
    }

    /** `iloc[1:]` with the rows numbered afresh, then the coercion of the
        primary time and `dropna` on it, which keeps the labels of the rows
        it keeps. */
    method DropHeaderAndGate()
      requires Valid() && IsTable(cols)
      modifies this
      ensures Valid() && IsTable(cols) && AllNum(cols[TimeColumn])
      ensures cols == Gate(DropHeader(old(cols)))
      ensures index == GateIndex(DropHeader(old(cols)))
    {
      var t := DropHeader(cols);
      GateSpec(t);
      cols := Gate(t);
      index := GateIndex(t);
    }

    /** clean_data: the marking loop, then the selection by the mask and the
        fresh numbering of the rows; the count of removed rows is returned. */
    method CleanData() returns (err: Option<Error>, rowsDeleted: nat)
      requires Valid() && IsTable(cols) && AllNum(cols[TimeColumn])
      modifies this
      ensures err.None? <==> CleanTable(old(cols), old(index)).Ok?
      ensures err.None? ==> cols == CleanTable(old(cols), old(index)).value && Valid() && IsCleaned(cols)
      ensures err.None? ==> index == (if |cols| == 0 then [] else Positions(Rows(cols)))
      ensures err.None? ==> rowsDeleted == NonIncreasingPairs(Reals(old(cols)[TimeColumn]))
      ensures err.Some? ==> err.value == CleanTable(old(cols), old(index)).error && rowsDeleted == 0
    {
      var t := cols;
      var marks := MarkNonIncreasing(Reals(t[TimeColumn]));
      var originalRowCount := Rows(t);
      if originalRowCount == 0 {
        // an empty mask is not boolean: it selects columns, and none of them
        cols, index := [], [];
        return None, 0;
      }
      if !Aligned(index) {
        return Some(IndexingError), 0;
      }
      CleanTableSpec(t);
      cols := seq(Width, c requires 0 <= c < Width => Filter(t[c], marks));
      index := Positions(Rows(cols));
      rowsDeleted := originalRowCount - Rows(cols);
      return None, rowsDeleted;
    }

    /** zero_correct_time: the time column is overwritten by time - shift. */
    method ZeroCorrectTime() returns (err: Option<Error>)
      requires Valid() && IsCleaned(cols)
      modifies this
      ensures index == old(index)
      ensures err.None? <==> ZeroCorrectTable(old(cols)).Ok?
      ensures err.None? ==> cols == ZeroCorrectTable(old(cols)).value && Valid() && IsTable(cols)
      ensures err.Some? ==> err.value == ZeroCorrectTable(old(cols)).error
    {
      if |cols| == 0 {
        // df[displacement_column] on a frame without columns
        return Some(KeyError);
      }
      var reference := ReferenceRow(cols[DisplacementColumn]);
      if reference.Err? {
        return Some(reference.error);
      }
      var time := Reals(cols[TimeColumn]);
      var timeShift := time[reference.value];
      var shifted := seq(|time|, i requires 0 <= i < |time| => time[i] - timeShift);
      assert shifted == Shift(time, reference.value);
      cols := cols[TimeColumn := NumColumn(shifted)];
      return None;
    }

    /** convert_units: the displacement column, then the load column, is
        overwritten by its rescaled values. */
    method ConvertUnits() returns (err: Option<Error>)
      requires Valid() && IsTable(cols)
      modifies this
      ensures index == old(index)
      ensures err.None? <==> ConvertUnitsTable(old(cols)).Ok?
      ensures err.None? ==> cols == ConvertUnitsTable(old(cols)).value && Valid()
      ensures err.Some? ==> err.value == ConvertUnitsTable(old(cols)).error
    {
      var displacement := ScaleColumn(cols[DisplacementColumn], DisplacementScale);
      if displacement.Err? {
        return Some(displacement.error);
      }
      cols := cols[DisplacementColumn := displacement.value];
      var load := ScaleColumn(cols[LoadColumn], LoadScale);
      if load.Err? {
        return Some(load.error);
      }
      cols := cols[LoadColumn := load.value];
      return None;
    }
  }

  /** The body of the main loop for one sheet: the cleaned table (or the
      exception that ended the file) and the number of rows clean_data
      reported. */
  method ProcessFile(raw: Table) returns (r: Result<Table>, rowsDeleted: nat)
    requires IsTable(raw)
    ensures r == CleanFile(raw)
    ensures GatedTable(raw).Ok? && CleanTable(GatedTable(raw).value, GatedIndex(raw)).Ok? ==>
      rowsDeleted == NonIncreasingPairs(Reals(GatedTable(raw).value[TimeColumn]))
    ensures !(GatedTable(raw).Ok? && CleanTable(GatedTable(raw).value, GatedIndex(raw)).Ok?) ==> rowsDeleted == 0
  {
    var frame := new Frame(raw);
    var err := frame.ApplyToColumns(UnitColumns, UnitCell);
    if err.Some? {
      return Err(err.value), 0;
    }
    err := frame.ApplyToColumns(TimeColumns, ConvertTime);
    if err.Some? {
      return Err(err.value), 0;
    }
    frame.DropHeaderAndGate();
    err, rowsDeleted := frame.CleanData();
    if err.Some? {
      return Err(err.value), 0;
    }
    err := frame.ZeroCorrectTime();
    if err.Some? {
      return Err(err.value), rowsDeleted;
    }
    err := frame.ConvertUnits();
    if err.Some? {
      return Err(err.value), rowsDeleted;
    }
    return Ok(frame.cols), rowsDeleted;
  }
}
