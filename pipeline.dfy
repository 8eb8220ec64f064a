/** The per-file pipeline on a whole table: unit and time conversion of the
    raw columns, removal of the header row, the numeric gate on the primary
    time column, the monotonicity filter, zero correction and rescaling. */
module Pipeline {
  import opened Cells
  import opened Decimal
  import opened Columns
  import opened Units
  import opened Times
  import opened Cleaning
  import opened ZeroCorrection
  import opened Rescale

  /** A table, column-major: t[c][r] is the cell of column c in row r. */
  type Table = seq<seq<Cell>>

  const Width: nat := 8
  const UnitColumns: seq<nat> := [1, 3, 5, 7]
  const TimeColumns: seq<nat> := [0, 2, 4, 6]
  const Headers: seq<string> := [
    "Time_Corrected_Displacement", "Displacement_Corrected_Displacement",
    "Time_Corrected_Load", "Load_Corrected_Load",
    "Raw_Time_Raw_Displacement", "Displacement_Raw_Displacement",
    "Raw_Time_Raw_Load", "Load_Raw_Load"]
  /** Positions of the columns the later stages address by name. */
  const TimeColumn: nat := 0           // Time_Corrected_Displacement
  const DisplacementColumn: nat := 1   // Displacement_Corrected_Displacement
  const LoadColumn: nat := 3           // Load_Corrected_Load

  /** Line 190 names the columns positionally: the stages address column 0 as
      the primary time, 1 as the displacement and 3 as the load; the unit and
      time columns are the odd and the even positions. */
  lemma {:induction false} ColumnLayout()
    ensures |Headers| == Width
    ensures Headers[TimeColumn] == "Time_Corrected_Displacement"
    ensures Headers[DisplacementColumn] == "Displacement_Corrected_Displacement"
    ensures Headers[LoadColumn] == "Load_Corrected_Load"
    ensures forall c :: 0 <= c < Width ==> (c in UnitColumns <==> c % 2 == 1) && (c in TimeColumns <==> c % 2 == 0)
  {
    assert forall c :: c in UnitColumns <==> c == 1 || c == 3 || c == 5 || c == 7;
    assert forall c :: c in TimeColumns <==> c == 0 || c == 2 || c == 4 || c == 6;
  }

  /** Eight columns of one common length. */
  predicate IsTable(t: Table)
  {
    |t| == Width && forall c :: 0 <= c < |t| ==> |t[c]| == |t[0]|
  }

  function Rows(t: Table): nat
    requires IsTable(t)
  {
    |t[0]|
  }

  predicate AllNum(col: seq<Cell>)
  {
    forall r :: 0 <= r < |col| ==> col[r].Num?
  }

  /** The numbers of an all-numeric column. */
  function Reals(col: seq<Cell>): (xs: seq<real>)
    requires AllNum(col)
    ensures |xs| == |col| && forall r :: 0 <= r < |col| ==> col[r] == Num(xs[r])
  {
    seq(|col|, r requires 0 <= r < |col| && AllNum(col) => col[r].x)
  }

  function NumColumn(xs: seq<real>): (col: seq<Cell>)
    ensures |col| == |xs| && AllNum(col) && Reals(col) == xs
  {
    seq(|xs|, r requires 0 <= r < |xs| => Num(xs[r]))
  }

  predicate Distinct(cols: seq<nat>)
  {
    forall i, j :: 0 <= i < j < |cols| ==> cols[i] != cols[j]
  }

  predicate InRange(cols: seq<nat>, t: Table)
  {
    forall i :: 0 <= i < |cols| ==> cols[i] < |t|
  }

  // ---------------------------------------------------------------------
  // Lines 183-187: one column after another is replaced by its converted form

  function ConvertColumns(t: Table, cols: seq<nat>, f: Cell -> Result<Cell>): (r: Result<Table>)
    requires InRange(cols, t)
    ensures r.Ok? ==> |r.value| == |t| && forall c :: 0 <= c < |t| ==> |r.value[c]| == |t[c]|
  {
    if cols == [] then
      Ok(t)
    else
      var c := cols[|cols| - 1];
      match ConvertColumns(t, cols[..|cols| - 1], f)
      case Err(e) => Err(e)
      case Ok(prev) =>
        match MapResult(f, prev[c])
        case Err(e) => Err(e)
        case Ok(col) => Ok(prev[c := col])
  }

  /** For distinct columns, the conversion succeeds exactly when every listed
      column converts; each listed column is then its converted original and
      every other column is untouched. */
  lemma {:induction false} ConvertColumnsSucceeds(t: Table, cols: seq<nat>, f: Cell -> Result<Cell>)
    requires InRange(cols, t) && Distinct(cols)
    ensures ConvertColumns(t, cols, f).Ok? <==> forall i :: 0 <= i < |cols| ==> MapResult(f, t[cols[i]]).Ok?
    ensures ConvertColumns(t, cols, f).Ok? ==> forall c :: 0 <= c < |t| ==>
      (c in cols ==> MapResult(f, t[c]) == Ok(ConvertColumns(t, cols, f).value[c]))
      && (c !in cols ==> ConvertColumns(t, cols, f).value[c] == t[c])
    decreases |cols|
  {
    if cols != [] {
      var n := |cols| - 1;
      var init := cols[..n];
      SplitLast(t, cols);
      ConvertColumnsSucceeds(t, init, f);
      var prev := ConvertColumns(t, init, f);
      if prev.Err? {
        var i :| 0 <= i < n && !MapResult(f, t[init[i]]).Ok?;
        ConvertColumnsInitFails(t, cols, f, i);
      } else if MapResult(f, t[cols[n]]).Ok? {
        ConvertColumnsLast(t, cols, f);
      } else {
        ConvertColumnsLastFails(t, cols, f);
      }
    }
  }

  /** The last listed column is not among the earlier ones, which are
      distinct and in range themselves. */
  lemma {:induction false} SplitLast(t: Table, cols: seq<nat>)
    requires InRange(cols, t) && Distinct(cols) && cols != []
    ensures var init := cols[..|cols| - 1];
      InRange(init, t) && Distinct(init) && cols[|cols| - 1] !in init
  {
    var n := |cols| - 1;
    forall i | 0 <= i < n
      ensures cols[..n][i] != cols[n]
    {
      assert cols[..n][i] == cols[i];
    }
  }

  /** A failing earlier column makes the whole conversion fail. */
  lemma {:induction false} ConvertColumnsInitFails(t: Table, cols: seq<nat>, f: Cell -> Result<Cell>, i: nat)
    requires InRange(cols, t) && cols != [] && i < |cols| - 1
    requires ConvertColumns(t, cols[..|cols| - 1], f).Err? && !MapResult(f, t[cols[..|cols| - 1][i]]).Ok?
    ensures ConvertColumns(t, cols, f).Err? && !MapResult(f, t[cols[i]]).Ok?
  {
    assert cols[..|cols| - 1][i] == cols[i];
  }

  /** A failing last column makes the whole conversion fail. */
  lemma {:induction false} ConvertColumnsLastFails(t: Table, cols: seq<nat>, f: Cell -> Result<Cell>)
    requires InRange(cols, t) && cols != []
    requires var init := cols[..|cols| - 1]; var c := cols[|cols| - 1];
      ConvertColumns(t, init, f).Ok? && ConvertColumns(t, init, f).value[c] == t[c] && !MapResult(f, t[c]).Ok?
    ensures ConvertColumns(t, cols, f).Err? && !MapResult(f, t[cols[|cols| - 1]]).Ok?
  {
  }

  /** The step of ConvertColumnsSucceeds where every listed column converts. */
  lemma {:induction false} ConvertColumnsLast(t: Table, cols: seq<nat>, f: Cell -> Result<Cell>)
    requires InRange(cols, t) && Distinct(cols) && cols != []
    requires var init := cols[..|cols| - 1]; var c := cols[|cols| - 1];
      ConvertColumns(t, init, f).Ok? && c !in init && ConvertColumns(t, init, f).value[c] == t[c]
      && MapResult(f, t[c]).Ok?
      && (forall i :: 0 <= i < |init| ==> MapResult(f, t[init[i]]).Ok?)
      && forall d :: 0 <= d < |t| ==>
           (d in init ==> MapResult(f, t[d]) == Ok(ConvertColumns(t, init, f).value[d]))
           && (d !in init ==> ConvertColumns(t, init, f).value[d] == t[d])
    ensures ConvertColumns(t, cols, f).Ok?
    ensures forall i :: 0 <= i < |cols| ==> MapResult(f, t[cols[i]]).Ok?
    ensures forall d :: 0 <= d < |t| ==>
      (d in cols ==> MapResult(f, t[d]) == Ok(ConvertColumns(t, cols, f).value[d]))
      && (d !in cols ==> ConvertColumns(t, cols, f).value[d] == t[d])
  {
    var n := |cols| - 1;
    var c := cols[n];
    var init := cols[..n];
    var prev := ConvertColumns(t, init, f).value;
    var r := prev[c := MapResult(f, t[c]).value];
    assert ConvertColumns(t, cols, f) == Ok(r);
    assert cols == init + [c];
    forall i | 0 <= i < |cols|
      ensures MapResult(f, t[cols[i]]).Ok?
    {
      if i < n {
        assert cols[i] == init[i];
      }
    }
    forall d | 0 <= d < |t|
      ensures d in cols ==> MapResult(f, t[d]) == Ok(r[d])
      ensures d !in cols ==> r[d] == t[d]
    {
      assert d in cols <==> d in init || d == c;
    }
  }

  /** On failure the error is the one of the first listed column that fails. */
  lemma {:induction false} ConvertColumnsFails(t: Table, cols: seq<nat>, f: Cell -> Result<Cell>)
    requires InRange(cols, t) && Distinct(cols) && ConvertColumns(t, cols, f).Err?
    ensures exists i :: (0 <= i < |cols| && MapResult(f, t[cols[i]]) == Err(ConvertColumns(t, cols, f).error)
                         && forall j :: 0 <= j < i ==> MapResult(f, t[cols[j]]).Ok?)
    decreases |cols|
  {
    var n := |cols| - 1;
    var c := cols[n];
    var init := cols[..n];
    SplitLast(t, cols);
    var prev := ConvertColumns(t, init, f);
    if prev.Err? {
      assert ConvertColumns(t, cols, f) == prev;
      ConvertColumnsFails(t, init, f);
      var i :| 0 <= i < |init| && MapResult(f, t[init[i]]) == Err(prev.error)
        && forall j :: 0 <= j < i ==> MapResult(f, t[init[j]]).Ok?;
      FirstFailure(t, cols, f, n, i, prev.error);
    } else {
      ConvertColumnsSucceeds(t, init, f);
      FailsAtLast(t, cols, f);
    }
  }

  /** When the earlier columns convert, the failure is the last column's own. */
  lemma {:induction false} FailsAtLast(t: Table, cols: seq<nat>, f: Cell -> Result<Cell>)
    requires InRange(cols, t) && cols != [] && ConvertColumns(t, cols, f).Err?
    requires var init := cols[..|cols| - 1];
      ConvertColumns(t, init, f).Ok? && ConvertColumns(t, init, f).value[cols[|cols| - 1]] == t[cols[|cols| - 1]]
      && forall i :: 0 <= i < |init| ==> MapResult(f, t[init[i]]).Ok?
    ensures MapResult(f, t[cols[|cols| - 1]]) == Err(ConvertColumns(t, cols, f).error)
    ensures forall j :: 0 <= j < |cols| - 1 ==> MapResult(f, t[cols[j]]).Ok?
  {
    var n := |cols| - 1;
    forall j | 0 <= j < n
      ensures MapResult(f, t[cols[j]]).Ok?
    {
      assert cols[j] == cols[..n][j];
    }
  }

  /** A failure found in a prefix of the columns is a failure of the whole list. */
  lemma {:induction false} FirstFailure(t: Table, cols: seq<nat>, f: Cell -> Result<Cell>, n: nat, i: nat, e: Error)
    requires InRange(cols, t) && n <= |cols| && i < n
    requires MapResult(f, t[cols[..n][i]]) == Err(e) && forall j :: 0 <= j < i ==> MapResult(f, t[cols[..n][j]]).Ok?
    ensures MapResult(f, t[cols[i]]) == Err(e) && forall j :: 0 <= j < i ==> MapResult(f, t[cols[j]]).Ok?
  {
    assert forall j :: 0 <= j <= i ==> cols[..n][j] == cols[j];
  }

  /** Once a column has raised, the later columns are never reached. */
  lemma {:induction false} ConvertColumnsStops(t: Table, cols: seq<nat>, f: Cell -> Result<Cell>, n: nat)
    requires InRange(cols, t) && n <= |cols| && ConvertColumns(t, cols[..n], f).Err?
    ensures ConvertColumns(t, cols, f) == ConvertColumns(t, cols[..n], f)
    decreases |cols| - n
  {
    if n < |cols| {
      assert cols[..n + 1][..n] == cols[..n];
      ConvertColumnsStops(t, cols, f, n + 1);
    } else {
      assert cols[..n] == cols;
    }
  }

  /** The unit and time conversion of lines 183-187 keep the table shape. */
  lemma {:induction false} ConvertColumnsKeepsTable(t: Table, cols: seq<nat>, f: Cell -> Result<Cell>)
    requires IsTable(t) && InRange(cols, t) && ConvertColumns(t, cols, f).Ok?
    ensures IsTable(ConvertColumns(t, cols, f).value)
    ensures Rows(ConvertColumns(t, cols, f).value) == Rows(t)
  {
  }

  // ---------------------------------------------------------------------
  // Lines 189-193: header row, positional labels, numeric gate

  /** `iloc[1:]`: every column loses its first cell. */
  function DropHeader(t: Table): (r: Table)
    requires IsTable(t)
    ensures IsTable(r) && Rows(r) == if Rows(t) == 0 then 0 else Rows(t) - 1
    ensures forall c, k :: 0 <= c < Width && 0 <= k < Rows(r) ==> r[c][k] == t[c][k + 1]
  {
    seq(Width, c requires 0 <= c < Width => if t[c] == [] then [] else t[c][1..])
  }

  /** `to_numeric(..., errors='coerce')` on one cell: numbers stay, text that
      reads as a number becomes that number, and everything else is missing. */
  function ToNumeric(c: Cell): (r: Cell)
    ensures r.Num? || r.Missing?
    ensures c.Num? ==> r == c
    ensures c.Str? ==> r == if ParseReal(c.s).Some? then Num(ParseReal(c.s).value) else Missing
    ensures c.TimeOfDay? || c.Missing? || c.Other? ==> r == Missing
  {
    match c
    case Num(_) => c
    case Str(s) => if ParseReal(s).Some? then Num(ParseReal(s).value) else Missing
    case _ => Missing
  }

  /** The rows whose coerced primary time is missing. */
  function MissingTimes(t: Table): (drop: seq<bool>)
    requires IsTable(t)
    ensures |drop| == Rows(t)
    ensures forall r :: 0 <= r < Rows(t) ==> (drop[r] <==> ToNumeric(t[TimeColumn][r]).Missing?)
  {
    seq(Rows(t), r requires 0 <= r < Rows(t) => ToNumeric(t[TimeColumn][r]).Missing?)
  }

  /** The primary time column coerced to numbers, then `dropna` on it. */
  function Gate(t: Table): (r: Table)
    requires IsTable(t)
  {
    var drop := MissingTimes(t);
    var times := seq(Rows(t), r requires 0 <= r < Rows(t) => ToNumeric(t[TimeColumn][r]));
    seq(Width, c requires 0 <= c < Width => Filter(if c == TimeColumn then times else t[c], drop))
  }

  /** After the gate every row has a numeric primary time, and the rows left
      are exactly the rows whose time reads as a number, in their order. */
  lemma {:induction false} GateSpec(t: Table)
    requires IsTable(t)
    ensures var g := Gate(t); var ks := KeptIndices(MissingTimes(t));
      IsTable(g) && AllNum(g[TimeColumn]) && Rows(g) == |ks|
      && (forall r :: 0 <= r < Rows(t) ==> (r in ks <==> ToNumeric(t[TimeColumn][r]).Num?))
      && (forall k :: 0 <= k < |ks| ==> g[TimeColumn][k] == ToNumeric(t[TimeColumn][ks[k]]))
      && (forall c, k :: 1 <= c < Width && 0 <= k < |ks| ==> g[c][k] == t[c][ks[k]])
  {
    var drop := MissingTimes(t);
    var ks := KeptIndices(drop);
    GateShape(t);
    forall k | 0 <= k < |ks|
      ensures Gate(t)[TimeColumn][k] == ToNumeric(t[TimeColumn][ks[k]])
    {
      GateCell(t, TimeColumn, k);
    }
    forall c, k | 1 <= c < Width && 0 <= k < |ks|
      ensures Gate(t)[c][k] == t[c][ks[k]]
    {
      GateCell(t, c, k);
    }
  }

  /** Every column of the gate keeps the same number of rows, one per kept position. */
  lemma {:induction false} GateShape(t: Table)
    requires IsTable(t)
    ensures IsTable(Gate(t)) && Rows(Gate(t)) == |KeptIndices(MissingTimes(t))|
  {
    var drop := MissingTimes(t);
    if Rows(t) > 0 {
      assert |Filter(t[0], drop)| == |drop| - CountTrue(drop);
    }
  }

  /** One cell of the gate: the cell at the k-th kept position, with the
      primary time coerced. */
  lemma {:induction false} GateCell(t: Table, c: nat, k: nat)
    requires IsTable(t) && c < Width && k < |KeptIndices(MissingTimes(t))|
    ensures Rows(Gate(t)) == |KeptIndices(MissingTimes(t))|
    ensures Gate(t)[c][k] == if c == TimeColumn then ToNumeric(t[TimeColumn][KeptIndices(MissingTimes(t))[k]])
                             else t[c][KeptIndices(MissingTimes(t))[k]]
  {
    GateShape(t);
    var drop := MissingTimes(t);
    var times := seq(Rows(t), r requires 0 <= r < Rows(t) => ToNumeric(t[TimeColumn][r]));
    if c == TimeColumn {
      FilterAt(times, drop, k);
    } else {
      FilterAt(t[c], drop, k);
    }
  }

  /** The row labels after `iloc[1:].reset_index(drop=True)` and the
      `dropna` of line 193: the positions of the rows the gate keeps. */
  function GateIndex(t: Table): (ix: seq<nat>)
    requires IsTable(t)
    ensures |ix| == Rows(Gate(t)) && Increasing(ix)
  {
    GateShape(t);
    KeptIndices(MissingTimes(t))
  }

  /** The labels after the gate line up with a mask numbered from 0 exactly
      when no row whose time does not coerce comes before one whose time does. */
  lemma {:induction false} GateAligned(t: Table)
    requires IsTable(t)
    ensures Aligned(GateIndex(t)) <==>
      forall i, j :: 0 <= i < j < Rows(t) && ToNumeric(t[TimeColumn][i]).Missing? ==> ToNumeric(t[TimeColumn][j]).Missing?
  {
    KeptIndicesAligned(MissingTimes(t));
  }

  /** The unit and time conversions of lines 183-187, or the first exception
      they raise. */
  function Converted(raw: Table): (r: Result<Table>)
    requires IsTable(raw)
    ensures r.Ok? ==> IsTable(r.value) && Rows(r.value) == Rows(raw)
  {
    match ConvertColumns(raw, UnitColumns, UnitCell)
    case Err(e) => Err(e)
    case Ok(units) =>
      ConvertColumnsKeepsTable(raw, UnitColumns, UnitCell);
      match ConvertColumns(units, TimeColumns, ConvertTime)
      case Err(e) => Err(e)
      case Ok(times) =>
        ConvertColumnsKeepsTable(units, TimeColumns, ConvertTime);
        Ok(times)
  }

  /** The table that reaches clean_data, or the first exception raised by
      the conversions. */
  function GatedTable(raw: Table): (r: Result<Table>)
    requires IsTable(raw)
    ensures r.Ok? <==> Converted(raw).Ok?
    ensures r.Ok? ==> IsTable(r.value) && AllNum(r.value[TimeColumn])
    ensures r.Ok? ==> r.value == Gate(DropHeader(Converted(raw).value))
  {
    match Converted(raw)
    case Err(e) => Err(e)
    case Ok(converted) =>
      GateSpec(DropHeader(converted));
      Ok(Gate(DropHeader(converted)))
  }

  /** The row labels of the table that reaches clean_data. */
  function GatedIndex(raw: Table): (ix: seq<nat>)
    requires IsTable(raw) && GatedTable(raw).Ok?
    ensures |ix| == Rows(GatedTable(raw).value)
  {
    GateIndex(DropHeader(Converted(raw).value))
  }

  // ---------------------------------------------------------------------
  // The cleaning stages on the gated table

  /** What clean_data hands on: eight columns with a numeric primary time,
      or no column at all. */
  predicate IsCleaned(t: Table)
  {
    |t| == 0 || (IsTable(t) && AllNum(t[TimeColumn]))
  }

  /** The rows the monotonicity pass keeps, selected by position in every column. */
  function SelectKept(t: Table): (r: Table)
    requires IsTable(t) && AllNum(t[TimeColumn])
  {
    var marks := RemovalMarks(Reals(t[TimeColumn]));
    seq(Width, c requires 0 <= c < Width => Filter(t[c], marks))
  }

  /** clean_data on a table whose rows carry the labels `index`. Without rows
      the mask `pd.Series([])` is not boolean, so `df[...]` selects columns by
      it, and none of them. Otherwise the mask, numbered 0..n-1, must line up
      with the labels or pandas raises; when it does, the kept rows are
      selected and numbered afresh. */
  function CleanTable(t: Table, index: seq<nat>): (r: Result<Table>)
    requires IsTable(t) && AllNum(t[TimeColumn]) && |index| == Rows(t)
    ensures Rows(t) == 0 ==> r == Ok([])
    ensures Rows(t) > 0 ==> (r.Ok? <==> Aligned(index))
    ensures r.Err? ==> r.error == IndexingError
    ensures r.Ok? ==> IsCleaned(r.value)
    ensures Rows(t) > 0 && r.Ok? ==> r.value == SelectKept(t)
  {
    if Rows(t) == 0 then
      Ok([])
    else if !Aligned(index) then
      Err(IndexingError)
    else
      CleanTableSpec(t);
      Ok(SelectKept(t))
  }

  /** The selection keeps the table shape and numeric time, lowers the row
      count by the number of non-increasing time pairs, keeps the same rows
      in every column, and its time column is the filtered time series. */
  lemma {:induction false} CleanTableSpec(t: Table)
    requires IsTable(t) && AllNum(t[TimeColumn])
    ensures var r := SelectKept(t); var times := Reals(t[TimeColumn]);
      IsTable(r) && AllNum(r[TimeColumn])
      && Rows(t) - Rows(r) == NonIncreasingPairs(times)
      && Reals(r[TimeColumn]) == CleanTimes(times)
      && forall c, k :: 0 <= c < Width && 0 <= k < Rows(r) ==>
           r[c][k] == t[c][KeptIndices(RemovalMarks(times))[k]]
  {
    var r := SelectKept(t);
    var times := Reals(t[TimeColumn]);
    var marks := RemovalMarks(times);
    RowsDeletedIsPairCount(times);
    forall c, k | 0 <= c < Width && 0 <= k < Rows(r)
      ensures r[c][k] == t[c][KeptIndices(marks)[k]]
    {
      FilterAt(t[c], marks, k);
    }
    forall k | 0 <= k < Rows(r)
      ensures r[TimeColumn][k] == Num(CleanTimes(times)[k])
    {
      FilterAt(times, marks, k);
    }
    assert Reals(r[TimeColumn]) == CleanTimes(times);
  }

  /** A one-row table is returned unchanged when its label is 0, and makes
      pandas raise otherwise. */
  lemma {:induction false} SingleRowTable(t: Table, index: seq<nat>)
    requires IsTable(t) && AllNum(t[TimeColumn]) && Rows(t) == 1 && |index| == 1
    ensures CleanTable(t, index) == if index[0] == 0 then Ok(t) else Err(IndexingError)
  {
    var times := Reals(t[TimeColumn]);
    forall c | 0 <= c < Width
      ensures Filter(t[c], RemovalMarks(times)) == t[c]
    {
      ShortUnchanged(t[c], times);
    }
    assert SelectKept(t) == t;
  }

  /** zero_correct_time: `df[displacement_column]` raises KeyError on a table
      without columns; otherwise only the primary time column is replaced. */
  function ZeroCorrectTable(t: Table): (r: Result<Table>)
    requires IsCleaned(t)
    ensures |t| == 0 ==> r == Err(KeyError)
    ensures r.Ok? ==> |t| > 0
    ensures |t| > 0 ==> (r.Ok? <==> ReferenceRow(t[DisplacementColumn]).Ok?)
    ensures r.Ok? ==> IsTable(r.value) && AllNum(r.value[TimeColumn]) && Rows(r.value) == Rows(t)
    ensures r.Ok? ==> Reals(r.value[TimeColumn]) == ZeroCorrect(Reals(t[TimeColumn]), t[DisplacementColumn]).value
    ensures r.Ok? ==> forall c :: 0 <= c < Width && c != TimeColumn ==> r.value[c] == t[c]
  {
    if |t| == 0 then
      Err(KeyError)
    else
      match ZeroCorrect(Reals(t[TimeColumn]), t[DisplacementColumn])
      case Err(e) => Err(e)
      case Ok(shifted) => Ok(t[TimeColumn := NumColumn(shifted)])
  }

  /** convert_units: displacement times 1e6, then load times 1e3. */
  function ConvertUnitsTable(t: Table): (r: Result<Table>)
    requires IsTable(t)
    ensures r.Ok? <==> (ScaleColumn(t[DisplacementColumn], DisplacementScale).Ok?
                        && ScaleColumn(t[LoadColumn], LoadScale).Ok?)
    ensures r.Ok? ==> IsTable(r.value)
    ensures r.Ok? ==> ScaleColumn(t[DisplacementColumn], DisplacementScale) == Ok(r.value[DisplacementColumn])
    ensures r.Ok? ==> ScaleColumn(t[LoadColumn], LoadScale) == Ok(r.value[LoadColumn])
    ensures r.Ok? ==> forall c :: 0 <= c < Width && c != DisplacementColumn && c != LoadColumn ==> r.value[c] == t[c]
  {
    match ScaleColumn(t[DisplacementColumn], DisplacementScale)
    case Err(e) => Err(e)
    case Ok(displacement) =>
      match ScaleColumn(t[LoadColumn], LoadScale)
      case Err(e) => Err(e)
      case Ok(load) => Ok(t[DisplacementColumn := displacement][LoadColumn := load])
  }

  /** The whole per-file pipeline, from the raw sheet to the table that is
      plotted and saved; any exception ends it. */
  function CleanFile(raw: Table): (r: Result<Table>)
    requires IsTable(raw)
    ensures r.Ok? ==> GatedTable(raw).Ok? && IsTable(r.value)
  {
    match GatedTable(raw)
    case Err(e) => Err(e)
    case Ok(gated) =>
      match CleanTable(gated, GatedIndex(raw))
      case Err(e) => Err(e)
      case Ok(cleaned) =>
        match ZeroCorrectTable(cleaned)
        case Err(e) => Err(e)
        case Ok(corrected) => ConvertUnitsTable(corrected)
  }

  // ---------------------------------------------------------------------
  // Properties of the composed stages

  /** After cleaning and zero correction the reference row is at time 0, and
      time differences and order between surviving rows are those of the
      gated table's times. */
  lemma {:induction false} CorrectedTimesSpec(t: Table, index: seq<nat>)
    requires IsTable(t) && AllNum(t[TimeColumn]) && |index| == Rows(t)
    ensures var cleaned := CleanTable(t, index);
      cleaned.Ok? && ZeroCorrectTable(cleaned.value).Ok? ==>
        var times := Reals(ZeroCorrectTable(cleaned.value).value[TimeColumn]);
        var before := CleanTimes(Reals(t[TimeColumn]));
        |times| == |before| && times[ReferenceRow(cleaned.value[DisplacementColumn]).value] == 0.0
        && forall i, j :: 0 <= i < |times| && 0 <= j < |times| ==>
             times[i] - times[j] == before[i] - before[j] && (times[i] < times[j] <==> before[i] < before[j])
  {
    CleanTableSpec(t);
  }

  /** A sheet where nothing passes the gate, such as one holding only its
      header row, loses its columns in clean_data, and zero correction then
      raises KeyError. */
  lemma {:induction false} NoRowsKeyError(raw: Table)
    requires IsTable(raw) && GatedTable(raw).Ok? && Rows(GatedTable(raw).value) == 0
    ensures CleanTable(GatedTable(raw).value, GatedIndex(raw)) == Ok([])
    ensures CleanFile(raw) == Err(KeyError)
  {
  }

  lemma {:induction false} HeaderOnlyKeyError(raw: Table)
    requires IsTable(raw) && Rows(raw) == 1 && Converted(raw).Ok?
    ensures CleanFile(raw) == Err(KeyError)
  {
    GateSpec(DropHeader(Converted(raw).value));
    NoRowsKeyError(raw);
  }

  /** A sheet where a row whose primary time does not coerce is followed by
      one whose time does keeps a gap in its labels, and clean_data raises. */
  lemma {:induction false} GapIndexingError(raw: Table, i: nat, j: nat)
    requires IsTable(raw) && Converted(raw).Ok?
    requires var t := DropHeader(Converted(raw).value);
      i < j < Rows(t) && ToNumeric(t[TimeColumn][i]).Missing? && ToNumeric(t[TimeColumn][j]).Num?
    ensures CleanFile(raw) == Err(IndexingError)
  {
    var t := DropHeader(Converted(raw).value);
    GateSpec(t);
    GateAligned(t);
    assert j in GateIndex(t);
  }

  /** Times [0.1, 0.05, 0.2, 0.3] with displacements [-1, -1, 2, 3]: the
      filter drops the 0.1 (the earlier row of the pair), the reference is the
      row of displacement 2 at time 0.2, and the corrected times are
      [-0.15, 0, 0.1]. */
  lemma {:induction false} ScenarioEarlierRowDropped(t: Table)
    requires IsTable(t)
    requires t[TimeColumn] == [Num(0.1), Num(0.05), Num(0.2), Num(0.3)]
    requires t[DisplacementColumn] == [Num(-1.0), Num(-1.0), Num(2.0), Num(3.0)]
    ensures AllNum(t[TimeColumn]) && CleanTable(t, Positions(4)).Ok?
    ensures ZeroCorrectTable(CleanTable(t, Positions(4)).value).Ok?
    ensures ZeroCorrectTable(CleanTable(t, Positions(4)).value).value[TimeColumn] == [Num(-0.15), Num(0.0), Num(0.1)]
  {
    ScenarioCleaned(t);
    var cleaned := SelectKept(t);
    assert CleanTable(t, Positions(4)) == Ok(cleaned);
    ReferenceRowFirstNonNegative(cleaned[DisplacementColumn], 1);
    var shifted := ZeroCorrect(Reals(cleaned[TimeColumn]), cleaned[DisplacementColumn]).value;
    assert shifted == Shift([0.05, 0.2, 0.3], 1);
    assert shifted == [-0.15, 0.0, 0.1];
  }

  lemma {:induction false} ScenarioCleaned(t: Table)
    requires IsTable(t)
    requires t[TimeColumn] == [Num(0.1), Num(0.05), Num(0.2), Num(0.3)]
    requires t[DisplacementColumn] == [Num(-1.0), Num(-1.0), Num(2.0), Num(3.0)]
    ensures AllNum(t[TimeColumn]) && IsTable(SelectKept(t)) && AllNum(SelectKept(t)[TimeColumn])
    ensures Reals(SelectKept(t)[TimeColumn]) == [0.05, 0.2, 0.3]
    ensures SelectKept(t)[DisplacementColumn] == [Num(-1.0), Num(2.0), Num(3.0)]
  {
    var times := Reals(t[TimeColumn]);
    assert times == [0.1, 0.05, 0.2, 0.3];
    EarlierRowRemoved();
    var marks := RemovalMarks(times);
    DropFirstOfFour(Num(0.1), Num(0.05), Num(0.2), Num(0.3));
    DropFirstOfFour(Num(-1.0), Num(-1.0), Num(2.0), Num(3.0));
    var r := SelectKept(t);
    assert r[TimeColumn] == [Num(0.05), Num(0.2), Num(0.3)];
    assert r[DisplacementColumn] == [Num(-1.0), Num(2.0), Num(3.0)];
    assert IsTable(r);
  }

  /** With no non-negative displacement the first row's time is subtracted,
      so the first row is at time 0. */
  lemma {:induction false} ScenarioAllNegative(t: Table)
    requires IsTable(t) && AllNum(t[TimeColumn]) && Rows(t) > 0
    requires forall r :: 0 <= r < Rows(t) ==> t[DisplacementColumn][r].Num? && t[DisplacementColumn][r].x < 0.0
    ensures ZeroCorrectTable(t).Ok?
    ensures Reals(ZeroCorrectTable(t).value[TimeColumn])
         == seq(Rows(t), r requires 0 <= r < Rows(t) => Reals(t[TimeColumn])[r] - Reals(t[TimeColumn])[0])
  {
    var disp := t[DisplacementColumn];
    ReferenceRowFallback(disp);
  }

  /** The header row is converted before it is dropped: a unit-column header
      such as "nm" reaches float("n") and aborts the file. */
  lemma {:induction false} HeaderUnitFails(raw: Table)
    requires IsTable(raw) && Rows(raw) > 0 && raw[DisplacementColumn][0] == Str("nm")
    ensures CleanFile(raw) == Err(ValueError)
  {
    ConvertUnitBareSuffix('m');
    var m := MapResult(UnitCell, raw[DisplacementColumn]);
    assert m == Err(ValueError) by {
      assert UnitCell(raw[DisplacementColumn][0]) == Err(ValueError);
      var i :| 0 <= i < |raw[DisplacementColumn]| && UnitCell(raw[DisplacementColumn][i]) == Err(m.error)
        && forall j :: 0 <= j < i ==> UnitCell(raw[DisplacementColumn][j]).Ok?;
      assert i == 0;
    }
    assert UnitColumns[..1] == [DisplacementColumn];
    assert ConvertColumns(raw, [DisplacementColumn], UnitCell) == Err(ValueError) by {
      assert [DisplacementColumn][..0] == [];
    }
    ConvertColumnsStops(raw, UnitColumns, UnitCell, 1);
  }
}
