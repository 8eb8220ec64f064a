# Alemnis indentation data: per-file cleaning pipeline in Dafny

This project models the data-cleaning core of `analyze_excel.py`. That
script reads spreadsheets exported by an Alemnis nano-indenter and prepares
them for plotting. Every sheet has eight positional columns: four
(time, measurement) pairs for a corrected channel and a raw channel, each
with displacement and load. For each sheet the script does the following, in order:

1. It rewrites every cell of the odd (measurement) columns with `convert_unit`.
   A string ending in a metric prefix character (f, p, u, n, m) becomes the
   number before it, times that prefix's power of ten.
2. It rewrites every cell of the even (time) columns with `convert_time`.
   Clock strings, times of day, and fractions of a day all become seconds.
3. It drops the first (header) row and gives the columns their fixed names.
4. It coerces the primary time column to numbers, and removes the rows
   where that fails (the numeric gate).
5. `clean_data` removes, for every adjacent pair whose later time does not
   exceed the earlier one, the earlier row. It reports how many rows went.
6. `zero_correct_time` shifts the primary time column. The row where the
   displacement first becomes non-negative ends up at time 0.
7. `convert_units` multiplies the displacement by 1e6 and the load by 1e3.

The shift of a series to its first sample, used for the adjusted
displacement-load plot, is modelled as well.

Cells are a small datatype: text, time of day, number, missing (NaN), or
anything else. Python's exceptions are a `Result` error. An uncaught
exception ends the whole run, and the model stops the file at the same
point. `float()` is an exact decimal parser onto `real`: sign, digits,
point, exponent, and the surrounding ASCII whitespace (tab to carriage return, and space). `pd.to_timedelta` is
restricted to the clock form `H:MM:SS[.fraction]`. The table is
column-major, `seq<seq<Cell>>` of width 8. The stages of the main loop are
methods of the class `Frames.Frame`, which replace its columns in place.
Each method is proved equal to a function of the old table, and the
properties are proved about those functions.

Four behaviours of the code are easy to misread, and the model follows the code in each:

- One might expect the later row of a non-increasing pair to be removed, and
  the output to be strictly increasing. Line 54 marks `rows_to_remove[i-1]`,
  the EARLIER row, so the output need not be strictly increasing:
  `[1, 5, 6, 2]` becomes `[1, 5, 2]` (lemma `Cleaning.NotStrictlyIncreasing`).
  For times `[0.1, 0.05, 0.2, 0.3]` with displacements `[-1, -1, 2, 3]` the
  code removes the 0.1 (and the displacement -1 of its row), keeps the 0.05,
  takes the reference at time 0.2 and gives `[-0.15, 0, 0.1]`
  (lemma `Pipeline.ScenarioEarlierRowDropped`).
- The header row is not discarded unread. The unit conversion of lines
  183-184 runs over it before line 189 drops it. A unit-column header such as
  `nm` reaches `float("n")` and ends the run with a ValueError
  (lemma `Pipeline.HeaderUnitFails`).
- `clean_data` selects with `df[~pd.Series(rows_to_remove)]` (line 56). The
  mask is numbered 0..n-1, while the rows keep the labels the `dropna` of
  line 193 left them. pandas aligns the two, and raises an IndexingError when
  a row label is missing from the mask. That happens exactly when a row whose
  time does not coerce comes before one whose time does (lemmas
  `Pipeline.GateAligned` and `Pipeline.GapIndexingError`). When nothing
  passes the gate, for instance on a sheet holding only its header row, the
  mask is empty and not boolean. `df[...]` then selects columns, none of
  them, and `zero_correct_time` raises a KeyError at line 64 (lemmas
  `Pipeline.NoRowsKeyError` and `Pipeline.HeaderOnlyKeyError`). Rows are
  numbered afresh after the selection, so `zero_correct_time` always sees
  contiguous labels.
- The "last zero displacement" branch of `zero_correct_time` is kept as
  written. It is proved unreachable (lemma `ZeroCorrection.ZeroBranchUnreachable`).

Files: `cells.dfy` (cell values, errors), `decimal.dfy` (the `float()`
parser), `units.dfy` (`convert_unit`), `times.dfy` (`convert_time`),
`columns.dfy` (column application and filtering), `cleaning.dfy`
(`clean_data`), `zero.dfy` (`zero_correct_time`), `rescale.dfy`
(`convert_units` and the shift to the origin), `pipeline.dfy` (the table and
the composed stages), `frame.dfy` (the table class and the per-file driver).

## Model

| member | source | states |
|---|---|---|
| Units.UnitConversionTable | Alemnis_Data_analysis/Python_code/analyze_excel.py:8-14 | the map has exactly the keys f, p, u, n, m, and their factors are 1e-15, 1e-12, 1e-6, 1e-9, 1e-3 |
| Units.ConvertUnit | Alemnis_Data_analysis/Python_code/analyze_excel.py:29-37 | a non-string is returned as is; an empty string raises IndexError at `value[-1]`; a string whose last character is not a key is returned as is; a known suffix after text that `float()` rejects raises ValueError; otherwise the result is that number times the suffix's factor |
| Units.SuffixedLiteral | Alemnis_Data_analysis/Python_code/analyze_excel.py:31-34 | any literal `float()` accepts, followed by a prefix character, converts to its value times the prefix's factor |
| Units.ConvertUnitRoundTrip | Alemnis_Data_analysis/Python_code/analyze_excel.py:29-34 | an unsigned decimal literal, with or without a minus sign, followed by a prefix character converts to exactly its signed value times the prefix's factor |
| Units.ConvertUnitRendered | Alemnis_Data_analysis/Python_code/analyze_excel.py:29-34 | in particular a fixed-point rendering `whole.frac` followed by a prefix character converts to whole + frac / 10^k times the prefix's factor |
| Units.ConvertUnitBareSuffix | Alemnis_Data_analysis/Python_code/analyze_excel.py:31-33 | a bare prefix character, or a prefix character after `n` (as in `nm`), raises ValueError instead of passing through |
| Units.ConvertUnitNoSuffix | Alemnis_Data_analysis/Python_code/analyze_excel.py:32-36 | a written natural number without a prefix stays a string |
| Decimal.ParseRenderFixed | Alemnis_Data_analysis/Python_code/analyze_excel.py:33 | `float()` of `whole.frac` (k fractional digits) is whole + frac / 10^k |
| Decimal.RenderFixedUnsigned | Alemnis_Data_analysis/Python_code/analyze_excel.py:33 | every fixed-point rendering starts with a digit, ends without whitespace and is read by the unsigned parser as its value |
| Decimal.ParseMinus | Alemnis_Data_analysis/Python_code/analyze_excel.py:33 | `float()` of such a literal behind a minus sign is the negated value |
| Decimal.ParseSigned | Alemnis_Data_analysis/Python_code/analyze_excel.py:33 | `float()` reads such a literal, with or without a minus sign, as its value with that sign |
| Decimal.ParseNatToDigits | Alemnis_Data_analysis/Python_code/analyze_excel.py:33 | `float()` of a written integer is that integer |
| Decimal.ParseDigits | Alemnis_Data_analysis/Python_code/analyze_excel.py:33 | `float()` of any non-empty digit string is its decimal value |
| Decimal.ParseExponentSigned | Alemnis_Data_analysis/Python_code/analyze_excel.py:33 | the exponent part `k` or `-k` of a literal reads as its signed value |
| Decimal.ParseUnsignedScientific | Alemnis_Data_analysis/Python_code/analyze_excel.py:33 | the unsigned parser reads `m e k` as m * 10^k and `m e-k` as m / 10^k |
| Decimal.ScientificUnsigned | Alemnis_Data_analysis/Python_code/analyze_excel.py:33 | every such scientific rendering starts with a digit, ends without whitespace and parses unsigned to its value |
| Decimal.ParseScientific | Alemnis_Data_analysis/Python_code/analyze_excel.py:33 | `float()` of `m e k` is m * 10^k and of `m e-k` is m / 10^k |
| Times.ConvertTime | Alemnis_Data_analysis/Python_code/analyze_excel.py:40-47 | the first matching case decides: a string with ':' becomes its duration in seconds, or raises ValueError when it is not one; a time of day becomes h*3600 + m*60 + s + us/1e6; a number becomes value*86400; anything else is returned as is |
| Times.ParseClockFields | Alemnis_Data_analysis/Python_code/analyze_excel.py:42 | digit-string hours and minutes and a seconds mantissa, joined by colons, parse to hours*3600 + minutes*60 + seconds |
| Times.ParseRenderClock | Alemnis_Data_analysis/Python_code/analyze_excel.py:42 | the duration parser reads `H:MM:SS[.f]` as H*3600 + MM*60 + SS.f seconds |
| Times.ConvertClockString | Alemnis_Data_analysis/Python_code/analyze_excel.py:41-42 | `convert_time` turns such a clock string into those seconds |
| Times.ClockStringAgreesWithTimeOfDay | Alemnis_Data_analysis/Python_code/analyze_excel.py:41-44 | the string `H:MM:SS` and the time of day H:MM:SS give the same seconds |
| Times.TimeOfDayWithinDay | Alemnis_Data_analysis/Python_code/analyze_excel.py:43-44 | a valid time of day converts to a value in [0, 86400) |
| Times.FractionOfDayAgrees | Alemnis_Data_analysis/Python_code/analyze_excel.py:43-46 | a time of day and its fraction of a day convert to the same seconds |
| Columns.MapResult | Alemnis_Data_analysis/Python_code/analyze_excel.py:184 | applying a conversion to a column succeeds exactly when every cell converts; the result then holds each cell's conversion at its row; otherwise it is the exception of the first failing cell |
| Columns.Filter | Alemnis_Data_analysis/Python_code/analyze_excel.py:56 | boolean-mask selection keeps as many rows as there are unmarked rows |
| Columns.KeptIndices | Alemnis_Data_analysis/Python_code/analyze_excel.py:56 | the kept positions are exactly the unmarked rows, strictly increasing |
| Columns.FilterAt | Alemnis_Data_analysis/Python_code/analyze_excel.py:56 | the k-th row after selection is the original row at the k-th kept position, so the order is preserved |
| Columns.FilterNone | Alemnis_Data_analysis/Python_code/analyze_excel.py:56 | with no row marked the selection returns the column unchanged |
| Columns.Positions | Alemnis_Data_analysis/Python_code/analyze_excel.py:56 | `reset_index(drop=True)` numbers the rows 0..n-1 |
| Columns.AlignedIsPositions | Alemnis_Data_analysis/Python_code/analyze_excel.py:56 | increasing row labels line up with a mask numbered 0..n-1 exactly when they are 0..n-1, so the aligned mask selects by position |
| Columns.TrailingPositions | Alemnis_Data_analysis/Python_code/analyze_excel.py:56 | when every marked row comes after every unmarked one, the k-th kept position is k |
| Columns.KeptIndicesAligned | Alemnis_Data_analysis/Python_code/analyze_excel.py:56 | the positions a selection keeps line up with a mask numbered from 0 exactly when no marked row comes before an unmarked one |
| Columns.FirstTrue | Alemnis_Data_analysis/Python_code/analyze_excel.py:68 | `idxmax` of a boolean column is the first True row |
| Columns.LastTrue | Alemnis_Data_analysis/Python_code/analyze_excel.py:71 | `index[-1]` of the True rows is the last True row |
| Cleaning.MarkNonIncreasing | Alemnis_Data_analysis/Python_code/analyze_excel.py:51-54 | the marking loop marks row i-1 exactly when t[i] <= t[i-1], for every i in 1..n-1; it never marks row n-1 |
| Cleaning.CleanTimes | Alemnis_Data_analysis/Python_code/analyze_excel.py:56 | the surviving times number n minus the marked rows |
| Cleaning.MarksCount | Alemnis_Data_analysis/Python_code/analyze_excel.py:51-54 | the number of marked rows equals the number of non-increasing adjacent pairs |
| Cleaning.RowsDeletedIsPairCount | Alemnis_Data_analysis/Python_code/analyze_excel.py:55-57 | `rows_deleted` equals the number of non-increasing adjacent pairs |
| Cleaning.KeptRowRule | Alemnis_Data_analysis/Python_code/analyze_excel.py:52-56 | row i survives exactly when it is the last row or t[i] < t[i+1] |
| Cleaning.KeptBeforeSuccessor | Alemnis_Data_analysis/Python_code/analyze_excel.py:52-56 | every surviving row other than the original last row has a time strictly less than its original successor's |
| Cleaning.LastRowKept | Alemnis_Data_analysis/Python_code/analyze_excel.py:51-56 | the original last row always survives and stays last |
| Cleaning.ShortUnchanged | Alemnis_Data_analysis/Python_code/analyze_excel.py:51-56 | the single row of a one-row column is never marked, so the selection returns it unchanged |
| Cleaning.NotStrictlyIncreasing | Alemnis_Data_analysis/Python_code/analyze_excel.py:53-54 | `[1, 5, 6, 2]` becomes `[1, 5, 2]`, so the output need not be strictly increasing |
| Cleaning.EarlierRowRemoved | Alemnis_Data_analysis/Python_code/analyze_excel.py:53-54 | `[0.1, 0.05, 0.2, 0.3]` becomes `[0.05, 0.2, 0.3]`: the earlier row of the pair is removed |
| ZeroCorrection.AtLeastZero | Alemnis_Data_analysis/Python_code/analyze_excel.py:67 | `>= 0` on a number compares it, on NaN is False, and on any other cell raises TypeError |
| ZeroCorrection.ReferenceRow | Alemnis_Data_analysis/Python_code/analyze_excel.py:67-75 | the chosen reference row is a row of the table |
| ZeroCorrection.ZeroBranchUnreachable | Alemnis_Data_analysis/Python_code/analyze_excel.py:67-73 | if no displacement is >= 0 then none is == 0, so the last-zero branch never runs |
| ZeroCorrection.ReferenceRowTypeError | Alemnis_Data_analysis/Python_code/analyze_excel.py:67 | a displacement cell that is neither a number nor NaN makes the correction raise TypeError, wherever it is |
| ZeroCorrection.ReferenceRowFirstNonNegative | Alemnis_Data_analysis/Python_code/analyze_excel.py:67-69 | in a numeric column the shift is taken at the first row whose displacement is >= 0 |
| ZeroCorrection.ReferenceRowFallback | Alemnis_Data_analysis/Python_code/analyze_excel.py:70-75 | with no displacement >= 0 the shift is taken at row 0 |
| ZeroCorrection.ReferenceRowEmpty | Alemnis_Data_analysis/Python_code/analyze_excel.py:75 | on an empty table `time.iloc[0]` raises IndexError |
| ZeroCorrection.ReferenceRowExample | Alemnis_Data_analysis/Python_code/analyze_excel.py:67-69 | for displacements `[-1, -1, 2, 3]` the reference is row 2 |
| ZeroCorrection.Shift | Alemnis_Data_analysis/Python_code/analyze_excel.py:76 | after `time - time_shift` the reference row is at 0, with the same length, pairwise differences and order |
| ZeroCorrection.ZeroCorrect | Alemnis_Data_analysis/Python_code/analyze_excel.py:63-77 | the correction succeeds exactly when a reference row exists; that row's time becomes 0; every pairwise difference and the time order are preserved; the row count is unchanged |
| Rescale.ScaleCell | Alemnis_Data_analysis/Python_code/analyze_excel.py:81-82 | a number is multiplied by the factor, NaN stays NaN, and any other cell raises TypeError |
| Rescale.ScaleColumnSpec | Alemnis_Data_analysis/Python_code/analyze_excel.py:81-82 | a column scales exactly when all its cells are numbers or NaN, and then each number is multiplied by the factor at its row; the only error is TypeError |
| Rescale.ScaleTwice | Alemnis_Data_analysis/Python_code/analyze_excel.py:81-82 | scaling by f and then by g equals scaling by f*g |
| Rescale.NotIdempotent | Alemnis_Data_analysis/Python_code/analyze_excel.py:81-82 | applying the rescaler twice scales displacement by 1e12 and load by 1e6, which differs from one application whenever a value is non-zero |
| Rescale.SubtractCell | Alemnis_Data_analysis/Python_code/analyze_excel.py:159-160 | number minus number is their difference, NaN gives NaN, and any other cell raises TypeError |
| Rescale.ShiftToOriginSpec | Alemnis_Data_analysis/Python_code/analyze_excel.py:159-160 | a numeric series minus its first element starts at 0 and keeps every difference between numbers |
| Rescale.ShiftToOriginTwice | Alemnis_Data_analysis/Python_code/analyze_excel.py:159-160 | shifting an already shifted series changes nothing |
| Pipeline.ColumnLayout | Alemnis_Data_analysis/Python_code/analyze_excel.py:17-26 | eight headers; columns 0, 1, 3 carry the primary time, displacement and load names; the unit columns are the odd positions and the time columns the even ones |
| Pipeline.ConvertColumns | Alemnis_Data_analysis/Python_code/analyze_excel.py:183-187 | converting the listed columns one after another keeps the number of columns and every column's length |
| Pipeline.ConvertColumnsSucceeds | Alemnis_Data_analysis/Python_code/analyze_excel.py:183-187 | for distinct columns the loop succeeds exactly when every listed column converts; each listed column is then its converted original and every other column is untouched |
| Pipeline.ConvertColumnsFails | Alemnis_Data_analysis/Python_code/analyze_excel.py:183-187 | on failure the exception is that of the first listed column that fails |
| Pipeline.ConvertColumnsStops | Alemnis_Data_analysis/Python_code/analyze_excel.py:183-187 | once a column raises, the later columns are not reached |
| Pipeline.ConvertColumnsKeepsTable | Alemnis_Data_analysis/Python_code/analyze_excel.py:183-187 | the conversions keep eight columns of the original row count |
| Pipeline.DropHeader | Alemnis_Data_analysis/Python_code/analyze_excel.py:189 | `iloc[1:]` leaves one row fewer (none of none) and moves every cell up by one row |
| Pipeline.ToNumeric | Alemnis_Data_analysis/Python_code/analyze_excel.py:192 | coercion leaves numbers, turns numeric text into its number, and turns every other cell into NaN |
| Pipeline.MissingTimes | Alemnis_Data_analysis/Python_code/analyze_excel.py:192-193 | a row is dropped exactly when its coerced primary time is NaN |
| Pipeline.GateSpec | Alemnis_Data_analysis/Python_code/analyze_excel.py:192-193 | after the gate every primary time is a number; the remaining rows are exactly those whose time coerces to a number, in order, with their other cells unchanged |
| Pipeline.GateCell | Alemnis_Data_analysis/Python_code/analyze_excel.py:192-193 | the k-th row after the gate is the row at the k-th position whose time coerces to a number, with that time coerced |
| Pipeline.GateIndex | Alemnis_Data_analysis/Python_code/analyze_excel.py:189-193 | after the gate the rows carry increasing labels, one per row left |
| Pipeline.GateAligned | Alemnis_Data_analysis/Python_code/analyze_excel.py:189-193 | the labels after the gate line up with a mask numbered from 0 exactly when no row whose time fails to coerce comes before one whose time coerces |
| Pipeline.Converted | Alemnis_Data_analysis/Python_code/analyze_excel.py:183-187 | the unit and time conversions keep eight columns of the original row count |
| Pipeline.GatedTable | Alemnis_Data_analysis/Python_code/analyze_excel.py:183-193 | a sheet reaches clean_data exactly when the conversions succeed, as an 8-column table with numeric primary time: the converted table without its header row, after the gate |
| Pipeline.GatedIndex | Alemnis_Data_analysis/Python_code/analyze_excel.py:189-193 | the table that reaches clean_data has one label per row, the labels `GateIndex` gives |
| Pipeline.CleanTable | Alemnis_Data_analysis/Python_code/analyze_excel.py:50-60 | `clean_data` on a table without rows returns one without columns; otherwise it succeeds exactly when the row labels line up with the mask, raising IndexingError when they do not; on success the kept rows are selected by position |
| Pipeline.SingleRowTable | Alemnis_Data_analysis/Python_code/analyze_excel.py:51-56 | a one-row table is returned unchanged when its label is 0, and raises IndexingError otherwise |
| Pipeline.CleanTableSpec | Alemnis_Data_analysis/Python_code/analyze_excel.py:51-57 | `clean_data` on the table removes as many rows as there are non-increasing time pairs; every column keeps the same rows; the time column becomes the filtered times |
| Pipeline.ZeroCorrectTable | Alemnis_Data_analysis/Python_code/analyze_excel.py:63-77 | on a table without columns `df[displacement_column]` raises KeyError; otherwise the correction succeeds exactly when a reference row exists, and only the primary time column changes, to the zero-corrected times; all other columns and the row count are unchanged |
| Pipeline.ConvertUnitsTable | Alemnis_Data_analysis/Python_code/analyze_excel.py:197 | displacement is scaled by 1e6 and load by 1e3; every other column and the row count are unchanged; any failure is the scaling's |
| Pipeline.CleanFile | Alemnis_Data_analysis/Python_code/analyze_excel.py:183-197 | a sheet that is processed to the end passed the gate and yields an 8-column table |
| Pipeline.CorrectedTimesSpec | Alemnis_Data_analysis/Python_code/analyze_excel.py:195-196 | after cleaning and zero correction the reference row is at time 0, and differences and order of the surviving times are those before the correction |
| Pipeline.ScenarioCleaned | Alemnis_Data_analysis/Python_code/analyze_excel.py:195 | times `[0.1, 0.05, 0.2, 0.3]` with displacements `[-1, -1, 2, 3]` clean to `[0.05, 0.2, 0.3]` and `[-1, 2, 3]` |
| Pipeline.ScenarioEarlierRowDropped | Alemnis_Data_analysis/Python_code/analyze_excel.py:195-196 | the same table zero-corrects to times `[-0.15, 0, 0.1]` |
| Pipeline.ScenarioAllNegative | Alemnis_Data_analysis/Python_code/analyze_excel.py:70-76 | with every displacement negative the corrected times are the times minus the first time |
| Pipeline.NoRowsKeyError | Alemnis_Data_analysis/Python_code/analyze_excel.py:56-64 | when nothing passes the gate, clean_data returns a table without columns and the file raises KeyError |
| Pipeline.HeaderOnlyKeyError | Alemnis_Data_analysis/Python_code/analyze_excel.py:189-196 | a sheet holding only its header row, once converted, raises KeyError |
| Pipeline.GapIndexingError | Alemnis_Data_analysis/Python_code/analyze_excel.py:193-195 | a row whose time does not coerce, followed by one whose time does, makes the file raise IndexingError in clean_data |
| Pipeline.HeaderUnitFails | Alemnis_Data_analysis/Python_code/analyze_excel.py:183-189 | a displacement header `nm` makes the file raise ValueError before the header row is dropped |
| Frames.Frame.constructor | Alemnis_Data_analysis/Python_code/analyze_excel.py:181 | the frame holds the sheet as read, its rows labelled 0..n-1 |
| Frames.Frame.ApplyToColumns | Alemnis_Data_analysis/Python_code/analyze_excel.py:183-187 | the column loop replaces the listed columns in place, giving exactly the table (or the exception) of the conversion function |
| Frames.Frame.DropHeaderAndGate | Alemnis_Data_analysis/Python_code/analyze_excel.py:189-193 | the table becomes the gated table without its header row, with numeric primary time, and the rows keep the labels the gate leaves them |
| Frames.Frame.CleanData | Alemnis_Data_analysis/Python_code/analyze_excel.py:50-60 | the marking loop and the selection leave the table `CleanTable` gives for the old table and labels, or its IndexingError; the rows are numbered afresh, and the returned count is the number of non-increasing time pairs |
| Frames.Frame.ZeroCorrectTime | Alemnis_Data_analysis/Python_code/analyze_excel.py:63-77 | the time column is overwritten by the zero-corrected times, or the correction's exception is returned, KeyError on a frame without columns |
| Frames.Frame.ConvertUnits | Alemnis_Data_analysis/Python_code/analyze_excel.py:80-83 | the displacement and load columns are overwritten by their rescaled values, or the scaling's exception is returned |
| Frames.ProcessFile | Alemnis_Data_analysis/Python_code/analyze_excel.py:180-197 | processing one sheet yields exactly the result of the composed pipeline, and the count `clean_data` reports for its gated table when it returns |

## Left out

- File I/O and the batch loop are left out: `glob`, `pd.read_excel` and the text export (lines 149-152, 178-181). The model starts from a sheet that has already been read into a table.
- Plotting and matplotlib styling are left out (lines 86-175). The one computation in them, the shift to the first sample (lines 159-160), is `Rescale.ShiftToOrigin`.
- The console message of line 59 is left out. Only the count it reports is modelled, as the result of `Frames.Frame.CleanData`.
- All arithmetic is exact `real` arithmetic. IEEE-754 rounding of the scalings, of `float()` and of the subtractions is not modelled, and neither are infinities or a NaN stored as a number (`Missing` stands for NaN).
- Decimal.ParseReal: `float()` also accepts `inf`, `nan`, `infinity`, digit underscores, non-ASCII whitespace around the literal and non-ASCII decimal digits (such as Arabic-Indic digits). The model rejects these, with a ValueError where Python succeeds.
- Times.ParseDuration: `pd.to_timedelta` accepts many more forms, such as days, unit words and negative durations. The model accepts only `H:MM:SS[.fraction]` with unsigned digit fields, and rejects the rest with ValueError.
- Pipeline.ToNumeric: `pd.to_numeric` uses its own string grammar. The model uses the same grammar as `float()`.
- Boolean cells are not a cell kind. `is_number(True)` is true in pandas, so booleans would be scaled by 86400 at line 46.
- Row labels are modelled only where they decide the outcome: the labels after the gate and their alignment with the mask at line 56. `idxmax` and `.loc` in `zero_correct_time` (lines 68-73) act on the renumbered rows of line 56, so the model indexes them by position.
- Sheets without exactly eight columns are excluded by the precondition `Pipeline.IsTable`. In the source they raise when the columns are named at line 190, or on a missing column at lines 183-187.
- Exceptions are modelled as `Result` errors. The traceback, and the files not reached after one that raises, are not modelled.
