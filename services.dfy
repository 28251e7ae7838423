/** The CSV ingestion pipeline: loading and validating the table, computing
    the summary and highlights, and creating the dataset record. */
module Services {
  import opened Wrappers
  import opened Strings
  import opened Files
  import opened Models

  // ------------------------------------------------------------------
  // Input and errors.
  // ------------------------------------------------------------------

  /** What `pd.read_csv` yields: the header and the rows of cells; a cell it
      reads as missing (an empty field, `NA`, …) is `None`. */
  datatype CsvTable = CsvTable(header: seq<string>, rows: seq<seq<Option<string>>>)

  /** Every `ValueError` the pipeline raises. `Unreadable` carries the message
      of an error `read_csv` itself raises. */
  datatype UploadError =
    | EmptyUpload
    | MissingColumns(names: seq<string>)
    | NoRows
    | InvalidNumeric
    | Unreadable(detail: string)

  /** `str(exc)`: the text the upload view returns as `detail`. */
  function Message(e: UploadError): string
  {
    match e
    case EmptyUpload => "Uploaded file is empty."
    case MissingColumns(names) => "CSV is missing required columns: " + Join(names, ", ")
    case NoRows => "CSV must include at least one equipment row."
    case InvalidNumeric => "Numeric columns contain invalid values. Please clean the CSV."
    case Unreadable(detail) => detail
  }

  // ------------------------------------------------------------------
  // Columns.
  // ------------------------------------------------------------------

  /** The keys of `COLUMN_RENAMES`, in order. */
  const SourceColumns: seq<string> := ["Equipment Name", "Type", "Flowrate", "Pressure", "Temperature"]

  /** The values of `COLUMN_RENAMES`, in the same order. */
  const CanonicalColumns: seq<string> := ["equipment_name", "equipment_type", "flowrate", "pressure", "temperature"]

  /** `REQUIRED_COLUMNS`. */
  const RequiredColumns: set<string> := {"Equipment Name", "Type", "Flowrate", "Pressure", "Temperature"}

  /** The columns `_load_dataframe` coerces with `pd.to_numeric`. */
  const NumericColumns: seq<string> := ["flowrate", "pressure", "temperature"]

  /** The required columns in Python's `sorted` order. */
  const SortedRequired: seq<string> := ["Equipment Name", "Flowrate", "Pressure", "Temperature", "Type"]

  lemma SortedRequiredIsSorted()
    ensures StrictlyAscending(SortedRequired)
    ensures forall c :: c in SortedRequired <==> c in RequiredColumns
  {
    var s := SortedRequired;
    assert StrLess(s[0], s[1]) && StrLess(s[1], s[2]) && StrLess(s[2], s[3]);
    assert StrLess(s[3][1..], s[4][1..]);
    assert StrLess(s[3], s[4]);
    forall i, j | 0 <= i < j < |s| ensures StrLess(s[i], s[j]) {
      if j > i + 1 {
        StrLessTransitive(s[i], s[i + 1], s[j]);
      }
    }
  }

  /** The renamed column of each required source column. */
  lemma RenamesCoverRequired()
    ensures |SourceColumns| == |CanonicalColumns| == 5
    ensures forall c :: c in SourceColumns <==> c in RequiredColumns
  {
  }

  /** `sorted(REQUIRED_COLUMNS.difference(df.columns))`. */
  function MissingRequired(header: seq<string>): (r: seq<string>)
    ensures StrictlyAscending(r)
    ensures forall c :: c in r <==> c in RequiredColumns && c !in header
  {
    SortedRequiredIsSorted();
    FilterAbsent(SortedRequired, header)
  }

  /** The entries of `s` that are not in `header`, in order. */
  function FilterAbsent(s: seq<string>, header: seq<string>): (r: seq<string>)
    requires StrictlyAscending(s)
    ensures StrictlyAscending(r)
    ensures forall c :: c in r <==> c in s && c !in header
  {
    if s == [] then []
    else
      var rest := FilterAbsent(s[1..], header);
      if s[0] in header then rest
      else
        assert forall c :: c in rest ==> StrLess(s[0], c) by {
          forall c | c in rest ensures StrLess(s[0], c) {
            var j :| 0 <= j < |s[1..]| && s[1..][j] == c;
            assert s[j + 1] == c;
          }
        }
        [s[0]] + rest
  }

  /** The position of the first header equal to `column`. */
  function IndexOf(header: seq<string>, column: string): (r: Option<nat>)
    ensures r.Some? ==> r.value < |header| && header[r.value] == column
                        && forall j :: 0 <= j < r.value ==> header[j] != column
    ensures r.None? ==> column !in header
  {
    if header == [] then None
    else if header[0] == column then Some(0)
    else match IndexOf(header[1..], column)
      case None => None
      case Some(j) => Some(j + 1)
  }

  /** Row `i`'s cell under the source column `column`; a short row reads as
      missing in the columns it lacks. */
  function CellAt(t: CsvTable, i: nat, column: string): Option<string>
    requires i < |t.rows|
  {
    match IndexOf(t.header, column)
    case None => None
    case Some(j) => if j < |t.rows[i]| then t.rows[i][j] else None
  }

  /** `pd.to_numeric(..., errors="coerce")` on one cell: what `parse` reads,
      or missing. */
  function NumericAt(t: CsvTable, i: nat, column: string, parse: string -> Option<real>): Option<real>
    requires i < |t.rows|
  {
    match CellAt(t, i, column)
    case None => None
    case Some(text) => parse(text)
  }

  // ------------------------------------------------------------------
  // The loaded table, row by row.
  // ------------------------------------------------------------------

  /** Row `i` has a number in each of the three numeric columns. */
  predicate RowNumeric(t: CsvTable, i: nat, parse: string -> Option<real>)
    requires i < |t.rows|
  {
    NumericAt(t, i, "Flowrate", parse).Some? && NumericAt(t, i, "Pressure", parse).Some?
    && NumericAt(t, i, "Temperature", parse).Some?
  }

  predicate AllNumeric(t: CsvTable, parse: string -> Option<real>)
  {
    forall i :: 0 <= i < |t.rows| ==> RowNumeric(t, i, parse)
  }

  /** Row `i` as a record: its text cells as read, its numbers rounded. */
  function RowRecord(t: CsvTable, i: nat, parse: string -> Option<real>): Record
    requires i < |t.rows| && RowNumeric(t, i, parse)
  {
    Record(CellAt(t, i, "Equipment Name"), CellAt(t, i, "Type"),
           Round2(NumericAt(t, i, "Flowrate", parse).value),
           Round2(NumericAt(t, i, "Pressure", parse).value),
           Round2(NumericAt(t, i, "Temperature", parse).value))
  }

  /** What `_load_dataframe` yields, stated row by row: the first failing
      check in source order, or one record per row. */
  function LoadRecords(t: CsvTable, parse: string -> Option<real>): (r: Result<seq<Record>, UploadError>)
    ensures r.Success? ==> |r.value| == |t.rows| > 0
  {
    var missing := MissingRequired(t.header);
    if missing != [] then Failure(MissingColumns(missing))
    else if |t.rows| == 0 then Failure(NoRows)
    else if !AllNumeric(t, parse) then Failure(InvalidNumeric)
    else Success(Records(t, parse))
  }

  /** One record per row, in row order. */
  function Records(t: CsvTable, parse: string -> Option<real>): (r: seq<Record>)
    requires AllNumeric(t, parse)
    ensures |r| == |t.rows| && forall i :: 0 <= i < |t.rows| ==> r[i] == RowRecord(t, i, parse)
  {
    seq(|t.rows|, i requires 0 <= i < |t.rows| => RowRecord(t, i, parse))
  }

  // ------------------------------------------------------------------
  // The DataFrame, column by column, as `_load_dataframe` builds it.
  // ------------------------------------------------------------------

  /** A DataFrame cell. */
  datatype Cell = Text(text: string) | Num(value: real) | NaN

  /** Columns by name, each holding one cell per row. */
  type Frame = map<string, seq<Cell>>

  function FromCsv(c: Option<string>): Cell
  {
    match c
    case Some(text) => Text(text)
    case None => NaN
  }

  function FromNumeric(x: Option<real>): Cell
  {
    match x
    case Some(v) => Num(v)
    case None => NaN
  }

  /** Source column `column`, one cell per row. */
  function Column(t: CsvTable, column: string): (r: seq<Cell>)
    ensures |r| == |t.rows|
    ensures forall i :: 0 <= i < |t.rows| ==> r[i] == FromCsv(CellAt(t, i, column))
  {
    seq(|t.rows|, i requires 0 <= i < |t.rows| => FromCsv(CellAt(t, i, column)))
  }

  /** `df[list(COLUMN_RENAMES.keys())].rename(columns=COLUMN_RENAMES)`. */
  function Project(t: CsvTable): (df: Frame)
    ensures df.Keys == {"equipment_name", "equipment_type", "flowrate", "pressure", "temperature"}
    ensures forall k :: 0 <= k < |CanonicalColumns| ==> df[CanonicalColumns[k]] == Column(t, SourceColumns[k])
  {
    map["equipment_name" := Column(t, "Equipment Name"),
        "equipment_type" := Column(t, "Type"),
        "flowrate" := Column(t, "Flowrate"),
        "pressure" := Column(t, "Pressure"),
        "temperature" := Column(t, "Temperature")]
  }

  /** `pd.to_numeric(errors="coerce")` on one cell. */
  function ToNumeric(c: Cell, parse: string -> Option<real>): Cell
  {
    match c
    case Text(text) => FromNumeric(parse(text))
    case Num(v) => Num(v)
    case NaN => NaN
  }

  function Coerce(col: seq<Cell>, parse: string -> Option<real>): (r: seq<Cell>)
    ensures |r| == |col| && forall i :: 0 <= i < |col| ==> r[i] == ToNumeric(col[i], parse)
  {
    seq(|col|, i requires 0 <= i < |col| => ToNumeric(col[i], parse))
  }

  /** `.isnull().any()` on one column. */
  predicate HasNaN(col: seq<Cell>)
  {
    exists i :: 0 <= i < |col| && col[i].NaN?
  }

  /** `.round(2)` on one column. */
  function RoundCells(col: seq<Cell>): (r: seq<Cell>)
    ensures |r| == |col|
    ensures forall i :: 0 <= i < |col| ==> r[i] == if col[i].Num? then Num(Round2(col[i].value)) else col[i]
  {
    seq(|col|, i requires 0 <= i < |col| => if col[i].Num? then Num(Round2(col[i].value)) else col[i])
  }

  function TextOf(c: Cell): Option<string>
  {
    if c.Text? then Some(c.text) else None
  }

  function NumOf(c: Cell): real
  {
    if c.Num? then c.value else 0.0
  }

  /** `df.to_dict(orient="records")`. */
  function ToRecords(df: Frame, n: nat): (r: seq<Record>)
    requires forall c :: c in CanonicalColumns ==> c in df && |df[c]| == n
    ensures |r| == n
    ensures forall i :: 0 <= i < n ==>
              && r[i].equipmentName == TextOf(df["equipment_name"][i])
              && r[i].equipmentType == TextOf(df["equipment_type"][i])
              && r[i].flowrate == NumOf(df["flowrate"][i])
              && r[i].pressure == NumOf(df["pressure"][i])
              && r[i].temperature == NumOf(df["temperature"][i])
  {
    seq(n, i requires 0 <= i < n =>
      Record(TextOf(df["equipment_name"][i]), TextOf(df["equipment_type"][i]),
             NumOf(df["flowrate"][i]), NumOf(df["pressure"][i]), NumOf(df["temperature"][i])))
  }

  /** A coerced cell holds the parsed number, or NaN when there is none. */
  lemma CoercedAt(t: CsvTable, column: string, parse: string -> Option<real>, i: nat)
    requires i < |t.rows|
    ensures Coerce(Column(t, column), parse)[i] == FromNumeric(NumericAt(t, i, column, parse))
  {
  }

  /** `_load_dataframe`: project and rename, coerce the numeric columns,
      reject an empty table or any unparsable number, round to two places. */
  method LoadDataframe(t: CsvTable, parse: string -> Option<real>) returns (r: Result<seq<Record>, UploadError>)
    ensures r == LoadRecords(t, parse)
  {
    var missing := MissingRequired(t.header);
    if missing != [] {
      return Failure(MissingColumns(missing));
    }
    var df := Project(t);
    for k := 0 to |NumericColumns|
      invariant CoercedUpTo(df, t, parse, k)
    {
      var column := NumericColumns[k];
      CoerceStep(df, t, parse, k);
      df := df[column := Coerce(df[column], parse)];
    }
    if |df["equipment_name"]| == 0 {
      return Failure(NoRows);
    }
    if HasNaN(df["flowrate"]) || HasNaN(df["pressure"]) || HasNaN(df["temperature"]) {
      AnyNaNIsInvalid(t, parse, df);
      return Failure(InvalidNumeric);
    }
    NoNaNIsNumeric(t, parse, df);
    var coerced := df;
    df := df["flowrate" := RoundCells(df["flowrate"])];
    df := df["pressure" := RoundCells(df["pressure"])];
    df := df["temperature" := RoundCells(df["temperature"])];
    RoundStep(coerced, t, parse);
    FrameRecords(t, parse, df);
    r := Success(ToRecords(df, |t.rows|));
  }

  /** The frame once the numeric columns are coerced and then rounded. */
  ghost predicate RoundedFrame(df: Frame, t: CsvTable, parse: string -> Option<real>)
  {
    "equipment_name" in df && "equipment_type" in df
    && "flowrate" in df && "pressure" in df && "temperature" in df
    && df["equipment_name"] == Column(t, "Equipment Name")
    && df["equipment_type"] == Column(t, "Type")
    && df["flowrate"] == RoundCells(Coerce(Column(t, "Flowrate"), parse))
    && df["pressure"] == RoundCells(Coerce(Column(t, "Pressure"), parse))
    && df["temperature"] == RoundCells(Coerce(Column(t, "Temperature"), parse))
  }

  /** Rounding the three coerced columns yields the rounded frame. */
  lemma RoundStep(df: Frame, t: CsvTable, parse: string -> Option<real>)
    requires CoercedUpTo(df, t, parse, |NumericColumns|)
    ensures RoundedFrame(df["flowrate" := RoundCells(df["flowrate"])]
                           ["pressure" := RoundCells(df["pressure"])]
                           ["temperature" := RoundCells(df["temperature"])], t, parse)
  {
  }

  /** The frame after the first `k` numeric columns are coerced: the text
      columns as read, the coerced columns parsed, the others as read. */
  ghost predicate CoercedUpTo(df: Frame, t: CsvTable, parse: string -> Option<real>, k: nat)
  {
    "equipment_name" in df && "equipment_type" in df
    && "flowrate" in df && "pressure" in df && "temperature" in df
    && df["equipment_name"] == Column(t, "Equipment Name")
    && df["equipment_type"] == Column(t, "Type")
    && df["flowrate"] == (if 0 < k then Coerce(Column(t, "Flowrate"), parse) else Column(t, "Flowrate"))
    && df["pressure"] == (if 1 < k then Coerce(Column(t, "Pressure"), parse) else Column(t, "Pressure"))
    && df["temperature"] == (if 2 < k then Coerce(Column(t, "Temperature"), parse) else Column(t, "Temperature"))
  }

  /** Coercing the next numeric column advances the frame by one column. */
  lemma CoerceStep(df: Frame, t: CsvTable, parse: string -> Option<real>, k: nat)
    requires k < |NumericColumns| && CoercedUpTo(df, t, parse, k)
    ensures NumericColumns[k] in df
    ensures CoercedUpTo(df[NumericColumns[k] := Coerce(df[NumericColumns[k]], parse)], t, parse, k + 1)
  {
  }

  /** The rounded, coerced frame holds the same records as the row-by-row
      reading. */
  lemma FrameRecords(t: CsvTable, parse: string -> Option<real>, df: Frame)
    requires MissingRequired(t.header) == [] && |t.rows| > 0 && AllNumeric(t, parse)
    requires RoundedFrame(df, t, parse)
    ensures forall c :: c in CanonicalColumns ==> c in df && |df[c]| == |t.rows|
    ensures LoadRecords(t, parse).Success?
    ensures ToRecords(df, |t.rows|) == LoadRecords(t, parse).value
  {
    var r := ToRecords(df, |t.rows|);
    forall i | 0 <= i < |t.rows| ensures r[i] == RowRecord(t, i, parse) {
      assert RowNumeric(t, i, parse);
      ColumnsRecord(t, parse, i, df["equipment_name"], df["equipment_type"],
                    df["flowrate"], df["pressure"], df["temperature"]);
    }
  }

  /** Row `i` of the frame's five columns is row `i`'s record. */
  lemma ColumnsRecord(t: CsvTable, parse: string -> Option<real>, i: nat,
                      name: seq<Cell>, kind: seq<Cell>, flow: seq<Cell>, press: seq<Cell>, temp: seq<Cell>)
    requires i < |t.rows| && RowNumeric(t, i, parse)
    requires name == Column(t, "Equipment Name") && kind == Column(t, "Type")
    requires flow == RoundCells(Coerce(Column(t, "Flowrate"), parse))
    requires press == RoundCells(Coerce(Column(t, "Pressure"), parse))
    requires temp == RoundCells(Coerce(Column(t, "Temperature"), parse))
    ensures Record(TextOf(name[i]), TextOf(kind[i]), NumOf(flow[i]), NumOf(press[i]), NumOf(temp[i]))
            == RowRecord(t, i, parse)
  {
    CoercedAt(t, "Flowrate", parse, i);
    CoercedAt(t, "Pressure", parse, i);
    CoercedAt(t, "Temperature", parse, i);
  }

  lemma AnyNaNIsInvalid(t: CsvTable, parse: string -> Option<real>, df: Frame)
    requires "flowrate" in df && "pressure" in df && "temperature" in df
    requires df["flowrate"] == Coerce(Column(t, "Flowrate"), parse)
    requires df["pressure"] == Coerce(Column(t, "Pressure"), parse)
    requires df["temperature"] == Coerce(Column(t, "Temperature"), parse)
    requires HasNaN(df["flowrate"]) || HasNaN(df["pressure"]) || HasNaN(df["temperature"])
    ensures !AllNumeric(t, parse)
  {
    var i :| 0 <= i < |t.rows| && (df["flowrate"][i].NaN? || df["pressure"][i].NaN? || df["temperature"][i].NaN?);
    CoercedAt(t, "Flowrate", parse, i);
    CoercedAt(t, "Pressure", parse, i);
    CoercedAt(t, "Temperature", parse, i);
    assert !RowNumeric(t, i, parse);
  }

  lemma NoNaNIsNumeric(t: CsvTable, parse: string -> Option<real>, df: Frame)
    requires "flowrate" in df && "pressure" in df && "temperature" in df
    requires df["flowrate"] == Coerce(Column(t, "Flowrate"), parse)
    requires df["pressure"] == Coerce(Column(t, "Pressure"), parse)
    requires df["temperature"] == Coerce(Column(t, "Temperature"), parse)
    requires !HasNaN(df["flowrate"]) && !HasNaN(df["pressure"]) && !HasNaN(df["temperature"])
    ensures AllNumeric(t, parse)
    ensures forall i :: 0 <= i < |t.rows| ==> df["flowrate"][i].Num? && df["pressure"][i].Num? && df["temperature"][i].Num?
  {
    forall i | 0 <= i < |t.rows| ensures RowNumeric(t, i, parse) {
      CoercedAt(t, "Flowrate", parse, i);
      CoercedAt(t, "Pressure", parse, i);
      CoercedAt(t, "Temperature", parse, i);
      assert !df["flowrate"][i].NaN? && !df["pressure"][i].NaN? && !df["temperature"][i].NaN?;
    }
  }

  // ------------------------------------------------------------------
  // Properties of the loaded table.
  // ------------------------------------------------------------------

  /** A missing required column fails the load, naming exactly the missing
      columns in ascending order; with all five present the load never fails
      on columns. */
  lemma MissingColumnsFailFirst(t: CsvTable, parse: string -> Option<real>)
    ensures (exists c :: c in RequiredColumns && c !in t.header)
            <==> LoadRecords(t, parse) == Failure(MissingColumns(MissingRequired(t.header)))
    ensures var m := MissingRequired(t.header);
            StrictlyAscending(m) && forall c :: c in m <==> c in RequiredColumns && c !in t.header
  {
    var m := MissingRequired(t.header);
    if m != [] {
      assert m[0] in m;
    }
  }

  /** A header-only table fails with `NoRows` whatever its cells would parse
      to: the row check comes before the numeric check. */
  lemma HeaderOnlyFails(t: CsvTable, parse: string -> Option<real>)
    requires forall c :: c in RequiredColumns ==> c in t.header
    requires t.rows == []
    ensures LoadRecords(t, parse) == Failure(NoRows)
    ensures Message(LoadRecords(t, parse).error) == "CSV must include at least one equipment row."
  {
    AllRequiredPresent(t.header);
  }

  /** All or nothing: once the columns and a row are present, the load
      succeeds exactly when every numeric cell of every row parses, and then
      yields one record per row, never a subset. */
  lemma LoadAllOrNothing(t: CsvTable, parse: string -> Option<real>)
    requires forall c :: c in RequiredColumns ==> c in t.header
    requires t.rows != []
    ensures LoadRecords(t, parse).Success? <==> AllNumeric(t, parse)
    ensures LoadRecords(t, parse).Failure? ==> LoadRecords(t, parse) == Failure(InvalidNumeric)
    ensures LoadRecords(t, parse).Success? ==> |LoadRecords(t, parse).value| == |t.rows|
  {
    AllRequiredPresent(t.header);
  }

  /** A loaded record holds its row's name and type cells and its three
      numbers as parsed and rounded to cents. */
  lemma LoadedRecordValues(t: CsvTable, parse: string -> Option<real>, i: nat)
    requires LoadRecords(t, parse).Success? && i < |t.rows|
    ensures var rec := LoadRecords(t, parse).value[i];
            NumericAt(t, i, "Flowrate", parse).Some? && NumericAt(t, i, "Pressure", parse).Some?
            && NumericAt(t, i, "Temperature", parse).Some?
            && rec.equipmentName == CellAt(t, i, "Equipment Name")
            && rec.equipmentType == CellAt(t, i, "Type")
            && rec.flowrate == Round2(NumericAt(t, i, "Flowrate", parse).value)
            && rec.pressure == Round2(NumericAt(t, i, "Pressure", parse).value)
            && rec.temperature == Round2(NumericAt(t, i, "Temperature", parse).value)
            && Cents(rec.flowrate) && Cents(rec.pressure) && Cents(rec.temperature)
  {
    assert RowNumeric(t, i, parse);
    Round2Close(NumericAt(t, i, "Flowrate", parse).value);
    Round2Close(NumericAt(t, i, "Pressure", parse).value);
    Round2Close(NumericAt(t, i, "Temperature", parse).value);
  }

  lemma {:induction false} FilterAbsentAgrees(s: seq<string>, h1: seq<string>, h2: seq<string>)
    requires StrictlyAscending(s)
    requires forall c :: c in s ==> (c in h1 <==> c in h2)
    ensures FilterAbsent(s, h1) == FilterAbsent(s, h2)
  {
    if s != [] {
      assert StrictlyAscending(s[1..]) by {
        forall i, j | 0 <= i < j < |s[1..]| ensures StrLess(s[1..][i], s[1..][j]) {
          assert s[1..][i] == s[i + 1] && s[1..][j] == s[j + 1];
        }
      }
      FilterAbsentAgrees(s[1..], h1, h2);
    }
  }

  /** With every required column in the header, none is missing. */
  lemma AllRequiredPresent(header: seq<string>)
    requires forall c :: c in RequiredColumns ==> c in header
    ensures MissingRequired(header) == []
  {
    SortedRequiredIsSorted();
    FilterAbsentNone(SortedRequired, header);
  }

  lemma {:induction false} FilterAbsentNone(s: seq<string>, header: seq<string>)
    requires StrictlyAscending(s)
    requires forall c :: c in s ==> c in header
    ensures FilterAbsent(s, header) == []
  {
    if s != [] {
      assert s[0] in s;
      assert StrictlyAscending(s[1..]) by {
        forall i, j | 0 <= i < j < |s[1..]| ensures StrLess(s[1..][i], s[1..][j]) {
          assert s[1..][i] == s[i + 1] && s[1..][j] == s[j + 1];
        }
      }
      FilterAbsentNone(s[1..], header);
    }
  }



  /** Rows that agree on the five required cells read alike. */
  lemma RowAgrees(t1: CsvTable, t2: CsvTable, parse: string -> Option<real>, i: nat)
    requires i < |t1.rows| && i < |t2.rows|
    requires forall c :: c in RequiredColumns ==> CellAt(t1, i, c) == CellAt(t2, i, c)
    ensures RowNumeric(t1, i, parse) == RowNumeric(t2, i, parse)
    ensures RowNumeric(t1, i, parse) ==> RowRecord(t1, i, parse) == RowRecord(t2, i, parse)
  {
    assert CellAt(t1, i, "Flowrate") == CellAt(t2, i, "Flowrate");
    assert CellAt(t1, i, "Pressure") == CellAt(t2, i, "Pressure");
    assert CellAt(t1, i, "Temperature") == CellAt(t2, i, "Temperature");
    assert CellAt(t1, i, "Equipment Name") == CellAt(t2, i, "Equipment Name");
    assert CellAt(t1, i, "Type") == CellAt(t2, i, "Type");
  }

  /** Only the five required columns matter: two tables that agree on which
      of them are present and on their cells load to the same result, however
      their other columns differ. */
  lemma OtherColumnsIgnored(t1: CsvTable, t2: CsvTable, parse: string -> Option<real>)
    requires |t1.rows| == |t2.rows|
    requires forall c :: c in RequiredColumns ==> (c in t1.header <==> c in t2.header)
    requires forall i, c :: 0 <= i < |t1.rows| && c in RequiredColumns ==> CellAt(t1, i, c) == CellAt(t2, i, c)
    ensures LoadRecords(t1, parse) == LoadRecords(t2, parse)
  {
    SortedRequiredIsSorted();
    FilterAbsentAgrees(SortedRequired, t1.header, t2.header);
    forall i | 0 <= i < |t1.rows|
      ensures RowNumeric(t1, i, parse) == RowNumeric(t2, i, parse)
      ensures RowNumeric(t1, i, parse) ==> RowRecord(t1, i, parse) == RowRecord(t2, i, parse)
    {
      RowAgrees(t1, t2, parse, i);
    }
    SameRowsSameLoad(t1, t2, parse);
  }

  lemma SameRowsSameLoad(t1: CsvTable, t2: CsvTable, parse: string -> Option<real>)
    requires |t1.rows| == |t2.rows| && MissingRequired(t1.header) == MissingRequired(t2.header)
    requires forall i :: 0 <= i < |t1.rows| ==> RowNumeric(t1, i, parse) == RowNumeric(t2, i, parse)
    requires forall i :: 0 <= i < |t1.rows| && RowNumeric(t1, i, parse) ==> RowRecord(t1, i, parse) == RowRecord(t2, i, parse)
    ensures LoadRecords(t1, parse) == LoadRecords(t2, parse)
  {
    assert AllNumeric(t1, parse) == AllNumeric(t2, parse);
    if AllNumeric(t1, parse) {
      var a := Records(t1, parse);
      var b := Records(t2, parse);
      forall i | 0 <= i < |a| ensures a[i] == b[i] {
        assert RowNumeric(t1, i, parse);
      }
      assert a == b;
    }
  }

  // ------------------------------------------------------------------
  // Rounding to two decimals (numpy's round half to even).
  // ------------------------------------------------------------------

  /** The nearest integer to `y`, ties to the even one. */
  function RoundHalfEven(y: real): (n: int)
    ensures -0.5 <= n as real - y <= 0.5
    ensures (n as real - y == 0.5 || y - n as real == 0.5) ==> n % 2 == 0
  {
    var f := y.Floor;
    var frac := y - f as real;
    if frac < 0.5 then f
    else if frac > 0.5 then f + 1
    else if f % 2 == 0 then f
    else f + 1
  }

  /** `round(x, 2)`. */
  function Round2(x: real): real
  {
    RoundHalfEven(x * 100.0) as real / 100.0
  }

  /** A whole number of hundredths. */
  predicate Cents(x: real)
  {
    (x * 100.0).Floor as real == x * 100.0
  }

  /** Rounding moves a value by at most half a hundredth and lands on cents. */
  lemma Round2Close(x: real)
    ensures -0.005 <= Round2(x) - x <= 0.005
    ensures Cents(Round2(x))
  {
    var n := RoundHalfEven(x * 100.0);
    var r := n as real / 100.0;
    assert r == Round2(x);
    assert r * 100.0 == n as real;
    assert (n as real).Floor == n;
    assert -0.5 <= n as real - x * 100.0 <= 0.5;
  }

  /** A value already on cents is left as it is. */
  lemma Round2OfCents(x: real)
    requires Cents(x)
    ensures Round2(x) == x
  {
  }

  lemma Round2Idempotent(x: real)
    ensures Round2(Round2(x)) == Round2(x)
  {
    Round2Close(x);
    Round2OfCents(Round2(x));
  }

  lemma RoundHalfEvenMonotone(x: real, y: real)
    requires x <= y
    ensures RoundHalfEven(x) <= RoundHalfEven(y)
  {
  }

  /** Rounding keeps order. */
  lemma Round2Monotone(x: real, y: real)
    requires x <= y
    ensures Round2(x) <= Round2(y)
  {
    RoundHalfEvenMonotone(x * 100.0, y * 100.0);
  }

  /** Halves go to the even hundredth: a value exactly halfway between two
      hundredths rounds to the one with an even number of hundredths, e.g.
      0.125 to 0.12, 0.135 to 0.14, -0.125 to -0.12. */
  lemma Round2TiesToEven(k: int)
    ensures var r := Round2((2 * k + 1) as real / 200.0);
            (r == k as real / 100.0 || r == (k + 1) as real / 100.0)
            && (r * 100.0).Floor % 2 == 0
    ensures Round2(0.125) == 0.12 && Round2(0.135) == 0.14 && Round2(-0.125) == -0.12
  {
    var y := (2 * k + 1) as real / 200.0 * 100.0;
    assert y == k as real + 0.5;
    var n := RoundHalfEven(y);
    assert n == k || n == k + 1;
    assert (n as real / 100.0 * 100.0) == n as real;
    assert (12.5).Floor == 12;
    assert (13.5).Floor == 13;
    assert (-12.5).Floor == -13;
  }

  // ------------------------------------------------------------------
  // Means and extremes.
  // ------------------------------------------------------------------

  function Sum(xs: seq<real>): real
  {
    if xs == [] then 0.0 else xs[0] + Sum(xs[1..])
  }

  /** `Series.mean()`. */
  function Mean(xs: seq<real>): real
    requires |xs| > 0
  {
    Sum(xs) / |xs| as real
  }

  lemma {:induction false} SumBounds(xs: seq<real>, lo: real, hi: real)
    requires forall i :: 0 <= i < |xs| ==> lo <= xs[i] <= hi
    ensures |xs| as real * lo <= Sum(xs) <= |xs| as real * hi
  {
    if xs != [] {
      SumBounds(xs[1..], lo, hi);
      assert |xs| as real * lo == lo + (|xs| - 1) as real * lo;
      assert |xs| as real * hi == hi + (|xs| - 1) as real * hi;
    }
  }

  /** `xs[r]` is a largest entry and no earlier entry is as large. */
  predicate IsFirstMax(xs: seq<real>, r: nat)
  {
    r < |xs| && (forall j :: 0 <= j < |xs| ==> xs[j] <= xs[r])
    && forall j :: 0 <= j < r ==> xs[j] < xs[r]
  }

  /** `xs[r]` is a smallest entry and no earlier entry is as small. */
  predicate IsFirstMin(xs: seq<real>, r: nat)
  {
    r < |xs| && (forall j :: 0 <= j < |xs| ==> xs[r] <= xs[j])
    && forall j :: 0 <= j < r ==> xs[r] < xs[j]
  }

  /** `Series.idxmax()` on a default index. */
  function IdxMax(xs: seq<real>): (r: nat)
    requires |xs| > 0
    ensures IsFirstMax(xs, r)
  {
    if |xs| == 1 then 0
    else
      var k := IdxMax(xs[1..]) + 1;
      assert forall j :: 1 <= j < |xs| ==> xs[j] == xs[1..][j - 1];
      if xs[0] >= xs[k] then 0 else k
  }

  /** `Series.idxmin()` on a default index. */
  function IdxMin(xs: seq<real>): (r: nat)
    requires |xs| > 0
    ensures IsFirstMin(xs, r)
  {
    if |xs| == 1 then 0
    else
      var k := IdxMin(xs[1..]) + 1;
      assert forall j :: 1 <= j < |xs| ==> xs[j] == xs[1..][j - 1];
      if xs[0] <= xs[k] then 0 else k
  }

  /** There is only one first extreme. */
  lemma FirstExtremeUnique(xs: seq<real>, a: nat, b: nat)
    ensures IsFirstMax(xs, a) && IsFirstMax(xs, b) ==> a == b
    ensures IsFirstMin(xs, a) && IsFirstMin(xs, b) ==> a == b
  {
    if a < b {
      assert IsFirstMax(xs, b) ==> xs[a] < xs[b];
      assert IsFirstMin(xs, b) ==> xs[b] < xs[a];
    } else if b < a {
      assert IsFirstMax(xs, a) ==> xs[b] < xs[a];
      assert IsFirstMin(xs, a) ==> xs[a] < xs[b];
    }
  }

  /** The mean lies between the column's smallest and largest value. */
  lemma MeanBetween(xs: seq<real>)
    requires |xs| > 0
    ensures xs[IdxMin(xs)] <= Mean(xs) <= xs[IdxMax(xs)]
  {
    var a := IdxMin(xs);
    var b := IdxMax(xs);
    MeanBounds(xs, xs[a], xs[b]);
  }

  /** Bounds on every entry bound the mean. */
  lemma MeanBounds(xs: seq<real>, lo: real, hi: real)
    requires |xs| > 0
    requires forall i :: 0 <= i < |xs| ==> lo <= xs[i] <= hi
    ensures lo <= Mean(xs) <= hi
  {
    SumBounds(xs, lo, hi);
    QuotientBounds(Sum(xs), |xs| as real, lo, hi);
  }

  lemma QuotientBounds(s: real, n: real, lo: real, hi: real)
    requires n > 0.0 && n * lo <= s <= n * hi
    ensures lo <= s / n <= hi
  {
    var m := s / n;
    assert m * n == s;
    assert (m - lo) * n == s - lo * n;
    assert (hi - m) * n == hi * n - s;
  }

  /** One numeric field of a record, by canonical column name. */
  function FieldValue(rec: Record, column: string): real
    requires column in NumericColumns
  {
    if column == "flowrate" then rec.flowrate
    else if column == "pressure" then rec.pressure
    else rec.temperature
  }

  /** `df[column]`. */
  function Values(rs: seq<Record>, column: string): (r: seq<real>)
    requires column in NumericColumns
    ensures |r| == |rs| && forall i :: 0 <= i < |rs| ==> r[i] == FieldValue(rs[i], column)
  {
    seq(|rs|, i requires 0 <= i < |rs| => FieldValue(rs[i], column))
  }

  datatype Agg = Max | Min

  predicate IsFirstExtreme(xs: seq<real>, agg: Agg, i: nat)
  {
    if agg == Max then IsFirstMax(xs, i) else IsFirstMin(xs, i)
  }

  /** Row `i`'s name and type, with its value in `column`. */
  function RowHighlight(rs: seq<Record>, column: string, i: nat): Highlight
    requires column in NumericColumns && i < |rs|
  {
    Highlight(rs[i].equipmentName, rs[i].equipmentType, column, FieldValue(rs[i], column))
  }

  /** `_extreme(column, agg_func)`: the first row that attains the column's
      maximum (or minimum). */
  function Extreme(rs: seq<Record>, column: string, agg: Agg): (h: Highlight)
    requires |rs| > 0 && column in NumericColumns
    ensures h.column == column
    ensures exists i :: 0 <= i < |rs| && IsFirstExtreme(Values(rs, column), agg, i) && h == RowHighlight(rs, column, i)
  {
    var xs := Values(rs, column);
    var i := if agg == Max then IdxMax(xs) else IdxMin(xs);
    assert IsFirstExtreme(xs, agg, i);
    RowHighlight(rs, column, i)
  }

  /** The highlight is attained by a row, and is the largest (smallest)
      value of its column. */
  lemma ExtremeBounds(rs: seq<Record>, column: string, agg: Agg)
    requires |rs| > 0 && column in NumericColumns
    ensures var h := Extreme(rs, column, agg);
            forall j :: 0 <= j < |rs| ==>
              if agg == Max then FieldValue(rs[j], column) <= h.value else h.value <= FieldValue(rs[j], column)
  {
    var h := Extreme(rs, column, agg);
    var xs := Values(rs, column);
    var i :| 0 <= i < |rs| && IsFirstExtreme(xs, agg, i) && h == RowHighlight(rs, column, i);
    assert h.value == xs[i];
  }

  // ------------------------------------------------------------------
  // type_distribution: value_counts().sort_index().to_dict()
  // ------------------------------------------------------------------

  function Keys(d: seq<TypeCount>): (r: seq<string>)
    ensures |r| == |d| && forall i :: 0 <= i < |d| ==> r[i] == d[i].equipmentType
  {
    seq(|d|, i requires 0 <= i < |d| => d[i].equipmentType)
  }

  /** The count stored under `k`, or 0. */
  function CountOf(d: seq<TypeCount>, k: string): nat
  {
    if d == [] then 0 else (if d[0].equipmentType == k then d[0].count else 0) + CountOf(d[1..], k)
  }

  /** The sum of the counts. */
  function Total(d: seq<TypeCount>): nat
  {
    if d == [] then 0 else d[0].count + Total(d[1..])
  }

  /** Keys in ascending order, every count positive. */
  predicate WellFormed(d: seq<TypeCount>)
  {
    StrictlyAscending(Keys(d)) && forall i :: 0 <= i < |d| ==> d[i].count > 0
  }

  lemma WellFormedTail(d: seq<TypeCount>)
    requires WellFormed(d) && d != []
    ensures WellFormed(d[1..])
    ensures forall k :: k in Keys(d[1..]) ==> StrLess(d[0].equipmentType, k)
  {
    var t := d[1..];
    forall i, j | 0 <= i < j < |t| ensures StrLess(Keys(t)[i], Keys(t)[j]) {
      assert Keys(t)[i] == Keys(d)[i + 1] && Keys(t)[j] == Keys(d)[j + 1];
    }
    forall k | k in Keys(t) ensures StrLess(d[0].equipmentType, k) {
      var j :| 0 <= j < |t| && Keys(t)[j] == k;
      assert Keys(d)[j + 1] == k;
    }
  }

  /** A key that sorts before every key of `d` heads `[x] + d` in order. */
  lemma ConsWellFormed(x: TypeCount, d: seq<TypeCount>)
    requires WellFormed(d) && x.count > 0
    requires forall k :: k in Keys(d) ==> StrLess(x.equipmentType, k)
    ensures WellFormed([x] + d)
  {
    var r := [x] + d;
    forall i, j | 0 <= i < j < |r| ensures StrLess(Keys(r)[i], Keys(r)[j]) {
      assert Keys(r)[j] == Keys(d)[j - 1];
      if i > 0 {
        assert Keys(r)[i] == Keys(d)[i - 1];
      } else {
        assert Keys(d)[j - 1] in Keys(d);
      }
    }
  }

  lemma CountOfCons(x: TypeCount, d: seq<TypeCount>, k: string)
    ensures CountOf([x] + d, k) == (if x.equipmentType == k then x.count else 0) + CountOf(d, k)
    ensures Total([x] + d) == x.count + Total(d)
  {
    assert ([x] + d)[1..] == d;
  }

  /** `r` is `d` with one more row of type `t` counted. */
  ghost predicate AddsType(d: seq<TypeCount>, t: string, r: seq<TypeCount>)
  {
    WellFormed(r)
    && (forall k :: CountOf(r, k) == CountOf(d, k) + (if k == t then 1 else 0))
    && (forall k :: k in Keys(r) <==> k in Keys(d) || k == t)
    && Total(r) == Total(d) + 1
  }

  /** Counts one more row of type `t`. */
  function AddType(d: seq<TypeCount>, t: string): (r: seq<TypeCount>)
    requires WellFormed(d)
    ensures WellFormed(r)
    ensures forall k {:trigger CountOf(r, k)} :: CountOf(r, k) == CountOf(d, k) + (if k == t then 1 else 0)
    ensures forall k {:trigger k in Keys(r)} :: k in Keys(r) <==> k in Keys(d) || k == t
    ensures Total(r) == Total(d) + 1
  {
    if d == [] || StrLess(t, d[0].equipmentType) then
      AddTypeFront(d, t);
      [TypeCount(t, 1)] + d
    else if d[0].equipmentType == t then
      AddTypeBump(d, t);
      [TypeCount(t, d[0].count + 1)] + d[1..]
    else
      StrLessTotal(t, d[0].equipmentType);
      WellFormedTail(d);
      var rest := AddType(d[1..], t);
      AddTypeLater(d, t, rest);
      [d[0]] + rest
  }

  /** A type that sorts before every key goes in front with count 1. */
  lemma AddTypeFront(d: seq<TypeCount>, t: string)
    requires WellFormed(d)
    requires d != [] ==> StrLess(t, d[0].equipmentType)
    ensures AddsType(d, t, [TypeCount(t, 1)] + d)
  {
    var r := [TypeCount(t, 1)] + d;
    if d != [] {
      WellFormedTail(d);
      forall k | k in Keys(d) ensures StrLess(t, k) {
        if k != d[0].equipmentType {
          StrLessTransitive(t, d[0].equipmentType, k);
        }
      }
    }
    ConsWellFormed(TypeCount(t, 1), d);
    forall k ensures CountOf(r, k) == CountOf(d, k) + (if k == t then 1 else 0) {
      CountOfCons(TypeCount(t, 1), d, k);
    }
    assert Keys(r) == [t] + Keys(d);
  }

  /** A type equal to the first key bumps that key's count. */
  lemma AddTypeBump(d: seq<TypeCount>, t: string)
    requires WellFormed(d) && d != [] && d[0].equipmentType == t
    ensures AddsType(d, t, [TypeCount(t, d[0].count + 1)] + d[1..])
  {
    var y := TypeCount(t, d[0].count + 1);
    var r := [y] + d[1..];
    WellFormedTail(d);
    ConsWellFormed(y, d[1..]);
    forall k ensures CountOf(r, k) == CountOf(d, k) + (if k == t then 1 else 0) {
      CountOfCons(y, d[1..], k);
    }
    CountOfCons(y, d[1..], t);
    assert Keys(r) == [t] + Keys(d[1..]);
    assert Keys(d) == [t] + Keys(d[1..]);
  }

  /** A type after the first key is counted in the rest. */
  lemma AddTypeLater(d: seq<TypeCount>, t: string, rest: seq<TypeCount>)
    requires WellFormed(d) && d != [] && StrLess(d[0].equipmentType, t)
    requires AddsType(d[1..], t, rest)
    ensures AddsType(d, t, [d[0]] + rest)
  {
    var x := d[0];
    var r := [x] + rest;
    WellFormedTail(d);
    ConsWellFormed(x, rest);
    forall k ensures CountOf(r, k) == CountOf(d, k) + (if k == t then 1 else 0) {
      CountOfCons(x, rest, k);
      CountOfCons(x, d[1..], k);
    }
    assert Keys(r) == [x.equipmentType] + Keys(rest) && Keys(d) == [x.equipmentType] + Keys(d[1..]);
  }

  /** `value_counts().sort_index()` over a column of types. */
  function Tally(types: seq<string>): (r: seq<TypeCount>)
    ensures WellFormed(r)
    ensures forall k {:trigger CountOf(r, k)} :: CountOf(r, k) == multiset(types)[k]
    ensures forall k {:trigger k in Keys(r)} :: k in Keys(r) <==> k in types
    ensures Total(r) == |types|
  {
    if types == [] then []
    else
      var p := types[..|types| - 1];
      var t := types[|types| - 1];
      assert types == p + [t];
      AddType(Tally(p), t)
  }

  /** The present (non-missing) types, in row order: `value_counts` drops NaN. */
  function PresentTypes(rs: seq<Record>): (r: seq<string>)
    ensures |r| <= |rs|
    ensures (forall i :: 0 <= i < |rs| ==> rs[i].equipmentType.Some?) ==> |r| == |rs|
    ensures forall k {:trigger k in r} :: k in r <==> Some(k) in TypesOf(rs)
  {
    if rs == [] then []
    else
      var rest := PresentTypes(rs[1..]);
      assert TypesOf(rs) == [rs[0].equipmentType] + TypesOf(rs[1..]);
      match rs[0].equipmentType
      case Some(k) => [k] + rest
      case None => rest
  }

  /** The `equipment_type` column. */
  function TypesOf(rs: seq<Record>): (r: seq<Option<string>>)
    ensures |r| == |rs| && forall i :: 0 <= i < |rs| ==> r[i] == rs[i].equipmentType
  {
    seq(|rs|, i requires 0 <= i < |rs| => rs[i].equipmentType)
  }

  /** `type_distribution` as stored. */
  function TypeDistribution(rs: seq<Record>): seq<TypeCount>
  {
    Tally(PresentTypes(rs))
  }

  /** The distribution's keys are exactly the types that occur, ascending;
      each count is the number of rows of that type; with no missing type
      the counts add up to the number of rows. */
  lemma TypeDistributionCounts(rs: seq<Record>)
    ensures var d := TypeDistribution(rs);
            StrictlyAscending(Keys(d))
            && (forall k :: k in Keys(d) <==> Some(k) in TypesOf(rs))
            && (forall k :: CountOf(d, k) == multiset(TypesOf(rs))[Some(k)])
            && ((forall i :: 0 <= i < |rs| ==> rs[i].equipmentType.Some?) ==> Total(d) == |rs|)
  {
    forall k ensures multiset(PresentTypes(rs))[k] == multiset(TypesOf(rs))[Some(k)] {
      PresentTypesMultiset(rs, k);
    }
  }

  lemma {:induction false} PresentTypesMultiset(rs: seq<Record>, k: string)
    ensures multiset(PresentTypes(rs))[k] == multiset(TypesOf(rs))[Some(k)]
  {
    if rs != [] {
      PresentTypesMultiset(rs[1..], k);
      assert TypesOf(rs) == [rs[0].equipmentType] + TypesOf(rs[1..]);
    }
  }

  // ------------------------------------------------------------------
  // _compute_metrics
  // ------------------------------------------------------------------

  /** The `totals` dictionary plus `type_distribution`. */
  datatype Totals = Totals(totalRecords: nat, avgFlowrate: real, avgPressure: real,
                           avgTemperature: real, typeDistribution: seq<TypeCount>)

  function ComputeTotals(rs: seq<Record>): Totals
    requires |rs| > 0
  {
    Totals(|rs|, Round2(Mean(Values(rs, "flowrate"))), Round2(Mean(Values(rs, "pressure"))),
           Round2(Mean(Values(rs, "temperature"))), TypeDistribution(rs))
  }

  /** The `metrics` dictionary: its three keys and their highlights. */
  function ComputeMetrics(rs: seq<Record>): Metrics
    requires |rs| > 0
  {
    Metrics(Extreme(rs, "flowrate", Max), Extreme(rs, "flowrate", Min), Extreme(rs, "temperature", Max))
  }

  /** Every numeric value of every record is on cents. */
  predicate AllCents(rs: seq<Record>)
  {
    forall i :: 0 <= i < |rs| ==> Cents(rs[i].flowrate) && Cents(rs[i].pressure) && Cents(rs[i].temperature)
  }

  /** An average of rounded values lies between the column's extremes: the
      rounded mean flowrate between the min and max flowrate highlights, the
      rounded mean temperature at most the max temperature highlight. */
  lemma AveragesWithinHighlights(rs: seq<Record>)
    requires |rs| > 0 && AllCents(rs)
    ensures var totals := ComputeTotals(rs);
            var m := ComputeMetrics(rs);
            m.minFlowrate.value <= totals.avgFlowrate <= m.maxFlowrate.value
            && totals.avgTemperature <= m.maxTemperature.value
  {
    var fl := Values(rs, "flowrate");
    var te := Values(rs, "temperature");
    MeanBetween(fl);
    MeanBetween(te);
    var lo := fl[IdxMin(fl)];
    var hi := fl[IdxMax(fl)];
    var top := te[IdxMax(te)];
    Round2Monotone(lo, Mean(fl));
    Round2Monotone(Mean(fl), hi);
    Round2Monotone(Mean(te), top);
    Round2OfCents(lo);
    Round2OfCents(hi);
    Round2OfCents(top);
    ExtremeBounds(rs, "flowrate", Max);
    ExtremeBounds(rs, "flowrate", Min);
    ExtremeBounds(rs, "temperature", Max);
    var m := ComputeMetrics(rs);
    assert m.maxFlowrate.value == hi by {
      var i :| 0 <= i < |rs| && IsFirstExtreme(fl, Max, i) && m.maxFlowrate == RowHighlight(rs, "flowrate", i);
      FirstExtremeUnique(fl, i, IdxMax(fl));
    }
    assert m.minFlowrate.value == lo by {
      var i :| 0 <= i < |rs| && IsFirstExtreme(fl, Min, i) && m.minFlowrate == RowHighlight(rs, "flowrate", i);
      FirstExtremeUnique(fl, i, IdxMin(fl));
    }
    assert m.maxTemperature.value == top by {
      var i :| 0 <= i < |rs| && IsFirstExtreme(te, Max, i) && m.maxTemperature == RowHighlight(rs, "temperature", i);
      FirstExtremeUnique(te, i, IdxMax(te));
    }
  }

  // ------------------------------------------------------------------
  // create_dataset_from_file
  // ------------------------------------------------------------------

  /** The name used when the file object has no `name` attribute. */
  const DefaultFilename: string := "uploaded.csv"

  /** `Path(getattr(file_obj, "name", "uploaded.csv")).name`. */
  function SafeFilename(name: Option<string>): (r: string)
    ensures '/' !in r && r != "."
    ensures name.None? ==> r == DefaultFilename
    ensures name.Some? ==> r == BaseName(name.value)
  {
    DefaultFilenameIsBase();
    BaseName(name.GetOr(DefaultFilename))
  }

  lemma DefaultFilenameIsBase()
    ensures BaseName(DefaultFilename) == DefaultFilename
  {
    assert '/' !in DefaultFilename by {
      forall i | 0 <= i < |DefaultFilename| ensures DefaultFilename[i] != '/' {
      }
    }
  }

  /** `name or Path(safe_filename).stem.replace("_", " ").title()`. */
  function DisplayName(name: Option<string>, safe: string): string
  {
    if name.Some? && name.value != "" then name.value
    else Title(ReplaceChar(Stem(safe), '_', ' '))
  }

  /** A non-empty supplied name is used as it is; otherwise the name is the
      file's stem with underscores as spaces, equal to it up to letter case,
      each word capitalised. */
  lemma DisplayNameRule(name: Option<string>, safe: string)
    ensures name.Some? && name.value != "" ==> DisplayName(name, safe) == name.value
    ensures !(name.Some? && name.value != "") ==>
              var stem := ReplaceChar(Stem(safe), '_', ' ');
              var r := DisplayName(name, safe);
              |r| == |stem| && '_' !in r && Lower(r) == Lower(stem)
              && (forall i :: (0 <= i < |r| && IsCased(stem[i]) && (i == 0 || !IsCased(stem[i - 1])))
                                ==> r[i] == ToUpper(stem[i]))
              && (forall i :: (0 < i < |r| && IsCased(stem[i]) && IsCased(stem[i - 1]))
                                ==> r[i] == ToLower(stem[i]))
              && (forall i :: (0 <= i < |r| && !IsCased(stem[i])) ==> r[i] == stem[i])
  {
    if !(name.Some? && name.value != "") {
      var stem := ReplaceChar(Stem(safe), '_', ' ');
      var r := Title(stem);
      forall i | 0 <= i < |r| ensures r[i] != '_' && ToLower(r[i]) == ToLower(stem[i]) {
        TitleAt(stem, i);
      }
      forall i | 0 <= i < |r| && IsCased(stem[i]) && (i == 0 || !IsCased(stem[i - 1]))
        ensures r[i] == ToUpper(stem[i])
      {
        TitleAt(stem, i);
      }
      forall i | 0 < i < |r| && IsCased(stem[i]) && IsCased(stem[i - 1])
        ensures r[i] == ToLower(stem[i])
      {
        TitleAt(stem, i);
      }
      forall i | 0 <= i < |r| && !IsCased(stem[i]) ensures r[i] == stem[i] {
        TitleAt(stem, i);
      }
    }
  }

  lemma StemExample()
    ensures Stem("pump_data.csv") == "pump_data"
  {
    var n := "pump_data.csv";
    assert n[..|n| - 1] == "pump_data.cs" && n[..|n| - 2] == "pump_data.c" && n[..|n| - 3] == "pump_data.";
    assert LastIndexOf("pump_data.", '.') == Some(9);
    assert LastIndexOf(n, '.') == Some(9);
  }

  lemma ReplaceExample()
    ensures ReplaceChar("pump_data", '_', ' ') == "pump data"
  {
    var r := ReplaceChar("pump_data", '_', ' ');
    forall i | 0 <= i < 9 ensures r[i] == "pump data"[i] {
    }
  }

  lemma TitleExample()
    ensures Title("pump data") == "Pump Data"
  {
    TitleExampleMiddle();
  }

  lemma TitleExampleMiddle()
    ensures TitleFrom("mp data", true) == "mp Data"
  {
    TitleExampleTail();
  }

  lemma TitleExampleTail()
    ensures TitleFrom(" data", true) == " Data"
  {
    assert TitleFrom("ata", true) == "ata";
  }

  /** A file `pump_data.csv` uploaded without a name is shown as `Pump Data`;
      a supplied name is kept. */
  lemma DisplayNameExamples()
    ensures DisplayName(None, SafeFilename(Some("pump_data.csv"))) == "Pump Data"
    ensures DisplayName(Some("Test Dataset"), SafeFilename(Some("test.csv"))) == "Test Dataset"
  {
    assert SafeFilename(Some("pump_data.csv")) == "pump_data.csv";
    StemExample();
    ReplaceExample();
    TitleExample();
  }

  /** The dataset row `create_dataset_from_file` persists for loaded records. */
  function BuildDataset(file: FileObj, name: Option<string>, rs: seq<Record>, id: nat,
                        uploadedAt: int, stamp: DateTime): Dataset
    requires |rs| > 0
  {
    var totals := ComputeTotals(rs);
    var safe := SafeFilename(file.name);
    Dataset(id, DisplayName(name, safe), safe, StoredFile(DatasetUploadPath(stamp, safe), file.content),
            uploadedAt, totals.totalRecords, totals.avgFlowrate, totals.avgPressure, totals.avgTemperature,
            totals.typeDistribution, ComputeMetrics(rs), rs)
  }

  /** What `create_dataset_from_file` produces: the first error, or the new
      row. `readCsv` stands for `pd.read_csv`, `parse` for `pd.to_numeric`
      on one cell, `id` for the fresh UUID, `uploadedAt` for the save
      instant and `stamp` for the instant the upload path is built. */
  function Ingest(file: FileObj, name: Option<string>, readCsv: seq<byte> -> Result<CsvTable, string>,
                  parse: string -> Option<real>, id: nat, uploadedAt: int, stamp: DateTime): Result<Dataset, UploadError>
  {
    if file.content == [] then Failure(EmptyUpload)
    else match readCsv(file.content)
      case Failure(detail) => Failure(Unreadable(detail))
      case Success(t) =>
        match LoadRecords(t, parse)
        case Failure(e) => Failure(e)
        case Success(rs) => Success(BuildDataset(file, name, rs, id, uploadedAt, stamp))
  }

  /** `create_dataset_from_file`: read, load, summarise, create. The table is
      untouched on every error; on success the new row is saved with the
      five-most-recent prune. */
  method CreateDatasetFromFile(store: DatasetStore, file: FileObj, name: Option<string>,
                               readCsv: seq<byte> -> Result<CsvTable, string>, parse: string -> Option<real>,
                               id: nat, uploadedAt: int, stamp: DateTime)
    returns (r: Result<Dataset, UploadError>)
    requires store.Valid() && id !in IdSet(store.rows)
    modifies store
    ensures store.Valid()
    ensures r == Ingest(file, name, readCsv, parse, id, uploadedAt, stamp)
    ensures r.Failure? ==> store.rows == old(store.rows)
    ensures r.Success? ==> store.rows == Retain(old(store.rows) + [r.value]) && |store.rows| <= RetentionLimit
    ensures r.Success? && (forall e :: e in old(store.rows) ==> e.uploadedAt <= uploadedAt) ==> r.value in store.rows
  {
    var rawBytes := file.content;
    if rawBytes == [] {
      return Failure(EmptyUpload);
    }
    var table := readCsv(rawBytes);
    if table.Failure? {
      return Failure(Unreadable(table.error));
    }
    var loaded := LoadDataframe(table.value, parse);
    if loaded.Failure? {
      return Failure(loaded.error);
    }
    var records := loaded.value;
    var totals := ComputeTotals(records);
    var metrics := ComputeMetrics(records);
    var safeFilename := SafeFilename(file.name);
    var displayName := DisplayName(name, safeFilename);
    var storedFile := StoredFile(DatasetUploadPath(stamp, safeFilename), rawBytes);
    var dataset := Dataset(id, displayName, safeFilename, storedFile, uploadedAt, totals.totalRecords,
                           totals.avgFlowrate, totals.avgPressure, totals.avgTemperature,
                           totals.typeDistribution, metrics, records);
    store.Save(dataset);
    return Success(dataset);
  }

  /** Empty bytes are rejected before `read_csv` or `to_numeric` is consulted. */
  lemma EmptyUploadRejected(file: FileObj, name: Option<string>, readCsv: seq<byte> -> Result<CsvTable, string>,
                            parse: string -> Option<real>, id: nat, uploadedAt: int, stamp: DateTime)
    requires file.content == []
    ensures Ingest(file, name, readCsv, parse, id, uploadedAt, stamp) == Failure(EmptyUpload)
    ensures Message(Ingest(file, name, readCsv, parse, id, uploadedAt, stamp).error) == "Uploaded file is empty."
  {
  }

  /** A created dataset: its count matches its records, its file keeps the
      uploaded bytes under `datasets/<stamp>_<file name>`, its distribution
      is keyed in ascending order by the types that occur, and its flowrate
      average lies between its flowrate highlights. */
  lemma CreatedDatasetShape(file: FileObj, name: Option<string>, readCsv: seq<byte> -> Result<CsvTable, string>,
                            parse: string -> Option<real>, id: nat, uploadedAt: int, stamp: DateTime)
    requires Ingest(file, name, readCsv, parse, id, uploadedAt, stamp).Success?
    ensures var d := Ingest(file, name, readCsv, parse, id, uploadedAt, stamp).value;
            d.id == id && d.uploadedAt == uploadedAt
            && d.totalRecords == |d.records| > 0
            && d.sourceFilename == SafeFilename(file.name)
            && d.name == DisplayName(name, d.sourceFilename)
            && d.originalFile == StoredFile(DatasetUploadPath(stamp, d.sourceFilename), file.content)
            && file.content != []
            && StrictlyAscending(Keys(d.typeDistribution))
            && (forall k :: k in Keys(d.typeDistribution) <==> Some(k) in TypesOf(d.records))
            && ((forall i :: 0 <= i < |d.records| ==> d.records[i].equipmentType.Some?)
                ==> Total(d.typeDistribution) == d.totalRecords)
            && d.metrics.minFlowrate.value <= d.avgFlowrate <= d.metrics.maxFlowrate.value
            && d.avgTemperature <= d.metrics.maxTemperature.value
  {
    var t := readCsv(file.content).value;
    var rs := LoadRecords(t, parse).value;
    TypeDistributionCounts(rs);
    forall i | 0 <= i < |rs| ensures Cents(rs[i].flowrate) && Cents(rs[i].pressure) && Cents(rs[i].temperature) {
      LoadedRecordValues(t, parse, i);
    }
    AveragesWithinHighlights(rs);
  }

  /** The one-row table of `Pump-1`. */
  const SampleTable: CsvTable :=
    CsvTable(["Equipment Name", "Type", "Flowrate", "Pressure", "Temperature"],
             [[Some("Pump-1"), Some("Pump"), Some("120"), Some("5.2"), Some("110")]])

  lemma SampleHeaderComplete()
    ensures MissingRequired(SampleTable.header) == []
  {
    AllRequiredPresent(SampleTable.header);
  }

  lemma SampleHeader()
    ensures MissingRequired(SampleTable.header) == []
    ensures IndexOf(SampleTable.header, "Equipment Name") == Some(0)
    ensures IndexOf(SampleTable.header, "Type") == Some(1)
    ensures IndexOf(SampleTable.header, "Flowrate") == Some(2)
    ensures IndexOf(SampleTable.header, "Pressure") == Some(3)
    ensures IndexOf(SampleTable.header, "Temperature") == Some(4)
  {
    SampleHeaderComplete();
    var h := SampleTable.header;
    SourceColumnsDistinct();
    assert h == SourceColumns;
    forall k | 0 <= k < |h| ensures IndexOf(h, h[k]) == Some(k) {
      IndexOfFirst(h, k, h[k]);
    }
  }

  /** No source column is named twice. */
  lemma SourceColumnsDistinct()
    ensures forall i, j :: 0 <= i < j < |SourceColumns| ==> SourceColumns[i] != SourceColumns[j]
  {
    var s := SourceColumns;
    assert |s[0]| == 14 && |s[1]| == 4 && |s[2]| == 8 && |s[3]| == 8 && |s[4]| == 11;
    assert s[2][0] != s[3][0];
  }

  /** The first position holding a column is the one `IndexOf` finds. */
  lemma IndexOfFirst(header: seq<string>, i: nat, column: string)
    requires i < |header| && header[i] == column
    requires forall j :: 0 <= j < i ==> header[j] != column
    ensures IndexOf(header, column) == Some(i)
  {
    assert column in header;
  }

  lemma SampleCells(parse: string -> Option<real>)
    requires parse("120") == Some(120.0) && parse("5.2") == Some(5.2) && parse("110") == Some(110.0)
    ensures CellAt(SampleTable, 0, "Equipment Name") == Some("Pump-1")
    ensures CellAt(SampleTable, 0, "Type") == Some("Pump")
    ensures NumericAt(SampleTable, 0, "Flowrate", parse) == Some(120.0)
    ensures NumericAt(SampleTable, 0, "Pressure", parse) == Some(5.2)
    ensures NumericAt(SampleTable, 0, "Temperature", parse) == Some(110.0)
  {
    SampleHeader();
  }

  lemma SampleRow(parse: string -> Option<real>)
    requires parse("120") == Some(120.0) && parse("5.2") == Some(5.2) && parse("110") == Some(110.0)
    ensures RowNumeric(SampleTable, 0, parse)
    ensures RowRecord(SampleTable, 0, parse) == Record(Some("Pump-1"), Some("Pump"), 120.0, 5.2, 110.0)
  {
    SampleCells(parse);
    Round2OfCents(120.0);
    Round2OfCents(5.2);
    Round2OfCents(110.0);
  }

  lemma SampleTableLoads(parse: string -> Option<real>)
    requires parse("120") == Some(120.0) && parse("5.2") == Some(5.2) && parse("110") == Some(110.0)
    ensures LoadRecords(SampleTable, parse) == Success([Record(Some("Pump-1"), Some("Pump"), 120.0, 5.2, 110.0)])
  {
    SampleHeaderComplete();
    SampleRow(parse);
    LoadOneRow(SampleTable, parse);
  }

  /** A table with all columns and one row that parses loads to that row's record. */
  lemma LoadOneRow(t: CsvTable, parse: string -> Option<real>)
    requires MissingRequired(t.header) == [] && |t.rows| == 1 && RowNumeric(t, 0, parse)
    ensures LoadRecords(t, parse) == Success([RowRecord(t, 0, parse)])
  {
    assert AllNumeric(t, parse) by {
      forall i | 0 <= i < |t.rows| ensures RowNumeric(t, i, parse) {
        assert i == 0;
      }
    }
    assert Records(t, parse) == [RowRecord(t, 0, parse)];
  }

  /** The service example: one `Pump-1` row uploaded as `Test Dataset`
      yields one record, an average flowrate of 120 and a `Pump` count. */
  lemma SampleUpload(file: FileObj, readCsv: seq<byte> -> Result<CsvTable, string>,
                     parse: string -> Option<real>, id: nat, uploadedAt: int, stamp: DateTime)
    requires file.content != [] && readCsv(file.content) == Success(SampleTable)
    requires parse("120") == Some(120.0) && parse("5.2") == Some(5.2) && parse("110") == Some(110.0)
    ensures var r := Ingest(file, Some("Test Dataset"), readCsv, parse, id, uploadedAt, stamp);
            r.Success? && r.value.name == "Test Dataset" && r.value.totalRecords == 1
            && r.value.avgFlowrate == 120.0 && "Pump" in Keys(r.value.typeDistribution)
            && CountOf(r.value.typeDistribution, "Pump") == 1
  {
    SampleTableLoads(parse);
    SampleSummary();
    var rs := [Record(Some("Pump-1"), Some("Pump"), 120.0, 5.2, 110.0)];
    assert Ingest(file, Some("Test Dataset"), readCsv, parse, id, uploadedAt, stamp)
        == Success(BuildDataset(file, Some("Test Dataset"), rs, id, uploadedAt, stamp));
  }

  lemma SampleSummary()
    ensures var rs := [Record(Some("Pump-1"), Some("Pump"), 120.0, 5.2, 110.0)];
            var totals := ComputeTotals(rs);
            totals.totalRecords == 1 && totals.avgFlowrate == 120.0
            && "Pump" in Keys(totals.typeDistribution) && CountOf(totals.typeDistribution, "Pump") == 1
  {
    var rs := [Record(Some("Pump-1"), Some("Pump"), 120.0, 5.2, 110.0)];
    assert Values(rs, "flowrate") == [120.0];
    assert Sum([120.0]) == 120.0;
    Round2OfCents(120.0);
    TypeDistributionCounts(rs);
    assert TypesOf(rs) == [Some("Pump")];
    assert Some("Pump") in TypesOf(rs);
  }
}
