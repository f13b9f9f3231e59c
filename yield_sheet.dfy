/**
 * `extract_milk_yield_data_from_excel` (api/v1/views/submission.py): the
 * back end's reading of a submitted sheet into a map from test ID to yield.
 * Reading the workbook is left to pandas: the sheet arrives already read, or
 * as the message of the exception reading it raised.  Each cell carries
 * `str(v)` and the outcome of `float(v)`; yields are opaque values of type `Y`.
 */
module YieldSheet {
  import opened Wrappers
  import opened PyText
  import UploadSchema

  /** A cell of the sheet: empty (NaN, dropped by `dropna`), or a value with `str(v)` and `float(v)`. */
  datatype Cell<Y> = Blank | Value(text: string, asFloat: Result<Y, string>)

  /** The sheet as pandas read it: column names and rows of cells, one per column. */
  datatype Frame<Y> = Frame(columns: seq<string>, rows: seq<seq<Cell<Y>>>)

  /** Every failure is re-raised as a `ValueError` whose message starts with this. */
  const ErrorPrefix: string := "Error processing Excel file: "

  /** The message raised when a required column is absent. */
  const MissingColumnsMessage: string :=
    "Excel file must contain 'TestObjectID' and 'CalculatedMilkYield (kg)' columns."

  /** `df.columns.str.strip()` */
  function StripAll(names: seq<string>): (r: seq<string>)
    ensures |r| == |names| && forall i :: 0 <= i < |names| ==> r[i] == Strip(names[i])
  {
    seq(|names|, i requires 0 <= i < |names| => Strip(names[i]))
  }

  /** The cell of column `c` in a row (blank past its end). */
  function CellAt<Y>(row: seq<Cell<Y>>, c: int): Cell<Y> {
    if 0 <= c < |row| then row[c] else Blank
  }

  /** The row survives `dropna(subset=required_cols)`. */
  predicate Kept<Y>(row: seq<Cell<Y>>, idCol: int, yieldCol: int) {
    CellAt(row, idCol).Value? && CellAt(row, yieldCol).Value?
  }

  /** The key of a kept row: `str(row["TestObjectID"]).strip()`. */
  function KeyOf<Y>(row: seq<Cell<Y>>, idCol: int): string {
    match CellAt(row, idCol)
    case Blank => []
    case Value(text, _) => Strip(text)
  }

  /** A kept row whose yield `float` converts. */
  predicate Converts<Y>(row: seq<Cell<Y>>, idCol: int, yieldCol: int) {
    Kept(row, idCol, yieldCol) && CellAt(row, yieldCol).asFloat.Ok?
  }

  /**
   * The dict comprehension over the first `n` rows: the first kept row whose
   * yield does not convert stops it with that conversion's message;
   * otherwise the keys are exactly those of the kept rows.
   */
  function YieldsUpTo<Y>(rows: seq<seq<Cell<Y>>>, idCol: int, yieldCol: int, n: nat): (r: Result<map<string, Y>, string>)
    requires n <= |rows|
  {
    if n == 0 then Ok(map[])
    else
      var prev := YieldsUpTo(rows, idCol, yieldCol, n - 1);
      var row := rows[n - 1];
      if prev.Err? || !Kept(row, idCol, yieldCol) then prev
      else
        match CellAt(row, yieldCol).asFloat
        case Err(e) => Err(e)
        case Ok(v) => Ok(prev.value[KeyOf(row, idCol) := v])
  }

  /** The comprehension succeeds exactly when the yield of every kept row converts. */
  lemma {:induction false} YieldsOk<Y>(rows: seq<seq<Cell<Y>>>, idCol: int, yieldCol: int, n: nat)
    requires n <= |rows|
    ensures YieldsUpTo(rows, idCol, yieldCol, n).Ok? <==>
              forall i :: 0 <= i < n && Kept(rows[i], idCol, yieldCol) ==> Converts(rows[i], idCol, yieldCol)
  {
    if n > 0 {
      YieldsOk(rows, idCol, yieldCol, n - 1);
    }
  }

  /** On success the keys are exactly the stripped IDs of the kept rows. */
  lemma {:induction false} YieldKeys<Y>(rows: seq<seq<Cell<Y>>>, idCol: int, yieldCol: int, n: nat)
    requires n <= |rows| && YieldsUpTo(rows, idCol, yieldCol, n).Ok?
    ensures forall k :: k in YieldsUpTo(rows, idCol, yieldCol, n).value <==>
              exists i :: 0 <= i < n && Kept(rows[i], idCol, yieldCol) && KeyOf(rows[i], idCol) == k
  {
    if n > 0 {
      YieldKeys(rows, idCol, yieldCol, n - 1);
      var m := YieldsUpTo(rows, idCol, yieldCol, n).value;
      var m' := YieldsUpTo(rows, idCol, yieldCol, n - 1).value;
      var row := rows[n - 1];
      forall k
        ensures k in m <==> exists i :: 0 <= i < n && Kept(rows[i], idCol, yieldCol) && KeyOf(rows[i], idCol) == k
      {
        if Kept(row, idCol, yieldCol) && KeyOf(row, idCol) == k {
          assert k in m;
        } else if k in m {
          assert k in m';
        }
      }
    }
  }

  /** A failure is the conversion message of the first kept row whose yield does not convert. */
  lemma {:induction false} FirstFailure<Y>(rows: seq<seq<Cell<Y>>>, idCol: int, yieldCol: int, n: nat)
    requires n <= |rows| && YieldsUpTo(rows, idCol, yieldCol, n).Err?
    ensures exists i :: 0 <= i < n && Kept(rows[i], idCol, yieldCol)
              && CellAt(rows[i], yieldCol).asFloat == Err(YieldsUpTo(rows, idCol, yieldCol, n).error)
              && forall j :: 0 <= j < i && Kept(rows[j], idCol, yieldCol) ==> Converts(rows[j], idCol, yieldCol)
  {
    var prev := YieldsUpTo(rows, idCol, yieldCol, n - 1);
    if prev.Err? {
      FirstFailure(rows, idCol, yieldCol, n - 1);
    } else {
      YieldsOk(rows, idCol, yieldCol, n - 1);
      assert Kept(rows[n - 1], idCol, yieldCol);
    }
  }

  /**
   * `extract_milk_yield_data_from_excel`: the yields by stripped test ID, or
   * the prefixed message of the first failure.
   */
  function ExtractYields<Y>(sheet: Result<Frame<Y>, string>): (r: Result<map<string, Y>, string>)
    ensures r.Err? ==> ErrorPrefix <= r.error
    ensures sheet.Err? ==> r == Err(ErrorPrefix + sheet.error)
  {
    match sheet
    case Err(e) => Err(ErrorPrefix + e)
    case Ok(f) =>
      var names := StripAll(f.columns);
      var idCol := UploadSchema.IndexOf(names, UploadSchema.IdColumn);
      var yieldCol := UploadSchema.IndexOf(names, UploadSchema.YieldColumn);
      if idCol < 0 || yieldCol < 0 then Err(ErrorPrefix + MissingColumnsMessage)
      else
        match YieldsUpTo(f.rows, idCol, yieldCol, |f.rows|)
        case Err(e) => Err(ErrorPrefix + e)
        case Ok(m) => Ok(m)
  }

  /** Both names must appear, exactly, among the stripped column names. */
  lemma MissingColumnRejected<Y>(f: Frame<Y>)
    requires UploadSchema.IdColumn !in StripAll(f.columns) || UploadSchema.YieldColumn !in StripAll(f.columns)
    ensures ExtractYields(Ok(f)) == Err(ErrorPrefix + MissingColumnsMessage)
  {
  }

  /** A column header padded with whitespace still counts as the ID column. */
  lemma PaddedIdColumnFound(columns: seq<string>, j: nat, pre: string, post: string)
    requires j < |columns| && columns[j] == pre + UploadSchema.IdColumn + post
    requires forall c :: c in pre ==> IsPySpace(c)
    requires forall c :: c in post ==> IsPySpace(c)
    ensures UploadSchema.IdColumn in StripAll(columns)
  {
    StripPadded(pre, UploadSchema.IdColumn, post);
    assert StripAll(columns)[j] == UploadSchema.IdColumn;
  }

  /**
   * With both columns present, the sheet is accepted exactly when every kept
   * row's yield converts, and then the keys are the stripped IDs of the kept
   * rows, reading each column at its first occurrence.
   */
  lemma ExtractedKeys<Y>(f: Frame<Y>)
    requires UploadSchema.IdColumn in StripAll(f.columns) && UploadSchema.YieldColumn in StripAll(f.columns)
    ensures var names := StripAll(f.columns);
            var idCol := UploadSchema.IndexOf(names, UploadSchema.IdColumn);
            var yieldCol := UploadSchema.IndexOf(names, UploadSchema.YieldColumn);
            var r := ExtractYields(Ok(f));
            && (r.Ok? <==> forall i :: 0 <= i < |f.rows| && Kept(f.rows[i], idCol, yieldCol) ==> Converts(f.rows[i], idCol, yieldCol))
            && (r.Ok? ==> forall k :: k in r.value <==>
                  exists i :: 0 <= i < |f.rows| && Kept(f.rows[i], idCol, yieldCol) && KeyOf(f.rows[i], idCol) == k)
  {
    var names := StripAll(f.columns);
    var idCol := UploadSchema.IndexOf(names, UploadSchema.IdColumn);
    var yieldCol := UploadSchema.IndexOf(names, UploadSchema.YieldColumn);
    var inner := YieldsUpTo(f.rows, idCol, yieldCol, |f.rows|);
    assert idCol >= 0 && yieldCol >= 0;
    YieldsOk(f.rows, idCol, yieldCol, |f.rows|);
    if inner.Ok? {
      YieldKeys(f.rows, idCol, yieldCol, |f.rows|);
    }
    assert ExtractYields(Ok(f)) == if inner.Err? then Err(ErrorPrefix + inner.error) else Ok(inner.value);
  }

  /** A repeated ID keeps the yield of its last kept row. */
  lemma {:induction false} LaterRowWins<Y>(rows: seq<seq<Cell<Y>>>, idCol: int, yieldCol: int, n: nat, i: nat)
    requires n <= |rows| && i < n
    requires Converts(rows[i], idCol, yieldCol)
    requires YieldsUpTo(rows, idCol, yieldCol, n).Ok?
    requires forall j :: i < j < n && Kept(rows[j], idCol, yieldCol) ==> KeyOf(rows[j], idCol) != KeyOf(rows[i], idCol)
    ensures KeyOf(rows[i], idCol) in YieldsUpTo(rows, idCol, yieldCol, n).value
    ensures YieldsUpTo(rows, idCol, yieldCol, n).value[KeyOf(rows[i], idCol)] == CellAt(rows[i], yieldCol).asFloat.value
  {
    var prev := YieldsUpTo(rows, idCol, yieldCol, n - 1);
    var row := rows[n - 1];
    assert prev.Ok?;
    if i < n - 1 {
      LaterRowWins(rows, idCol, yieldCol, n - 1, i);
      if Kept(row, idCol, yieldCol) {
        assert KeyOf(row, idCol) != KeyOf(rows[i], idCol);
      }
    } else {
      assert Converts(row, idCol, yieldCol);
    }
  }
}
