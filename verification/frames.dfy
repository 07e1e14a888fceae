/**
  A pandas DataFrame as a value: an ordered list of distinct column names
  and a sequence of rows, each row mapping every column name to a cell.
 */
module Frames {
  import opened Wrappers

  /** A cell: a text value (pandas `object`), a number, or a missing value (NaN / None). */
  datatype Value = Str(text: string) | Num(x: real) | Missing

  type Row = map<string, Value>

  datatype Frame = Frame(columns: seq<string>, rows: seq<Row>)

  /** What a pandas operation on a frame can raise. */
  datatype FrameError =
    | KeyError(column: string)      // a column that is not there was indexed or dropped
    | TypeError(column: string)     // text was compared with a number
    | DuplicateColumn(column: string)  // a generated column name collides with another one

  predicate Distinct<T(==)>(s: seq<T>)
  {
    forall i, j | 0 <= i < j < |s| :: s[i] != s[j]
  }

  function ColumnSet(f: Frame): set<string>
  {
    set c | c in f.columns
  }

  /** Column names are unique and every row holds exactly the frame's columns. */
  predicate WellFormed(f: Frame)
  {
    && Distinct(f.columns)
    && forall i | 0 <= i < |f.rows| :: f.rows[i].Keys == ColumnSet(f)
  }

  /**
    Every column is either a text column or a numeric one, never both: the
    shape of a frame that `read_csv` infers one dtype per column for.
   */
  predicate Homogeneous(f: Frame)
  {
    forall i, j, c | 0 <= i < |f.rows| && 0 <= j < |f.rows| && c in f.rows[i] && c in f.rows[j] ::
      !(f.rows[i][c].Str? && f.rows[j][c].Num?)
  }

  /** No cell holds text: every column is numeric (or missing). */
  predicate NoText(f: Frame)
  {
    forall i, c | 0 <= i < |f.rows| && c in f.rows[i] :: !f.rows[i][c].Str?
  }

  /** A column of pandas dtype `object`: some cell holds text. */
  predicate IsTextColumn(f: Frame, c: string)
  {
    exists i | 0 <= i < |f.rows| :: c in f.rows[i] && f.rows[i][c].Str?
  }

  /** The cell of column `c` in `row`, `Missing` when the row lacks that column. */
  function Get(row: Row, c: string): Value
  {
    if c in row then row[c] else Missing
  }

  /** `cs` without the names in `drop`, in the original order. */
  function Without(cs: seq<string>, drop: set<string>): (r: seq<string>)
    ensures forall c :: c in r <==> c in cs && c !in drop
    ensures Distinct(cs) ==> Distinct(r)
    ensures |r| <= |cs|
  {
    if |cs| == 0 then []
    else
      var rest := Without(cs[1..], drop);
      if cs[0] in drop then rest
      else
        assert Distinct(cs) ==> cs[0] !in cs[1..];
        [cs[0]] + rest
  }

  /** The first name of `names` that is not a column of `f`, if any. */
  function FirstAbsent(f: Frame, names: seq<string>): (r: Option<string>)
    ensures r.None? <==> forall n | n in names :: n in f.columns
    ensures r.Some? ==> r.value in names && r.value !in f.columns
  {
    if |names| == 0 then None
    else if names[0] !in f.columns then Some(names[0])
    else FirstAbsent(f, names[1..])
  }

  /**
    `df.drop(columns=names)`: raises a KeyError when one of the names is
    not a column; otherwise removes exactly those columns and keeps every
    row and every other cell.
   */
  function Drop(f: Frame, names: seq<string>): (r: Result<Frame, FrameError>)
    requires WellFormed(f)
    ensures r.Err? <==> exists n | n in names :: n !in f.columns
    ensures r.Err? ==> r.error.KeyError? && r.error.column in names && r.error.column !in f.columns
    ensures r.Ok? ==> WellFormed(r.value)
    ensures r.Ok? && Homogeneous(f) ==> Homogeneous(r.value)
    ensures r.Ok? ==> forall c :: c in r.value.columns <==> c in f.columns && c !in names
    ensures r.Ok? ==> |r.value.rows| == |f.rows|
    ensures r.Ok? ==> forall i, c | 0 <= i < |f.rows| && c in r.value.rows[i] :: r.value.rows[i][c] == f.rows[i][c]
  {
    match FirstAbsent(f, names)
    case Some(n) => Err(KeyError(n))
    case None =>
      var gone := set n | n in names;
      var g := Frame(Without(f.columns, gone), seq(|f.rows|, i requires 0 <= i < |f.rows| => f.rows[i] - gone));
      assert ColumnSet(g) == ColumnSet(f) - gone;
      Ok(g)
  }

  /**
    `df[name] = vals`: overwrites the column in place when it exists,
    otherwise appends it as the last column.
   */
  function WithColumn(f: Frame, name: string, vals: seq<Value>): (r: Frame)
    requires WellFormed(f) && |vals| == |f.rows|
    ensures WellFormed(r)
    ensures name in f.columns ==> r.columns == f.columns
    ensures name !in f.columns ==> r.columns == f.columns + [name]
    ensures |r.rows| == |f.rows|
    ensures forall i | 0 <= i < |f.rows| :: r.rows[i] == f.rows[i][name := vals[i]]
  {
    var cols := if name in f.columns then f.columns else f.columns + [name];
    var g := Frame(cols, seq(|f.rows|, i requires 0 <= i < |f.rows| => f.rows[i][name := vals[i]]));
    assert ColumnSet(g) == ColumnSet(f) + {name};
    g
  }

  /** Overwriting one column with cells that hold no text keeps the frame homogeneous. */
  function WithNumericColumn(f: Frame, c: string, vals: seq<Value>): (r: Frame)
    requires WellFormed(f) && Homogeneous(f) && c in f.columns && |vals| == |f.rows|
    requires forall k | 0 <= k < |vals| :: !vals[k].Str?
    ensures WellFormed(r) && Homogeneous(r) && !IsTextColumn(r, c)
    ensures r.columns == f.columns && |r.rows| == |f.rows|
    ensures forall i | 0 <= i < |f.rows| :: r.rows[i][c] == vals[i]
    ensures forall i, d | 0 <= i < |f.rows| && d in f.rows[i] && d != c :: r.rows[i][d] == f.rows[i][d]
  {
    WithColumn(f, c, vals)
  }

  /** The cells of column `c`, top to bottom. */
  function ColumnValues(f: Frame, c: string): (r: seq<Value>)
    ensures |r| == |f.rows|
    ensures forall i | 0 <= i < |f.rows| :: r[i] == Get(f.rows[i], c)
  {
    seq(|f.rows|, i requires 0 <= i < |f.rows| => Get(f.rows[i], c))
  }
}
