/**
  The data preparation behind the analytics charts (analytics.py:69-105):
  cleaning the churn table, deriving the chart label and the contract
  scale, and the four optional range filters on tenure and monthly
  charges. An error result stands for the exception the surrounding
  handler turns into "Failed to update charts".
 */
module Analytics {
  import opened Wrappers
  import opened Frames
  import opened Numbers
  import opened Labels
  import ChurnPrep

  /** The columns dropped only when present (analytics.py:72-74). */
  const OptionalColumns: seq<string> := ["Partner", "Dependents", "MultipleLines"]

  /** The names of `names` that `f` has, in order. */
  function Present(f: Frame, names: seq<string>): (r: seq<string>)
    ensures forall c :: c in r <==> c in names && c in f.columns
  {
    if |names| == 0 then []
    else (if names[0] in f.columns then [names[0]] else []) + Present(f, names[1..])
  }

  /** The chart label of a churn code, `{0: 'No', 1: 'Yes'}`. */
  function StatusColumn(f: Frame): (r: seq<Value>)
    ensures |r| == |f.rows|
    ensures forall i | 0 <= i < |f.rows| :: r[i] == ChurnStatus(Get(f.rows[i], "Churn"))
  {
    seq(|f.rows|, i requires 0 <= i < |f.rows| => ChurnStatus(Get(f.rows[i], "Churn")))
  }

  /** The contract scale, or a missing value throughout when there is no `Contract` column. */
  function ContractColumn(f: Frame): (r: seq<Value>)
    ensures |r| == |f.rows|
    ensures forall i | 0 <= i < |f.rows| ::
      r[i] == if "Contract" in f.columns then ContractCode(Get(f.rows[i], "Contract")) else Missing
  {
    seq(|f.rows|, i requires 0 <= i < |f.rows| =>
      if "Contract" in f.columns then ContractCode(Get(f.rows[i], "Contract")) else Missing)
  }

  /** analytics.py:69-74: charges made numeric, then the identifier and the optional columns dropped. */
  function DropForCharts(raw: Frame): (r: Result<Frame, FrameError>)
    requires WellFormed(raw) && Homogeneous(raw)
    ensures r.Err? <==> "TotalCharges" !in raw.columns || "customerID" !in raw.columns
    ensures r.Err? ==> r.error == KeyError(if "TotalCharges" !in raw.columns then "TotalCharges" else "customerID")
    ensures r.Ok? ==> WellFormed(r.value) && Homogeneous(r.value) && |r.value.rows| == |raw.rows|
    ensures r.Ok? ==> forall c :: c in r.value.columns <==> c in raw.columns && c !in ChurnPrep.DroppedColumns
    ensures r.Ok? ==> forall i | 0 <= i < |raw.rows| :: r.value.rows[i]["TotalCharges"] == ToNumeric(raw.rows[i]["TotalCharges"])
    ensures r.Ok? ==> forall i, c | 0 <= i < |raw.rows| && c in r.value.rows[i] && c != "TotalCharges" ::
      r.value.rows[i][c] == raw.rows[i][c]
  {
    if "TotalCharges" !in raw.columns then Err(KeyError("TotalCharges"))
    else
      var f1 := ChurnPrep.CoerceTotalCharges(raw);
      var f2 :- Drop(f1, ["customerID"]);
      DropSteps(raw, f2);
      Ok(DropPresent(f2, OptionalColumns))
  }

  /** The coercion, then the required drop, then the optional drops, cell by cell. */
  lemma DropSteps(raw: Frame, f2: Frame)
    requires WellFormed(raw) && Homogeneous(raw) && "TotalCharges" in raw.columns
    requires Drop(ChurnPrep.CoerceTotalCharges(raw), ["customerID"]) == Ok(f2)
    ensures var g := DropPresent(f2, OptionalColumns);
      && WellFormed(g) && Homogeneous(g) && |g.rows| == |raw.rows|
      && (forall c :: c in g.columns <==> c in raw.columns && c !in ChurnPrep.DroppedColumns)
      && (forall i | 0 <= i < |raw.rows| :: g.rows[i]["TotalCharges"] == ToNumeric(raw.rows[i]["TotalCharges"]))
      && (forall i, c | 0 <= i < |raw.rows| && c in g.rows[i] && c != "TotalCharges" :: g.rows[i][c] == raw.rows[i][c])
  {
    var f1 := ChurnPrep.CoerceTotalCharges(raw);
    var g := DropPresent(f2, OptionalColumns);
    ChurnPrep.KeptColumns();
    assert forall c :: c in ChurnPrep.DroppedColumns <==> c == "customerID" || c in OptionalColumns;
    forall i | 0 <= i < |raw.rows|
      ensures g.rows[i]["TotalCharges"] == ToNumeric(raw.rows[i]["TotalCharges"])
    {
      assert "TotalCharges" in g.columns;
      assert g.rows[i]["TotalCharges"] == f2.rows[i]["TotalCharges"] == f1.rows[i]["TotalCharges"];
    }
  }

  /** analytics.py:76-82: the label coded, the chart label and the contract scale added. */
  function LabelForCharts(f: Frame): (r: Result<Frame, FrameError>)
    requires WellFormed(f) && Homogeneous(f)
    ensures r.Err? <==> "Churn" !in f.columns
    ensures r.Err? ==> r.error == KeyError("Churn")
    ensures r.Ok? ==> WellFormed(r.value) && |r.value.rows| == |f.rows|
    ensures r.Ok? ==> forall c :: c in r.value.columns <==> c in f.columns || c == "ChurnStatus" || c == "ContractMapped"
    ensures r.Ok? ==> forall i | 0 <= i < |f.rows| ::
      && Get(r.value.rows[i], "Churn") == ChurnCode(Get(f.rows[i], "Churn"))
      && Get(r.value.rows[i], "ChurnStatus") == ChurnStatus(ChurnCode(Get(f.rows[i], "Churn")))
      && Get(r.value.rows[i], "ContractMapped") == (if "Contract" in f.columns then ContractCode(Get(f.rows[i], "Contract")) else Missing)
    ensures r.Ok? ==> forall i, c | 0 <= i < |f.rows| && c in r.value.rows[i] && c !in {"Churn", "ChurnStatus", "ContractMapped"} ::
      r.value.rows[i][c] == Get(f.rows[i], c)
  {
    if "Churn" !in f.columns then Err(KeyError("Churn"))
    else
      var f4 := ChurnPrep.LabelChurn(f);
      var f5 := WithColumn(f4, "ChurnStatus", StatusColumn(f4));
      var g := WithColumn(f5, "ContractMapped", ContractColumn(f5));
      LabelRows(f, f4, f5, g);
      Ok(g)
  }

  /** The cells of each row after the three steps of `LabelForCharts`. */
  lemma LabelRows(f: Frame, f4: Frame, f5: Frame, g: Frame)
    requires WellFormed(f) && Homogeneous(f) && "Churn" in f.columns
    requires f4 == ChurnPrep.LabelChurn(f)
    requires f5 == WithColumn(f4, "ChurnStatus", StatusColumn(f4))
    requires g == WithColumn(f5, "ContractMapped", ContractColumn(f5))
    ensures forall c :: c in g.columns <==> c in f.columns || c == "ChurnStatus" || c == "ContractMapped"
    ensures forall i | 0 <= i < |f.rows| ::
      && Get(g.rows[i], "Churn") == ChurnCode(Get(f.rows[i], "Churn"))
      && Get(g.rows[i], "ChurnStatus") == ChurnStatus(ChurnCode(Get(f.rows[i], "Churn")))
      && Get(g.rows[i], "ContractMapped") == (if "Contract" in f.columns then ContractCode(Get(f.rows[i], "Contract")) else Missing)
    ensures forall i, c | 0 <= i < |f.rows| && c in g.rows[i] && c !in {"Churn", "ChurnStatus", "ContractMapped"} ::
      g.rows[i][c] == Get(f.rows[i], c)
  {
    assert |"Churn"| == 5 && |"ChurnStatus"| == 11 && |"ContractMapped"| == 14 && |"Contract"| == 8;
    assert "Contract" in f5.columns <==> "Contract" in f.columns;
    forall i | 0 <= i < |f.rows|
      ensures Get(g.rows[i], "Churn") == ChurnCode(Get(f.rows[i], "Churn"))
      ensures Get(g.rows[i], "ChurnStatus") == ChurnStatus(ChurnCode(Get(f.rows[i], "Churn")))
      ensures Get(g.rows[i], "ContractMapped") == (if "Contract" in f.columns then ContractCode(Get(f.rows[i], "Contract")) else Missing)
      ensures forall c | c in g.rows[i] && c !in {"Churn", "ChurnStatus", "ContractMapped"} :: g.rows[i][c] == Get(f.rows[i], c)
    {
      assert g.rows[i] == f5.rows[i]["ContractMapped" := ContractColumn(f5)[i]];
      assert f5.rows[i] == f4.rows[i]["ChurnStatus" := StatusColumn(f4)[i]];
      assert f4.rows[i]["Churn"] == ChurnCode(f.rows[i]["Churn"]);
      assert "Contract" in f.columns ==> f5.rows[i]["Contract"] == f.rows[i]["Contract"];
    }
  }

  /** The cleaning steps of analytics.py:69-82, in their order. */
  function CleanForCharts(raw: Frame): (r: Result<Frame, FrameError>)
    requires WellFormed(raw) && Homogeneous(raw)
    ensures r.Ok? ==> WellFormed(r.value) && |r.value.rows| == |raw.rows|
    ensures r.Ok? ==> forall c :: c in r.value.columns <==>
      (c in raw.columns && c !in ChurnPrep.DroppedColumns) || c == "ChurnStatus" || c == "ContractMapped"
  {
    var f :- DropForCharts(raw);
    LabelForCharts(f)
  }

  /** Dropping only the names that are there never fails. */
  function DropPresent(f: Frame, names: seq<string>): (r: Frame)
    requires WellFormed(f)
    ensures Homogeneous(f) ==> Homogeneous(r)
    ensures WellFormed(r)
    ensures forall c :: c in r.columns <==> c in f.columns && c !in names
    ensures |r.rows| == |f.rows|
    ensures forall i, c | 0 <= i < |f.rows| && c in r.rows[i] :: r.rows[i][c] == f.rows[i][c]
  {
    var d := Drop(f, Present(f, names));
    d.value
  }

  /** Cleaning fails exactly when a column it indexes is missing, with the first such column's KeyError. */
  lemma CleanForChartsErrors(raw: Frame)
    requires WellFormed(raw) && Homogeneous(raw)
    ensures CleanForCharts(raw) == Err(KeyError("TotalCharges")) <==> "TotalCharges" !in raw.columns
    ensures "TotalCharges" in raw.columns && "customerID" !in raw.columns ==> CleanForCharts(raw) == Err(KeyError("customerID"))
    ensures "TotalCharges" in raw.columns && "customerID" in raw.columns && "Churn" !in raw.columns ==>
      CleanForCharts(raw) == Err(KeyError("Churn"))
    ensures CleanForCharts(raw).Ok? <==> "TotalCharges" in raw.columns && "customerID" in raw.columns && "Churn" in raw.columns
  {
    var d := DropForCharts(raw);
    if d.Ok? {
      DroppedForCharts(raw, d.value);
    }
  }

  /** Total charges are made numeric. */
  lemma CleanForChartsCharges(raw: Frame)
    requires WellFormed(raw) && Homogeneous(raw)
    ensures var r := CleanForCharts(raw);
      r.Ok? ==> forall i | 0 <= i < |raw.rows| :: Get(r.value.rows[i], "TotalCharges") == ToNumeric(Get(raw.rows[i], "TotalCharges"))
  {
    ChartNamesDiffer();
    var d := DropForCharts(raw);
    if d.Ok? {
      var f := d.value;
      DroppedForCharts(raw, f);
      var r := LabelForCharts(f);
      if r.Ok? {
        forall i | 0 <= i < |raw.rows|
          ensures Get(r.value.rows[i], "TotalCharges") == ToNumeric(Get(raw.rows[i], "TotalCharges"))
        {
          assert "TotalCharges" in r.value.rows[i];
          assert r.value.rows[i]["TotalCharges"] == Get(f.rows[i], "TotalCharges");
        }
      }
    }
  }

  /** The churn label is coded. */
  lemma CleanForChartsChurn(raw: Frame)
    requires WellFormed(raw) && Homogeneous(raw)
    ensures var r := CleanForCharts(raw);
      r.Ok? ==> forall i | 0 <= i < |raw.rows| :: Get(r.value.rows[i], "Churn") == ChurnCode(Get(raw.rows[i], "Churn"))
  {
    var d := DropForCharts(raw);
    if d.Ok? {
      var f := d.value;
      DroppedForCharts(raw, f);
      var r := LabelForCharts(f);
    }
  }

  /**
    The chart label equals the original label ("Yes" or "No", missing
    otherwise), and the contract scale is filled in only when there is a
    `Contract` column.
   */
  lemma CleanForChartsLabels(raw: Frame)
    requires WellFormed(raw) && Homogeneous(raw)
    ensures var r := CleanForCharts(raw);
      r.Ok? ==> forall i | 0 <= i < |raw.rows| ::
        && Get(r.value.rows[i], "ChurnStatus") == (if Get(raw.rows[i], "Churn") in {Str("Yes"), Str("No")} then Get(raw.rows[i], "Churn") else Missing)
        && Get(r.value.rows[i], "ContractMapped") == (if "Contract" in raw.columns then ContractCode(Get(raw.rows[i], "Contract")) else Missing)
  {
    ChartNamesDiffer();
    var d := DropForCharts(raw);
    if d.Ok? {
      var f := d.value;
      DroppedForCharts(raw, f);
      var r := LabelForCharts(f);
      if r.Ok? {
        forall i | 0 <= i < |raw.rows|
          ensures Get(r.value.rows[i], "ChurnStatus") == (if Get(raw.rows[i], "Churn") in {Str("Yes"), Str("No")} then Get(raw.rows[i], "Churn") else Missing)
        {
          ChurnStatusRoundTrip(Get(raw.rows[i], "Churn"));
        }
      }
    }
  }

  /** Every other cell is the raw one. */
  lemma CleanForChartsKeeps(raw: Frame)
    requires WellFormed(raw) && Homogeneous(raw)
    ensures var r := CleanForCharts(raw);
      r.Ok? ==> forall i, c | 0 <= i < |raw.rows| && c in r.value.rows[i] &&
        c !in {"TotalCharges", "Churn", "ChurnStatus", "ContractMapped"} :: r.value.rows[i][c] == Get(raw.rows[i], c)
  {
    var d := DropForCharts(raw);
    if d.Ok? {
      var f := d.value;
      var r := LabelForCharts(f);
      if r.Ok? {
        forall i, c | 0 <= i < |raw.rows| && c in r.value.rows[i] && c !in {"TotalCharges", "Churn", "ChurnStatus", "ContractMapped"}
          ensures r.value.rows[i][c] == Get(raw.rows[i], c)
        {
          KeptCell(raw, f, r.value, i, c);
        }
      }
    }
  }

  /** One cell of `CleanForChartsKeeps`: through the labelling step, then through the dropping step. */
  lemma KeptCell(raw: Frame, f: Frame, g: Frame, i: int, c: string)
    requires WellFormed(raw) && Homogeneous(raw) && DropForCharts(raw) == Ok(f)
    requires LabelForCharts(f) == Ok(g)
    requires 0 <= i < |raw.rows| && c in g.rows[i]
    requires c !in {"TotalCharges", "Churn", "ChurnStatus", "ContractMapped"}
    ensures g.rows[i][c] == Get(raw.rows[i], c)
  {
    assert g.rows[i][c] == Get(f.rows[i], c);
    assert c in g.columns;
    assert c in f.columns;
    assert c in f.rows[i];
    assert f.rows[i][c] == raw.rows[i][c];
  }

  /** What the dropping step leaves of the columns the later steps read. */
  lemma DroppedForCharts(raw: Frame, f: Frame)
    requires WellFormed(raw) && Homogeneous(raw) && DropForCharts(raw) == Ok(f)
    ensures "TotalCharges" in f.columns
    ensures "Churn" in f.columns <==> "Churn" in raw.columns
    ensures "Contract" in f.columns <==> "Contract" in raw.columns
    ensures forall i | 0 <= i < |raw.rows| ::
      && Get(f.rows[i], "TotalCharges") == ToNumeric(Get(raw.rows[i], "TotalCharges"))
      && Get(f.rows[i], "Churn") == Get(raw.rows[i], "Churn")
      && Get(f.rows[i], "Contract") == Get(raw.rows[i], "Contract")
  {
    ChurnPrep.KeptColumns();
    forall i | 0 <= i < |raw.rows|
      ensures Get(f.rows[i], "TotalCharges") == ToNumeric(Get(raw.rows[i], "TotalCharges"))
      ensures Get(f.rows[i], "Churn") == Get(raw.rows[i], "Churn")
      ensures Get(f.rows[i], "Contract") == Get(raw.rows[i], "Contract")
    {
      assert f.rows[i].Keys == ColumnSet(f) && raw.rows[i].Keys == ColumnSet(raw);
    }
  }

  /** The chart columns have names of different lengths, so no two are equal. */
  lemma ChartNamesDiffer()
    ensures "TotalCharges" != "Churn" && "TotalCharges" != "ChurnStatus" && "TotalCharges" != "ContractMapped"
    ensures "Contract" != "Churn" && "Contract" != "ChurnStatus" && "Contract" != "ContractMapped"
  {
    assert |"TotalCharges"| == 12 && |"Churn"| == 5 && |"ChurnStatus"| == 11;
    assert |"ContractMapped"| == 14 && |"Contract"| == 8;
  }

  /** One inclusive bound on one column. */
  datatype Bound = AtLeast(column: string, limit: real) | AtMost(column: string, limit: real)

  /**
    A row passes a bound when its cell is a number within it; a missing
    cell compares false and the row is dropped.
   */
  predicate Admits(b: Bound, row: Row)
  {
    match Get(row, b.column)
    case Num(x) => if b.AtLeast? then b.limit <= x else x <= b.limit
    case _ => false
  }

  predicate AdmitsAll(bs: seq<Bound>, row: Row)
  {
    forall b | b in bs :: Admits(b, row)
  }

  /** The reference filter: the rows passing every bound, in their original order. */
  function Where(rows: seq<Row>, bs: seq<Bound>): (r: seq<Row>)
    ensures |r| <= |rows|
    ensures forall x | x in r :: x in rows && AdmitsAll(bs, x)
  {
    if |rows| == 0 then []
    else (if AdmitsAll(bs, rows[0]) then [rows[0]] else []) + Where(rows[1..], bs)
  }

  /** `a` is `b` with some elements left out, the rest in order. */
  predicate Subsequence<T(==)>(a: seq<T>, b: seq<T>)
    decreases |b|
  {
    |a| <= |b| && (|a| == 0 || (a[0] == b[0] && Subsequence(a[1..], b[1..])) || Subsequence(a, b[1..]))
  }

  /** Filtering only removes rows and keeps the order of the rest. */
  lemma {:induction false} WhereIsSubsequence(rows: seq<Row>, bs: seq<Bound>)
    ensures Subsequence(Where(rows, bs), rows)
  {
    if |rows| > 0 {
      WhereIsSubsequence(rows[1..], bs);
      var r := Where(rows, bs);
      if AdmitsAll(bs, rows[0]) {
        assert r[0] == rows[0] && r[1..] == Where(rows[1..], bs);
      } else {
        assert r == Where(rows[1..], bs);
      }
    }
  }

  /** Every row passing all bounds is kept as often as it occurs, every other row is gone. */
  lemma {:induction false} WhereCounts(rows: seq<Row>, bs: seq<Bound>, x: Row)
    ensures multiset(Where(rows, bs))[x] == if AdmitsAll(bs, x) then multiset(rows)[x] else 0
  {
    if |rows| > 0 {
      WhereCounts(rows[1..], bs, x);
      assert rows == [rows[0]] + rows[1..];
    }
  }

  /** Applying bounds one after another is filtering by all of them at once. */
  lemma {:induction false} WhereThenWhere(rows: seq<Row>, bs: seq<Bound>, cs: seq<Bound>)
    ensures Where(Where(rows, bs), cs) == Where(rows, bs + cs)
  {
    if |rows| > 0 {
      WhereThenWhere(rows[1..], bs, cs);
      assert AdmitsAll(bs + cs, rows[0]) <==> AdmitsAll(bs, rows[0]) && AdmitsAll(cs, rows[0]);
      var w := Where(rows, bs);
      if AdmitsAll(bs, rows[0]) {
        assert w == [rows[0]] + Where(rows[1..], bs);
        assert w[0] == rows[0] && w[1..] == Where(rows[1..], bs);
      } else {
        assert w == Where(rows[1..], bs);
      }
    }
  }

  /** The result depends on which bounds are given, not on their order. */
  lemma {:induction false} WhereOrderFree(rows: seq<Row>, bs: seq<Bound>, cs: seq<Bound>)
    requires forall b :: b in bs <==> b in cs
    ensures Where(rows, bs) == Where(rows, cs)
  {
    if |rows| > 0 {
      WhereOrderFree(rows[1..], bs, cs);
      assert AdmitsAll(bs, rows[0]) == AdmitsAll(cs, rows[0]);
    }
  }

  /** Some remaining row holds text in column `c`. */
  predicate HasText(rows: seq<Row>, c: string)
  {
    exists i | 0 <= i < |rows| :: Get(rows[i], c).Str?
  }

  /**
    `df = df[df[col] >= limit]` (or `<=`): a missing column raises
    KeyError, a text cell makes the comparison raise TypeError, and
    otherwise the rows within the bound are kept.
   */
  function ApplyBound(f: Frame, b: Bound): (r: Result<Frame, FrameError>)
    ensures b.column !in f.columns ==> r == Err(KeyError(b.column))
    ensures b.column in f.columns && HasText(f.rows, b.column) ==> r == Err(TypeError(b.column))
    ensures r.Ok? <==> b.column in f.columns && !HasText(f.rows, b.column)
    ensures r.Ok? ==> r.value == Frame(f.columns, Where(f.rows, [b]))
  {
    if b.column !in f.columns then Err(KeyError(b.column))
    else if HasText(f.rows, b.column) then Err(TypeError(b.column))
    else Ok(Frame(f.columns, Where(f.rows, [b])))
  }

  /** Each bound must find its column, and no text among the rows that reach it. */
  predicate BoundsApplicable(f: Frame, bs: seq<Bound>)
  {
    forall k | 0 <= k < |bs| :: bs[k].column in f.columns && !HasText(Where(f.rows, bs[..k]), bs[k].column)
  }

  /** The bounds applied one after another, stopping at the first exception. */
  function ApplyBounds(f: Frame, bs: seq<Bound>): (r: Result<Frame, FrameError>)
    ensures r.Ok? <==> BoundsApplicable(f, bs)
    ensures r.Ok? ==> r.value == Frame(f.columns, Where(f.rows, bs))
    ensures r.Err? ==> (r.error.KeyError? || r.error.TypeError?) && exists k | 0 <= k < |bs| :: bs[k].column == r.error.column
    decreases |bs|
  {
    if |bs| == 0 then
      WhereNone(f.rows);
      Ok(f)
    else
      match ApplyBound(f, bs[0])
      case Err(e) =>
        FirstBoundFails(f, bs);
        Err(e)
      case Ok(g) =>
        var r := ApplyBounds(g, bs[1..]);
        FirstBoundHolds(f, bs, g, r);
        r
  }

  /** A first bound that raises makes the whole sequence inapplicable. */
  lemma FirstBoundFails(f: Frame, bs: seq<Bound>)
    requires |bs| > 0 && ApplyBound(f, bs[0]).Err?
    ensures !BoundsApplicable(f, bs)
    ensures ApplyBound(f, bs[0]).error.KeyError? || ApplyBound(f, bs[0]).error.TypeError?
    ensures ApplyBound(f, bs[0]).error.column == bs[0].column
  {
    assert bs[..0] == [];
    WhereNone(f.rows);
  }

  /** After a first bound that holds, the outcome of the remaining bounds is that of all of them. */
  lemma FirstBoundHolds(f: Frame, bs: seq<Bound>, g: Frame, r: Result<Frame, FrameError>)
    requires |bs| > 0 && ApplyBound(f, bs[0]) == Ok(g)
    requires r.Ok? <==> BoundsApplicable(g, bs[1..])
    requires r.Ok? ==> r.value == Frame(g.columns, Where(g.rows, bs[1..]))
    requires r.Err? ==> exists k | 0 <= k < |bs[1..]| :: bs[1..][k].column == r.error.column
    ensures r.Ok? <==> BoundsApplicable(f, bs)
    ensures r.Ok? ==> r.value == Frame(f.columns, Where(f.rows, bs))
    ensures r.Err? ==> exists k | 0 <= k < |bs| :: bs[k].column == r.error.column
  {
    ApplyBoundsStep(f, bs, g);
    WhereThenWhere(f.rows, [bs[0]], bs[1..]);
    assert [bs[0]] + bs[1..] == bs;
    if r.Err? {
      var k :| 0 <= k < |bs[1..]| && bs[1..][k].column == r.error.column;
      assert bs[k + 1] == bs[1..][k];
    }
  }

  lemma {:induction false} WhereNone(rows: seq<Row>)
    ensures Where(rows, []) == rows
  {
    if |rows| > 0 {
      WhereNone(rows[1..]);
      assert rows == [rows[0]] + rows[1..];
    }
  }

  /** After the first bound succeeds, the rest are applicable to its result exactly when all are applicable to the start. */
  lemma ApplyBoundsStep(f: Frame, bs: seq<Bound>, g: Frame)
    requires |bs| > 0 && ApplyBound(f, bs[0]) == Ok(g)
    ensures BoundsApplicable(g, bs[1..]) <==> BoundsApplicable(f, bs)
  {
    WhereShift(f, bs, g);
    if BoundsApplicable(g, bs[1..]) {
      forall k | 1 <= k < |bs|
        ensures bs[k].column in f.columns && !HasText(Where(f.rows, bs[..k]), bs[k].column)
      {
        assert bs[1..][k - 1] == bs[k];
      }
    }
    if BoundsApplicable(f, bs) {
      forall k | 0 <= k < |bs| - 1
        ensures bs[1..][k].column in g.columns && !HasText(Where(g.rows, bs[1..][..k]), bs[1..][k].column)
      {
        assert bs[1..][k] == bs[k + 1];
      }
    }
  }

  /** The rows reaching a later bound are the same whether or not the first bound was applied separately. */
  lemma WhereShift(f: Frame, bs: seq<Bound>, g: Frame)
    requires |bs| > 0 && ApplyBound(f, bs[0]) == Ok(g)
    ensures g.columns == f.columns
    ensures Where(f.rows, bs[..0]) == f.rows
    ensures forall k | 0 <= k < |bs| - 1 :: Where(g.rows, bs[1..][..k]) == Where(f.rows, bs[..k + 1])
  {
    WhereNone(f.rows);
    assert bs[..0] == [];
    forall k | 0 <= k < |bs| - 1
      ensures Where(g.rows, bs[1..][..k]) == Where(f.rows, bs[..k + 1])
    {
      WhereThenWhere(f.rows, [bs[0]], bs[1..][..k]);
      HeadThenPrefix(bs, k);
    }
  }

  lemma HeadThenPrefix<T>(s: seq<T>, k: nat)
    requires k < |s|
    ensures [s[0]] + s[1..][..k] == s[..k + 1]
  {
  }

  /** The four entry fields after `float(...)`; `None` when the entry does not parse. */
  datatype Entries = Entries(minTenure: Option<real>, maxTenure: Option<real>, minCharges: Option<real>, maxCharges: Option<real>)

  /** The bound of one entry field, when it parsed. */
  function OptBound(o: Option<real>, column: string, atLeast: bool): (r: seq<Bound>)
    ensures forall b :: b in r <==> o.Some? && b == (if atLeast then AtLeast(column, o.value) else AtMost(column, o.value))
  {
    if o.None? then [] else if atLeast then [AtLeast(column, o.value)] else [AtMost(column, o.value)]
  }

  /** The bounds of one column's two entry fields, lower bound first. */
  function ColumnBounds(column: string, lo: Option<real>, hi: Option<real>): (r: seq<Bound>)
    ensures forall x :: AtLeast(column, x) in r <==> lo == Some(x)
    ensures forall x :: AtMost(column, x) in r <==> hi == Some(x)
    ensures forall b | b in r :: b.column == column
  {
    OptBound(lo, column, true) + OptBound(hi, column, false)
  }

  /** The bounds whose entries parsed, in the order the filters run. */
  function Parsed(e: Entries): (r: seq<Bound>)
    ensures forall x :: AtLeast("tenure", x) in r <==> e.minTenure == Some(x)
    ensures forall x :: AtMost("tenure", x) in r <==> e.maxTenure == Some(x)
    ensures forall x :: AtLeast("MonthlyCharges", x) in r <==> e.minCharges == Some(x)
    ensures forall x :: AtMost("MonthlyCharges", x) in r <==> e.maxCharges == Some(x)
    ensures forall b | b in r :: b.column in {"tenure", "MonthlyCharges"}
  {
    assert |"tenure"| == 6 && |"MonthlyCharges"| == 14;
    ColumnBounds("tenure", e.minTenure, e.maxTenure) + ColumnBounds("MonthlyCharges", e.minCharges, e.maxCharges)
  }

  /** `value` is a number within the inclusive bounds that were given. */
  predicate InRange(value: Value, lo: Option<real>, hi: Option<real>)
  {
    (lo.Some? || hi.Some?) ==> value.Num? && (lo.Some? ==> lo.value <= value.x) && (hi.Some? ==> value.x <= hi.value)
  }

  /**
    The data `update_charts` plots: the cleaned table restricted to the
    rows within every bound that parsed.
   */
  function ChartData(raw: Frame, e: Entries): (r: Result<Frame, FrameError>)
    requires WellFormed(raw) && Homogeneous(raw)
    ensures r.Ok? ==> |r.value.rows| <= |raw.rows|
    ensures r.Ok? ==> forall row | row in r.value.rows ::
      InRange(Get(row, "tenure"), e.minTenure, e.maxTenure) && InRange(Get(row, "MonthlyCharges"), e.minCharges, e.maxCharges)
    ensures r.Ok? <==> CleanForCharts(raw).Ok? && BoundsApplicable(CleanForCharts(raw).value, Parsed(e))
    ensures CleanForCharts(raw).Err? ==> r == CleanForCharts(raw)
    ensures r.Ok? ==> r.value == Frame(CleanForCharts(raw).value.columns, Where(CleanForCharts(raw).value.rows, Parsed(e)))
  {
    var f :- CleanForCharts(raw);
    var r := ApplyBounds(f, Parsed(e));
    if r.Ok? then
      AdmittedInRange(e, r.value.rows);
      r
    else r
  }

  /** Rows passing every parsed bound lie within the ranges that were entered. */
  lemma AdmittedInRange(e: Entries, rows: seq<Row>)
    requires forall row | row in rows :: AdmitsAll(Parsed(e), row)
    ensures forall row | row in rows ::
      InRange(Get(row, "tenure"), e.minTenure, e.maxTenure) && InRange(Get(row, "MonthlyCharges"), e.minCharges, e.maxCharges)
  {
    forall row | row in rows
      ensures InRange(Get(row, "tenure"), e.minTenure, e.maxTenure)
      ensures InRange(Get(row, "MonthlyCharges"), e.minCharges, e.maxCharges)
    {
      var bs := Parsed(e);
      assert e.minTenure.Some? ==> Admits(AtLeast("tenure", e.minTenure.value), row);
      assert e.maxTenure.Some? ==> Admits(AtMost("tenure", e.maxTenure.value), row);
      assert e.minCharges.Some? ==> Admits(AtLeast("MonthlyCharges", e.minCharges.value), row);
      assert e.maxCharges.Some? ==> Admits(AtMost("MonthlyCharges", e.maxCharges.value), row);
    }
  }

  /** A row passes the parsed bounds exactly when both of its ranged cells lie within the entered limits. */
  lemma ParsedAdmits(e: Entries, row: Row)
    ensures AdmitsAll(Parsed(e), row) <==>
      InRange(Get(row, "tenure"), e.minTenure, e.maxTenure) && InRange(Get(row, "MonthlyCharges"), e.minCharges, e.maxCharges)
  {
    if AdmitsAll(Parsed(e), row) {
      AdmittedInRange(e, [row]);
    }
    if InRange(Get(row, "tenure"), e.minTenure, e.maxTenure) && InRange(Get(row, "MonthlyCharges"), e.minCharges, e.maxCharges) {
      InRangeAdmitted(e, row);
    }
  }

  lemma InRangeAdmitted(e: Entries, row: Row)
    requires InRange(Get(row, "tenure"), e.minTenure, e.maxTenure)
    requires InRange(Get(row, "MonthlyCharges"), e.minCharges, e.maxCharges)
    ensures AdmitsAll(Parsed(e), row)
  {
    var bs := Parsed(e);
    forall b | b in bs
      ensures Admits(b, row)
    {
      assert b.column in {"tenure", "MonthlyCharges"};
      if b.AtLeast? && b.column == "tenure" {
        assert e.minTenure == Some(b.limit);
      } else if b.AtMost? && b.column == "tenure" {
        assert e.maxTenure == Some(b.limit);
      } else if b.AtLeast? {
        assert e.minCharges == Some(b.limit);
      } else {
        assert e.maxCharges == Some(b.limit);
      }
    }
  }

  /**
    The plotted rows are the cleaned rows within every entered range, each
    as often as it occurs in the cleaned table, and no others.
   */
  lemma ChartDataRows(raw: Frame, e: Entries, row: Row)
    requires WellFormed(raw) && Homogeneous(raw) && ChartData(raw, e).Ok?
    ensures multiset(ChartData(raw, e).value.rows)[row] ==
      if InRange(Get(row, "tenure"), e.minTenure, e.maxTenure) && InRange(Get(row, "MonthlyCharges"), e.minCharges, e.maxCharges)
      then multiset(CleanForCharts(raw).value.rows)[row] else 0
  {
    ParsedAdmits(e, row);
    WhereCounts(CleanForCharts(raw).value.rows, Parsed(e), row);
  }
}
