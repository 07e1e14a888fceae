/**
  The preprocessing of the churn script, churn.py:24-78, from the loaded
  data set to the feature list: coercion of `TotalCharges`, the dropped
  columns, the 0/1 churn label, the categorical encoding, five engineered
  columns and the feature selection. No row is removed: the duplicate
  check at churn.py:25 discards its own result.
 */
module ChurnPrep {
  import opened Wrappers
  import opened Frames
  import opened Numbers
  import opened Labels
  import opened ChurnEncoding
  import opened TextOrder

  /** `a / (t + 1)`; a missing operand gives a missing ratio. */
  function PerTenure(a: Value, t: Value): (r: Value)
    requires !a.Str? && !t.Str?
    ensures a.Num? && t.Num? && t.x >= 0.0 ==> r == Num(a.x / (t.x + 1.0))
    ensures a.Missing? || t.Missing? ==> r.Missing?
    ensures r.Num? ==> a.Num? && t.Num? && t.x != -1.0
  {
    if a.Num? && t.Num? && t.x + 1.0 != 0.0 then Num(a.x / (t.x + 1.0)) else Missing
  }

  /** `(tenure < 12).astype(int)`: a missing tenure compares false. */
  function ShortTenure(t: Value): (r: Value)
    requires !t.Str?
    ensures r == Num(0.0) || r == Num(1.0)
    ensures r == Num(1.0) <==> t.Num? && t.x < 12.0
  {
    if t.Num? && t.x < 12.0 then Num(1.0) else Num(0.0)
  }

  /** `a * b`; a missing operand gives a missing product. */
  function Product(a: Value, b: Value): (r: Value)
    requires !a.Str? && !b.Str?
    ensures r.Num? <==> a.Num? && b.Num?
    ensures r.Num? ==> r.x == a.x * b.x
  {
    if a.Num? && b.Num? then Num(a.x * b.x) else Missing
  }

  /** The product of two 0/1 flags is a 0/1 flag that is 1 exactly when both are. */
  lemma FlagProduct(a: Value, b: Value)
    requires a == Num(0.0) || a == Num(1.0)
    requires b == Num(0.0) || b == Num(1.0)
    ensures Product(a, b) == Num(0.0) || Product(a, b) == Num(1.0)
    ensures Product(a, b) == Num(1.0) <==> a == Num(1.0) && b == Num(1.0)
  {
  }

  const MonthlyPerTenure := "MonthlyCharges_per_tenure"
  const TotalPerTenure := "TotalCharges_per_tenure"
  const ShortTenureColumn := "ShortTenure"
  const EngagementScore := "EngagementScore"
  const BillingSecurity := "BillingSecurity"
  const ElectronicCheck := "PaymentMethod_Electronic check"

  /** The engineered columns, in the order churn.py:62-66 adds them. */
  const Engineered: seq<string> := [MonthlyPerTenure, TotalPerTenure, ShortTenureColumn, EngagementScore, BillingSecurity]

  /** The columns the engineering reads, in the order it reads them. */
  const EngineeringInputs: seq<string> :=
    ["MonthlyCharges", "tenure", "TotalCharges", "Contract", "PaperlessBilling", ElectronicCheck]

  /** A row's five engineered cells, computed from its own cells. */
  function EngineerRow(row: Row): Row
    requires forall c | c in row :: !row[c].Str?
  {
    var mc := Get(row, "MonthlyCharges");
    var t := Get(row, "tenure");
    row[MonthlyPerTenure := PerTenure(mc, t)]
       [TotalPerTenure := PerTenure(Get(row, "TotalCharges"), t)]
       [ShortTenureColumn := ShortTenure(t)]
       [EngagementScore := Product(mc, Get(row, "Contract"))]
       [BillingSecurity := Product(Get(row, "PaperlessBilling"), Get(row, ElectronicCheck))]
  }

  /** `cs` followed by those of `names` it lacks, as successive `df[name] = ...` leave it. */
  function AddColumns(cs: seq<string>, names: seq<string>): (r: seq<string>)
    ensures forall c :: c in r <==> c in cs || c in names
    ensures |r| >= |cs| && r[..|cs|] == cs
    ensures Distinct(cs) ==> Distinct(r)
    decreases |names|
  {
    if |names| == 0 then cs
    else
      var next := if names[0] in cs then cs else cs + [names[0]];
      var r := AddColumns(next, names[1..]);
      assert r[..|cs|] == next[..|cs|];
      r
  }

  /**
    churn.py:62-66. Reading a column that is not there raises a KeyError;
    otherwise the five columns are written (appended when new) and every
    other cell is kept.
   */
  function Engineer(f: Frame): (r: Result<Frame, FrameError>)
    requires WellFormed(f) && NoText(f)
    ensures r.Err? <==> exists c | c in EngineeringInputs :: c !in f.columns
    ensures r.Err? ==> r.error.KeyError? && r.error.column in EngineeringInputs && r.error.column !in f.columns
    ensures r.Ok? ==> WellFormed(r.value) && NoText(r.value) && |r.value.rows| == |f.rows|
    ensures r.Ok? ==> |r.value.columns| >= |f.columns| && r.value.columns[..|f.columns|] == f.columns
    ensures r.Ok? ==> forall c | c in Engineered :: c in r.value.columns
    ensures r.Ok? ==> forall i | 0 <= i < |f.rows| :: r.value.rows[i] == EngineerRow(f.rows[i])
  {
    match FirstAbsent(f, EngineeringInputs)
    case Some(c) => Err(KeyError(c))
    case None =>
      var g := Frame(AddColumns(f.columns, Engineered),
                     seq(|f.rows|, i requires 0 <= i < |f.rows| => EngineerRow(f.rows[i])));
      EngineeredFrame(f, g);
      Ok(g)
  }

  lemma EngineerRowSpec(row: Row)
    requires forall c | c in row :: !row[c].Str?
    ensures EngineerRow(row).Keys == row.Keys + set c | c in Engineered
    ensures forall c | c in EngineerRow(row) :: !EngineerRow(row)[c].Str?
    ensures forall c | c in row && c !in Engineered :: EngineerRow(row)[c] == row[c]
  {
  }

  /** The five engineered names are all different (their lengths or first letters differ). */
  lemma EngineeredNamesDiffer()
    ensures Distinct(Engineered)
  {
    assert |MonthlyPerTenure| == 25 && |TotalPerTenure| == 23 && |ShortTenureColumn| == 11;
    assert |EngagementScore| == 15 && |BillingSecurity| == 15 && EngagementScore[0] != BillingSecurity[0];
  }

  /** Each engineered cell holds the value its own formula gives; later writes do not disturb earlier ones. */
  lemma EngineerRowValues(row: Row)
    requires forall c | c in row :: !row[c].Str?
    ensures var e, t, mc := EngineerRow(row), Get(row, "tenure"), Get(row, "MonthlyCharges");
      && Get(e, MonthlyPerTenure) == PerTenure(mc, t)
      && Get(e, TotalPerTenure) == PerTenure(Get(row, "TotalCharges"), t)
      && Get(e, ShortTenureColumn) == ShortTenure(t)
      && Get(e, EngagementScore) == Product(mc, Get(row, "Contract"))
      && Get(e, BillingSecurity) == Product(Get(row, "PaperlessBilling"), Get(row, ElectronicCheck))
  {
    EngineeredNamesDiffer();
    assert Engineered[0] == MonthlyPerTenure && Engineered[1] == TotalPerTenure;
    assert Engineered[2] == ShortTenureColumn && Engineered[3] == EngagementScore && Engineered[4] == BillingSecurity;
  }

  /** Each engineered cell of a row, in terms of that row's own input cells. */
  lemma EngineerRowCells(row: Row)
    requires forall c | c in row :: !row[c].Str?
    ensures var e, t, mc := EngineerRow(row), Get(row, "tenure"), Get(row, "MonthlyCharges");
      mc.Num? && t.Num? && t.x >= 0.0 ==> Get(e, MonthlyPerTenure) == Num(mc.x / (t.x + 1.0))
    ensures var e, t, tc := EngineerRow(row), Get(row, "tenure"), Get(row, "TotalCharges");
      tc.Num? && t.Num? && t.x >= 0.0 ==> Get(e, TotalPerTenure) == Num(tc.x / (t.x + 1.0))
    ensures var e, t := EngineerRow(row), Get(row, "tenure");
      && (Get(e, ShortTenureColumn) == Num(0.0) || Get(e, ShortTenureColumn) == Num(1.0))
      && (Get(e, ShortTenureColumn) == Num(1.0) <==> t.Num? && t.x < 12.0)
    ensures var e, mc, k := EngineerRow(row), Get(row, "MonthlyCharges"), Get(row, "Contract");
      && (Get(e, EngagementScore).Num? <==> mc.Num? && k.Num?)
      && (Get(e, EngagementScore).Num? ==> Get(e, EngagementScore).x == mc.x * k.x)
    ensures var e, a, b := EngineerRow(row), Get(row, "PaperlessBilling"), Get(row, ElectronicCheck);
      (a == Num(0.0) || a == Num(1.0)) && (b == Num(0.0) || b == Num(1.0)) ==>
        && (Get(e, BillingSecurity) == Num(0.0) || Get(e, BillingSecurity) == Num(1.0))
        && (Get(e, BillingSecurity) == Num(1.0) <==> a == Num(1.0) && b == Num(1.0))
  {
    EngineerRowValues(row);
    var a, b := Get(row, "PaperlessBilling"), Get(row, ElectronicCheck);
    if (a == Num(0.0) || a == Num(1.0)) && (b == Num(0.0) || b == Num(1.0)) {
      FlagProduct(a, b);
    }
  }

  /**
    churn.py:62-66 on every row of a frame: the two per-month ratios for a
    non-negative tenure, the 0/1 short-tenure flag, the engagement score
    as charges times contract code, and the billing flag that is 1 exactly
    when both of its 0/1 inputs are.
   */
  lemma EngineeredCells(f: Frame)
    requires WellFormed(f) && NoText(f) && Engineer(f).Ok?
    ensures var g := Engineer(f).value; forall i | 0 <= i < |f.rows| ::
      var t, mc := Get(f.rows[i], "tenure"), Get(f.rows[i], "MonthlyCharges");
      mc.Num? && t.Num? && t.x >= 0.0 ==> Get(g.rows[i], MonthlyPerTenure) == Num(mc.x / (t.x + 1.0))
    ensures var g := Engineer(f).value; forall i | 0 <= i < |f.rows| ::
      var t, tc := Get(f.rows[i], "tenure"), Get(f.rows[i], "TotalCharges");
      tc.Num? && t.Num? && t.x >= 0.0 ==> Get(g.rows[i], TotalPerTenure) == Num(tc.x / (t.x + 1.0))
    ensures var g := Engineer(f).value; forall i | 0 <= i < |f.rows| ::
      var t := Get(f.rows[i], "tenure");
      && (Get(g.rows[i], ShortTenureColumn) == Num(0.0) || Get(g.rows[i], ShortTenureColumn) == Num(1.0))
      && (Get(g.rows[i], ShortTenureColumn) == Num(1.0) <==> t.Num? && t.x < 12.0)
    ensures var g := Engineer(f).value; forall i | 0 <= i < |f.rows| ::
      var mc, k := Get(f.rows[i], "MonthlyCharges"), Get(f.rows[i], "Contract");
      && (Get(g.rows[i], EngagementScore).Num? <==> mc.Num? && k.Num?)
      && (Get(g.rows[i], EngagementScore).Num? ==> Get(g.rows[i], EngagementScore).x == mc.x * k.x)
    ensures var g := Engineer(f).value; forall i | 0 <= i < |f.rows| ::
      var a, b := Get(f.rows[i], "PaperlessBilling"), Get(f.rows[i], ElectronicCheck);
      (a == Num(0.0) || a == Num(1.0)) && (b == Num(0.0) || b == Num(1.0)) ==>
        && (Get(g.rows[i], BillingSecurity) == Num(0.0) || Get(g.rows[i], BillingSecurity) == Num(1.0))
        && (Get(g.rows[i], BillingSecurity) == Num(1.0) <==> a == Num(1.0) && b == Num(1.0))
  {
    var g := Engineer(f).value;
    forall i | 0 <= i < |f.rows|
      ensures g.rows[i] == EngineerRow(f.rows[i])
    {
    }
    forall i | 0 <= i < |f.rows|
      ensures forall c | c in f.rows[i] :: !f.rows[i][c].Str?
    {
    }
    forall i | 0 <= i < |f.rows| {
      EngineerRowCells(f.rows[i]);
    }
  }

  lemma EngineeredFrame(f: Frame, g: Frame)
    requires WellFormed(f) && NoText(f)
    requires g.columns == AddColumns(f.columns, Engineered)
    requires |g.rows| == |f.rows| && forall i | 0 <= i < |f.rows| :: g.rows[i] == EngineerRow(f.rows[i])
    ensures WellFormed(g) && NoText(g)
  {
    assert ColumnSet(g) == ColumnSet(f) + set c | c in Engineered;
    forall i | 0 <= i < |f.rows|
      ensures g.rows[i].Keys == ColumnSet(g)
      ensures forall c | c in g.rows[i] :: !g.rows[i][c].Str?
    {
      EngineerRowSpec(f.rows[i]);
    }
  }

  /**
    churn.py:71-75: the correlation matrix is indexed by every column, the
    0.15 threshold is never applied, and only `Churn` is removed.
   */
  function SelectFeatures(f: Frame): (r: seq<string>)
    requires "Churn" in f.columns && Distinct(f.columns)
    ensures forall c :: c in r <==> c in f.columns && c != "Churn"
    ensures |r| == |f.columns| - 1
    ensures exists k | 0 <= k < |f.columns| :: r == f.columns[..k] + f.columns[k + 1..]
  {
    var k := IndexOf(f.columns, "Churn");
    assert f.columns == f.columns[..k] + [f.columns[k]] + f.columns[k + 1..];
    f.columns[..k] + f.columns[k + 1..]
  }

  /** The prepared data set: the encoded frame and the selected feature columns. */
  datatype Prepared = Prepared(data: Frame, features: seq<string>)

  /** The columns churn.py:28 drops; every one of them must exist. */
  const DroppedColumns: seq<string> := ["customerID", "Partner", "Dependents", "MultipleLines"]

  /** The columns the later steps read are not dropped, and differ from `TotalCharges` (their lengths differ). */
  lemma KeptColumns()
    ensures "TotalCharges" !in DroppedColumns && "Churn" !in DroppedColumns && "Contract" !in DroppedColumns
    ensures "Churn" != "TotalCharges" && "Contract" != "TotalCharges"
  {
    assert |DroppedColumns[0]| == 10 && |DroppedColumns[1]| == 7;
    assert |DroppedColumns[2]| == 10 && |DroppedColumns[3]| == 13;
    assert |"TotalCharges"| == 12 && |"Churn"| == 5 && |"Contract"| == 8;
  }

  /** churn.py:27, `pd.to_numeric(df['TotalCharges'], errors='coerce')`. */
  function CoerceTotalCharges(f: Frame): (r: Frame)
    requires WellFormed(f) && Homogeneous(f) && "TotalCharges" in f.columns
    ensures WellFormed(r) && Homogeneous(r) && r.columns == f.columns && |r.rows| == |f.rows|
    ensures forall i | 0 <= i < |f.rows| :: r.rows[i]["TotalCharges"] == ToNumeric(f.rows[i]["TotalCharges"])
    ensures forall i, c | 0 <= i < |f.rows| && c in f.rows[i] && c != "TotalCharges" :: r.rows[i][c] == f.rows[i][c]
  {
    WithNumericColumn(f, "TotalCharges",
      seq(|f.rows|, i requires 0 <= i < |f.rows| => ToNumeric(Get(f.rows[i], "TotalCharges"))))
  }

  /** churn.py:31, `df['Churn'].map({'No': 0, 'Yes': 1})`. */
  function LabelChurn(f: Frame): (r: Frame)
    requires WellFormed(f) && Homogeneous(f) && "Churn" in f.columns
    ensures WellFormed(r) && Homogeneous(r) && r.columns == f.columns && |r.rows| == |f.rows|
    ensures !IsTextColumn(r, "Churn")
    ensures forall i | 0 <= i < |f.rows| :: r.rows[i]["Churn"] == ChurnCode(f.rows[i]["Churn"])
    ensures forall i, c | 0 <= i < |f.rows| && c in f.rows[i] && c != "Churn" :: r.rows[i][c] == f.rows[i][c]
  {
    WithNumericColumn(f, "Churn",
      seq(|f.rows|, i requires 0 <= i < |f.rows| => ChurnCode(Get(f.rows[i], "Churn"))))
  }

  /**
    churn.py:27-31: coerce `TotalCharges`, drop the four columns, code the
    churn label. Each step raises a KeyError when its column is absent.
   */
  function Clean(raw: Frame): (r: Result<Frame, FrameError>)
    requires WellFormed(raw) && Homogeneous(raw)
    ensures r == Err(KeyError("TotalCharges")) <==> "TotalCharges" !in raw.columns
    ensures "TotalCharges" in raw.columns && (exists c | c in DroppedColumns :: c !in raw.columns) ==>
      r.Err? && r.error.KeyError? && r.error.column in DroppedColumns
    ensures r.Err? ==> r.error.KeyError?
    ensures r.Ok? ==> WellFormed(r.value) && Homogeneous(r.value) && |r.value.rows| == |raw.rows|
    ensures r.Ok? ==> "Churn" in raw.columns && "Churn" in r.value.columns && !IsTextColumn(r.value, "Churn")
    ensures r.Ok? ==> forall i | 0 <= i < |raw.rows| :: r.value.rows[i]["Churn"] == ChurnCode(raw.rows[i]["Churn"])
    ensures r.Ok? <==> ("TotalCharges" in raw.columns && "Churn" in raw.columns &&
                        forall c | c in DroppedColumns :: c in raw.columns)
  {
    if "TotalCharges" !in raw.columns then Err(KeyError("TotalCharges"))
    else
      KeptColumns();
      CleanPresent(raw)
  }

  /** Cleaning once `TotalCharges` is known to be there: a KeyError names a dropped column or `Churn`. */
  function CleanPresent(raw: Frame): (r: Result<Frame, FrameError>)
    requires WellFormed(raw) && Homogeneous(raw) && "TotalCharges" in raw.columns
    ensures r.Ok? <==> ("Churn" in raw.columns && forall c | c in DroppedColumns :: c in raw.columns)
    ensures r.Err? ==> r.error.KeyError? && (r.error.column in DroppedColumns || r.error.column == "Churn")
    ensures (exists c | c in DroppedColumns :: c !in raw.columns) ==> r.Err? && r.error.column in DroppedColumns
    ensures r.Ok? ==> WellFormed(r.value) && Homogeneous(r.value) && |r.value.rows| == |raw.rows|
    ensures r.Ok? ==> "Churn" in r.value.columns && !IsTextColumn(r.value, "Churn")
    ensures r.Ok? ==> forall i | 0 <= i < |raw.rows| :: r.value.rows[i]["Churn"] == ChurnCode(raw.rows[i]["Churn"])
  {
    KeptColumns();
    var f1 := CoerceTotalCharges(raw);
    var d := Drop(f1, DroppedColumns);
    if d.Err? then Err(d.error)
    else if "Churn" !in d.value.columns then Err(KeyError("Churn"))
    else
      var f2 := d.value;
      var f3 := LabelChurn(f2);
      assert forall i | 0 <= i < |raw.rows| :: f2.rows[i]["Churn"] == f1.rows[i]["Churn"];
      Ok(f3)
  }

  /**
    Cleaning removes exactly the four dropped columns, coerces
    `TotalCharges` cell by cell and keeps every cell of the columns it
    neither drops nor labels.
   */
  lemma CleanCells(raw: Frame)
    requires WellFormed(raw) && Homogeneous(raw) && Clean(raw).Ok?
    ensures forall c :: c in Clean(raw).value.columns <==> c in raw.columns && c !in DroppedColumns
    ensures var g := Clean(raw).value; forall i | 0 <= i < |raw.rows| ::
      Get(g.rows[i], "TotalCharges") == ToNumeric(Get(raw.rows[i], "TotalCharges"))
    ensures var g := Clean(raw).value; forall i, c | 0 <= i < |raw.rows| && c in raw.rows[i] && c !in DroppedColumns &&
      c != "TotalCharges" && c != "Churn" :: Get(g.rows[i], c) == raw.rows[i][c]
  {
    KeptColumns();
    var f1 := CoerceTotalCharges(raw);
    var f2 := Drop(f1, DroppedColumns).value;
    var f3 := LabelChurn(f2);
    assert CleanPresent(raw).value == f3;
  }

  /** The whole of churn.py:24-78 on a loaded data set. */
  function Prepare(raw: Frame): (r: Result<Prepared, FrameError>)
    requires WellFormed(raw) && Homogeneous(raw)
    ensures r.Ok? ==> WellFormed(r.value.data) && |r.value.data.rows| == |raw.rows| && "Churn" in r.value.data.columns
  {
    var f3 :- Clean(raw);
    EncodeShape(f3);
    var f4 :- Encode(f3);
    var f5 :- Engineer(f4);
    Ok(Prepared(f5, SelectFeatures(f5)))
  }

  /**
    Preprocessing keeps every row (nothing is de-duplicated), leaves no
    text for the correlation step, selects every column but `Churn`, and
    gives `Churn` the 0/1 code of the row's original label. The only
    failures are a missing column and a clash of generated names.
   */
  lemma PrepareSpec(raw: Frame)
    requires WellFormed(raw) && Homogeneous(raw)
    ensures var r := Prepare(raw);
      r.Ok? ==> |r.value.data.rows| == |raw.rows| && WellFormed(r.value.data) && NoText(r.value.data)
    ensures var r := Prepare(raw);
      r.Ok? ==> ("Churn" in r.value.data.columns &&
        forall i | 0 <= i < |raw.rows| :: r.value.data.rows[i]["Churn"] == ChurnCode(raw.rows[i]["Churn"]))
    ensures var r := Prepare(raw);
      r.Ok? ==> forall c :: c in r.value.features <==> c in r.value.data.columns && c != "Churn"
  {
    PrepareShape(raw);
    PrepareChurn(raw);
    PrepareFeatures(raw);
  }

  lemma PrepareShape(raw: Frame)
    requires WellFormed(raw) && Homogeneous(raw)
    ensures var r := Prepare(raw);
      r.Ok? ==> |r.value.data.rows| == |raw.rows| && WellFormed(r.value.data) && NoText(r.value.data)
  {
    if Prepare(raw).Ok? {
      var f3, f4, f5 := PrepareStages(raw);
    }
  }

  lemma PrepareChurn(raw: Frame)
    requires WellFormed(raw) && Homogeneous(raw)
    ensures var r := Prepare(raw);
      r.Ok? ==> ("Churn" in r.value.data.columns &&
        forall i | 0 <= i < |raw.rows| :: r.value.data.rows[i]["Churn"] == ChurnCode(raw.rows[i]["Churn"]))
  {
    if Prepare(raw).Ok? {
      var f3, f4, f5 := PrepareStages(raw);
      EngineerKeepsChurn(f4, f5);
    }
  }

  /** Feature engineering leaves the churn label alone. */
  lemma EngineerKeepsChurn(f: Frame, g: Frame)
    requires WellFormed(f) && NoText(f) && "Churn" in f.columns && Engineer(f) == Ok(g)
    ensures "Churn" in g.columns && forall i | 0 <= i < |f.rows| :: g.rows[i]["Churn"] == f.rows[i]["Churn"]
  {
    assert "Churn" !in Engineered;
    forall i | 0 <= i < |f.rows|
      ensures g.rows[i]["Churn"] == f.rows[i]["Churn"]
    {
      EngineerRowSpec(f.rows[i]);
    }
  }

  lemma PrepareFeatures(raw: Frame)
    requires WellFormed(raw) && Homogeneous(raw)
    ensures var r := Prepare(raw);
      r.Ok? ==> forall c :: c in r.value.features <==> c in r.value.data.columns && c != "Churn"
  {
    if Prepare(raw).Ok? {
      var f3, f4, f5 := PrepareStages(raw);
    }
  }

  /**
    Preprocessing succeeds exactly when cleaning finds its columns, the
    encoding produces no clashing names, and the six columns the feature
    engineering reads are present after encoding.
   */
  lemma PrepareSucceeds(raw: Frame)
    requires WellFormed(raw) && Homogeneous(raw)
    ensures Prepare(raw).Ok? <==>
      && Clean(raw).Ok?
      && Encode(Clean(raw).value).Ok?
      && forall c | c in EngineeringInputs :: c in Encode(Clean(raw).value).value.columns
  {
    if Clean(raw).Ok? {
      EncodeShape(Clean(raw).value);
    }
  }

  /** Preprocessing fails only on a missing column or a clash of generated names. */
  lemma PrepareFailures(raw: Frame)
    requires WellFormed(raw) && Homogeneous(raw)
    ensures Clean(raw).Err? ==> Prepare(raw) == Err(Clean(raw).error)
    ensures Prepare(raw).Err? ==> Prepare(raw).error.KeyError? || Prepare(raw).error.DuplicateColumn?
  {
    if Clean(raw).Ok? {
      EncodeShape(Clean(raw).value);
    }
  }

  /** The intermediate frames of a successful preprocessing run. */
  lemma PrepareStages(raw: Frame) returns (f3: Frame, f4: Frame, f5: Frame)
    requires WellFormed(raw) && Homogeneous(raw) && Prepare(raw).Ok?
    ensures Clean(raw) == Ok(f3) && WellFormed(f3) && Homogeneous(f3)
    ensures Encode(f3) == Ok(f4) && WellFormed(f4) && NoText(f4) && |f4.rows| == |raw.rows|
    ensures "Churn" in f4.columns && forall i | 0 <= i < |raw.rows| :: f4.rows[i]["Churn"] == f3.rows[i]["Churn"]
    ensures Engineer(f4) == Ok(f5) && Prepare(raw) == Ok(Prepared(f5, SelectFeatures(f5)))
  {
    f3 := Clean(raw).value;
    EncodeShape(f3);
    EncodeKeepsNumeric(f3);
    f4 := Encode(f3).value;
    f5 := Engineer(f4).value;
  }

  /**
    A month-to-month customer of five months paying 70 a month, 350 in all,
    with paperless billing by electronic check.
   */
  lemma EngineeredExample()
    ensures var row := map["tenure" := Num(5.0), "MonthlyCharges" := Num(70.0), "TotalCharges" := Num(350.0),
                           "Contract" := ContractCode(Str("Month-to-month")), "PaperlessBilling" := Num(1.0),
                           ElectronicCheck := Num(1.0)];
      var e := EngineerRow(row);
      && e[MonthlyPerTenure] == Num(70.0 / 6.0)
      && e[TotalPerTenure] == Num(350.0 / 6.0)
      && e[ShortTenureColumn] == Num(1.0)
      && e[EngagementScore] == Num(70.0)
      && e[BillingSecurity] == Num(1.0)
  {
  }
}
