/**
  The categorical encoding of the churn script: which text columns are
  ordinal, binary or nominal, and how each kind is turned into numbers
  (the contract scale, per-column label codes, one-hot indicators).
 */
module ChurnEncoding {
  import opened Wrappers
  import opened Frames
  import opened TextOrder
  import opened Labels

  /** Text `s` appears in column `c` of some row. */
  predicate Occurs(f: Frame, c: string, s: string)
  {
    exists i | 0 <= i < |f.rows| :: Get(f.rows[i], c) == Str(s)
  }

  /** The text cells of column `c`, top to bottom, repetitions included. */
  function TextCells(cells: seq<Value>): (r: seq<string>)
    ensures forall s :: s in r <==> Str(s) in cells
  {
    if |cells| == 0 then []
    else
      var rest := TextCells(cells[1..]);
      assert forall s :: Str(s) in cells <==> Str(s) == cells[0] || Str(s) in cells[1..];
      match cells[0]
      case Str(s) => [s] + rest
      case _ => rest
  }

  /**
    The categories of column `c`: its distinct text values in sorted order,
    the order both `LabelEncoder` and `get_dummies` enumerate them in.
   */
  function Categories(f: Frame, c: string): seq<string>
  {
    SortedDistinct(TextCells(ColumnValues(f, c)))
  }

  /** The categories are sorted, without repetition, and are exactly the texts in the column. */
  lemma CategoriesSpec(f: Frame, c: string)
    ensures StrictlySorted(Categories(f, c))
    ensures forall s :: s in Categories(f, c) <==> Occurs(f, c, s)
  {
    var cells := ColumnValues(f, c);
    forall s
      ensures Str(s) in cells <==> Occurs(f, c, s)
    {
      if Str(s) in cells {
        var i :| 0 <= i < |cells| && cells[i] == Str(s);
      }
    }
  }

  lemma TextColumnHasCategory(f: Frame, c: string)
    ensures IsTextColumn(f, c) <==> |Categories(f, c)| > 0
  {
    CategoriesSpec(f, c);
    if IsTextColumn(f, c) {
      var i :| 0 <= i < |f.rows| && c in f.rows[i] && f.rows[i][c].Str?;
      assert Get(f.rows[i], c) == Str(f.rows[i][c].text);
      assert f.rows[i][c].text in Categories(f, c);
    }
    if |Categories(f, c)| > 0 {
      var s := Categories(f, c)[0];
      assert Occurs(f, c, s);
    }
  }

  /** `df.select_dtypes(include=['object']).columns`, restricted to `cs`. */
  function TextColumns(f: Frame, cs: seq<string>): (r: seq<string>)
    ensures forall c :: c in r <==> c in cs && IsTextColumn(f, c)
    ensures Distinct(cs) ==> Distinct(r)
  {
    if |cs| == 0 then []
    else
      var rest := TextColumns(f, cs[1..]);
      if IsTextColumn(f, cs[0]) then
        assert Distinct(cs) ==> cs[0] !in cs[1..];
        [cs[0]] + rest
      else rest
  }

  /**
    The loop at churn.py:44-48: a column with exactly two distinct values
    goes to the first list, every other column to the second.
   */
  function SplitByCardinality(f: Frame, cs: seq<string>): (r: (seq<string>, seq<string>))
    ensures forall c :: c in r.0 <==> c in cs && |Categories(f, c)| == 2
    ensures forall c :: c in r.1 <==> c in cs && |Categories(f, c)| != 2
    ensures |r.0| + |r.1| == |cs|
    ensures Distinct(cs) ==> Distinct(r.0) && Distinct(r.1)
  {
    if |cs| == 0 then ([], [])
    else
      var rest := SplitByCardinality(f, cs[1..]);
      assert Distinct(cs) ==> cs[0] !in cs[1..];
      if |Categories(f, cs[0])| == 2 then ([cs[0]] + rest.0, rest.1)
      else (rest.0, [cs[0]] + rest.1)
  }

  datatype Classes = Classes(ordinal: seq<string>, binary: seq<string>, nominal: seq<string>)

  /**
    Column classification: `Contract`, when it is a text column, is the one
    ordinal column; every other text column is binary when it has exactly two
    distinct values and nominal otherwise. Numeric columns are in no list.
   */
  function Classify(f: Frame): (r: Classes)
    requires WellFormed(f)
    ensures r.ordinal == (if "Contract" in f.columns && IsTextColumn(f, "Contract") then ["Contract"] else [])
    ensures forall c :: c in r.binary <==>
      c in f.columns && IsTextColumn(f, c) && c != "Contract" && |Categories(f, c)| == 2
    ensures forall c :: c in r.nominal <==>
      c in f.columns && IsTextColumn(f, c) && c != "Contract" && |Categories(f, c)| != 2
    ensures forall c | c in f.columns && IsTextColumn(f, c) ::
      && (c in r.ordinal || c in r.binary || c in r.nominal)
      && !(c in r.ordinal && c in r.binary)
      && !(c in r.ordinal && c in r.nominal)
      && !(c in r.binary && c in r.nominal)
    ensures Distinct(r.binary) && Distinct(r.nominal)
  {
    var cat := TextColumns(f, f.columns);
    if "Contract" in cat then
      var split := SplitByCardinality(f, Without(cat, {"Contract"}));
      Classes(["Contract"], split.0, split.1)
    else
      var split := SplitByCardinality(f, cat);
      Classes([], split.0, split.1)
  }

  /** `df['Contract'].map(contract_mapping)` */
  function MapContract(f: Frame): (r: Frame)
    requires WellFormed(f) && Homogeneous(f) && "Contract" in f.columns
    ensures WellFormed(r) && Homogeneous(r) && r.columns == f.columns && |r.rows| == |f.rows|
    ensures forall i | 0 <= i < |f.rows| :: r.rows[i]["Contract"] == ContractCode(f.rows[i]["Contract"])
    ensures forall i, c | 0 <= i < |f.rows| && c in f.rows[i] && c != "Contract" :: r.rows[i][c] == f.rows[i][c]
  {
    var vals := seq(|f.rows|, i requires 0 <= i < |f.rows| => ContractCode(Get(f.rows[i], "Contract")));
    WithNumericColumn(f, "Contract", vals)
  }

  /**
    `LabelEncoder().fit_transform` on one cell, given the sorted categories
    of its column: a category's code is its rank, a missing cell gets the
    code after the last category. (A number never sits in a text column of a
    homogeneous frame; it would get that same last code.)
   */
  function LabelCode(cats: seq<string>, v: Value): Value
  {
    match v
    case Str(s) => Num(IndexOf(cats, s) as real)
    case _ => Num(|cats| as real)
  }

  /**
    `for col in binary_columns: df[col] = le.fit_transform(df[col])`: the
    encoder is refitted on each column, so every column is coded against its
    own categories; all other columns keep their cells.
   */
  function EncodeLabels(f: Frame, cols: seq<string>): (r: Frame)
    requires WellFormed(f) && Homogeneous(f) && Distinct(cols)
    requires forall c | c in cols :: c in f.columns
    ensures WellFormed(r) && Homogeneous(r)
    ensures r.columns == f.columns && |r.rows| == |f.rows|
    ensures forall i, c | 0 <= i < |f.rows| && c in cols ::
      r.rows[i][c] == LabelCode(Categories(f, c), f.rows[i][c])
    ensures forall i, c | 0 <= i < |f.rows| && c in f.rows[i] && c !in cols :: r.rows[i][c] == f.rows[i][c]
    ensures forall c | c in cols :: !IsTextColumn(r, c)
    decreases |cols|
  {
    if |cols| == 0 then f
    else
      var c := cols[0];
      var cats := Categories(f, c);
      var vals := seq(|f.rows|, i requires 0 <= i < |f.rows| => LabelCode(cats, Get(f.rows[i], c)));
      var g := WithNumericColumn(f, c, vals);
      var r := EncodeLabels(g, cols[1..]);
      EncodeLabelsStep(f, cols, g, r);
      r
  }

  lemma EncodeLabelsStep(f: Frame, cols: seq<string>, g: Frame, r: Frame)
    requires WellFormed(f) && Distinct(cols) && |cols| > 0
    requires forall c | c in cols :: c in f.columns
    requires g.columns == f.columns && |g.rows| == |f.rows| && !IsTextColumn(g, cols[0])
    requires WellFormed(g) && WellFormed(r) && r.columns == g.columns && |r.rows| == |g.rows|
    requires forall i | 0 <= i < |f.rows| :: g.rows[i][cols[0]] == LabelCode(Categories(f, cols[0]), Get(f.rows[i], cols[0]))
    requires forall i, d | 0 <= i < |f.rows| && d in f.rows[i] && d != cols[0] :: g.rows[i][d] == f.rows[i][d]
    requires forall i, c | 0 <= i < |g.rows| && c in cols[1..] ::
      r.rows[i][c] == LabelCode(Categories(g, c), g.rows[i][c])
    requires forall i, c | 0 <= i < |g.rows| && c in g.rows[i] && c !in cols[1..] :: r.rows[i][c] == g.rows[i][c]
    requires forall c | c in cols[1..] :: !IsTextColumn(r, c)
    ensures forall i, c | 0 <= i < |f.rows| && c in cols ::
      r.rows[i][c] == LabelCode(Categories(f, c), f.rows[i][c])
    ensures forall i, c | 0 <= i < |f.rows| && c in f.rows[i] && c !in cols :: r.rows[i][c] == f.rows[i][c]
    ensures forall c | c in cols :: !IsTextColumn(r, c)
  {
    var c0 := cols[0];
    assert c0 !in cols[1..];
    forall d | d in cols[1..]
      ensures Categories(g, d) == Categories(f, d)
    {
      assert ColumnValues(g, d) == ColumnValues(f, d);
    }
    forall i, c | 0 <= i < |f.rows| && c in cols
      ensures r.rows[i][c] == LabelCode(Categories(f, c), f.rows[i][c])
    {
      assert c in f.rows[i];
      if c == c0 {
        assert r.rows[i][c] == g.rows[i][c];
      }
    }
    forall i, c | 0 <= i < |f.rows| && c in f.rows[i] && c !in cols
      ensures r.rows[i][c] == f.rows[i][c]
    {
      assert c in g.rows[i] && c !in cols[1..] && c != c0;
    }
    forall c | c in cols
      ensures !IsTextColumn(r, c)
    {
      if c == c0 {
        forall i | 0 <= i < |r.rows| && c in r.rows[i]
          ensures !r.rows[i][c].Str?
        {
          assert r.rows[i][c] == g.rows[i][c];
        }
      }
    }
  }

  /** A binary column's two values get the two codes 0 and 1, the smaller value 0. */
  lemma BinaryCodes(f: Frame, c: string, s: string)
    requires |Categories(f, c)| == 2 && Occurs(f, c, s)
    ensures LabelCode(Categories(f, c), Str(s)) == Num(0.0) || LabelCode(Categories(f, c), Str(s)) == Num(1.0)
    ensures LabelCode(Categories(f, c), Str(s)) == Num(0.0) <==>
      forall t | Occurs(f, c, t) :: StrLe(s, t)
  {
    var cats := Categories(f, c);
    CategoriesSpec(f, c);
    assert s in cats;
    var k := IndexOf(cats, s);
    assert cats[k] == s;
    assert Occurs(f, c, cats[0]) && Occurs(f, c, cats[1]);
    if k == 1 {
      assert StrLt(cats[0], cats[1]);
      if StrLe(s, cats[0]) {
        StrLeAntisymmetric(cats[0], cats[1]);
      }
    } else {
      forall t | Occurs(f, c, t)
        ensures StrLe(s, t)
      {
        assert t in cats;
        StrLeTotal(s, t);
        if t != s {
          assert t == cats[1];
        }
      }
    }
  }

  /** One-hot indicator for category `category` of column `column`. */
  datatype Indicator = Indicator(column: string, category: string)

  /** `get_dummies` names an indicator `<column>_<category>`. */
  function IndicatorName(p: Indicator): string
  {
    p.column + "_" + p.category
  }

  /** One indicator of column `c` per category, in the categories' order. */
  function CategoryIndicators(c: string, cats: seq<string>): (r: seq<Indicator>)
    ensures |r| == |cats|
    ensures forall k | 0 <= k < |cats| :: r[k] == Indicator(c, cats[k])
    ensures forall p :: p in r <==> p.column == c && p.category in cats
  {
    var r := seq(|cats|, k requires 0 <= k < |cats| => Indicator(c, cats[k]));
    assert forall p: Indicator | p.column == c && p.category in cats :: p in r by {
      forall p: Indicator | p.column == c && p.category in cats
        ensures p in r
      {
        var k :| 0 <= k < |cats| && cats[k] == p.category;
        assert r[k] == p;
      }
    }
    r
  }

  /** The indicators `get_dummies` creates, column by column, categories sorted. */
  function Indicators(f: Frame, nominal: seq<string>): (r: seq<Indicator>)
    ensures forall p :: p in r <==> p.column in nominal && Occurs(f, p.column, p.category)
  {
    if |nominal| == 0 then []
    else
      CategoriesSpec(f, nominal[0]);
      CategoryIndicators(nominal[0], Categories(f, nominal[0])) + Indicators(f, nominal[1..])
  }

  /** `p` comes before `q`: its column is earlier in `nominal`, or it is the same column and a smaller category. */
  predicate Precedes(nominal: seq<string>, p: Indicator, q: Indicator)
  {
    IndexOf(nominal, p.column) < IndexOf(nominal, q.column) ||
    (p.column == q.column && StrLt(p.category, q.category))
  }

  /**
    The indicators come column block by column block in the order of
    `nominal`, and within a block in strictly increasing category order.
   */
  lemma {:induction false} IndicatorsOrder(f: Frame, nominal: seq<string>)
    requires Distinct(nominal)
    ensures var r := Indicators(f, nominal);
      forall k, l | 0 <= k < l < |r| :: Precedes(nominal, r[k], r[l])
  {
    if |nominal| > 0 {
      var c := nominal[0];
      var cats := Categories(f, c);
      CategoriesSpec(f, c);
      var head := CategoryIndicators(c, cats);
      var tail := Indicators(f, nominal[1..]);
      DistinctTail(nominal);
      IndicatorsOrder(f, nominal[1..]);
      var r := Indicators(f, nominal);
      assert r == head + tail;
      forall k, l | 0 <= k < l < |r|
        ensures Precedes(nominal, r[k], r[l])
      {
        if l < |head| {
          assert r[k] == head[k] && r[l] == head[l];
        } else if k < |head| {
          assert r[l] == tail[l - |head|];
          HeadPrecedesTail(f, nominal, head[k], tail[l - |head|]);
        } else {
          assert r[k] == tail[k - |head|] && r[l] == tail[l - |head|];
          TailPrecedes(f, nominal, tail[k - |head|], tail[l - |head|]);
        }
      }
    }
  }

  lemma HeadPrecedesTail(f: Frame, nominal: seq<string>, p: Indicator, q: Indicator)
    requires Distinct(nominal) && |nominal| > 0
    requires p.column == nominal[0] && q in Indicators(f, nominal[1..])
    ensures Precedes(nominal, p, q)
  {
    IndexOfTail(nominal, q.column);
  }

  lemma TailPrecedes(f: Frame, nominal: seq<string>, p: Indicator, q: Indicator)
    requires Distinct(nominal) && |nominal| > 0
    requires p in Indicators(f, nominal[1..]) && q in Indicators(f, nominal[1..])
    requires Precedes(nominal[1..], p, q)
    ensures Precedes(nominal, p, q)
  {
    IndexOfTail(nominal, p.column);
    IndexOfTail(nominal, q.column);
  }

  lemma DistinctTail(s: seq<string>)
    requires Distinct(s) && |s| > 0
    ensures Distinct(s[1..]) && s[0] !in s[1..]
  {
    forall i, j | 0 <= i < j < |s[1..]|
      ensures s[1..][i] != s[1..][j]
    {
      assert s[1..][i] == s[i + 1] && s[1..][j] == s[j + 1];
    }
  }

  /** Past the head of a list without repetitions, positions shift by one. */
  lemma IndexOfTail(s: seq<string>, x: string)
    requires Distinct(s) && |s| > 0 && x in s[1..]
    ensures x != s[0] && IndexOf(s, x) == 1 + IndexOf(s[1..], x)
  {
    DistinctTail(s);
  }

  function Names(plan: seq<Indicator>): (r: seq<string>)
    ensures |r| == |plan|
    ensures forall k | 0 <= k < |plan| :: r[k] == IndicatorName(plan[k])
  {
    seq(|plan|, k requires 0 <= k < |plan| => IndicatorName(plan[k]))
  }

  /** The first indicator called `n`. */
  function Find(plan: seq<Indicator>, n: string): (r: Indicator)
    requires n in Names(plan)
    ensures r in plan && IndicatorName(r) == n
    ensures forall k | 0 <= k < |plan| && IndicatorName(plan[k]) == n :: IndicatorName(plan[k]) == IndicatorName(r)
  {
    if IndicatorName(plan[0]) == n then plan[0]
    else
      assert n in Names(plan[1..]) by {
        var k :| 0 <= k < |plan| && Names(plan)[k] == n;
        assert Names(plan[1..])[k - 1] == n;
      }
      Find(plan[1..], n)
  }

  lemma FindOfDistinct(plan: seq<Indicator>, p: Indicator)
    requires Distinct(Names(plan)) && p in plan
    ensures IndicatorName(p) in Names(plan) && Find(plan, IndicatorName(p)) == p
  {
    var k :| 0 <= k < |plan| && plan[k] == p;
    assert Names(plan)[k] == IndicatorName(p);
    var q := Find(plan, IndicatorName(p));
    var j :| 0 <= j < |plan| && plan[j] == q;
    assert Names(plan)[j] == Names(plan)[k];
  }

  /** The first name that occurs twice in `cs`, if any. */
  function FirstDuplicate(cs: seq<string>): (r: Option<string>)
    ensures r.None? <==> Distinct(cs)
  {
    if |cs| == 0 then None
    else if cs[0] in cs[1..] then Some(cs[0])
    else
      var r := FirstDuplicate(cs[1..]);
      assert r.None? ==> Distinct(cs) by {
        if r.None? {
          forall i, j | 0 <= i < j < |cs|
            ensures cs[i] != cs[j]
          {
            if i > 0 {
              assert cs[i] == cs[1..][i - 1] && cs[j] == cs[1..][j - 1];
            }
          }
        }
      }
      assert Distinct(cs) ==> Distinct(cs[1..]) by {
        if Distinct(cs) {
          forall i, j | 0 <= i < j < |cs[1..]|
            ensures cs[1..][i] != cs[1..][j]
          {
            assert cs[1..][i] == cs[i + 1] && cs[1..][j] == cs[j + 1];
          }
        }
      }
      r
  }

  function IndicatorCell(row: Row, p: Indicator): Value
  {
    Num(if Get(row, p.column) == Str(p.category) then 1.0 else 0.0)
  }

  /** One row of `get_dummies`: the nominal cells replaced by their indicators. */
  function DummyRow(row: Row, nominal: set<string>, plan: seq<Indicator>): Row
  {
    var names := Names(plan);
    (row - nominal) + map n | n in names :: IndicatorCell(row, Find(plan, n))
  }

  /**
    `pd.get_dummies(df, columns=nominal)`: the other columns first, in
    their order, then for each nominal column one 0/1 indicator per
    category, in sorted category order; a row's indicator is 1 exactly when
    its cell is that category, so a missing cell gets no 1 at all. pandas
    would allow an indicator name to repeat another column's name; the
    model reports that as `DuplicateColumn`.
   */
  function GetDummies(f: Frame, nominal: seq<string>): (r: Result<Frame, FrameError>)
    requires WellFormed(f)
    ensures r.Err? ==> (exists n | n in nominal :: n !in f.columns) || r.error.DuplicateColumn?
    ensures r.Ok? ==> WellFormed(r.value) && |r.value.rows| == |f.rows|
    ensures r.Ok? ==> forall c | c in f.columns && c !in nominal ::
      c in r.value.columns && forall i | 0 <= i < |f.rows| :: r.value.rows[i][c] == f.rows[i][c]
    ensures r.Ok? ==> forall p: Indicator | p.column in nominal && Occurs(f, p.column, p.category) ::
      IndicatorName(p) in r.value.columns &&
      forall i | 0 <= i < |f.rows| :: r.value.rows[i][IndicatorName(p)] == IndicatorCell(f.rows[i], p)
    ensures r.Ok? ==> forall c | c in r.value.columns ::
      (c in f.columns && c !in nominal) ||
      exists p: Indicator | p.column in nominal && Occurs(f, p.column, p.category) :: c == IndicatorName(p)
    ensures r.Ok? ==> r.value.columns == Without(f.columns, set n | n in nominal) + Names(Indicators(f, nominal))
    ensures r.Ok? <==> ((forall n | n in nominal :: n in f.columns) &&
                        Distinct(Without(f.columns, set n | n in nominal) + Names(Indicators(f, nominal))))
  {
    match FirstAbsent(f, nominal)
    case Some(n) => Err(KeyError(n))
    case None =>
      var gone := set n | n in nominal;
      var plan := Indicators(f, nominal);
      var cols := Without(f.columns, gone) + Names(plan);
      match FirstDuplicate(cols)
      case Some(n) => Err(DuplicateColumn(n))
      case None =>
        var g := Frame(cols, seq(|f.rows|, i requires 0 <= i < |f.rows| => DummyRow(f.rows[i], gone, plan)));
        DummiesCorrect(f, nominal, gone, plan, g);
        Ok(g)
  }

  lemma DummyRowSpec(row: Row, gone: set<string>, plan: seq<Indicator>)
    requires Distinct(Names(plan))
    ensures DummyRow(row, gone, plan).Keys == (row.Keys - gone) + set n | n in Names(plan)
    ensures forall c | c in row && c !in gone && c !in Names(plan) :: DummyRow(row, gone, plan)[c] == row[c]
    ensures forall p | p in plan :: DummyRow(row, gone, plan)[IndicatorName(p)] == IndicatorCell(row, p)
  {
    forall p | p in plan
      ensures DummyRow(row, gone, plan)[IndicatorName(p)] == IndicatorCell(row, p)
    {
      FindOfDistinct(plan, p);
    }
  }

  lemma DummiesCorrect(f: Frame, nominal: seq<string>, gone: set<string>, plan: seq<Indicator>, g: Frame)
    requires WellFormed(f)
    requires gone == set n | n in nominal
    requires plan == Indicators(f, nominal)
    requires g.columns == Without(f.columns, gone) + Names(plan) && Distinct(g.columns)
    requires |g.rows| == |f.rows| && forall i | 0 <= i < |f.rows| :: g.rows[i] == DummyRow(f.rows[i], gone, plan)
    ensures WellFormed(g)
    ensures forall c | c in f.columns && c !in nominal ::
      c in g.columns && forall i | 0 <= i < |f.rows| :: g.rows[i][c] == f.rows[i][c]
    ensures forall p: Indicator | p.column in nominal && Occurs(f, p.column, p.category) ::
      IndicatorName(p) in g.columns &&
      forall i | 0 <= i < |f.rows| :: g.rows[i][IndicatorName(p)] == IndicatorCell(f.rows[i], p)
    ensures forall c | c in g.columns ::
      (c in f.columns && c !in nominal) ||
      exists p: Indicator | p.column in nominal && Occurs(f, p.column, p.category) :: c == IndicatorName(p)
  {
    var kept := Without(f.columns, gone);
    var names := Names(plan);
    DistinctSuffix(kept, names);
    DummiesWellFormed(f, gone, plan, g);
    DummiesCells(f, gone, plan, g);
    forall p: Indicator | p.column in nominal && Occurs(f, p.column, p.category)
      ensures IndicatorName(p) in g.columns
    {
      FindOfDistinct(plan, p);
    }
    forall c | c in g.columns
      ensures (c in f.columns && c !in nominal) ||
        exists p: Indicator | p.column in nominal && Occurs(f, p.column, p.category) :: c == IndicatorName(p)
    {
      if c !in kept {
        var p := Find(plan, c);
      }
    }
  }

  lemma DistinctSuffix(a: seq<string>, b: seq<string>)
    requires Distinct(a + b)
    ensures Distinct(b) && forall c | c in a :: c !in b
  {
    forall i, j | 0 <= i < j < |b|
      ensures b[i] != b[j]
    {
      assert (a + b)[|a| + i] == b[i] && (a + b)[|a| + j] == b[j];
    }
    forall c | c in a
      ensures c !in b
    {
      var i :| 0 <= i < |a| && a[i] == c;
      forall j | 0 <= j < |b|
        ensures b[j] != c
      {
        assert (a + b)[i] == a[i] && (a + b)[|a| + j] == b[j];
      }
    }
  }

  lemma DummiesWellFormed(f: Frame, gone: set<string>, plan: seq<Indicator>, g: Frame)
    requires WellFormed(f) && Distinct(Names(plan))
    requires g.columns == Without(f.columns, gone) + Names(plan) && Distinct(g.columns)
    requires |g.rows| == |f.rows| && forall i | 0 <= i < |f.rows| :: g.rows[i] == DummyRow(f.rows[i], gone, plan)
    ensures WellFormed(g)
  {
    assert ColumnSet(g) == (ColumnSet(f) - gone) + set n | n in Names(plan);
    forall i | 0 <= i < |f.rows|
      ensures g.rows[i].Keys == ColumnSet(g)
    {
      DummyRowSpec(f.rows[i], gone, plan);
    }
  }

  lemma DummiesCells(f: Frame, gone: set<string>, plan: seq<Indicator>, g: Frame)
    requires WellFormed(f) && WellFormed(g) && Distinct(Names(plan))
    requires g.columns == Without(f.columns, gone) + Names(plan)
    requires forall c | c in Without(f.columns, gone) :: c !in Names(plan)
    requires |g.rows| == |f.rows| && forall i | 0 <= i < |f.rows| :: g.rows[i] == DummyRow(f.rows[i], gone, plan)
    ensures forall c | c in f.columns && c !in gone ::
      c in g.columns && forall i | 0 <= i < |f.rows| :: g.rows[i][c] == f.rows[i][c]
    ensures forall p, i | p in plan && 0 <= i < |f.rows| :: g.rows[i][IndicatorName(p)] == IndicatorCell(f.rows[i], p)
  {
    forall i | 0 <= i < |f.rows|
      ensures forall c | c in f.rows[i] && c !in gone && c !in Names(plan) :: g.rows[i][c] == f.rows[i][c]
      ensures forall p | p in plan :: g.rows[i][IndicatorName(p)] == IndicatorCell(f.rows[i], p)
    {
      DummyRowSpec(f.rows[i], gone, plan);
    }
  }

  /**
    The encoding stage, churn.py:33-59: classify the text columns, map the
    contract scale, label-encode the binary columns, expand the nominal ones.
   */
  function Encode(f: Frame): (r: Result<Frame, FrameError>)
    requires WellFormed(f) && Homogeneous(f)
    ensures r.Ok? ==> WellFormed(r.value) && |r.value.rows| == |f.rows|
  {
    var cls := Classify(f);
    var g := if cls.ordinal != [] then MapContract(f) else f;
    var h := EncodeLabels(g, cls.binary);
    if cls.nominal == [] then Ok(h) else GetDummies(h, cls.nominal)
  }

  /** Columns with the same cells have the same texts and categories. */
  lemma SameColumn(f: Frame, g: Frame, c: string)
    requires ColumnValues(f, c) == ColumnValues(g, c)
    ensures forall s :: Occurs(f, c, s) <==> Occurs(g, c, s)
    ensures Categories(f, c) == Categories(g, c)
  {
    forall s | Occurs(f, c, s)
      ensures Occurs(g, c, s)
    {
      var i :| 0 <= i < |f.rows| && Get(f.rows[i], c) == Str(s);
      assert ColumnValues(g, c)[i] == Str(s);
    }
    forall s | Occurs(g, c, s)
      ensures Occurs(f, c, s)
    {
      var i :| 0 <= i < |g.rows| && Get(g.rows[i], c) == Str(s);
      assert ColumnValues(f, c)[i] == Str(s);
    }
  }

  /** Every nominal column has been replaced by its indicator columns. */
  lemma EncodeNominal(f: Frame)
    requires WellFormed(f) && Homogeneous(f)
    ensures var r := Encode(f);
      r.Ok? ==> forall p: Indicator | p.column in Classify(f).nominal && Occurs(f, p.column, p.category) ::
        IndicatorName(p) in r.value.columns &&
        forall i | 0 <= i < |f.rows| :: r.value.rows[i][IndicatorName(p)] == IndicatorCell(f.rows[i], p)
  {
    var cls, h := EncodeStages(f);
    if cls.nominal != [] && Encode(f).Ok? {
      EncodeIndicators(f, cls, h, Encode(f).value);
    }
  }

  /**
    After encoding no cell holds text and no row is lost; the only way
    encoding fails is a clash of names.
   */
  lemma EncodeShape(f: Frame)
    requires WellFormed(f) && Homogeneous(f)
    ensures var r := Encode(f);
      r.Ok? ==> WellFormed(r.value) && NoText(r.value) && |r.value.rows| == |f.rows|
    ensures Encode(f).Err? ==> Encode(f).error.DuplicateColumn?
  {
    var cls, h := EncodeStages(f);
    EncodeNoText(f, cls, h);
    if cls.nominal != [] && Encode(f).Ok? {
      DummiesNoText(h, cls.nominal, Encode(f).value);
    }
  }

  /** Columns that were already numeric keep their cells. */
  lemma EncodeKeepsNumeric(f: Frame)
    requires WellFormed(f) && Homogeneous(f)
    ensures var r := Encode(f);
      r.Ok? ==> forall c | c in f.columns && !IsTextColumn(f, c) ::
        c in r.value.columns && forall i | 0 <= i < |f.rows| :: r.value.rows[i][c] == f.rows[i][c]
  {
    var cls, h := EncodeStages(f);
    forall c, i | c in f.columns && !IsTextColumn(f, c) && 0 <= i < |f.rows|
      ensures h.rows[i][c] == f.rows[i][c]
    {
      assert c !in cls.binary && (c != "Contract" || cls.ordinal == []);
      assert ColumnValues(h, c)[i] == ColumnValues(f, c)[i];
    }
  }

  /** `Contract` carries the contract scale and every binary column its label codes. */
  lemma EncodeCodes(f: Frame)
    requires WellFormed(f) && Homogeneous(f)
    ensures var r := Encode(f);
      r.Ok? && "Contract" in f.columns && IsTextColumn(f, "Contract") ==>
        "Contract" in r.value.columns &&
        forall i | 0 <= i < |f.rows| :: r.value.rows[i]["Contract"] == ContractCode(f.rows[i]["Contract"])
    ensures var r := Encode(f);
      r.Ok? ==> forall c | c in Classify(f).binary ::
        c in r.value.columns &&
        forall i | 0 <= i < |f.rows| :: r.value.rows[i][c] == LabelCode(Categories(f, c), f.rows[i][c])
  {
    var cls, h := EncodeStages(f);
  }

  /** The frame just before `get_dummies`, and what the two earlier steps did to it. */
  lemma EncodeStages(f: Frame) returns (cls: Classes, h: Frame)
    requires WellFormed(f) && Homogeneous(f)
    ensures cls == Classify(f)
    ensures WellFormed(h) && h.columns == f.columns && |h.rows| == |f.rows|
    ensures Encode(f) == (if cls.nominal == [] then Ok(h) else GetDummies(h, cls.nominal))
    ensures forall c | c !in cls.binary && c != "Contract" :: ColumnValues(h, c) == ColumnValues(f, c)
    ensures cls.ordinal == [] ==> ColumnValues(h, "Contract") == ColumnValues(f, "Contract")
    ensures cls.ordinal != [] ==> "Contract" in f.columns && !IsTextColumn(h, "Contract")
    ensures cls.ordinal != [] ==>
      forall i | 0 <= i < |f.rows| :: h.rows[i]["Contract"] == ContractCode(f.rows[i]["Contract"])
    ensures forall c, i | c in cls.binary && 0 <= i < |f.rows| ::
      h.rows[i][c] == LabelCode(Categories(f, c), f.rows[i][c])
    ensures forall c | c in cls.binary :: !IsTextColumn(h, c)
  {
    cls := Classify(f);
    var g := ContractStage(f);
    assert "Contract" !in cls.binary;
    h := LabelStage(f, g, cls.binary);
    ContractAfterLabels(f, g, h, cls.ordinal != []);
  }

  /** Label encoding leaves `Contract` as the contract stage made it. */
  lemma ContractAfterLabels(f: Frame, g: Frame, h: Frame, mapped: bool)
    requires WellFormed(f) && WellFormed(g) && WellFormed(h)
    requires g.columns == f.columns && h.columns == f.columns
    requires |g.rows| == |f.rows| && |h.rows| == |f.rows|
    requires ColumnValues(h, "Contract") == ColumnValues(g, "Contract")
    requires !mapped ==> g == f
    requires mapped ==> "Contract" in f.columns
    requires mapped ==> !IsTextColumn(g, "Contract")
    requires mapped ==>
      forall i | 0 <= i < |f.rows| :: g.rows[i]["Contract"] == ContractCode(f.rows[i]["Contract"])
    ensures !mapped ==> ColumnValues(h, "Contract") == ColumnValues(f, "Contract")
    ensures mapped ==> !IsTextColumn(h, "Contract")
    ensures mapped ==>
      forall i | 0 <= i < |f.rows| :: h.rows[i]["Contract"] == ContractCode(f.rows[i]["Contract"])
  {
    forall i | 0 <= i < |f.rows| && "Contract" in g.rows[i]
      ensures h.rows[i]["Contract"] == g.rows[i]["Contract"]
    {
      assert ColumnValues(h, "Contract")[i] == ColumnValues(g, "Contract")[i];
    }
  }

  /** churn.py:54-56: label-encoding the binary columns of the contract-mapped frame. */
  lemma LabelStage(f: Frame, g: Frame, binary: seq<string>) returns (h: Frame)
    requires WellFormed(f) && WellFormed(g) && Homogeneous(g) && Distinct(binary)
    requires forall c | c in binary :: c in g.columns
    requires g.columns == f.columns && |g.rows| == |f.rows|
    requires forall c | c in binary :: ColumnValues(g, c) == ColumnValues(f, c)
    ensures h == EncodeLabels(g, binary)
    ensures WellFormed(h) && h.columns == f.columns && |h.rows| == |f.rows|
    ensures forall c | c !in binary :: ColumnValues(h, c) == ColumnValues(g, c)
    ensures forall c, i | c in binary && 0 <= i < |f.rows| ::
      h.rows[i][c] == LabelCode(Categories(f, c), f.rows[i][c])
    ensures forall c | c in binary :: !IsTextColumn(h, c)
  {
    h := EncodeLabels(g, binary);
    forall c | c in binary
      ensures Categories(g, c) == Categories(f, c)
    {
      SameColumn(g, f, c);
    }
    forall c | c !in binary
      ensures ColumnValues(h, c) == ColumnValues(g, c)
    {
      UntouchedColumn(g, h, c);
    }
  }

  /** A column whose cells a step left alone has the same column values. */
  lemma UntouchedColumn(g: Frame, h: Frame, c: string)
    requires WellFormed(g) && WellFormed(h) && h.columns == g.columns && |h.rows| == |g.rows|
    requires forall i | 0 <= i < |g.rows| && c in g.rows[i] :: h.rows[i][c] == g.rows[i][c]
    ensures ColumnValues(h, c) == ColumnValues(g, c)
  {
  }

  /** churn.py:50-52: the contract scale, applied only when `Contract` is a text column. */
  lemma ContractStage(f: Frame) returns (g: Frame)
    requires WellFormed(f) && Homogeneous(f)
    ensures g == (if Classify(f).ordinal != [] then MapContract(f) else f)
    ensures WellFormed(g) && Homogeneous(g) && g.columns == f.columns && |g.rows| == |f.rows|
    ensures forall c | c != "Contract" :: ColumnValues(g, c) == ColumnValues(f, c)
    ensures Classify(f).ordinal != [] ==> !IsTextColumn(g, "Contract")
    ensures Classify(f).ordinal != [] ==>
      forall i | 0 <= i < |f.rows| :: g.rows[i]["Contract"] == ContractCode(f.rows[i]["Contract"])
  {
    if Classify(f).ordinal != [] {
      g := MapContract(f);
      forall c | c != "Contract"
        ensures ColumnValues(g, c) == ColumnValues(f, c)
      {
        UntouchedColumn(f, g, c);
      }
    } else {
      g := f;
    }
  }

  lemma EncodeIndicators(f: Frame, cls: Classes, h: Frame, r: Frame)
    requires WellFormed(f) && WellFormed(h) && cls == Classify(f)
    requires h.columns == f.columns && |h.rows| == |f.rows|
    requires forall c | c !in cls.binary && c != "Contract" :: ColumnValues(h, c) == ColumnValues(f, c)
    requires GetDummies(h, cls.nominal) == Ok(r)
    ensures forall p: Indicator | p.column in cls.nominal && Occurs(f, p.column, p.category) ::
      IndicatorName(p) in r.columns &&
      forall i | 0 <= i < |f.rows| :: r.rows[i][IndicatorName(p)] == IndicatorCell(f.rows[i], p)
  {
    forall c | c in cls.nominal
      ensures forall s :: Occurs(h, c, s) <==> Occurs(f, c, s)
    {
      SameColumn(h, f, c);
    }
    forall i, p: Indicator | 0 <= i < |f.rows| && p.column in cls.nominal
      ensures IndicatorCell(h.rows[i], p) == IndicatorCell(f.rows[i], p)
    {
      assert ColumnValues(h, p.column)[i] == ColumnValues(f, p.column)[i];
    }
  }

  /** Frames that agree on the nominal columns plan the same indicators. */
  lemma {:induction false} IndicatorsAgree(f: Frame, h: Frame, nominal: seq<string>)
    requires forall c | c in nominal :: ColumnValues(h, c) == ColumnValues(f, c)
    ensures Indicators(h, nominal) == Indicators(f, nominal)
  {
    if |nominal| > 0 {
      SameColumn(h, f, nominal[0]);
      IndicatorsAgree(f, h, nominal[1..]);
    }
  }

  /**
    Encoding succeeds exactly when there is no nominal column or the kept
    columns and the indicator names are all different; its columns are then
    the kept ones in their order followed by the indicators in plan order.
   */
  lemma EncodeColumns(f: Frame)
    requires WellFormed(f) && Homogeneous(f)
    ensures var nominal := Classify(f).nominal;
      var cols := Without(f.columns, set n | n in nominal) + Names(Indicators(f, nominal));
      && (Encode(f).Ok? <==> nominal == [] || Distinct(cols))
      && (Encode(f).Ok? ==> Encode(f).value.columns == if nominal == [] then f.columns else cols)
  {
    var cls, h := EncodeStages(f);
    assert forall c | c in cls.nominal :: c !in cls.binary && c != "Contract";
    IndicatorsAgree(f, h, cls.nominal);
  }

  /** After the contract and label codes only the nominal columns still hold text. */
  lemma EncodeNoText(f: Frame, cls: Classes, h: Frame)
    requires WellFormed(f) && cls == Classify(f)
    requires h.columns == f.columns && |h.rows| == |f.rows|
    requires forall c | c !in cls.binary && c != "Contract" :: ColumnValues(h, c) == ColumnValues(f, c)
    requires forall c | c in cls.binary :: !IsTextColumn(h, c)
    requires cls.ordinal != [] ==> !IsTextColumn(h, "Contract")
    requires cls.ordinal == [] ==> ColumnValues(h, "Contract") == ColumnValues(f, "Contract")
    ensures forall c | c !in cls.nominal :: !IsTextColumn(h, c)
  {
    forall c | c !in cls.nominal
      ensures !IsTextColumn(h, c)
    {
      if c !in cls.binary && (c != "Contract" || cls.ordinal == []) {
        assert ColumnValues(h, c) == ColumnValues(f, c);
      }
    }
  }

  /** Expanding every remaining text column leaves no text at all. */
  lemma DummiesNoText(h: Frame, nominal: seq<string>, r: Frame)
    requires WellFormed(h)
    requires forall c | c !in nominal :: !IsTextColumn(h, c)
    requires GetDummies(h, nominal) == Ok(r)
    ensures NoText(r)
  {
    forall i, c | 0 <= i < |r.rows| && c in r.rows[i]
      ensures !r.rows[i][c].Str?
    {
      if c in h.columns && c !in nominal {
        assert r.rows[i][c] == h.rows[i][c];
      } else {
        var p: Indicator :| p.column in nominal && Occurs(h, p.column, p.category) && c == IndicatorName(p);
      }
    }
  }
}
