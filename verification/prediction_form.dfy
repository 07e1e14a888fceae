/**
  The churn prediction form of `ChurnApp` (churn1.py): the order of its
  input checks, the one-row record it hands to the model, the label it
  shows, and when a model is loaded at all. The model itself is a
  parameter; `None` from one of its functions stands for an exception.
 */
module PredictionForm {
  import opened Wrappers
  import opened Frames
  import Validators

  /** The five entries; each numeric one is the result of `float(entry)`, `None` when that raises. */
  datatype Form = Form(tenure: Option<real>, monthlyCharges: Option<real>, totalCharges: Option<real>,
                       contract: string, paymentMethod: string)

  /** A loaded classifier: `predict(df)[0]` and `predict_proba(df)[0][1]`. */
  datatype Classifier = Classifier(predict: Frame -> Option<int>, churnProbability: Frame -> Option<real>)

  datatype Outcome =
    | InputError(message: string)
    | Failure(message: string)
    | Prediction(verdict: string, probability: real)

  const InvalidTenure := "Invalid tenure value"
  const InvalidMonthly := "Invalid monthly charges"
  const InvalidTotal := "Invalid total charges"
  const NeedContract := "Contract type required"
  const NeedPayment := "Payment method required"
  const NotLoaded := "Prediction model not loaded"
  const PredictionFailed := "Failed to make prediction"

  /** A charge or tenure entry passes `validate_number(v, min_val=0)`. */
  predicate NonNegative(v: Option<real>)
  {
    v.Some? && v.value >= 0.0
  }

  predicate Complete(form: Form)
  {
    && NonNegative(form.tenure) && NonNegative(form.monthlyCharges) && NonNegative(form.totalCharges)
    && form.contract != "" && form.paymentMethod != ""
  }

  /** The column order of `input_data` (churn1.py:127-133). */
  const RecordColumns: seq<string> := ["tenure", "MonthlyCharges", "TotalCharges", "Contract", "PaymentMethod"]

  /** `pd.DataFrame([input_data])`: one row keyed by exactly the five names. */
  function Record(form: Form): (r: Frame)
    requires Complete(form)
    ensures WellFormed(r) && r.columns == RecordColumns && |r.rows| == 1
    ensures Get(r.rows[0], "tenure") == Num(form.tenure.value)
    ensures Get(r.rows[0], "MonthlyCharges") == Num(form.monthlyCharges.value)
    ensures Get(r.rows[0], "TotalCharges") == Num(form.totalCharges.value)
    ensures Get(r.rows[0], "Contract") == Str(form.contract)
    ensures Get(r.rows[0], "PaymentMethod") == Str(form.paymentMethod)
  {
    var row := map["tenure" := Num(form.tenure.value), "MonthlyCharges" := Num(form.monthlyCharges.value),
                   "TotalCharges" := Num(form.totalCharges.value), "Contract" := Str(form.contract),
                   "PaymentMethod" := Str(form.paymentMethod)];
    var r := Frame(RecordColumns, [row]);
    RecordColumnsDistinct();
    assert row.Keys == {"tenure", "MonthlyCharges", "TotalCharges", "Contract", "PaymentMethod"};
    r
  }

  /** The five names are distinct (their lengths already differ), and they are the record's keys. */
  lemma RecordColumnsDistinct()
    ensures Distinct(RecordColumns)
    ensures ColumnSet(Frame(RecordColumns, [])) == {"tenure", "MonthlyCharges", "TotalCharges", "Contract", "PaymentMethod"}
  {
    assert |RecordColumns[0]| == 6 && |RecordColumns[1]| == 14 && |RecordColumns[2]| == 12;
    assert |RecordColumns[3]| == 8 && |RecordColumns[4]| == 13;
  }

  /** The label text for a predicted class. */
  function ClassLabel(prediction: int): (r: string)
    ensures r == "Churn" <==> prediction == 1
    ensures r == "No Churn" <==> prediction != 1
  {
    if prediction == 1 then "Churn" else "No Churn"
  }

  /**
    `predict_churn` (churn1.py:97-152): the checks run in field order and
    the first that fails is reported; a complete form is scored by the
    loaded model, if there is one.
   */
  function PredictChurn(form: Form, model: Option<Classifier>): (r: Outcome)
    ensures r == InputError(InvalidTenure) <==> !NonNegative(form.tenure)
    ensures r == InputError(InvalidMonthly) <==> NonNegative(form.tenure) && !NonNegative(form.monthlyCharges)
    ensures r == InputError(InvalidTotal) <==>
      NonNegative(form.tenure) && NonNegative(form.monthlyCharges) && !NonNegative(form.totalCharges)
    ensures r == InputError(NeedContract) <==>
      NonNegative(form.tenure) && NonNegative(form.monthlyCharges) && NonNegative(form.totalCharges) && form.contract == ""
    ensures r == InputError(NeedPayment) <==>
      NonNegative(form.tenure) && NonNegative(form.monthlyCharges) && NonNegative(form.totalCharges) &&
      form.contract != "" && form.paymentMethod == ""
    ensures r.InputError? <==> !Complete(form)
    ensures Complete(form) && model.None? ==> r == Failure(NotLoaded)
    ensures Complete(form) && model.Some? ==>
      (r.Prediction? <==> model.value.predict(Record(form)).Some? && model.value.churnProbability(Record(form)).Some?)
    ensures Complete(form) && model.Some? && !r.Prediction? ==> r == Failure(PredictionFailed)
    ensures r.Prediction? ==> (
      && Complete(form) && model.Some?
      && (r.verdict == "Churn" <==> model.value.predict(Record(form)) == Some(1))
      && Some(r.probability) == model.value.churnProbability(Record(form)))
  {
    if !Validators.ValidateNumber(form.tenure, Some(0.0), None) then InputError(InvalidTenure)
    else if !Validators.ValidateNumber(form.monthlyCharges, Some(0.0), None) then InputError(InvalidMonthly)
    else if !Validators.ValidateNumber(form.totalCharges, Some(0.0), None) then InputError(InvalidTotal)
    else if form.contract == "" then InputError(NeedContract)
    else if form.paymentMethod == "" then InputError(NeedPayment)
    else
      var df := Record(form);
      match model
      case None => Failure(NotLoaded)
      case Some(m) =>
        match m.predict(df)
        case None => Failure(PredictionFailed)
        case Some(prediction) =>
          match m.churnProbability(df)
          case None => Failure(PredictionFailed)
          case Some(probability) => Prediction(ClassLabel(prediction), probability)
  }

  /**
    `load_model` (churn1.py:82-95): `load` is what `joblib.load` gives,
    `None` when it raises. A file that loads replaces the model, a missing
    file clears it, and a failed load leaves the previous model in place.
   */
  function LoadModel(previous: Option<Classifier>, fileExists: bool, load: Option<Classifier>): (r: Option<Classifier>)
    ensures !fileExists ==> r.None?
    ensures fileExists && load.Some? ==> r == load
    ensures fileExists && load.None? ==> r == previous
    ensures r.Some? ==> r == load || r == previous
  {
    if !fileExists then None
    else if load.Some? then load
    else previous
  }

  /** The model `ChurnApp.__init__` ends up with: it starts with none, so a failed load leaves none. */
  lemma InitialModel(fileExists: bool, load: Option<Classifier>)
    ensures LoadModel(None, fileExists, load).Some? <==> fileExists && load.Some?
  {
  }
}
