/**
  The fixed value maps the scripts apply with `Series.map(dict)`: the
  churn label, its inverse used for charting, and the three-level
  contract scale. A key absent from the dict maps to a missing value.
 */
module Labels {
  import opened Frames

  /** `{'No': 0, 'Yes': 1}` */
  function ChurnCode(v: Value): (r: Value)
    ensures r == Num(0.0) <==> v == Str("No")
    ensures r == Num(1.0) <==> v == Str("Yes")
    ensures r.Missing? <==> v != Str("No") && v != Str("Yes")
  {
    if v == Str("No") then Num(0.0) else if v == Str("Yes") then Num(1.0) else Missing
  }

  /** `{0: 'No', 1: 'Yes'}` */
  function ChurnStatus(v: Value): (r: Value)
    ensures r == Str("No") <==> v == Num(0.0)
    ensures r == Str("Yes") <==> v == Num(1.0)
    ensures r.Missing? <==> v != Num(0.0) && v != Num(1.0)
  {
    if v == Num(0.0) then Str("No") else if v == Num(1.0) then Str("Yes") else Missing
  }

  /** The contract lengths in their natural order, one to three. */
  const ContractNames: seq<string> := ["Month-to-month", "One year", "Two year"]

  /** `{"Month-to-month": 1, "One year": 2, "Two year": 3}` */
  function ContractCode(v: Value): (r: Value)
    ensures r.Missing? <==> !(v.Str? && v.text in ContractNames)
    ensures forall k | 0 <= k < 3 :: r == Num((k + 1) as real) <==> v == Str(ContractNames[k])
  {
    if v == Str("Month-to-month") then Num(1.0)
    else if v == Str("One year") then Num(2.0)
    else if v == Str("Two year") then Num(3.0)
    else Missing
  }

  /** The churn label survives the trip to a code and back to the chart label. */
  lemma ChurnStatusRoundTrip(v: Value)
    ensures ChurnStatus(ChurnCode(v)) == (if v == Str("Yes") || v == Str("No") then v else Missing)
  {
  }

  /** Longer contracts get strictly larger codes. */
  lemma ContractScaleMonotone(i: nat, j: nat)
    requires i < j < 3
    ensures ContractCode(Str(ContractNames[i])).x < ContractCode(Str(ContractNames[j])).x
  {
  }
}
