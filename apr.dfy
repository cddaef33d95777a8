/** How an annual percentage rate is shown: a dash when it is undefined,
    otherwise scaled into millions, thousands or left as is. */
module Apr {

  import opened Common

  /** The displayed number and its suffix; the number is later printed with
      two decimals (`toFixed(2)`), which this model does not render. */
  datatype AprText = Dash | Scaled(mantissa: real, suffix: string)

  function SuffixScale(suffix: string): real
  {
    if suffix == "M" then 1000000.0 else if suffix == "K" then 1000.0 else 1.0
  }

  /** `formatApr`: strict bounds, so exactly 1000 keeps no suffix and exactly
      1,000,000 is shown in thousands. */
  function FormatApr(apr: Option<real>): (t: AprText)
    ensures apr.None? <==> t == Dash
    ensures t.Scaled? ==> t.mantissa * SuffixScale(t.suffix) == apr.value
    ensures t.Scaled? ==> (t.suffix == "M" <==> apr.value > 1000000.0)
    ensures t.Scaled? ==> (t.suffix == "K" <==> 1000.0 < apr.value <= 1000000.0)
    ensures t.Scaled? ==> (t.suffix == "" <==> apr.value <= 1000.0)
  {
    match apr
    case None => Dash
    case Some(a) =>
      if a > 1000000.0 then Scaled(a / 1000000.0, "M")
      else if a > 1000.0 then Scaled(a / 1000.0, "K")
      else Scaled(a, "")
  }

  /** A scaled mantissa always lies above 1, and at most 1000 in thousands. */
  lemma MantissaRange(apr: real)
    ensures var t := FormatApr(Some(apr));
      && (t.suffix != "" ==> t.mantissa > 1.0)
      && (t.suffix == "K" ==> t.mantissa <= 1000.0)
  {
  }

  lemma AprExamples()
    ensures FormatApr(Some(1500.0)) == Scaled(1.5, "K")
    ensures FormatApr(Some(2500000.0)) == Scaled(2.5, "M")
    ensures FormatApr(Some(1000.0)) == Scaled(1000.0, "")
    ensures FormatApr(Some(999.0)) == Scaled(999.0, "")
    ensures FormatApr(Some(0.0)) == Scaled(0.0, "")
    ensures FormatApr(None) == Dash
  {
  }
}
