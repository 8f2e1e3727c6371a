/** `compute_margins`, identical in both calculators: four ratios over net
    sales, each `None` when a figure is missing, not convertible by `float`,
    or when net sales is zero. */
module Margins {
  import opened Values

  /** The five figures `compute_margins` reads from its input dictionary. */
  datatype MarginInputs = MarginInputs(netSales: Val, grossProfit: Val, operatingIncome: Val, netIncome: Val, ebitda: Val)

  /** The returned dictionary. */
  datatype Margins = Margins(
    netSalesMargin: Option<real>,   // net_income / net_sales
    grossMargin: Option<real>,      // gross_profit / net_sales
    operatingMargin: Option<real>,  // operating_income / net_sales
    ebitdaMargin: Option<real>      // ebitda / net_sales
  )

  /** `m` is what a guarded `num / den` yields: defined exactly when both sides
      are numbers and the denominator is non-zero, and then the quotient. */
  predicate IsRatio(m: Option<real>, num: Val, den: Val) {
    && (m.Some? <==> num.Num? && den.Num? && den.r != 0.0)
    && (m.Some? ==> m.value * den.r == num.r)
  }

  /** `safe_div`: `None` for a missing numerator, a missing or zero
      denominator, or a value `float` rejects (including a denominator that
      only converts to zero); otherwise the quotient. */
  function SafeDiv(num: Val, den: Val): (r: Option<real>)
    ensures IsRatio(r, num, den)
  {
    if num.Missing? || den.Missing? || den == Num(0.0) then None
    else if num.NonNumeric? || den.NonNumeric? then None
    else Some(num.r / den.r)
  }

  function ComputeMargins(fin: MarginInputs): (m: Margins)
    ensures IsRatio(m.netSalesMargin, fin.netIncome, fin.netSales)
    ensures IsRatio(m.grossMargin, fin.grossProfit, fin.netSales)
    ensures IsRatio(m.operatingMargin, fin.operatingIncome, fin.netSales)
    ensures IsRatio(m.ebitdaMargin, fin.ebitda, fin.netSales)
  {
    Margins(
      SafeDiv(fin.netIncome, fin.netSales),
      SafeDiv(fin.grossProfit, fin.netSales),
      SafeDiv(fin.operatingIncome, fin.netSales),
      SafeDiv(fin.ebitda, fin.netSales))
  }

  /** The quotient is the only value a ratio can take: `IsRatio` pins the
      result down, so any two results meeting it agree. */
  lemma RatioIsUnique(m1: Option<real>, m2: Option<real>, num: Val, den: Val)
    requires IsRatio(m1, num, den) && IsRatio(m2, num, den)
    ensures m1 == m2
  {
    if m1.Some? {
      assert m1.value == num.r / den.r;
      assert m2.value == num.r / den.r;
    }
  }

  function Scale(v: Val, k: real): Val {
    match v
    case Num(r) => Num(r * k)
    case _ => v
  }

  /** Margins do not depend on the reporting scale: reporting every figure in
      thousands (or any other non-zero factor) gives the same margins. */
  lemma MarginsScaleInvariant(fin: MarginInputs, k: real)
    requires k != 0.0
    ensures var scaled := MarginInputs(Scale(fin.netSales, k), Scale(fin.grossProfit, k),
                                       Scale(fin.operatingIncome, k), Scale(fin.netIncome, k),
                                       Scale(fin.ebitda, k));
            ComputeMargins(scaled) == ComputeMargins(fin)
  {
    var scaled := MarginInputs(Scale(fin.netSales, k), Scale(fin.grossProfit, k),
                               Scale(fin.operatingIncome, k), Scale(fin.netIncome, k),
                               Scale(fin.ebitda, k));
    var m, s := ComputeMargins(fin), ComputeMargins(scaled);
    ScaledRatio(m.netSalesMargin, s.netSalesMargin, fin.netIncome, fin.netSales, k);
    ScaledRatio(m.grossMargin, s.grossMargin, fin.grossProfit, fin.netSales, k);
    ScaledRatio(m.operatingMargin, s.operatingMargin, fin.operatingIncome, fin.netSales, k);
    ScaledRatio(m.ebitdaMargin, s.ebitdaMargin, fin.ebitda, fin.netSales, k);
  }

  lemma ScaledRatio(m: Option<real>, s: Option<real>, num: Val, den: Val, k: real)
    requires k != 0.0
    requires IsRatio(m, num, den) && IsRatio(s, Scale(num, k), Scale(den, k))
    ensures m == s
  {
    if m.Some? {
      assert s.value * (den.r * k) == num.r * k;
      assert (s.value * den.r) * k == num.r * k;
      assert s.value * den.r == m.value * den.r;
    }
  }

  /** Without net sales every margin is `None`. */
  lemma MissingNetSalesGivesNoMargins(fin: MarginInputs)
    requires fin.netSales.Missing? || fin.netSales == Num(0.0)
    ensures ComputeMargins(fin) == Margins(None, None, None, None)
  {
  }

  /** Net sales 1000, gross profit 400, operating income 200, net income 100,
      EBITDA 250 give margins 0.1, 0.4, 0.2 and 0.25. */
  lemma WorkedExample()
    ensures ComputeMargins(MarginInputs(Num(1000.0), Num(400.0), Num(200.0), Num(100.0), Num(250.0)))
         == Margins(Some(0.1), Some(0.4), Some(0.2), Some(0.25))
  {
  }

  /** A figure the model reported as text that `float` cannot read leaves only
      its own margin undefined. */
  lemma NonNumericFigureIsIsolated(fin: MarginInputs)
    requires fin.netSales == Num(1000.0) && fin.grossProfit.NonNumeric?
    requires fin.operatingIncome == Num(200.0)
    ensures ComputeMargins(fin).grossMargin.None?
    ensures ComputeMargins(fin).operatingMargin == Some(0.2)
  {
  }
}
