/** The extraction step of the XBRL calculator's `main`: seven concept lists
    resolved in order against the target period end, gross profit and EBITDA
    derived when they are not tagged, and the margins over the result. */
module Extraction {
  import opened Values
  import opened Facts
  import opened Resolver
  import opened Margins

  const NetSalesConcepts: seq<string> := [
    "Revenues",
    "RevenueFromContractWithCustomerExcludingAssessedTax",
    "SalesRevenueNet",
    "SalesRevenueGoodsNet",
    "SalesRevenueServicesNet",
    "PremiumsEarnedNet",
    "TotalRevenuesAndOtherIncome"
  ]

  const CostOfRevenueConcepts: seq<string> := [
    "CostOfRevenue",
    "CostOfGoodsAndServicesSold",
    "CostOfGoodsSold",
    "CostOfGoodsSoldExcludingDepreciationDepletionAndAmortization",
    "CostOfServices"
  ]

  const GrossProfitConcepts: seq<string> := [
    "GrossProfit",
    "GrossProfitExcludingDepreciationDepletionAndAmortization"
  ]

  const OperatingIncomeConcepts: seq<string> := [
    "OperatingIncomeLoss",
    "IncomeLossFromContinuingOperationsBeforeIncomeTaxesExtraordinaryItemsNoncontrollingInterest",
    "IncomeLossFromContinuingOperationsBeforeIncomeTaxesMinorityInterestAndIncomeLossFromEquityMethodInvestments"
  ]

  const NetIncomeConcepts: seq<string> := [
    "NetIncomeLoss",
    "ProfitLoss",
    "NetIncomeLossAvailableToCommonStockholdersBasic",
    "NetIncomeLossAvailableToCommonStockholdersDiluted"
  ]

  const DeprAmortConcepts: seq<string> := [
    "DepreciationAndAmortization",
    "DepreciationDepletionAndAmortization",
    "Depreciation",
    "AmortizationOfIntangibleAssets"
  ]

  const EbitdaConcepts: seq<string> := [
    "EarningsBeforeInterestTaxesDepreciationAndAmortization",
    "EarningsBeforeInterestTaxesDepreciationAndAmortizationEBITDA"
  ]

  const GrossProfitDerivedLabel := "Derived: net_sales - cost_of_revenue"
  const EbitdaDerivedLabel := "Derived: operating_income + depreciation_and_amortization"

  /** The `results` dictionary: each figure with the concept (or derivation)
      it came from. */
  datatype Financials = Financials(
    fiscalYearEnd: string,
    currency: string,
    netSales: Figure,
    costOfRevenue: Figure,
    grossProfit: Figure,
    operatingIncome: Figure,
    netIncome: Figure,
    deprAmort: Figure,
    ebitda: Figure)

  /** A figure as `pick_fact_value` hands it back: both halves or neither. */
  predicate Paired(f: Figure) {
    f.value.Some? <==> f.concept.Some?
  }

  /** Gross profit: the tagged value when there is one, else net sales minus
      cost of revenue when both are known. */
  function DeriveGrossProfit(tagged: Figure, netSales: Figure, cost: Figure): (r: Figure)
    ensures tagged.value.Some? ==> r == tagged
    ensures r.concept == Some(GrossProfitDerivedLabel) && tagged.concept != Some(GrossProfitDerivedLabel) ==>
              && tagged.value.None? && netSales.value.Some? && cost.value.Some?
              && r.value.Some? && r.value.value + cost.value.value == netSales.value.value
    ensures tagged.value.None? && netSales.value.Some? && cost.value.Some? ==>
              r.concept == Some(GrossProfitDerivedLabel) && r.value.Some?
    ensures tagged.value.None? && (netSales.value.None? || cost.value.None?) ==> r == tagged
  {
    if tagged.value.None? && netSales.value.Some? && cost.value.Some? then
      Figure(Some(netSales.value.value - cost.value.value), Some(GrossProfitDerivedLabel))
    else tagged
  }

  /** EBITDA: the tagged value when there is one, else operating income plus
      depreciation and amortization when both are known. */
  function DeriveEbitda(tagged: Figure, operating: Figure, deprAmort: Figure): (r: Figure)
    ensures tagged.value.Some? ==> r == tagged
    ensures r.concept == Some(EbitdaDerivedLabel) && tagged.concept != Some(EbitdaDerivedLabel) ==>
              && tagged.value.None? && operating.value.Some? && deprAmort.value.Some?
              && r.value.Some? && r.value.value - deprAmort.value.value == operating.value.value
    ensures tagged.value.None? && operating.value.Some? && deprAmort.value.Some? ==>
              r.concept == Some(EbitdaDerivedLabel) && r.value.Some?
    ensures tagged.value.None? && (operating.value.None? || deprAmort.value.None?) ==> r == tagged
  {
    if tagged.value.None? && operating.value.Some? && deprAmort.value.Some? then
      Figure(Some(operating.value.value + deprAmort.value.value), Some(EbitdaDerivedLabel))
    else tagged
  }

  /** A figure's provenance: a concept of its own list, or (when given) the
      label of its derivation. */
  predicate From(f: Figure, names: seq<string>, derived: Option<string>) {
    && Paired(f)
    && (f.concept.Some? ==> f.concept.value in names || f.concept == derived)
  }

  /** What `pick_fact_value` promises of each answer: both halves or
      neither, and a concept drawn from the list asked about. */
  ghost predicate Picks(pick: seq<string> -> Result<Figure>) {
    forall names :: pick(names).Success? ==>
      Paired(pick(names).value) && (pick(names).value.concept.Some? ==> pick(names).value.concept.value in names)
  }

  /** How the `results` dictionary is put together from the seven lookups:
      five figures are stored as looked up; a tagged gross profit is kept, and
      an untagged one is replaced, when net sales and cost of revenue are both
      known, by the derived figure that with cost of revenue adds up to net
      sales; EBITDA likewise from operating income and D&A. */
  predicate AssembledFrom(fin: Financials, netSales: Figure, cost: Figure, gross: Figure, operating: Figure,
                          netIncome: Figure, deprAmort: Figure, ebitda: Figure) {
    && fin.netSales == netSales && fin.costOfRevenue == cost && fin.operatingIncome == operating
    && fin.netIncome == netIncome && fin.deprAmort == deprAmort
    && (gross.value.Some? || netSales.value.None? || cost.value.None? ==> fin.grossProfit == gross)
    && (gross.value.None? && netSales.value.Some? && cost.value.Some? ==>
          && fin.grossProfit.concept == Some(GrossProfitDerivedLabel) && fin.grossProfit.value.Some?
          && fin.grossProfit.value.value + cost.value.value == netSales.value.value)
    && (ebitda.value.Some? || operating.value.None? || deprAmort.value.None? ==> fin.ebitda == ebitda)
    && (ebitda.value.None? && operating.value.Some? && deprAmort.value.Some? ==>
          && fin.ebitda.concept == Some(EbitdaDerivedLabel) && fin.ebitda.value.Some?
          && fin.ebitda.value.value - deprAmort.value.value == operating.value.value)
  }

  /** The extraction in `main`, for any resolver of concept lists: seven
      lookups in order, the first that raises aborting the rest, and the two
      derivations. */
  function ExtractWith(targetEnd: string, pick: seq<string> -> Result<Figure>): (r: Result<Financials>)
    ensures r.Failure? <==>
              || pick(NetSalesConcepts).Failure? || pick(CostOfRevenueConcepts).Failure?
              || pick(GrossProfitConcepts).Failure? || pick(OperatingIncomeConcepts).Failure?
              || pick(NetIncomeConcepts).Failure? || pick(DeprAmortConcepts).Failure?
              || pick(EbitdaConcepts).Failure?
    ensures r.Success? ==> r.value.fiscalYearEnd == targetEnd && r.value.currency == "USD"
    ensures r.Success? ==>
              AssembledFrom(r.value, pick(NetSalesConcepts).value, pick(CostOfRevenueConcepts).value,
                            pick(GrossProfitConcepts).value, pick(OperatingIncomeConcepts).value,
                            pick(NetIncomeConcepts).value, pick(DeprAmortConcepts).value, pick(EbitdaConcepts).value)
    ensures Picks(pick) && r.Success? ==>
              && From(r.value.netSales, NetSalesConcepts, None)
              && From(r.value.costOfRevenue, CostOfRevenueConcepts, None)
              && From(r.value.grossProfit, GrossProfitConcepts, Some(GrossProfitDerivedLabel))
              && From(r.value.operatingIncome, OperatingIncomeConcepts, None)
              && From(r.value.netIncome, NetIncomeConcepts, None)
              && From(r.value.deprAmort, DeprAmortConcepts, None)
              && From(r.value.ebitda, EbitdaConcepts, Some(EbitdaDerivedLabel))
  {
    var netSales :- pick(NetSalesConcepts);
    var cost :- pick(CostOfRevenueConcepts);
    var gross :- pick(GrossProfitConcepts);
    var operating :- pick(OperatingIncomeConcepts);
    var netIncome :- pick(NetIncomeConcepts);
    var deprAmort :- pick(DeprAmortConcepts);
    var ebitda :- pick(EbitdaConcepts);
    Success(Financials(
      targetEnd, "USD",
      netSales, cost, DeriveGrossProfit(gross, netSales, cost),
      operating, netIncome, deprAmort, DeriveEbitda(ebitda, operating, deprAmort)))
  }

  /** A tagged gross profit is never overwritten by the derivation, and the
      derivation happens exactly when no gross-profit concept resolves while
      net sales and cost of revenue both do; likewise for EBITDA. */
  lemma DerivedOnlyWhenUntagged(targetEnd: string, pick: seq<string> -> Result<Figure>)
    requires Picks(pick)
    requires ExtractWith(targetEnd, pick).Success?
    ensures var fin := ExtractWith(targetEnd, pick).value;
            var gross := pick(GrossProfitConcepts).value;
            && (gross.value.Some? ==> fin.grossProfit == gross)
            && (fin.grossProfit.concept == Some(GrossProfitDerivedLabel) <==>
                  gross.value.None? && fin.netSales.value.Some? && fin.costOfRevenue.value.Some?)
    ensures var fin := ExtractWith(targetEnd, pick).value;
            var ebitda := pick(EbitdaConcepts).value;
            && (ebitda.value.Some? ==> fin.ebitda == ebitda)
            && (fin.ebitda.concept == Some(EbitdaDerivedLabel) <==>
                  ebitda.value.None? && fin.operatingIncome.value.Some? && fin.deprAmort.value.Some?)
  {
    var gross := pick(GrossProfitConcepts).value;
    var ebitda := pick(EbitdaConcepts).value;
    assert GrossProfitDerivedLabel !in GrossProfitConcepts;
    assert EbitdaDerivedLabel !in EbitdaConcepts;
    assert gross.concept != Some(GrossProfitDerivedLabel);
    assert ebitda.concept != Some(EbitdaDerivedLabel);
  }

  /** The resolver `main` uses: `pick_fact_value` against the report date. */
  function PickAt(root: FactsRoot, targetEnd: string): (pick: seq<string> -> Result<Figure>)
    ensures Picks(pick)
  {
    (names: seq<string>) => PickFactValue(root, names, Some(targetEnd))
  }

  lemma PickAtLooksUp(root: FactsRoot, targetEnd: string, names: seq<string>)
    ensures PickAt(root, targetEnd)(names) == PickFactValue(root, names, Some(targetEnd))
  {
  }

  /** The extraction for the companyfacts `facts` object and the report date
      of the chosen 10-K. */
  function ExtractFinancials(root: FactsRoot, targetEnd: string): (r: Result<Financials>)
    ensures var t := Some(targetEnd);
            r.Failure? <==>
              || PickFactValue(root, NetSalesConcepts, t).Failure?
              || PickFactValue(root, CostOfRevenueConcepts, t).Failure?
              || PickFactValue(root, GrossProfitConcepts, t).Failure?
              || PickFactValue(root, OperatingIncomeConcepts, t).Failure?
              || PickFactValue(root, NetIncomeConcepts, t).Failure?
              || PickFactValue(root, DeprAmortConcepts, t).Failure?
              || PickFactValue(root, EbitdaConcepts, t).Failure?
    ensures r.Success? ==> r.value.fiscalYearEnd == targetEnd && r.value.currency == "USD"
    ensures var t := Some(targetEnd);
            r.Success? ==>
              AssembledFrom(r.value, PickFactValue(root, NetSalesConcepts, t).value,
                            PickFactValue(root, CostOfRevenueConcepts, t).value,
                            PickFactValue(root, GrossProfitConcepts, t).value,
                            PickFactValue(root, OperatingIncomeConcepts, t).value,
                            PickFactValue(root, NetIncomeConcepts, t).value,
                            PickFactValue(root, DeprAmortConcepts, t).value,
                            PickFactValue(root, EbitdaConcepts, t).value)
    ensures r.Success? ==>
              && From(r.value.netSales, NetSalesConcepts, None)
              && From(r.value.costOfRevenue, CostOfRevenueConcepts, None)
              && From(r.value.grossProfit, GrossProfitConcepts, Some(GrossProfitDerivedLabel))
              && From(r.value.operatingIncome, OperatingIncomeConcepts, None)
              && From(r.value.netIncome, NetIncomeConcepts, None)
              && From(r.value.deprAmort, DeprAmortConcepts, None)
              && From(r.value.ebitda, EbitdaConcepts, Some(EbitdaDerivedLabel))
  {
    var pick := PickAt(root, targetEnd);
    PickAtLooksUp(root, targetEnd, NetSalesConcepts);
    PickAtLooksUp(root, targetEnd, CostOfRevenueConcepts);
    PickAtLooksUp(root, targetEnd, GrossProfitConcepts);
    PickAtLooksUp(root, targetEnd, OperatingIncomeConcepts);
    PickAtLooksUp(root, targetEnd, NetIncomeConcepts);
    PickAtLooksUp(root, targetEnd, DeprAmortConcepts);
    PickAtLooksUp(root, targetEnd, EbitdaConcepts);
    ExtractWith(targetEnd, pick)
  }

  /** Every report date `get_10k_metadata` returns has a parsable year, so for
      such a target the extraction does not raise. */
  lemma ExtractionSucceeds(root: FactsRoot, targetEnd: string)
    requires TargetYear(targetEnd).Some?
    ensures ExtractFinancials(root, targetEnd).Success?
  {
    PickSucceedsForParsableTarget(root, NetSalesConcepts, targetEnd);
    PickSucceedsForParsableTarget(root, CostOfRevenueConcepts, targetEnd);
    PickSucceedsForParsableTarget(root, GrossProfitConcepts, targetEnd);
    PickSucceedsForParsableTarget(root, OperatingIncomeConcepts, targetEnd);
    PickSucceedsForParsableTarget(root, NetIncomeConcepts, targetEnd);
    PickSucceedsForParsableTarget(root, DeprAmortConcepts, targetEnd);
    PickSucceedsForParsableTarget(root, EbitdaConcepts, targetEnd);
  }

  /** `compute_margins(results)`: the XBRL figures are numbers or absent,
      never text `float` rejects. */
  function MarginsOf(fin: Financials): (m: Margins)
    ensures IsRatio(m.netSalesMargin, AsVal(fin.netIncome.value), AsVal(fin.netSales.value))
    ensures IsRatio(m.grossMargin, AsVal(fin.grossProfit.value), AsVal(fin.netSales.value))
    ensures IsRatio(m.operatingMargin, AsVal(fin.operatingIncome.value), AsVal(fin.netSales.value))
    ensures IsRatio(m.ebitdaMargin, AsVal(fin.ebitda.value), AsVal(fin.netSales.value))
  {
    ComputeMargins(MarginInputs(
      AsVal(fin.netSales.value), AsVal(fin.grossProfit.value), AsVal(fin.operatingIncome.value),
      AsVal(fin.netIncome.value), AsVal(fin.ebitda.value)))
  }

  /** A derived gross profit gives a gross margin of one minus the cost
      ratio. */
  lemma DerivedGrossMargin(fin: Financials, ns: real, cost: real)
    requires fin.netSales.value == Some(ns) && ns != 0.0
    requires fin.costOfRevenue.value == Some(cost)
    requires fin.grossProfit.value == Some(ns - cost)
    ensures MarginsOf(fin).grossMargin == Some(1.0 - cost / ns)
  {
    assert AsVal(fin.netSales.value) == Num(ns);
    assert AsVal(fin.grossProfit.value) == Num(ns - cost);
    var m := MarginsOf(fin).grossMargin;
    assert m.Some?;
    var g := m.value;
    assert g * ns == ns - cost;
    var d := 1.0 - cost / ns;
    assert d * ns == ns - cost;
    assert (g - d) * ns == 0.0;
    assert g - d == 0.0;
  }
}
