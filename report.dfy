/** The script's two sections as it runs them: each table variable is rebound step by step,
    and each added column (`label`, the coerced `fy`, the margins, `quick_ratio`) replaces
    the table it is added to. */
module Script {
  import opened Options
  import opened Frame
  import opened Facts
  import opened IncomeStatement
  import opened QuickRatio

  /** The income-statement section: `df['form']` raises on a concept whose USD list is
      empty; otherwise one row per (accn, end) reported by all three concepts. */
  method IncomeStatementSection(doc: CompanyFacts) returns (result: Result<seq<MetricRow>, KeyError>)
    ensures result == IncomeMetricsAsWritten(doc)
    ensures result.Ok? ==> UniqueBy(result.value, MetricKey)
    ensures result.Ok? ==> forall k :: k in KeysOf(result.value, MetricKey) <==>
      && k in KeysOf(AnnualLatest(TagFacts(doc, "Revenues")), FactKey)
      && k in KeysOf(AnnualLatest(TagFacts(doc, "NetIncomeLoss")), FactKey)
      && k in KeysOf(AnnualLatest(TagFacts(doc, "GrossProfit")), FactKey)
  {
    var revenuesTable := GetTag(doc, "Revenues");
    var netIncomeTable := GetTag(doc, "NetIncomeLoss");
    var grossProfitTable := GetTag(doc, "GrossProfit");
    if revenuesTable.NoColumns? || netIncomeTable.NoColumns? || grossProfitTable.NoColumns? {
      result := Err(KeyError("form"));
      return;
    }

    var revenues := AnnualFacts(revenuesTable.rows);
    var netIncome := AnnualFacts(netIncomeTable.rows);
    var grossProfit := AnnualFacts(grossProfitTable.rows);

    revenues := LatestPerFiling(revenues);
    netIncome := LatestPerFiling(netIncome);
    grossProfit := LatestPerFiling(grossProfit);

    var joined := Join(revenues, netIncome, grossProfit);
    var df := AddMargins(joined);
    result := Ok(df);
  }

  /** The quick-ratio section as written: it raises when no stacked table has an `fy` column
      or when the pivot lacks a label column, and otherwise computes the intended table. */
  method QuickRatioSection(doc: CompanyFacts) returns (result: Result<seq<QuickRow>, QuickRatioError>)
    ensures result == QuickRatioReportAsWritten(doc)
    ensures result.Ok? ==> result.value == QuickRatioReport(doc)
    ensures result.Err? ==> QuickRatioReport(doc) == []
  {
    var assetsTable := GetTag(doc, AssetsTag);
    var liabilitiesTable := GetTag(doc, LiabilitiesTag);
    var inventoryTable := GetTag(doc, InventoryTag);
    if assetsTable.NoColumns? && liabilitiesTable.NoColumns? && inventoryTable.NoColumns? {
      result := Err(CoerceFailed(KeyError("fy")));
      return;
    }
    var assets := TagFacts(doc, AssetsTag);
    var liabilities := TagFacts(doc, LiabilitiesTag);
    var inventory := TagFacts(doc, InventoryTag);

    var all := Concat(assets, liabilities, inventory);
    all := CoerceFy(all);
    var filtered := Select(all);

    var pivot := PivotTable(filtered);
    var complete := DropNa(pivot);
    match complete
    case Err(e) =>
      result := Err(DropNaFailed(e));
    case Ok(rows) =>
      var withRatio := AddQuickRatio(rows);
      withRatio := LatestPerYear(withRatio);
      result := Ok(withRatio);
  }
}
