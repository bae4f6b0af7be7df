/** The nine metric modules. Each is the shared extraction of the `Snapshot` module
    with its own fixed label; nothing else distinguishes them. */
module Extractors {
  import opened Wrappers
  import opened Snapshot

  const BetaLabel: string := "Beta"
  const CurrentRatioLabel: string := "Current Ratio"
  const PriceEarningsLabel: string := "P/E"
  const PriceBookLabel: string := "P/B"
  const OperatingMarginLabel: string := "Oper. Margin"
  const GrossMarginLabel: string := "Gross Margin"
  const PriceSalesLabel: string := "P/S"
  const PriceFreeCashFlowLabel: string := "P/FCF"
  const SalesGrowthLabel: string := "Sales Q/Q"

  /** `beta.py`: the value labelled `Beta`, or `None`. */
  function GetBeta(status: int, table: Option<Table>): (r: Option<string>)
    ensures ExtractSpec(status, table, BetaLabel, r)
  {
    Extract(status, table, BetaLabel)
  }

  /** `currentratio.py`: the value labelled `Current Ratio`, or `None`. */
  function GetCurrentRatio(status: int, table: Option<Table>): (r: Option<string>)
    ensures ExtractSpec(status, table, CurrentRatioLabel, r)
  {
    Extract(status, table, CurrentRatioLabel)
  }

  /** `pe.py`: the value labelled `P/E`, or `None`. */
  function GetPeRatio(status: int, table: Option<Table>): (r: Option<string>)
    ensures ExtractSpec(status, table, PriceEarningsLabel, r)
  {
    Extract(status, table, PriceEarningsLabel)
  }

  /** `pricebook.py`: the value labelled `P/B`, or `None`. */
  function GetPriceBook(status: int, table: Option<Table>): (r: Option<string>)
    ensures ExtractSpec(status, table, PriceBookLabel, r)
  {
    Extract(status, table, PriceBookLabel)
  }

  /** `operatingmargin.py`: the value labelled `Oper. Margin`, or `None`. */
  function GetOperatingMargin(status: int, table: Option<Table>): (r: Option<string>)
    ensures ExtractSpec(status, table, OperatingMarginLabel, r)
  {
    Extract(status, table, OperatingMarginLabel)
  }

  /** `grossmargin.py`: the value labelled `Gross Margin`, or `None`. */
  function GetGrossMargin(status: int, table: Option<Table>): (r: Option<string>)
    ensures ExtractSpec(status, table, GrossMarginLabel, r)
  {
    Extract(status, table, GrossMarginLabel)
  }

  /** `ps.py`: the value labelled `P/S`, or `None`. */
  function GetPriceSales(status: int, table: Option<Table>): (r: Option<string>)
    ensures ExtractSpec(status, table, PriceSalesLabel, r)
  {
    Extract(status, table, PriceSalesLabel)
  }

  /** `fcf.py`: the value labelled `P/FCF`, or `None`. */
  function GetPriceFreeCashFlow(status: int, table: Option<Table>): (r: Option<string>)
    ensures ExtractSpec(status, table, PriceFreeCashFlowLabel, r)
  {
    Extract(status, table, PriceFreeCashFlowLabel)
  }

  /** `revenue_growth.py`: the value labelled `Sales Q/Q`, or `None`. */
  function GetRevenueGrowth(status: int, table: Option<Table>): (r: Option<string>)
    ensures ExtractSpec(status, table, SalesGrowthLabel, r)
  {
    Extract(status, table, SalesGrowthLabel)
  }
}
