/**
 * The data-research agent: validating a ticker against the exchange, resolving it to the
 * market-data provider's symbol, and projecting the provider's info mapping into the
 * fields the dashboard shows. Both providers are oracles given as parameters.
 */
module DataResearchAgent {
  import opened Wrappers
  import opened Text

  /** The exchange suffix every resolved symbol carries. */
  const NSE_SUFFIX: string := ".NS"

  /** A value of the provider's info mapping, or the sentinel that stands in for a missing one. */
  datatype Value = Str(s: string) | Number(x: real) | Structured(repr: string)

  /** `"N/A"`, the default of every projected field. */
  const NA_VALUE: Value := Str("N/A")

  /** What the exchange lookup `nse_eq` gives back: a dict with these keys, another object, or an exception. */
  datatype NseReply = Dict(keys: set<string>) | NotDict | Raised

  /** A company's financial statement table, passed through untouched. */
  type Statement = seq<seq<Value>>

  /** What the market-data provider knows about one symbol. */
  datatype Quote = Quote(info: map<string, Value>, financials: Statement)

  datatype Resolution = Resolution(symbol: string, warning: Option<string>)

  datatype StockData = StockData(
    info: map<string, Value>,
    financials: Statement,
    currentPrice: Value,
    peRatio: Value,
    high52: Value,
    low52: Value,
    marketCap: Value)

  /**
   * `is_valid_nse_symbol`: asks the exchange about the upper-cased ticker. It never fails:
   * an exception or a reply that is not a dict counts as "not valid".
   */
  function IsValidNseSymbol(symbol: string, nseEq: string -> NseReply): (valid: bool)
    ensures nseEq(Upper(symbol)).Raised? ==> !valid
    ensures nseEq(Upper(symbol)).NotDict? ==> !valid
    ensures valid <==> nseEq(Upper(symbol)).Dict? && "info" in nseEq(Upper(symbol)).keys
  {
    match nseEq(Upper(symbol))
    case Dict(keys) => "info" in keys
    case NotDict => false
    case Raised => false
  }

  /** Validation ignores letter case. */
  lemma IsValidIgnoresCase(symbol: string, nseEq: string -> NseReply)
    ensures IsValidNseSymbol(Upper(symbol), nseEq) == IsValidNseSymbol(symbol, nseEq)
  {
    UpperIdempotent(symbol);
  }

  /** The warning printed when the exchange cannot confirm the symbol. */
  function NotFoundWarning(upper: string): string {
    "Warning: '" + upper + "' not found via nsepython. Assuming Yahoo Finance NSE symbol."
  }

  /**
   * `resolve_yf_symbol`: upper-cases the ticker and appends the exchange suffix whatever the
   * exchange says; a failed validation only adds the warning.
   */
  function ResolveYfSymbol(symbol: string, nseEq: string -> NseReply): (r: Resolution)
    ensures r.symbol == Upper(symbol) + NSE_SUFFIX
    ensures r.warning.Some? <==> !IsValidNseSymbol(symbol, nseEq)
  {
    var upper := Upper(symbol);
    IsValidIgnoresCase(symbol, nseEq);
    if IsValidNseSymbol(upper, nseEq) then
      Resolution(upper + NSE_SUFFIX, None)
    else
      Resolution(upper + NSE_SUFFIX, Some(NotFoundWarning(upper)))
  }

  /** The resolved symbol does not depend on what the exchange answers. */
  lemma ResolveIgnoresExchange(symbol: string, nseEq: string -> NseReply, nseEq': string -> NseReply)
    ensures ResolveYfSymbol(symbol, nseEq).symbol == ResolveYfSymbol(symbol, nseEq').symbol
  {
  }

  /** The resolved symbol ends in the suffix and is longer than the ticker. */
  lemma ResolvedShape(symbol: string, nseEq: string -> NseReply)
    ensures var r := ResolveYfSymbol(symbol, nseEq).symbol;
      |r| == |symbol| + |NSE_SUFFIX| && r[|symbol|..] == NSE_SUFFIX
  {
  }

  /** Tickers that differ only in letter case resolve alike. */
  lemma ResolveIgnoresCase(symbol: string, symbol': string, nseEq: string -> NseReply)
    requires Upper(symbol) == Upper(symbol')
    ensures ResolveYfSymbol(symbol, nseEq) == ResolveYfSymbol(symbol', nseEq)
  {
  }

  /** Resolving is not idempotent: resolving a resolved symbol appends the suffix again. */
  lemma ResolveTwice(symbol: string, nseEq: string -> NseReply)
    ensures var once := ResolveYfSymbol(symbol, nseEq).symbol;
      ResolveYfSymbol(once, nseEq).symbol == once + NSE_SUFFIX && ResolveYfSymbol(once, nseEq).symbol != once
  {
    var upper := Upper(symbol);
    UpperAppend(upper, NSE_SUFFIX);
    UpperIdempotent(symbol);
    assert Upper(NSE_SUFFIX) == NSE_SUFFIX;
  }

  /** `info.get(key, "N/A")` was the value of `v`. */
  predicate Defaulted(info: map<string, Value>, key: string, v: Value) {
    (key in info ==> v == info[key]) && (key !in info ==> v == NA_VALUE)
  }

  function InfoGet(info: map<string, Value>, key: string, default: Value): Value {
    if key in info then info[key] else default
  }

  /**
   * `get_stock_data`: the provider's info and financials for the resolved symbol, and five
   * fields projected out of the info, each "N/A" when its key is missing.
   */
  function GetStockData(symbol: string, nseEq: string -> NseReply, ticker: string -> Quote): (d: StockData)
    ensures d.info == ticker(Upper(symbol) + NSE_SUFFIX).info
    ensures d.financials == ticker(Upper(symbol) + NSE_SUFFIX).financials
    ensures Defaulted(d.info, "currentPrice", d.currentPrice)
    ensures Defaulted(d.info, "trailingPE", d.peRatio)
    ensures Defaulted(d.info, "fiftyTwoWeekHigh", d.high52)
    ensures Defaulted(d.info, "fiftyTwoWeekLow", d.low52)
    ensures Defaulted(d.info, "marketCap", d.marketCap)
  {
    var quote := ticker(ResolveYfSymbol(symbol, nseEq).symbol);
    var info := quote.info;
    StockData(
      info,
      quote.financials,
      InfoGet(info, "currentPrice", NA_VALUE),
      InfoGet(info, "trailingPE", NA_VALUE),
      InfoGet(info, "fiftyTwoWeekHigh", NA_VALUE),
      InfoGet(info, "fiftyTwoWeekLow", NA_VALUE),
      InfoGet(info, "marketCap", NA_VALUE))
  }

  /** `symbol_to_company_name`: the company's long name, or the resolved symbol when the provider has none. */
  function SymbolToCompanyName(symbol: string, nseEq: string -> NseReply, ticker: string -> Quote): (name: Value)
    ensures var info := ticker(Upper(symbol) + NSE_SUFFIX).info;
      && ("longName" in info ==> name == info["longName"])
      && ("longName" !in info ==> name == Str(Upper(symbol) + NSE_SUFFIX))
  {
    var resolved := ResolveYfSymbol(symbol, nseEq).symbol;
    InfoGet(ticker(resolved).info, "longName", Str(resolved))
  }
}
