/**
 * One run of the dashboard page: read the ticker, fetch data and news, ask for the analysis
 * and the decision, log the decision's first word, and show a Buy, Sell or Hold banner.
 * Every outside service is a field of `Services`; the page layout is not modelled.
 */
module App {
  import opened Wrappers
  import opened Text
  import opened AnalystAgent
  import opened DataResearchAgent
  import opened PortfolioTracker

  datatype Recommendation = Buy | Sell | Hold

  /**
   * `"BUY" in decision.upper()`, then `"SELL"`: the banner follows the first of the two words
   * that occurs anywhere in the decision, in any letter case, and BUY is tried first.
   */
  function Classify(decision: string): (r: Recommendation)
    ensures r == Buy <==> MentionsIgnoringCase(decision, "BUY")
    ensures r == Sell <==> !MentionsIgnoringCase(decision, "BUY") && MentionsIgnoringCase(decision, "SELL")
    ensures r == Hold <==> !MentionsIgnoringCase(decision, "BUY") && !MentionsIgnoringCase(decision, "SELL")
  {
    var up := Upper(decision);
    UpperOccursIff(decision, "BUY");
    UpperOccursIff(decision, "SELL");
    if Contains(up, "BUY") then Buy
    else if Contains(up, "SELL") then Sell
    else Hold
  }

  /** The banner does not depend on letter case. */
  lemma ClassifyIgnoresCase(decision: string)
    ensures Classify(Upper(decision)) == Classify(decision)
  {
    UpperIdempotent(decision);
  }

  // The example lemmas below take their literal as a parameter pinned by `requires`: a literal
  // written into the contract is unfolded character by character and costs the solver far more.

  /** The words are matched as substrings, so "buyback" in a sell advice turns the banner to Buy. */
  lemma ClassifyMatchesInsideWords(decision: string)
    requires decision == "Sell: buyback"
    ensures Classify(decision) == Buy
  {
    assert MatchesIgnoringCaseAt(decision, "BUY", 6);
  }

  /**
   * `decision.split()[0]`: the first whitespace-delimited word of the decision, or `None` where
   * Python raises `IndexError` because the decision is blank.
   */
  function LedgerLabel(decision: string): (first: Option<string>)
    ensures first.None? <==> AllSpace(decision)
    ensures first.Some? ==> IsWord(first.value) && IsFirstToken(decision, first.value)
  {
    var words := Split(decision);
    SplitEmptyIffBlank(decision);
    if |words| == 0 then None
    else
      SplitHead(decision);
      Some(words[0])
  }

  /** The label is the only first word there is: any word the decision starts with is the label. */
  lemma LedgerLabelUnique(decision: string, word: string)
    requires IsWord(word) && IsFirstToken(decision, word)
    ensures LedgerLabel(decision) == Some(word)
  {
    var first := LedgerLabel(decision);
    if first.None? {
      var i :| TokenAt(decision, word, i);
      SliceIndex(decision, i, word, 0);
      NoSpaceAt(word, 0);
      assert false;
    }
    FirstTokenUnique(decision, first.value, word);
  }

  /** The ledger and the banner can disagree: the label is the first word, the banner the first match. */
  lemma LabelAndBannerCanDisagree(decision: string)
    requires decision == "SELL, not BUY"
    ensures LedgerLabel(decision) == Some("SELL,")
    ensures Classify(decision) == Buy
  {
    SellNotBuyLabel(decision);
    SellNotBuyBanner(decision);
  }

  lemma SellNotBuyLabel(decision: string)
    requires decision == "SELL, not BUY"
    ensures LedgerLabel(decision) == Some("SELL,")
  {
    var word := decision[..5];
    assert TokenAt(decision, word, 0) by {
      assert decision[0..5] == word && IsSpace(decision[5]) && decision[..0] == [];
    }
    TokenIsFirst(decision, [word], word, 0);
    LedgerLabelUnique(decision, word);
    assert word == "SELL,";
  }

  lemma SellNotBuyBanner(decision: string)
    requires decision == "SELL, not BUY"
    ensures Classify(decision) == Buy
  {
    assert MatchesIgnoringCaseAt(decision, "BUY", 10);
  }

  /** The outside world one run talks to. */
  datatype Services = Services(
    nseEq: string -> NseReply,                    // the exchange lookup
    ticker: string -> Quote,                      // the market-data provider
    news: string -> seq<Article>,                 // the headline search
    analyst: (string, StockData) -> LlmReply,     // the language model, given the headline block and the data
    decide: (Value, string) -> string)            // the decision agent, given the price and the summary

  /** What the page ends up showing. */
  datatype Screen =
    | Idle                                        // no ticker typed yet
    | Crashed(decision: string)                   // `IndexError` from a blank decision
    | Shown(data: StockData, analysis: Analysis, decision: string, banner: Recommendation)

  datatype RunResult = RunResult(screen: Screen, ledger: Ledger<Value>)

  /**
   * One run of the page with `input` typed in the box and `ledger` on disk at time `now`.
   * An empty box does nothing; a blank decision crashes before anything is logged; otherwise
   * exactly one row is logged and the banner follows the decision.
   */
  function Run(input: string, ledger: Ledger<Value>, now: Timestamp, services: Services): (r: RunResult)
    requires ValidTimestamp(now)
    ensures r.screen.Idle? <==> |input| == 0
    ensures r.screen.Idle? ==> r.ledger == ledger
    ensures !r.screen.Idle? ==>
      var symbol := Upper(input);
      && r.screen.decision == services.decide(GetStockData(symbol, services.nseEq, services.ticker).currentPrice,
           AnalyzeStock(services.analyst(NewsText(services.news(symbol)),
             GetStockData(symbol, services.nseEq, services.ticker))).summary)
    ensures r.screen.Crashed? ==> AllSpace(r.screen.decision) && r.ledger == ledger
    ensures r.screen.Shown? ==>
      && !AllSpace(r.screen.decision)
      && r.screen.data == GetStockData(Upper(input), services.nseEq, services.ticker)
      && r.screen.analysis == AnalyzeStock(services.analyst(NewsText(services.news(Upper(input))), r.screen.data))
      && r.screen.banner == Classify(r.screen.decision)
      && r.ledger.Some? && |Rows(r.ledger)| == |Rows(ledger)| + 1
      && Rows(r.ledger)[..|Rows(ledger)|] == Rows(ledger)
      && var row := Rows(r.ledger)[|Rows(ledger)|];
         && row.dateTime == FormatTimestamp(now)
         && row.stock == Upper(input) && Upper(row.stock) == row.stock
         && row.price == r.screen.data.currentPrice
         && IsWord(row.decision) && IsFirstToken(r.screen.decision, row.decision)
  {
    var symbol := Upper(input);
    UpperIdempotent(input);
    if |symbol| == 0 then RunResult(Idle, ledger)
    else
      var data := GetStockData(symbol, services.nseEq, services.ticker);
      var analysis := AnalyzeStock(services.analyst(NewsText(services.news(symbol)), data));
      var decision := services.decide(data.currentPrice, analysis.summary);
      match LedgerLabel(decision)
      case None => RunResult(Crashed(decision), ledger)
      case Some(first) =>
        RunResult(Shown(data, analysis, decision, Classify(decision)),
          LogDecision(ledger, now, symbol, data.currentPrice, first))
  }

  /** Typing the ticker in another letter case makes no difference to the run. */
  lemma RunIgnoresCase(input: string, input': string, ledger: Ledger<Value>, now: Timestamp, services: Services)
    requires ValidTimestamp(now)
    requires Upper(input) == Upper(input')
    ensures Run(input, ledger, now, services) == Run(input', ledger, now, services)
  {
  }
}
