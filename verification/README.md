# AI stock analyzer: a Dafny model of its core

This project models the core of a small Streamlit stock dashboard for Indian (NSE) equities.
The user types a ticker. The page then does the following:

- resolves the ticker to the market-data provider's `.NS` symbol;
- projects the price fields out of the provider's info mapping;
- builds a headline block from the news list;
- asks a language model for an answer in three labelled sections and parses it;
- asks the decision agent for a decision;
- logs the decision's first word to a CSV ledger;
- shows a Buy, Sell or Hold banner.

Every outside party becomes a parameter: the exchange lookup, the market-data provider, the
news search, the language model and the decision agent. Python's string operations are
modelled over `seq<char>`: `isspace`, `strip`, `upper`, `split()`, `split("\n")`,
`"\n".join` and `in`.

Modules:

- `Wrappers`: `Option`.
- `Text`: the Python `str` operations the core relies on, with their laws.
- `AnalystAgent` (`agents/analyst_agent.py`):
  - the two lazy regexes are modelled as the backtracking search the regex engine performs;
  - that search is proved to select "the first label, then the first terminator after it";
  - `parse_analysis_response` is stated in those terms;
  - the answer format the prompt requests is proved to parse back into its bodies;
  - the headline block and the three failure results are modelled.
- `DataResearchAgent` (`agents/data_research_agent.py`): symbol validation, resolution,
  the field projection with `"N/A"` defaults, and the company-name lookup.
- `PortfolioTracker` (`utils/portfolio_tracker.py`):
  - the ledger file is `Option<seq<Row>>`, where `None` means no file yet;
  - the `strftime` timestamp has an inverse, and its text is proved to sort in clock order;
  - the ledger is proved append-only.
- `App` (`app.py`):
  - one run of the page, covering the upper-casing of the input, the `split()[0]` label
    and the banner classification;
  - a blank decision raises `IndexError` before anything is logged.

Three behaviours of the code are worth knowing:

- The banner matches "BUY" and "SELL" as substrings of the upper-cased decision, so
  "Sell: buyback" gives a Buy banner.
- The ledger stores the first word while the banner uses the first match, so the two can
  disagree: for "SELL, not BUY" the ledger gets `SELL,` and the banner says Buy.
- Where the answer has no "Summary:", the summary is the whole answer stripped of
  surrounding whitespace. The code strips it, so the model follows the code rather than
  describing the answer as kept verbatim.

## Model

| member | source | states |
|---|---|---|
| Text.Strip | agents/analyst_agent.py:92-94 | `strip()` removes only whitespace margins: the result is a slice of the input whose dropped margins are all whitespace and whose ends are not whitespace |
| Text.StripOfPadded | agents/analyst_agent.py:92-94 | stripping text padded with whitespace on both sides gives back the trimmed text |
| Text.StripIdempotent | agents/analyst_agent.py:92-94 | stripping twice is stripping once |
| Text.Upper | app.py:14 | upper-casing keeps the length and upper-cases each ASCII letter, leaving every other character alone |
| Text.UpperIdempotent | agents/data_research_agent.py:8 | upper-casing an upper-cased ticker changes nothing, so the second `upper()` in validation is harmless |
| Text.UpperAppend | agents/data_research_agent.py:14-16 | upper-casing distributes over concatenation |
| Text.Contains | app.py:29-31 | `w in s` holds exactly when `w` occurs at some position of `s` |
| Text.FindFirst | agents/analyst_agent.py:89 | the search returns the first occurrence at or after the start, or nothing when there is none |
| Text.FindFirstAny | agents/analyst_agent.py:87-88 | the search returns the first position at or after the start where any alternative occurs |
| Text.UpperOccursIff | app.py:29-31 | searching the upper-cased text for an upper-case word is searching the original text without regard to letter case |
| Text.Split | app.py:26 | every element of `split()` is non-empty and free of whitespace |
| Text.SplitAtToken | app.py:26 | `split()` peels words off the front: a word standing after only blanks and before a blank or the end is the first element, and the rest is the split of what follows that word |
| Text.SplitEmptyIffBlank | app.py:26 | `split()` is empty exactly when the text is blank, which is when `[0]` raises |
| Text.SplitHead | app.py:26 | `split()[0]` is the first maximal non-whitespace run of the text |
| Text.FirstTokenUnique | app.py:26 | a text has only one first whitespace-delimited token |
| Text.SplitJoin | agents/analyst_agent.py:10-12 | splitting a `"\n".join` of separator-free lines at line breaks gives the lines back |
| Text.StripKeepsAbsence | agents/analyst_agent.py:92-93 | a label absent from the text is absent from any stripped slice of it |
| AnalystAgent.LazyGroupSearch | agents/analyst_agent.py:87-88 | the backtracking regex search returns a well-formed capture span inside the text |
| AnalystAgent.FirstSection | agents/analyst_agent.py:87-88 | the section found starts right after the first label that has a terminator after it and ends at the first terminator; it exists exactly when some label is followed by a terminator |
| AnalystAgent.RegexIsFirstSection | agents/analyst_agent.py:87-88 | the regex with its backtracking selects exactly the first-label, first-terminator section |
| AnalystAgent.LazySearchFrom | agents/analyst_agent.py:87-88 | from any start position, the backtracking search agrees with the declarative section |
| AnalystAgent.SectionUnique | agents/analyst_agent.py:87-88 | a text has at most one such section |
| AnalystAgent.GreedyRestSearch | agents/analyst_agent.py:89 | the greedy `Summary:(.*)` group starts right after the first "Summary:" |
| AnalystAgent.SectionText | agents/analyst_agent.py:92-93 | a section reads as its stripped capture, or "N/A" when no label has a terminator after it; the text never contains one of its terminators |
| AnalystAgent.RestText | agents/analyst_agent.py:89-94 | with "Summary:" as the marker, the summary is the stripped rest after the first "Summary:", or the whole stripped answer when there is none |
| AnalystAgent.ParseAnalysisResponse | agents/analyst_agent.py:86-95 | each field is the stripped section between its label and its first terminator, "N/A" when the regex fails, the summary falls back to the stripped answer, and all fields are trimmed |
| AnalystAgent.NoLabelsFallback | agents/analyst_agent.py:86-95 | an answer without "News-Based Reasoning:" and "Summary:" gives "N/A", "N/A" and the whole stripped answer |
| AnalystAgent.ParseRoundTrip | agents/analyst_agent.py:30-39 | an answer in the requested three-label layout parses back into its three bodies, stripped, whenever the bodies do not contain the later labels |
| AnalystAgent.HeadlineLines | agents/analyst_agent.py:10-12 | at most one line per article, each starting with "- "; there are none exactly when no article has a title (which line each article gives, and in what order, is stated by the two lemmas below) |
| AnalystAgent.HeadlineLinesAppend | agents/analyst_agent.py:10-12 | the headline lines of a concatenated news list are the concatenated headline lines |
| AnalystAgent.HeadlineLinesSingle | agents/analyst_agent.py:11 | an article contributes its line exactly when it has a title, and a missing description reads as "" |
| AnalystAgent.NewsText | agents/analyst_agent.py:10-12 | the headline block is empty exactly when no article has a title |
| AnalystAgent.NewsTextLines | agents/analyst_agent.py:10-12 | splitting the headline block at line breaks gives back one line per titled article |
| AnalystAgent.AnalyzeStock | agents/analyst_agent.py:55-84 | a successful reply is parsed; each failure gives "N/A" reasons and its own summary prefix carrying the failure detail |
| AnalystAgent.FailureResultsDistinct | agents/analyst_agent.py:66-84 | distinct failures give distinct summaries |
| DataResearchAgent.IsValidNseSymbol | agents/data_research_agent.py:6-11 | validation never fails: an exception or a non-dict reply is "not valid", and the symbol is valid exactly when the reply is a dict with an "info" key |
| DataResearchAgent.IsValidIgnoresCase | agents/data_research_agent.py:8 | validation does not depend on letter case |
| DataResearchAgent.ResolveYfSymbol | agents/data_research_agent.py:13-19 | the symbol is always the upper-cased ticker plus ".NS", and a warning is printed exactly when validation fails |
| DataResearchAgent.ResolveIgnoresExchange | agents/data_research_agent.py:15-19 | the resolved symbol does not depend on what the exchange answers |
| DataResearchAgent.ResolvedShape | agents/data_research_agent.py:16-19 | the resolved symbol ends in ".NS" and, with ASCII upper-casing, is three characters longer than the ticker |
| DataResearchAgent.ResolveIgnoresCase | agents/data_research_agent.py:14 | tickers equal up to letter case resolve alike |
| DataResearchAgent.ResolveTwice | agents/data_research_agent.py:13-19 | resolution is not idempotent: resolving a resolved symbol appends ".NS" again |
| DataResearchAgent.GetStockData | agents/data_research_agent.py:21-35 | info and financials are those of the resolved symbol, and each projected field is the info value or "N/A" when its key is missing |
| DataResearchAgent.SymbolToCompanyName | agents/data_research_agent.py:37-40 | the long name when the provider has one, else the resolved symbol |
| PortfolioTracker.FormatTimestamp | utils/portfolio_tracker.py:8 | the timestamp text has nineteen characters with the separators at fixed positions |
| PortfolioTracker.ParseFormat | utils/portfolio_tracker.py:8 | reading a written timestamp back gives the timestamp |
| PortfolioTracker.FormatParse | utils/portfolio_tracker.py:8 | a cell that reads back as a timestamp is exactly that timestamp's text |
| PortfolioTracker.DigitsInjective | utils/portfolio_tracker.py:8 | digit strings of equal length spell the same number only when they are equal |
| PortfolioTracker.LexAppend | app.py:125 | comparing concatenations with equally long heads: the heads decide unless they are equal |
| PortfolioTracker.TimestampOrder | app.py:125 | sorting the ledger by its DateTime text sorts it in clock order |
| PortfolioTracker.LogDecision | utils/portfolio_tracker.py:7-21 | logging keeps the old rows as a prefix and adds exactly one row at the end, and creates the file with that single row when it is absent |
| PortfolioTracker.GetPortfolio | utils/portfolio_tracker.py:23-27 | the portfolio has the four fixed columns, and no rows when there is no file |
| PortfolioTracker.EntryRows | utils/portfolio_tracker.py:9-14 | one stamped row per entry, in order |
| PortfolioTracker.LogAllAppends | utils/portfolio_tracker.py:16-21 | after any run of decisions the ledger is the old rows followed by one row per decision, in order |
| PortfolioTracker.PortfolioAfterLogAll | utils/portfolio_tracker.py:23-27 | the portfolio shown after a run of decisions is the old portfolio with the new rows appended |
| PortfolioTracker.LogAllSome | utils/portfolio_tracker.py:16-21 | the ledger file exists after a run of decisions exactly when it existed before or at least one decision was logged |
| App.Classify | app.py:29-34 | the banner is Buy exactly when the decision mentions BUY in any case, Sell when it mentions SELL but not BUY, and Hold otherwise |
| App.ClassifyIgnoresCase | app.py:29-31 | the banner does not depend on letter case |
| App.ClassifyMatchesInsideWords | app.py:29-30 | "Sell: buyback" gives a Buy banner because words match as substrings |
| App.LedgerLabel | app.py:26 | `split()[0]` fails exactly on a blank decision, and otherwise is a whitespace-free word the decision starts with |
| App.LedgerLabelUnique | app.py:26 | any word the decision starts with is the label |
| App.LabelAndBannerCanDisagree | app.py:26-31 | for "SELL, not BUY" the ledger gets "SELL," while the banner says Buy |
| App.Run | app.py:14-34 | an empty box does nothing; a blank decision crashes with the ledger unchanged; otherwise exactly one row with the time, the upper-cased ticker (already in upper case, so the Stock column never holds ASCII lower-case letters), the current price and the first word is appended, and the banner follows the decision |
| App.RunIgnoresCase | app.py:14 | typing the ticker in another letter case makes no difference to a run |

## Left out

- Network, language model, news search and market data: the exchange lookup, `yf.Ticker`, the
  news search and the chat-completion request are parameters. Their own failure behaviour
  (timeouts, HTTP status, the provider's exceptions) shows only through `LlmReply` and `NseReply`.
- The prompt text (agents/analyst_agent.py:14-40), the request headers and the model settings are
  not modelled. The answer layout the prompt requests is kept, as `FormatAnswer`.
- Text.Upper: models `upper()` for ASCII letters only. Python's Unicode case mapping also changes
  other letters, some into ASCII ones (U+017F becomes "S"), and some into several characters, so
  it can lengthen the text ("ß" becomes "SS"). Some lower-case letters have no upper-case form
  and stay as they are (U+0138).
- DataResearchAgent.ResolvedShape: the length "ticker plus three" holds only with ASCII
  upper-casing; in Python `resolve_yf_symbol("ß")` gives "SS.NS".
- App.Run: the exceptions `yf.Ticker`, the news search or the decision agent may raise
  (agents/data_research_agent.py:23-25, agents/financial_decision_agent.py:41) are not modelled.
  In the page they stop the run before `log_decision`; the model's `Run` always reaches the
  decision.
- Article fields are strings or missing. A title or description of another type, which Python would
  format with `str()`, is not modelled.
- The financial statement table is passed through untouched. Its `to_string()` rendering in the
  prompt is not modelled.
- PortfolioTracker.FormatTimestamp: covers years 1000-9999 only. The platform's `%Y` does not
  zero-pad earlier years.
- PortfolioTracker.LogDecision: the CSV encoding and decoding by pandas (quoting, type inference on
  reading back) is not modelled; a row reads back as it was written.
- The clock is a parameter of `LogDecision` and `Run`.
- Page rendering is not modelled: the metrics, the financial overview and `sanitize`, the news
  list, the expanders and the sidebar table. The one exception is the sort order the sidebar
  relies on, which is `TimestampOrder`.
- The page calls `sanitize_financials_df` (app.py:102), but only
  `sanitize_financials_df_preserve_numeric` is defined. Every run that reaches it raises
  `NameError` after the decision is logged and the banner is shown. `Run` ends at the banner.
- `make_decision` in agents/financial_decision_agent.py is not part of this model. It is the
  `decide` parameter.
- utils/gnews_api.py is not part of this model. The news search behind `get_stock_news` is the
  `news` parameter.
- The `print` of the debug response on a `KeyError` (agents/analyst_agent.py:73) is not modelled.

