/**
 * The analyst agent: the headline block it puts into its prompt, the three-section
 * parser it applies to the language model's answer, and the fixed results it
 * returns when the call fails.
 */
module AnalystAgent {
  import opened Wrappers
  import opened Text

  const TECHNICAL_LABEL: string := "Technical Reasoning:"
  const NEWS_LABEL: string := "News-Based Reasoning:"
  const SUMMARY_LABEL: string := "Summary:"

  /** The sentinel for a section the answer does not contain. */
  const NA: string := "N/A"

  /** The alternation that ends the technical section, in the order the regex lists it. */
  const TECHNICAL_END: seq<string> := [NEWS_LABEL, SUMMARY_LABEL]

  /** The alternation that ends the news section. */
  const NEWS_END: seq<string> := [SUMMARY_LABEL]

  const API_ERROR: string := "API Error: "
  const FORMAT_ERROR: string := "Error: Unexpected API response format"
  const PROCESSING_ERROR: string := "Processing Error: "

  datatype Analysis = Analysis(technicalReason: string, newsReason: string, summary: string)

  /** The span `s[start..end]` of a regex capture group. */
  datatype Span = Span(start: nat, end: nat)

  // ---------------------------------------------------------------------------
  // The regexes, as the engine runs them
  // ---------------------------------------------------------------------------

  /**
   * `re.search(marker + "(.*?)(" + "|".join(alts) + ")", s, re.DOTALL)` with the scan started
   * at position `p`. The engine tries each start position in turn. Where `marker` matches, the
   * lazy group grows one character at a time until one of `alts` matches right after it
   * (`FindFirstAny`). If none ever does, the engine backtracks to the next start position.
   * The result is the span of group 1.
   */
  function LazyGroupSearch(s: string, marker: string, alts: seq<string>, p: nat): (r: Option<Span>)
    ensures r.Some? ==> r.value.start <= r.value.end <= |s|
    decreases |s| + 1 - p
  {
    if p > |s| then None
    else if OccursAt(s, marker, p) then
      match FindFirstAny(s, alts, p + |marker|)
      case Some(q) => Some(Span(p + |marker|, q))
      case None => LazyGroupSearch(s, marker, alts, p + 1)
    else LazyGroupSearch(s, marker, alts, p + 1)
  }

  /**
   * `re.search(marker + "(.*)", s, re.DOTALL)`: the greedy group always runs to the end of the
   * text, so the first occurrence of `marker` matches. The result is where group 1 starts.
   */
  function GreedyRestSearch(s: string, marker: string): (r: Option<nat>)
    ensures r.Some? ==> |marker| <= r.value <= |s| && IsFirstOccurrence(s, marker, r.value - |marker|)
    ensures r.None? ==> !Contains(s, marker)
  {
    match FindFirst(s, marker, 0)
    case Some(p) => Some(p + |marker|)
    case None => None
  }

  // ---------------------------------------------------------------------------
  // The same sections, read as "first marker, then first terminator after it"
  // ---------------------------------------------------------------------------

  /** `s[a..q]` follows the first `marker` and ends at the first terminator in `alts` after it. */
  predicate IsSection(s: string, marker: string, alts: seq<string>, a: int, q: int) {
    |marker| <= a && IsFirstOccurrence(s, marker, a - |marker|) && IsFirstAnyFrom(s, alts, a, q)
  }

  /** Some occurrence of `marker` is followed, somewhere after it, by one of `alts`. */
  ghost predicate Followed(s: string, marker: string, alts: seq<string>) {
    exists p, q :: OccursAt(s, marker, p) && OccursAnyAt(s, alts, q) && p + |marker| <= q
  }

  /** The section bounded by the first `marker` at or after `from` and the first terminator after it. */
  function SectionFrom(s: string, marker: string, alts: seq<string>, from: nat): (r: Option<Span>)
  {
    match FindFirst(s, marker, from)
    case None => None
    case Some(p) =>
      match FindFirstAny(s, alts, p + |marker|)
      case None => None
      case Some(q) => Some(Span(p + |marker|, q))
  }

  /** The first section of the text: it exists exactly when `marker` is followed by a terminator. */
  function FirstSection(s: string, marker: string, alts: seq<string>): (r: Option<Span>)
    ensures r.Some? ==> IsSection(s, marker, alts, r.value.start, r.value.end)
    ensures r.Some? <==> Followed(s, marker, alts)
  {
    SectionFromWitness(s, marker, alts);
    SectionFrom(s, marker, alts, 0)
  }

  lemma SectionFromWitness(s: string, marker: string, alts: seq<string>)
    ensures var r := SectionFrom(s, marker, alts, 0);
      r.Some? ==> OccursAt(s, marker, r.value.start - |marker|) && OccursAnyAt(s, alts, r.value.end)
  {
  }

  /** There is at most one section: its bounds are fixed by the two "first" conditions. */
  lemma SectionUnique(s: string, marker: string, alts: seq<string>, a: int, q: int, a': int, q': int)
    requires IsSection(s, marker, alts, a, q) && IsSection(s, marker, alts, a', q')
    ensures a == a' && q == q'
  {
  }

  /** Once no terminator occurs from `from` on, no later start position can succeed. */
  lemma {:induction false} LazySearchFails(s: string, marker: string, alts: seq<string>, p: nat, from: nat)
    requires forall j :: from <= j ==> !OccursAnyAt(s, alts, j)
    requires from <= p + |marker|
    ensures LazyGroupSearch(s, marker, alts, p) == None
    decreases |s| + 1 - p
  {
    if p <= |s| {
      assert FindFirstAny(s, alts, p + |marker|).None?;
      LazySearchFails(s, marker, alts, p + 1, from);
    }
  }

  /** From any start position, the backtracking search finds the first-then-first section. */
  lemma {:induction false} LazySearchFrom(s: string, marker: string, alts: seq<string>, p: nat)
    ensures LazyGroupSearch(s, marker, alts, p) == SectionFrom(s, marker, alts, p)
    decreases |s| + 1 - p
  {
    FindFirstStep(s, marker, p);
    if p > |s| {
    } else if OccursAt(s, marker, p) {
      if FindFirstAny(s, alts, p + |marker|).None? {
        LazySearchFails(s, marker, alts, p + 1, p + |marker|);
      }
    } else {
      LazySearchFrom(s, marker, alts, p + 1);
    }
  }

  /** The regex, with its backtracking, selects the first marker and the first terminator after it. */
  lemma RegexIsFirstSection(s: string, marker: string, alts: seq<string>)
    ensures LazyGroupSearch(s, marker, alts, 0) == FirstSection(s, marker, alts)
  {
    LazySearchFrom(s, marker, alts, 0);
  }

  // ---------------------------------------------------------------------------
  // parse_analysis_response
  // ---------------------------------------------------------------------------

  /** `v` is the text between `a` and `q`, stripped. */
  predicate ReadsAs(s: string, a: int, q: int, v: string) {
    0 <= a <= q <= |s| && v == Strip(s[a..q])
  }

  /** `group(1).strip()` of the lazy regex, or the sentinel when it does not match. */
  function SectionText(s: string, marker: string, alts: seq<string>): (r: string)
    requires forall k :: 0 <= k < |alts| ==> |alts[k]| > 0
    ensures !Followed(s, marker, alts) ==> r == NA
    ensures forall a, q :: IsSection(s, marker, alts, a, q) ==> ReadsAs(s, a, q, r)
    ensures Trimmed(r)
    ensures forall k :: 0 <= k < |alts| ==> r == NA || !Contains(r, alts[k])
  {
    RegexIsFirstSection(s, marker, alts);
    match LazyGroupSearch(s, marker, alts, 0)
    case None => NA
    case Some(sp) =>
      SectionExcludesTerminators(s, alts, sp.start, sp.end);
      SectionPinned(s, marker, alts, sp.start, sp.end);
      Strip(s[sp.start..sp.end])
  }

  /** A section stops at the first terminator, so once stripped it holds none of them. */
  lemma SectionExcludesTerminators(s: string, alts: seq<string>, a: nat, q: nat)
    requires forall k :: 0 <= k < |alts| ==> |alts[k]| > 0
    requires a <= q <= |s|
    requires forall j :: a <= j < q ==> !OccursAnyAt(s, alts, j)
    ensures forall k :: 0 <= k < |alts| ==> !Contains(Strip(s[a..q]), alts[k])
  {
    forall k | 0 <= k < |alts|
      ensures !Contains(Strip(s[a..q]), alts[k])
    {
      forall j | a <= j < q
        ensures !OccursAt(s, alts[k], j)
      {
        assert !OccursAnyAt(s, alts, j);
      }
      SliceKeepsAbsence(s, a, q, alts[k]);
      StripKeepsAbsence(s[a..q], alts[k]);
    }
  }

  /** Every section coincides with the given one. */
  lemma SectionPinned(s: string, marker: string, alts: seq<string>, a: int, q: int)
    requires IsSection(s, marker, alts, a, q)
    ensures forall a', q' :: IsSection(s, marker, alts, a', q') ==> a' == a && q' == q
  {
    forall a', q' | IsSection(s, marker, alts, a', q')
      ensures a' == a && q' == q
    {
      SectionUnique(s, marker, alts, a, q, a', q');
    }
  }

  /**
   * `re.search(marker + "(.*)", s, re.DOTALL).group(1).strip()`, or the whole answer stripped
   * when `marker` is absent; the summary is this with `marker` = "Summary:".
   */
  function RestText(s: string, marker: string): (r: string)
    ensures !Contains(s, marker) ==> r == Strip(s)
    ensures forall p :: IsFirstOccurrence(s, marker, p) ==> ReadsAs(s, p + |marker|, |s|, r)
    ensures Trimmed(r)
  {
    match GreedyRestSearch(s, marker)
    case None =>
      Strip(s)
    case Some(g) =>
      RestFacts(s, marker, g);
      Strip(s[g..|s|])
  }

  /** So the rest after every first occurrence of `marker` is the rest after `g`. */
  lemma RestFacts(s: string, marker: string, g: int)
    ensures GreedyRestSearch(s, marker) == Some(g) ==> Contains(s, marker)
    ensures GreedyRestSearch(s, marker) == Some(g) ==>
      forall p :: IsFirstOccurrence(s, marker, p) ==> ReadsAs(s, p + |marker|, |s|, Strip(s[g..|s|]))
  {
    RestStart(s, marker, g);
    if GreedyRestSearch(s, marker) == Some(g) {
      ReadsFromStart(s, marker, g);
    }
  }

  /** If every first occurrence of `marker` ends at `g`, each reads the rest from `g`. */
  lemma ReadsFromStart(s: string, marker: string, g: int)
    requires 0 <= g <= |s| && forall p :: IsFirstOccurrence(s, marker, p) ==> p + |marker| == g
    ensures forall p :: IsFirstOccurrence(s, marker, p) ==> ReadsAs(s, p + |marker|, |s|, Strip(s[g..|s|]))
  {
  }

  /** When the search finds group 1 at `g`, every first occurrence of `marker` ends at `g`. */
  lemma RestStart(s: string, marker: string, g: int)
    ensures GreedyRestSearch(s, marker) == Some(g) ==>
      && Contains(s, marker) && 0 <= g <= |s|
      && forall p :: IsFirstOccurrence(s, marker, p) ==> p + |marker| == g
  {
    if GreedyRestSearch(s, marker) == Some(g) {
      ContainsAt(s, marker, g - |marker|);
      FirstOccurrencePinned(s, marker, g - |marker|);
    }
  }

  /** Splits the model's answer into its three labelled sections. */
  function ParseAnalysisResponse(text: string): (r: Analysis)
    ensures !Followed(text, TECHNICAL_LABEL, TECHNICAL_END) ==> r.technicalReason == NA
    ensures forall a, q :: IsSection(text, TECHNICAL_LABEL, TECHNICAL_END, a, q) ==> ReadsAs(text, a, q, r.technicalReason)
    ensures !Followed(text, NEWS_LABEL, NEWS_END) ==> r.newsReason == NA
    ensures forall a, q :: IsSection(text, NEWS_LABEL, NEWS_END, a, q) ==> ReadsAs(text, a, q, r.newsReason)
    ensures !Contains(text, SUMMARY_LABEL) ==> r.summary == Strip(text)
    ensures forall p :: IsFirstOccurrence(text, SUMMARY_LABEL, p) ==> ReadsAs(text, p + |SUMMARY_LABEL|, |text|, r.summary)
    ensures Trimmed(r.technicalReason) && Trimmed(r.newsReason) && Trimmed(r.summary)
    ensures !Contains(r.technicalReason, NEWS_LABEL) && !Contains(r.technicalReason, SUMMARY_LABEL)
    ensures !Contains(r.newsReason, SUMMARY_LABEL)
  {
    var technical := SectionText(text, TECHNICAL_LABEL, TECHNICAL_END);
    var news := SectionText(text, NEWS_LABEL, NEWS_END);
    assert TECHNICAL_END[0] == NEWS_LABEL && TECHNICAL_END[1] == SUMMARY_LABEL && NEWS_END[0] == SUMMARY_LABEL;
    assert !Contains(NA, NEWS_LABEL) && !Contains(NA, SUMMARY_LABEL);
    Analysis(technical, news, RestText(text, SUMMARY_LABEL))
  }

  /** The terminators of the technical section are "News-Based Reasoning:" and "Summary:". */
  lemma TechnicalEndAt(s: string, j: int)
    ensures OccursAnyAt(s, TECHNICAL_END, j) <==> OccursAt(s, NEWS_LABEL, j) || OccursAt(s, SUMMARY_LABEL, j)
  {
    assert TECHNICAL_END[0] == NEWS_LABEL && TECHNICAL_END[1] == SUMMARY_LABEL;
  }

  /** The terminator of the news section is "Summary:". */
  lemma NewsEndAt(s: string, j: int)
    ensures OccursAnyAt(s, NEWS_END, j) <==> OccursAt(s, SUMMARY_LABEL, j)
  {
    assert NEWS_END[0] == SUMMARY_LABEL;
  }

  /** Without "News-Based Reasoning:" and "Summary:", both reasons are the sentinel and the summary is the whole stripped answer. */
  lemma NoLabelsFallback(text: string)
    requires !Contains(text, NEWS_LABEL) && !Contains(text, SUMMARY_LABEL)
    ensures ParseAnalysisResponse(text) == Analysis(NA, NA, Strip(text))
  {
    if Followed(text, TECHNICAL_LABEL, TECHNICAL_END) {
      var p, q :| OccursAt(text, TECHNICAL_LABEL, p) && OccursAnyAt(text, TECHNICAL_END, q) && p + |TECHNICAL_LABEL| <= q;
      TechnicalEndAt(text, q);
      assert false;
    }
  }

  // ---------------------------------------------------------------------------
  // The answer format the prompt asks for, and its round trip
  // ---------------------------------------------------------------------------

  /** An answer laid out as the prompt requests: the three labels in order, each followed by its body. */
  function FormatAnswer(technical: string, news: string, summary: string): string {
    TECHNICAL_LABEL + technical + NEWS_LABEL + news + SUMMARY_LABEL + summary
  }

  /**
   * The letters that keep labels from straddling: "News-Based Reasoning:" and "Summary:" each
   * hold their first letter only once, and no label holds another's first letter.
   */
  lemma LabelLetters()
    ensures 'N' !in TECHNICAL_LABEL && 'S' !in TECHNICAL_LABEL && 'S' !in NEWS_LABEL
    ensures 'N' !in NEWS_LABEL[1..] && 'N' !in SUMMARY_LABEL[1..] && 'S' !in SUMMARY_LABEL[1..]
    ensures NEWS_LABEL[0] == 'N' && SUMMARY_LABEL[0] == 'S'
  {
    TechnicalLetters(TECHNICAL_LABEL);
    NewsLetters(NEWS_LABEL);
    SummaryLetters(SUMMARY_LABEL);
  }

  lemma TechnicalLetters(l: string)
    requires l == TECHNICAL_LABEL
    ensures 'N' !in l && 'S' !in l
  {
  }

  lemma NewsLetters(l: string)
    requires l == NEWS_LABEL
    ensures l[0] == 'N' && 'N' !in l[1..] && 'S' !in l
  {
    NewsInitial(l);
    NewsNoS(l);
  }

  lemma NewsInitial(l: string)
    requires l == NEWS_LABEL
    ensures l[0] == 'N' && 'N' !in l[1..]
  {
  }

  lemma NewsNoS(l: string)
    requires l == NEWS_LABEL
    ensures 'S' !in l
  {
  }

  lemma SummaryLetters(l: string)
    requires l == SUMMARY_LABEL
    ensures l[0] == 'S' && 'N' !in l[1..] && 'S' !in l[1..]
  {
  }

  /** The labels of a formatted answer sit where the layout puts them. */
  lemma LayoutLabels(a: string, b: string, c: string)
    ensures OccursAt(FormatAnswer(a, b, c), TECHNICAL_LABEL, 0)
    ensures OccursAt(FormatAnswer(a, b, c), NEWS_LABEL, |TECHNICAL_LABEL| + |a|)
    ensures OccursAt(FormatAnswer(a, b, c), SUMMARY_LABEL, |TECHNICAL_LABEL| + |a| + |NEWS_LABEL| + |b|)
  {
    var T, N, S := TECHNICAL_LABEL, NEWS_LABEL, SUMMARY_LABEL;
    var s2 := a + (N + (b + (S + c)));
    assert T + s2 == FormatAnswer(a, b, c);
    assert (T + s2)[0..|T|] == T;
    LayoutLabelsTail(a, b, c);
    OccursShift(T, s2, N, |a|);
    OccursShift(T, s2, S, |a| + |N| + |b|);
  }

  /** The layout after the technical label: the news label after `a`, the summary label after `b`. */
  lemma LayoutLabelsTail(a: string, b: string, c: string)
    ensures OccursAt(a + (NEWS_LABEL + (b + (SUMMARY_LABEL + c))), NEWS_LABEL, |a|)
    ensures OccursAt(a + (NEWS_LABEL + (b + (SUMMARY_LABEL + c))), SUMMARY_LABEL, |a| + |NEWS_LABEL| + |b|)
  {
    var N, S := NEWS_LABEL, SUMMARY_LABEL;
    var s5 := S + c;
    var s4 := b + s5;
    var s3 := N + s4;
    assert s3[0..|N|] == N && s5[0..|S|] == S;
    OccursShift(a, s3, N, 0);
    OccursShift(b, s5, S, 0);
    OccursShift(N, s4, S, |b|);
    OccursShift(a, s3, S, |N| + |b|);
  }

  /** A formatted answer has no "News-Based Reasoning:" before its own. */
  lemma LayoutNewsFirst(a: string, b: string, c: string)
    requires !Contains(a, NEWS_LABEL)
    ensures forall j :: 0 <= j < |TECHNICAL_LABEL| + |a| ==> !OccursAt(FormatAnswer(a, b, c), NEWS_LABEL, j)
  {
    var T, N, S := TECHNICAL_LABEL, NEWS_LABEL, SUMMARY_LABEL;
    var s3 := N + (b + (S + c));
    var s2 := a + s3;
    assert T + s2 == FormatAnswer(a, b, c);
    LabelLetters();
    assert s3[0] == 'N';
    NotInHead(T, s2, N);
    NotInPrefix(a, s3, N);
    NoneShift(T, s2, N, 0, |a|);
  }

  /** A formatted answer has no "Summary:" inside its technical part. */
  lemma LayoutSummaryNotTechnical(a: string, b: string, c: string)
    requires !Contains(a, SUMMARY_LABEL)
    ensures forall j :: 0 <= j < |TECHNICAL_LABEL| + |a| ==> !OccursAt(FormatAnswer(a, b, c), SUMMARY_LABEL, j)
  {
    var T, N, S := TECHNICAL_LABEL, NEWS_LABEL, SUMMARY_LABEL;
    var s3 := N + (b + (S + c));
    var s2 := a + s3;
    assert T + s2 == FormatAnswer(a, b, c);
    LabelLetters();
    assert s3[0] == 'N';
    NotInHead(T, s2, S);
    NotInPrefix(a, s3, S);
    NoneShift(T, s2, S, 0, |a|);
  }

  /** A formatted answer has no "Summary:" before its own. */
  lemma LayoutSummaryFirst(a: string, b: string, c: string)
    requires !Contains(a, SUMMARY_LABEL) && !Contains(b, SUMMARY_LABEL)
    ensures forall j :: 0 <= j < |TECHNICAL_LABEL| + |a| + |NEWS_LABEL| + |b| ==> !OccursAt(FormatAnswer(a, b, c), SUMMARY_LABEL, j)
  {
    var T, N, S := TECHNICAL_LABEL, NEWS_LABEL, SUMMARY_LABEL;
    var s5 := S + c;
    var s4 := b + s5;
    var s3 := N + s4;
    var s2 := a + s3;
    assert T + s2 == FormatAnswer(a, b, c);
    LabelLetters();
    assert s5[0] == 'S';
    LayoutSummaryNotTechnical(a, b, c);
    NotInHead(N, s4, S);
    NotInPrefix(b, s5, S);
    NoneShift(N, s4, S, 0, |b|);
    NoneShift(a, s3, S, 0, |N| + |b|);
    NoneShift(T, s2, S, |a|, |a| + |N| + |b|);
  }

  /** The bodies of a formatted answer sit between its labels. */
  lemma LayoutBodies(a: string, b: string, c: string)
    ensures var s := FormatAnswer(a, b, c);
      && s[|TECHNICAL_LABEL|..|TECHNICAL_LABEL| + |a|] == a
      && s[|TECHNICAL_LABEL| + |a| + |NEWS_LABEL|..|TECHNICAL_LABEL| + |a| + |NEWS_LABEL| + |b|] == b
      && s[|TECHNICAL_LABEL| + |a| + |NEWS_LABEL| + |b| + |SUMMARY_LABEL|..] == c
  {
    var p1 := TECHNICAL_LABEL + a;
    var p2 := p1 + NEWS_LABEL;
    var p3 := p2 + b;
    var p4 := p3 + SUMMARY_LABEL;
    var s := p4 + c;
    assert s == FormatAnswer(a, b, c);
    assert s[..|p3|] == p3 && s[..|p1|] == p1;
    assert p3[|p2|..] == b && p1[|TECHNICAL_LABEL|..] == a;
    assert s[|p4|..] == c;
  }

  /** The technical body of a formatted answer is what the technical regex captures. */
  lemma RoundTripTechnical(a: string, b: string, c: string)
    requires !Contains(a, NEWS_LABEL) && !Contains(a, SUMMARY_LABEL)
    ensures IsSection(FormatAnswer(a, b, c), TECHNICAL_LABEL, TECHNICAL_END, |TECHNICAL_LABEL|, |TECHNICAL_LABEL| + |a|)
  {
    var s := FormatAnswer(a, b, c);
    var pn := |TECHNICAL_LABEL| + |a|;
    LayoutLabels(a, b, c);
    LayoutNewsFirst(a, b, c);
    LayoutSummaryNotTechnical(a, b, c);
    forall j | |TECHNICAL_LABEL| <= j < pn
      ensures !OccursAnyAt(s, TECHNICAL_END, j)
    {
      TechnicalEndAt(s, j);
    }
    TechnicalEndAt(s, pn);
  }

  /** The news body of a formatted answer is what the news regex captures. */
  lemma RoundTripNews(a: string, b: string, c: string)
    requires !Contains(a, NEWS_LABEL) && !Contains(a, SUMMARY_LABEL)
    requires !Contains(b, SUMMARY_LABEL)
    ensures var pb := |TECHNICAL_LABEL| + |a| + |NEWS_LABEL|;
      IsSection(FormatAnswer(a, b, c), NEWS_LABEL, NEWS_END, pb, pb + |b|)
  {
    var s := FormatAnswer(a, b, c);
    var pb := |TECHNICAL_LABEL| + |a| + |NEWS_LABEL|;
    LayoutLabels(a, b, c);
    LayoutNewsFirst(a, b, c);
    LayoutSummaryFirst(a, b, c);
    forall j | pb <= j < pb + |b|
      ensures !OccursAnyAt(s, NEWS_END, j)
    {
      NewsEndAt(s, j);
    }
    NewsEndAt(s, pb + |b|);
  }

  /** An answer in the requested format parses back into its three bodies, stripped. */
  lemma ParseRoundTrip(a: string, b: string, c: string)
    requires !Contains(a, NEWS_LABEL) && !Contains(a, SUMMARY_LABEL)
    requires !Contains(b, SUMMARY_LABEL)
    ensures ParseAnalysisResponse(FormatAnswer(a, b, c)) == Analysis(Strip(a), Strip(b), Strip(c))
  {
    TechnicalReadsBack(a, b, c);
    NewsReadsBack(a, b, c);
    SummaryReadsBack(a, b, c);
  }

  lemma TechnicalReadsBack(a: string, b: string, c: string)
    requires !Contains(a, NEWS_LABEL) && !Contains(a, SUMMARY_LABEL)
    ensures SectionText(FormatAnswer(a, b, c), TECHNICAL_LABEL, TECHNICAL_END) == Strip(a)
  {
    RoundTripTechnical(a, b, c);
    LayoutBodies(a, b, c);
    SectionReads(FormatAnswer(a, b, c), TECHNICAL_LABEL, TECHNICAL_END, |TECHNICAL_LABEL|, |TECHNICAL_LABEL| + |a|, a);
  }

  lemma NewsReadsBack(a: string, b: string, c: string)
    requires !Contains(a, NEWS_LABEL) && !Contains(a, SUMMARY_LABEL)
    requires !Contains(b, SUMMARY_LABEL)
    ensures SectionText(FormatAnswer(a, b, c), NEWS_LABEL, NEWS_END) == Strip(b)
  {
    var pb := |TECHNICAL_LABEL| + |a| + |NEWS_LABEL|;
    RoundTripNews(a, b, c);
    LayoutBodies(a, b, c);
    SectionReads(FormatAnswer(a, b, c), NEWS_LABEL, NEWS_END, pb, pb + |b|, b);
  }

  lemma SummaryReadsBack(a: string, b: string, c: string)
    requires !Contains(a, SUMMARY_LABEL) && !Contains(b, SUMMARY_LABEL)
    ensures RestText(FormatAnswer(a, b, c), SUMMARY_LABEL) == Strip(c)
  {
    SummaryFirstAt(a, b, c);
    LayoutBodies(a, b, c);
    RestReads(FormatAnswer(a, b, c), SUMMARY_LABEL, |TECHNICAL_LABEL| + |a| + |NEWS_LABEL| + |b|, c);
  }

  /** A section whose body is `v` reads as `v` stripped. */
  lemma SectionReads(s: string, marker: string, alts: seq<string>, a: int, q: int, v: string)
    requires forall k :: 0 <= k < |alts| ==> |alts[k]| > 0
    requires IsSection(s, marker, alts, a, q) && 0 <= a <= q <= |s| && s[a..q] == v
    ensures SectionText(s, marker, alts) == Strip(v)
  {
    assert ReadsAs(s, a, q, SectionText(s, marker, alts));
  }

  /** A text whose first `marker` is followed by `v` reads as `v` stripped. */
  lemma RestReads(s: string, marker: string, p: int, v: string)
    requires IsFirstOccurrence(s, marker, p) && s[p + |marker|..|s|] == v
    ensures RestText(s, marker) == Strip(v)
  {
    assert ReadsAs(s, p + |marker|, |s|, RestText(s, marker));
  }

  /** The summary label of a formatted answer is its first "Summary:". */
  lemma SummaryFirstAt(a: string, b: string, c: string)
    requires !Contains(a, SUMMARY_LABEL) && !Contains(b, SUMMARY_LABEL)
    ensures IsFirstOccurrence(FormatAnswer(a, b, c), SUMMARY_LABEL, |TECHNICAL_LABEL| + |a| + |NEWS_LABEL| + |b|)
  {
    LayoutLabels(a, b, c);
    LayoutSummaryFirst(a, b, c);
  }

  // ---------------------------------------------------------------------------
  // The headline block of the prompt
  // ---------------------------------------------------------------------------

  /** One item of the news list: a mapping that may lack any of its keys. */
  datatype Article = Article(title: Option<string>, description: Option<string>, url: Option<string>)

  /** `f"- {title}: {description}"`. */
  function HeadlineLine(title: string, description: string): string {
    "- " + title + ": " + description
  }

  /** The lines of the headline block: one per article that has a title, in input order. */
  function HeadlineLines(news: seq<Article>): (lines: seq<string>)
    ensures |lines| <= |news|
    ensures |lines| == 0 <==> forall k :: 0 <= k < |news| ==> news[k].title.None?
    ensures forall k :: 0 <= k < |lines| ==> |lines[k]| >= 4 && lines[k][..2] == "- "
    decreases |news|
  {
    if |news| == 0 then []
    else
      var rest := HeadlineLines(news[1..]);
      assert forall k :: 1 <= k < |news| ==> news[k] == news[1..][k - 1];
      match news[0].title
      case Some(t) => [HeadlineLine(t, news[0].description.GetOr(""))] + rest
      case None => rest
  }

  /** The headline lines of a concatenation are the concatenation of the headline lines. */
  lemma {:induction false} HeadlineLinesAppend(x: seq<Article>, y: seq<Article>)
    ensures HeadlineLines(x + y) == HeadlineLines(x) + HeadlineLines(y)
    decreases |x|
  {
    if |x| == 0 {
      assert x + y == y;
    } else {
      assert (x + y)[0] == x[0];
      assert (x + y)[1..] == x[1..] + y;
      HeadlineLinesAppend(x[1..], y);
    }
  }

  /** A single article contributes its line exactly when it has a title; a missing description reads as "". */
  lemma HeadlineLinesSingle(item: Article)
    ensures item.title.Some? ==> HeadlineLines([item]) == [HeadlineLine(item.title.value, item.description.GetOr(""))]
    ensures item.title.None? ==> HeadlineLines([item]) == []
  {
    assert [item][1..] == [];
  }

  /** `"\n".join(...)` of the headline lines: the block the prompt lists under "News Headlines:". */
  function NewsText(news: seq<Article>): (r: string)
    ensures r == "" <==> forall k :: 0 <= k < |news| ==> news[k].title.None?
  {
    JoinWith(HeadlineLines(news), '\n')
  }

  /** No field of the article that reaches the prompt holds a line break. */
  predicate SingleLine(item: Article) {
    (item.title.Some? ==> '\n' !in item.title.value) && (item.description.Some? ==> '\n' !in item.description.value)
  }

  /** Headline lines built from single-line articles hold no line break. */
  lemma {:induction false} HeadlineLinesSingleLine(news: seq<Article>)
    requires forall k :: 0 <= k < |news| ==> SingleLine(news[k])
    ensures forall k :: 0 <= k < |HeadlineLines(news)| ==> '\n' !in HeadlineLines(news)[k]
    decreases |news|
  {
    if |news| > 0 {
      assert forall k :: 0 <= k < |news[1..]| ==> news[1..][k] == news[k + 1];
      HeadlineLinesSingleLine(news[1..]);
      var item := news[0];
      assert SingleLine(item);
      if item.title.Some? {
        var line := HeadlineLine(item.title.value, item.description.GetOr(""));
        assert '\n' !in "- " && '\n' !in ": ";
        assert '\n' !in line;
      }
    }
  }

  /** Splitting the headline block at line breaks gives back one line per titled article. */
  lemma NewsTextLines(news: seq<Article>)
    requires forall k :: 0 <= k < |news| ==> SingleLine(news[k])
    requires exists k :: 0 <= k < |news| && news[k].title.Some?
    ensures SplitOn(NewsText(news), '\n') == HeadlineLines(news)
  {
    HeadlineLinesSingleLine(news);
    SplitJoin(HeadlineLines(news), '\n');
  }

  // ---------------------------------------------------------------------------
  // analyze_stock: the call's outcomes
  // ---------------------------------------------------------------------------

  /** What the chat-completion call yields, as `analyze_stock` tells the cases apart. */
  datatype LlmReply =
    | Answered(content: string)         // choices[0].message.content
    | RequestFailed(detail: string)     // a requests exception (network, timeout, HTTP status), as str(e)
    | MissingKey                        // a KeyError while reading the response body
    | OtherFailure(detail: string)      // any other exception, as str(e)

  predicate StartsWith(s: string, prefix: string) {
    |prefix| <= |s| && s[..|prefix|] == prefix
  }

  /** The summary shapes of the three failure results. */
  predicate IsFailureSummary(s: string) {
    StartsWith(s, API_ERROR) || s == FORMAT_ERROR || StartsWith(s, PROCESSING_ERROR)
  }

  /** The analysis for one outcome of the call: the parsed answer, or a fixed failure result. */
  function AnalyzeStock(reply: LlmReply): (r: Analysis)
    ensures reply.Answered? ==> r == ParseAnalysisResponse(reply.content)
    ensures !reply.Answered? ==> r.technicalReason == NA && r.newsReason == NA && IsFailureSummary(r.summary)
    ensures reply.RequestFailed? ==> StartsWith(r.summary, API_ERROR) && r.summary[|API_ERROR|..] == reply.detail
    ensures reply.MissingKey? ==> r.summary == FORMAT_ERROR
    ensures reply.OtherFailure? ==> StartsWith(r.summary, PROCESSING_ERROR) && r.summary[|PROCESSING_ERROR|..] == reply.detail
  {
    match reply
    case Answered(content) => ParseAnalysisResponse(content)
    case RequestFailed(detail) => Analysis(NA, NA, API_ERROR + detail)
    case MissingKey => Analysis(NA, NA, FORMAT_ERROR)
    case OtherFailure(detail) => Analysis(NA, NA, PROCESSING_ERROR + detail)
  }

  /** Failure results tell their causes apart: distinct failures give distinct summaries. */
  lemma FailureResultsDistinct(f: LlmReply, g: LlmReply)
    requires !f.Answered? && !g.Answered?
    requires AnalyzeStock(f).summary == AnalyzeStock(g).summary
    ensures f == g
  {
    var s := AnalyzeStock(f).summary;
    assert API_ERROR[0] == 'A' && FORMAT_ERROR[0] == 'E' && PROCESSING_ERROR[0] == 'P';
    assert f.RequestFailed? ==> s[0] == 'A';
    assert f.MissingKey? ==> s[0] == 'E';
    assert f.OtherFailure? ==> s[0] == 'P';
    assert g.RequestFailed? ==> s[0] == 'A';
    assert g.MissingKey? ==> s[0] == 'E';
    assert g.OtherFailure? ==> s[0] == 'P';
  }
}
