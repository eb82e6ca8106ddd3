/**
 * The pieces of Python's `str` the agents and the page use, over `seq<char>`: `isspace`,
 * `strip`, `upper`, `split()`, `"\n".join`, and substring search. `split("\n")` is here only
 * as the inverse of the join, to state what the headline block holds.
 */
module Text {
  import opened Wrappers

  /** Python's `str.isspace()` for one character: the code points `strip()` and `split()` drop. */
  predicate IsSpace(c: char) {
    var n := c as int;
    || (9 <= n <= 13)          // \t \n \v \f \r
    || (28 <= n <= 32)         // \x1c .. \x1f and the space
    || n == 0x85 || n == 0xA0 || n == 0x1680
    || (0x2000 <= n <= 0x200A)
    || n == 0x2028 || n == 0x2029 || n == 0x202F || n == 0x205F || n == 0x3000
  }

  predicate AllSpace(s: string) {
    forall i :: 0 <= i < |s| ==> IsSpace(s[i])
  }

  predicate NoSpace(s: string) {
    forall i :: 0 <= i < |s| ==> !IsSpace(s[i])
  }

  /** Neither end of `s` is whitespace. */
  predicate Trimmed(s: string) {
    |s| == 0 || (!IsSpace(s[0]) && !IsSpace(s[|s| - 1]))
  }

  /** Blank prefix and suffix of `s` outside `s[lo..hi]`. */
  predicate BlankMargins(s: string, lo: int, hi: int) {
    0 <= lo <= hi <= |s| && AllSpace(s[..lo]) && AllSpace(s[hi..])
  }

  /** Where the core of `s` starts when scanning from `i`: the first non-blank index, or `|s|`. */
  function CoreStart(s: string, i: nat): (k: nat)
    requires i <= |s|
    ensures i <= k <= |s| && (k < |s| ==> !IsSpace(s[k]))
    ensures forall m :: i <= m < k ==> IsSpace(s[m])
    decreases |s| - i
  {
    if i < |s| && IsSpace(s[i]) then CoreStart(s, i + 1) else i
  }

  /** Where the core of `s[lo..j]` ends: one past its last non-blank index, or `lo`. */
  function CoreEnd(s: string, lo: nat, j: nat): (k: nat)
    requires lo <= j <= |s|
    ensures lo <= k <= j && (k > lo ==> !IsSpace(s[k - 1]))
    ensures forall m :: k <= m < j ==> IsSpace(s[m])
    decreases j
  {
    if j > lo && IsSpace(s[j - 1]) then CoreEnd(s, lo, j - 1) else j
  }

  /** `s.lstrip()`: the suffix of `s` left after dropping leading whitespace. */
  function StripLeft(s: string): (r: string)
    ensures |r| <= |s| && r == s[|s| - |r|..]
    ensures AllSpace(s[..|s| - |r|])
    ensures |r| > 0 ==> !IsSpace(r[0])
  {
    var k := CoreStart(s, 0);
    s[k..]
  }

  /** `s.strip()`: `s` without whitespace at either end. */
  function Strip(s: string): (r: string)
    ensures Trimmed(r)
    ensures exists i, j :: BlankMargins(s, i, j) && r == s[i..j]
  {
    var lo := CoreStart(s, 0);
    var hi := CoreEnd(s, lo, |s|);
    CoreMargins(s, lo, hi);
    s[lo..hi]
  }

  /** Blank runs before `lo` and after `hi`, with non-blank ends between, leave a trimmed core. */
  lemma CoreMargins(s: string, lo: int, hi: int)
    requires 0 <= lo <= hi <= |s|
    requires forall m :: 0 <= m < lo ==> IsSpace(s[m])
    requires forall m :: hi <= m < |s| ==> IsSpace(s[m])
    requires lo < |s| ==> !IsSpace(s[lo])
    requires hi > lo ==> !IsSpace(s[hi - 1])
    ensures BlankMargins(s, lo, hi) && Trimmed(s[lo..hi])
  {
  }

  /** The scan from `i` stops at the first non-blank index `k`. */
  lemma {:induction false} CoreStartAt(s: string, i: nat, k: nat)
    requires i <= k <= |s|
    requires forall m :: i <= m < k ==> IsSpace(s[m])
    requires k < |s| ==> !IsSpace(s[k])
    ensures CoreStart(s, i) == k
    decreases k - i
  {
    if i < k {
      CoreStartAt(s, i + 1, k);
    }
  }

  /** The scan back from `j` stops just after the last non-blank index `k - 1`. */
  lemma {:induction false} CoreEndAt(s: string, lo: nat, j: nat, k: nat)
    requires lo <= k <= j <= |s|
    requires forall m :: k <= m < j ==> IsSpace(s[m])
    requires k > lo ==> !IsSpace(s[k - 1])
    ensures CoreEnd(s, lo, j) == k
    decreases j - k
  {
    if k < j {
      CoreEndAt(s, lo, j - 1, k);
    }
  }

  /** `strip()` is determined by its result: a trimmed core between blank margins. */
  lemma StripOfPadded(p: string, r: string, q: string)
    requires AllSpace(p) && AllSpace(q) && Trimmed(r)
    ensures Strip(p + r + q) == r
  {
    var x := p + r + q;
    assert forall m :: 0 <= m < |p| ==> x[m] == p[m];
    assert forall m :: |p| + |r| <= m < |x| ==> x[m] == q[m - |p| - |r|];
    if |r| == 0 {
      CoreStartAt(x, 0, |x|);
      CoreEndAt(x, |x|, |x|, |x|);
    } else {
      assert x[|p|] == r[0] && x[|p| + |r| - 1] == r[|r| - 1];
      CoreStartAt(x, 0, |p|);
      CoreEndAt(x, |p|, |x|, |p| + |r|);
      assert x[|p|..|p| + |r|] == r;
    }
  }

  /** `strip()` is idempotent. */
  lemma StripIdempotent(s: string)
    ensures Strip(Strip(s)) == Strip(s)
  {
    var r := Strip(s);
    assert [] + r + [] == r;
    StripOfPadded([], r, []);
  }

  /** ASCII upper-casing of one character; every other character is left alone. */
  function UpperChar(c: char): char {
    if 'a' <= c <= 'z' then (c as int - 32) as char else c
  }

  /** `s.upper()` restricted to ASCII letters. */
  function Upper(s: string): (r: string)
    ensures |r| == |s|
    ensures forall i :: 0 <= i < |s| ==> r[i] == UpperChar(s[i])
  {
    if |s| == 0 then [] else [UpperChar(s[0])] + Upper(s[1..])
  }

  lemma UpperIdempotent(s: string)
    ensures Upper(Upper(s)) == Upper(s)
  {
    var u := Upper(s);
    assert forall i :: 0 <= i < |u| ==> Upper(u)[i] == u[i];
  }

  lemma UpperAppend(a: string, b: string)
    ensures Upper(a + b) == Upper(a) + Upper(b)
  {
    assert forall i :: 0 <= i < |a + b| ==> Upper(a + b)[i] == (Upper(a) + Upper(b))[i];
  }

  // ---------------------------------------------------------------------------
  // Substring search
  // ---------------------------------------------------------------------------

  /** `pat` occurs in `s` starting at index `i`. */
  predicate OccursAt(s: string, pat: string, i: int) {
    0 <= i && i + |pat| <= |s| && s[i..i + |pat|] == pat
  }

  /** One of the alternatives `alts` (a regex alternation `a|b|…`) occurs at `i`. */
  predicate OccursAnyAt(s: string, alts: seq<string>, i: int) {
    exists k :: 0 <= k < |alts| && OccursAt(s, alts[k], i)
  }

  /** `p` is where the leftmost occurrence of `pat` in `s` starts. */
  predicate IsFirstOccurrence(s: string, pat: string, p: int) {
    OccursAt(s, pat, p) && forall j :: 0 <= j < p ==> !OccursAt(s, pat, j)
  }

  /** `q` is the leftmost position at or after `from` where one of `alts` occurs. */
  predicate IsFirstAnyFrom(s: string, alts: seq<string>, from: int, q: int) {
    from <= q <= |s| && OccursAnyAt(s, alts, q) && forall j :: from <= j < q ==> !OccursAnyAt(s, alts, j)
  }

  /** There is only one leftmost occurrence. */
  lemma FirstOccurrencePinned(s: string, pat: string, p: int)
    requires IsFirstOccurrence(s, pat, p)
    ensures forall p' :: IsFirstOccurrence(s, pat, p') ==> p' == p
  {
  }

  /** An occurrence makes `pat in s` true. */
  lemma ContainsAt(s: string, pat: string, i: int)
    requires OccursAt(s, pat, i)
    ensures Contains(s, pat)
  {
  }

  /** `s.find(pat, from)`, as an option: the leftmost occurrence at or after `from`. */
  function FindFirst(s: string, pat: string, from: nat): (r: Option<nat>)
    ensures r.Some? ==> from <= r.value && OccursAt(s, pat, r.value)
    ensures r.Some? ==> forall j :: from <= j < r.value ==> !OccursAt(s, pat, j)
    ensures r.None? ==> forall j :: from <= j ==> !OccursAt(s, pat, j)
    decreases |s| - from
  {
    if from + |pat| > |s| then None
    else if OccursAt(s, pat, from) then Some(from)
    else FindFirst(s, pat, from + 1)
  }

  /** The search stops at an occurrence and otherwise moves on by one. */
  lemma FindFirstStep(s: string, pat: string, from: nat)
    ensures OccursAt(s, pat, from) ==> FindFirst(s, pat, from) == Some(from)
    ensures !OccursAt(s, pat, from) ==> FindFirst(s, pat, from) == FindFirst(s, pat, from + 1)
  {
  }

  /** The leftmost position at or after `from` where one of `alts` occurs. */
  function FindFirstAny(s: string, alts: seq<string>, from: nat): (r: Option<nat>)
    ensures r.Some? ==> IsFirstAnyFrom(s, alts, from, r.value)
    ensures r.None? ==> forall j :: from <= j ==> !OccursAnyAt(s, alts, j)
    decreases |s| + 1 - from
  {
    if from > |s| then None
    else if OccursAnyAt(s, alts, from) then Some(from)
    else FindFirstAny(s, alts, from + 1)
  }

  /** Python's `pat in s`. */
  function Contains(s: string, pat: string): (b: bool)
    ensures b <==> exists i :: OccursAt(s, pat, i)
  {
    FindFirst(s, pat, 0).Some?
  }

  /** An occurrence in `x + y` that starts in `x` either lies inside `x` or crosses into `y`. */
  lemma NotInPrefix(x: string, y: string, pat: string)
    requires |pat| > 0
    requires !Contains(x, pat)
    requires |y| > 0 ==> y[0] !in pat[1..]
    ensures forall j :: 0 <= j < |x| ==> !OccursAt(x + y, pat, j)
  {
    forall j | 0 <= j < |x|
      ensures !OccursAt(x + y, pat, j)
    {
      if j + |pat| <= |x| {
        assert (x + y)[j..j + |pat|] == x[j..j + |pat|];
        assert !OccursAt(x, pat, j);
      } else if j + |pat| <= |x + y| {
        var k := |x| - j;
        assert (x + y)[j..j + |pat|][k] == y[0];
        assert pat[k] == pat[1..][k - 1] && pat[1..][k - 1] in pat[1..];
      }
    }
  }

  /** No occurrence of `pat` can start inside `x` when `x` lacks `pat`'s first character. */
  lemma NotInHead(x: string, y: string, pat: string)
    requires |pat| > 0 && pat[0] !in x
    ensures forall j :: 0 <= j < |x| ==> !OccursAt(x + y, pat, j)
  {
    forall j | 0 <= j < |x| && j + |pat| <= |x + y|
      ensures !OccursAt(x + y, pat, j)
    {
      assert (x + y)[j..j + |pat|][0] == x[j];
    }
  }

  /** Occurrences in `y` are the occurrences in `x + y` shifted by `|x|`. */
  lemma OccursShift(x: string, y: string, pat: string, j: int)
    requires 0 <= j
    ensures OccursAt(x + y, pat, |x| + j) <==> OccursAt(y, pat, j)
  {
    if j + |pat| <= |y| {
      assert (x + y)[|x| + j..|x| + j + |pat|] == y[j..j + |pat|];
    }
  }

  /** A range free of occurrences in `y` stays free once `x` is put in front. */
  lemma NoneShift(x: string, y: string, pat: string, lo: int, hi: int)
    requires 0 <= lo
    requires forall j :: lo <= j < hi ==> !OccursAt(y, pat, j)
    ensures forall j :: |x| + lo <= j < |x| + hi ==> !OccursAt(x + y, pat, j)
  {
    forall j | |x| + lo <= j < |x| + hi
      ensures !OccursAt(x + y, pat, j)
    {
      OccursShift(x, y, pat, j - |x|);
    }
  }

  /** A slice of a text free of `pat` is itself free of `pat`. */
  lemma SliceKeepsAbsence(s: string, lo: int, hi: int, pat: string)
    requires 0 <= lo <= hi <= |s| && |pat| > 0
    requires forall j :: lo <= j < hi ==> !OccursAt(s, pat, j)
    ensures !Contains(s[lo..hi], pat)
  {
    forall j | 0 <= j && j + |pat| <= hi - lo
      ensures !OccursAt(s[lo..hi], pat, j)
    {
      var u, v := s[lo..hi][j..j + |pat|], s[lo + j..lo + j + |pat|];
      assert forall m :: 0 <= m < |pat| ==> u[m] == v[m];
      assert u == v;
      assert !OccursAt(s, pat, lo + j);
    }
  }

  /** The stripped form of a text lacking `pat` lacks `pat` too. */
  lemma StripKeepsAbsence(s: string, pat: string)
    requires |pat| > 0 && !Contains(s, pat)
    ensures !Contains(Strip(s), pat)
  {
    var r := Strip(s);
    var i, j :| BlankMargins(s, i, j) && r == s[i..j];
    SliceKeepsAbsence(s, i, j, pat);
  }

  // ---------------------------------------------------------------------------
  // Case-insensitive matching
  // ---------------------------------------------------------------------------

  /** `w` (given in upper case) matches `s` at `i` when letter case is ignored. */
  predicate MatchesIgnoringCaseAt(s: string, w: string, i: int) {
    0 <= i && i + |w| <= |s| && forall k :: 0 <= k < |w| ==> UpperChar(s[i + k]) == w[k]
  }

  ghost predicate MentionsIgnoringCase(s: string, w: string) {
    exists i :: MatchesIgnoringCaseAt(s, w, i)
  }

  /** Searching the upper-cased text is searching the original text without regard to case. */
  lemma UpperOccursIff(s: string, w: string)
    ensures Contains(Upper(s), w) <==> MentionsIgnoringCase(s, w)
  {
    var u := Upper(s);
    forall i | 0 <= i && i + |w| <= |s|
      ensures OccursAt(u, w, i) <==> MatchesIgnoringCaseAt(s, w, i)
    {
      var slice := u[i..i + |w|];
      assert forall k :: 0 <= k < |w| ==> slice[k] == UpperChar(s[i + k]);
    }
    if MentionsIgnoringCase(s, w) {
      var i :| MatchesIgnoringCaseAt(s, w, i);
      assert OccursAt(u, w, i);
    }
  }

  // ---------------------------------------------------------------------------
  // Splitting and joining
  // ---------------------------------------------------------------------------

  /** The longest prefix of `s` holding no whitespace. */
  function TakeWord(s: string): (w: string)
    ensures |w| <= |s| && w == s[..|w|] && NoSpace(w)
    ensures |w| < |s| ==> IsSpace(s[|w|])
    ensures |s| > 0 && !IsSpace(s[0]) ==> |w| > 0
  {
    if |s| == 0 || IsSpace(s[0]) then [] else [s[0]] + TakeWord(s[1..])
  }

  /** A token of `split()`: non-empty and free of whitespace. */
  predicate IsWord(w: string) {
    |w| > 0 && NoSpace(w)
  }

  /** `s.split()`: the maximal runs of non-whitespace, in order. */
  function Split(s: string): (words: seq<string>)
    ensures forall k :: 0 <= k < |words| ==> IsWord(words[k])
    decreases |s|
  {
    var t := StripLeft(s);
    if |t| == 0 then []
    else
      var w := TakeWord(t);
      var rest := Split(t[|w|..]);
      WordsCons(w, rest);
      [w] + rest
  }

  lemma WordsCons(w: string, rest: seq<string>)
    ensures IsWord(w) && (forall k :: 0 <= k < |rest| ==> IsWord(rest[k]))
      ==> forall k :: 0 <= k < |[w] + rest| ==> IsWord(([w] + rest)[k])
  {
  }

  /** `s.split()` is empty exactly for blank text. */
  lemma SplitEmptyIffBlank(s: string)
    ensures Split(s) == [] <==> AllSpace(s)
  {
  }

  /** `t` is the first whitespace-delimited token of `s`: blanks, then `t`, then a blank or the end. */
  predicate IsFirstToken(s: string, t: string) {
    exists i :: 0 <= i <= |s| && TokenAt(s, t, i)
  }

  /** `t` sits at `i` in `s` with only blanks before it and a blank or the end after it. */
  predicate TokenAt(s: string, t: string, i: int) {
    0 <= i <= |s| - |t| && AllSpace(s[..i]) && s[i..i + |t|] == t && (i + |t| == |s| || IsSpace(s[i + |t|]))
  }

  /** The first element of `s.split()` is the first maximal token of `s`. */
  lemma SplitHead(s: string)
    requires !AllSpace(s)
    ensures |Split(s)| > 0 && IsFirstToken(s, Split(s)[0])
  {
    var t := StripLeft(s);
    var w := TakeWord(t);
    SomethingLeft(s, t);
    SplitFront(s, t, w);
    HeadToken(s, t, w, Split(s));
  }

  /** A word list headed by the word at the front of the stripped text is headed by the first token. */
  lemma HeadToken(s: string, t: string, w: string, words: seq<string>)
    requires |t| <= |s| && t == s[|s| - |t|..] && AllSpace(s[..|s| - |t|])
    requires |w| <= |t| && w == t[..|w|] && (|w| < |t| ==> IsSpace(t[|w|]))
    requires |words| > 0 && words[0] == w
    ensures IsFirstToken(s, words[0])
  {
    WordInPlace(s, t, w, |s| - |t|);
    TokenIsFirst(s, words, w, |s| - |t|);
  }

  /** Text that is not blank keeps something after its blank prefix. */
  lemma SomethingLeft(s: string, t: string)
    requires !AllSpace(s)
    requires |t| <= |s| && AllSpace(s[..|s| - |t|])
    ensures |t| > 0
  {
  }

  /** With something left after the blanks, the split starts with the word at its front. */
  lemma SplitFront(s: string, t: string, w: string)
    requires t == StripLeft(s) && w == TakeWord(t) && |t| > 0
    ensures |Split(s)| > 0 && Split(s)[0] == w
  {
  }

  /** A word list headed by a token that has only blanks before it is headed by the first token. */
  lemma TokenIsFirst(s: string, words: seq<string>, w: string, i: int)
    requires |words| > 0 && words[0] == w && TokenAt(s, w, i)
    ensures IsFirstToken(s, words[0])
  {
  }

  /**
   * `split()` peels words off the front: a word sitting at the start of `s` between blanks is
   * the first element, and the rest is the split of what follows it.
   */
  lemma SplitAtToken(s: string, w: string, i: int)
    requires IsWord(w) && TokenAt(s, w, i)
    ensures Split(s) == [w] + Split(s[i + |w|..])
  {
    var t := StripLeft(s);
    FrontWord(s, w, i);
    var rest := t[|w|..];
    assert rest == s[i + |w|..] by {
      assert t == s[i..];
    }
    assert Split(s) == [w] + Split(rest);
  }

  /** A word at the start of `s` between blanks is what `lstrip` exposes and `TakeWord` takes. */
  lemma FrontWord(s: string, w: string, i: int)
    requires IsWord(w) && TokenAt(s, w, i)
    ensures |StripLeft(s)| > 0 && i == |s| - |StripLeft(s)| && TakeWord(StripLeft(s)) == w
  {
    var t := StripLeft(s);
    TokenAtFront(s, w, i, t, TakeWord(t));
  }

  /** The same, stated over what `lstrip` and `TakeWord` promise rather than over the calls. */
  lemma TokenAtFront(s: string, w: string, i: int, t: string, u: string)
    requires IsWord(w) && TokenAt(s, w, i)
    requires |t| <= |s| && t == s[|s| - |t|..] && AllSpace(s[..|s| - |t|]) && (|t| > 0 ==> !IsSpace(t[0]))
    requires |u| <= |t| && u == t[..|u|] && NoSpace(u) && (|u| < |t| ==> IsSpace(t[|u|]))
    requires |t| > 0 && !IsSpace(t[0]) ==> |u| > 0
    ensures |t| > 0 && i == |s| - |t| && u == w
  {
    var j := |s| - |t|;
    SliceIndex(s, i, w, 0);
    NoSpaceAt(w, 0);
    BlankPrefixAt(s, j, i);
    if |t| == 0 {
      assert false;
    }
    WordInPlace(s, t, u, j);
    TokenStartUnique(s, w, u, i, j);
    TokenLengthUnique(s, w, u, i);
    assert w == s[i..i + |w|] == u;
  }

  /** The word taken from the stripped text is a token of the original text. */
  lemma WordInPlace(s: string, t: string, w: string, i: int)
    requires |t| <= |s| && i == |s| - |t| && t == s[i..] && AllSpace(s[..i])
    requires |w| <= |t| && w == t[..|w|] && (|w| < |t| ==> IsSpace(t[|w|]))
    ensures TokenAt(s, w, i)
  {
    assert s[i..i + |w|] == t[..|w|];
    if i + |w| < |s| {
      assert s[i + |w|] == t[|w|];
    }
  }

  /** A text has at most one first token: the blanks before it and the blank after it pin it down. */
  lemma FirstTokenUnique(s: string, t: string, u: string)
    requires IsWord(t) && IsWord(u)
    requires IsFirstToken(s, t) && IsFirstToken(s, u)
    ensures t == u
  {
    var i :| TokenAt(s, t, i);
    var j :| TokenAt(s, u, j);
    TokenStartUnique(s, t, u, i, j);
    TokenLengthUnique(s, t, u, i);
    assert t == s[i..i + |t|];
  }

  /** Two words that each have only blanks before them start at the same place. */
  lemma TokenStartUnique(s: string, t: string, u: string, i: int, j: int)
    requires IsWord(t) && IsWord(u)
    requires TokenAt(s, t, i) && TokenAt(s, u, j)
    ensures i == j
  {
    BlankPrefixAt(s, j, i);
    BlankPrefixAt(s, i, j);
    SliceIndex(s, i, t, 0);
    SliceIndex(s, j, u, 0);
    NoSpaceAt(t, 0);
    NoSpaceAt(u, 0);
  }

  /** Two words at the same place that each end at a blank or the end have the same length. */
  lemma TokenLengthUnique(s: string, t: string, u: string, i: int)
    requires IsWord(t) && IsWord(u)
    requires TokenAt(s, t, i) && TokenAt(s, u, i)
    ensures |t| == |u|
  {
    SliceIndex(s, i, t, |u|);
    SliceIndex(s, i, u, |t|);
    NoSpaceAt(u, |t|);
    NoSpaceAt(t, |u|);
  }

  lemma NoSpaceAt(w: string, k: int)
    ensures NoSpace(w) && 0 <= k < |w| ==> !IsSpace(w[k])
  {
  }

  lemma SliceIndex(s: string, lo: int, w: string, k: int)
    ensures 0 <= lo && lo + |w| <= |s| && s[lo..lo + |w|] == w && 0 <= k < |w| ==> s[lo + k] == w[k]
  {
  }

  lemma BlankPrefixAt(s: string, n: int, k: int)
    ensures 0 <= k < n <= |s| && AllSpace(s[..n]) ==> IsSpace(s[k])
  {
    if 0 <= k < n <= |s| && AllSpace(s[..n]) {
      assert s[..n][k] == s[k];
    }
  }

  /** `s.split(sep)` for a one-character separator: the pieces between separators, empty ones kept. */
  function SplitOn(s: string, sep: char): (parts: seq<string>)
    ensures |parts| >= 1
    decreases |s|
  {
    if |s| == 0 then [""]
    else
      var rest := SplitOn(s[1..], sep);
      if s[0] == sep then [""] + rest else [[s[0]] + rest[0]] + rest[1..]
  }

  /** `sep.join(parts)` for a one-character separator. */
  function JoinWith(parts: seq<string>, sep: char): (s: string)
    ensures |parts| == 0 ==> s == ""
    ensures |parts| > 0 ==> |s| >= |parts[0]| && s[..|parts[0]|] == parts[0]
    decreases |parts|
  {
    if |parts| == 0 then ""
    else if |parts| == 1 then parts[0]
    else parts[0] + [sep] + JoinWith(parts[1..], sep)
  }

  /** A piece without the separator, then the separator, splits off exactly that piece. */
  lemma {:induction false} SplitOnPiece(x: string, sep: char, y: string)
    requires sep !in x
    ensures SplitOn(x + [sep] + y, sep) == [x] + SplitOn(y, sep)
    ensures SplitOn(x, sep) == [x]
    decreases |x|
  {
    if |x| == 0 {
      assert x + [sep] + y == [sep] + y;
      assert ([sep] + y)[1..] == y;
    } else {
      assert (x + [sep] + y)[1..] == x[1..] + [sep] + y;
      SplitOnPiece(x[1..], sep, y);
      assert [x[0]] + x[1..] == x;
    }
  }

  /** Splitting undoes joining when no piece holds the separator. */
  lemma {:induction false} SplitJoin(parts: seq<string>, sep: char)
    requires |parts| > 0
    requires forall k :: 0 <= k < |parts| ==> sep !in parts[k]
    ensures SplitOn(JoinWith(parts, sep), sep) == parts
    decreases |parts|
  {
    if |parts| == 1 {
      SplitOnPiece(parts[0], sep, "");
    } else {
      SplitJoin(parts[1..], sep);
      SplitOnPiece(parts[0], sep, JoinWith(parts[1..], sep));
      assert [parts[0]] + parts[1..] == parts;
    }
  }
}
