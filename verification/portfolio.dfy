/**
 * The portfolio tracker: an append-only ledger of decisions kept in one CSV file. The file is
 * modelled as `Option<seq<Row>>` (absent, or present with its rows in file order) and the clock
 * reading as a parameter.
 */
module PortfolioTracker {
  import opened Wrappers

  /** The column header of the ledger, in file order. */
  const COLUMNS: seq<string> := ["DateTime", "Stock", "Price", "Decision"]

  /** A wall-clock reading, as `datetime.now()` gives it. */
  datatype Timestamp = Timestamp(year: int, month: int, day: int, hour: int, minute: int, second: int)

  /** The readings the four-digit year format covers. */
  predicate ValidTimestamp(t: Timestamp) {
    && 1000 <= t.year <= 9999
    && 1 <= t.month <= 12
    && 1 <= t.day <= 31
    && 0 <= t.hour <= 23
    && 0 <= t.minute <= 59
    && 0 <= t.second <= 59
  }

  /** `t` comes strictly before `u` on the clock. */
  predicate Before(t: Timestamp, u: Timestamp) {
    || t.year < u.year
    || (t.year == u.year && t.month < u.month)
    || (t.year == u.year && t.month == u.month && t.day < u.day)
    || (t.year == u.year && t.month == u.month && t.day == u.day && t.hour < u.hour)
    || (t.year == u.year && t.month == u.month && t.day == u.day && t.hour == u.hour && t.minute < u.minute)
    || (t.year == u.year && t.month == u.month && t.day == u.day && t.hour == u.hour && t.minute == u.minute
        && t.second < u.second)
  }

  function Digit(n: int): char
    requires 0 <= n <= 9
  {
    ('0' as int + n) as char
  }

  predicate IsDigit(c: char) {
    '0' <= c <= '9'
  }

  function DigitValue(c: char): (n: nat)
    requires IsDigit(c)
    ensures n <= 9
  {
    c as int - '0' as int
  }

  lemma DigitRoundTrip(n: int)
    requires 0 <= n <= 9
    ensures IsDigit(Digit(n)) && DigitValue(Digit(n)) == n
  {
  }

  /** A number below 100 written with two digits, zero-padded. */
  function Pad2(n: int): string
    requires 0 <= n <= 99
  {
    [Digit(n / 10), Digit(n % 10)]
  }

  /** A number below 10000 written with four digits, zero-padded. */
  function Pad4(n: int): string
    requires 0 <= n <= 9999
  {
    Pad2(n / 100) + Pad2(n % 100)
  }

  /** `strftime("%Y-%m-%d %H:%M:%S")`: nineteen characters, fields zero-padded and most significant first. */
  function FormatTimestamp(t: Timestamp): (r: string)
    requires ValidTimestamp(t)
    ensures |r| == 19
    ensures r[4] == '-' && r[7] == '-' && r[10] == ' ' && r[13] == ':' && r[16] == ':'
  {
    Pad4(t.year) + ("-" + (Pad2(t.month) + ("-" + (Pad2(t.day) + (" " +
      (Pad2(t.hour) + (":" + (Pad2(t.minute) + (":" + Pad2(t.second))))))))))
  }

  /** The number a string of decimal digits spells. */
  function DigitsValue(s: string): (n: nat)
    requires forall i :: 0 <= i < |s| ==> IsDigit(s[i])
  {
    if |s| == 0 then 0 else DigitsValue(s[..|s| - 1]) * 10 + DigitValue(s[|s| - 1])
  }

  predicate AllDigits(s: string, lo: int, hi: int)
    requires 0 <= lo <= hi <= |s|
  {
    forall i :: lo <= i < hi ==> IsDigit(s[i])
  }

  /** Reads a `DateTime` cell back: the reference inverse of the timestamp format. */
  function ParseTimestamp(s: string): (r: Option<Timestamp>)
    ensures r.Some? ==> |s| == 19
  {
    if |s| == 19 && s[4] == '-' && s[7] == '-' && s[10] == ' ' && s[13] == ':' && s[16] == ':'
      && AllDigits(s, 0, 4) && AllDigits(s, 5, 7) && AllDigits(s, 8, 10)
      && AllDigits(s, 11, 13) && AllDigits(s, 14, 16) && AllDigits(s, 17, 19)
    then
      Some(Timestamp(DigitsValue(s[0..4]), DigitsValue(s[5..7]), DigitsValue(s[8..10]),
        DigitsValue(s[11..13]), DigitsValue(s[14..16]), DigitsValue(s[17..19])))
    else
      None
  }

  lemma Pad2Value(n: int)
    requires 0 <= n <= 99
    ensures forall i :: 0 <= i < 2 ==> IsDigit(Pad2(n)[i])
    ensures DigitsValue(Pad2(n)) == n
  {
    var s := Pad2(n);
    DigitRoundTrip(n / 10);
    DigitRoundTrip(n % 10);
    assert s[..1] == [Digit(n / 10)];
    assert s[..1][..0] == [];
    assert DigitsValue(s[..1]) == n / 10;
  }

  lemma Pad4Value(n: int)
    requires 0 <= n <= 9999
    ensures forall i :: 0 <= i < 4 ==> IsDigit(Pad4(n)[i])
    ensures DigitsValue(Pad4(n)) == n
  {
    var s := Pad4(n);
    var a, b := Pad2(n / 100), Pad2(n % 100);
    Pad2Value(n / 100);
    Pad2Value(n % 100);
    assert s[..3] == a + [b[0]];
    assert s[..3][..2] == a;
    assert DigitsValue(s[..3]) == DigitsValue(a) * 10 + DigitValue(b[0]);
    assert b[..1] == [b[0]];
    assert DigitsValue(b) == DigitsValue(b[..1]) * 10 + DigitValue(b[1]);
    assert b[..1][..0] == [];
  }

  /** Writing a timestamp and reading it back gives the timestamp again. */
  lemma ParseFormat(t: Timestamp)
    requires ValidTimestamp(t)
    ensures ParseTimestamp(FormatTimestamp(t)) == Some(t)
  {
    var s := FormatTimestamp(t);
    Pad4Value(t.year);
    Pad2Value(t.month);
    Pad2Value(t.day);
    Pad2Value(t.hour);
    Pad2Value(t.minute);
    Pad2Value(t.second);
    assert s[0..4] == Pad4(t.year);
    assert s[5..7] == Pad2(t.month);
    assert s[8..10] == Pad2(t.day);
    assert s[11..13] == Pad2(t.hour);
    assert s[14..16] == Pad2(t.minute);
    assert s[17..19] == Pad2(t.second);
  }

  /** A cell that reads back as a timestamp is exactly that timestamp's text. */
  lemma FormatParse(s: string, t: Timestamp)
    requires ParseTimestamp(s) == Some(t) && ValidTimestamp(t)
    ensures FormatTimestamp(t) == s
  {
    ParseFormat(t);
    var f := FormatTimestamp(t);
    DigitsInjective(s[0..4], f[0..4]);
    DigitsInjective(s[5..7], f[5..7]);
    DigitsInjective(s[8..10], f[8..10]);
    DigitsInjective(s[11..13], f[11..13]);
    DigitsInjective(s[14..16], f[14..16]);
    DigitsInjective(s[17..19], f[17..19]);
    assert s == s[0..4] + [s[4]] + s[5..7] + [s[7]] + s[8..10] + [s[10]] + s[11..13] + [s[13]]
      + s[14..16] + [s[16]] + s[17..19];
    assert f == f[0..4] + [f[4]] + f[5..7] + [f[7]] + f[8..10] + [f[10]] + f[11..13] + [f[13]]
      + f[14..16] + [f[16]] + f[17..19];
  }

  /** Digit strings of one length spell the same number only when they are equal. */
  lemma {:induction false} DigitsInjective(a: string, b: string)
    requires |a| == |b|
    requires forall i :: 0 <= i < |a| ==> IsDigit(a[i])
    requires forall i :: 0 <= i < |b| ==> IsDigit(b[i])
    requires DigitsValue(a) == DigitsValue(b)
    ensures a == b
  {
    if |a| > 0 {
      var n := |a| - 1;
      var x, y := DigitValue(a[n]), DigitValue(b[n]);
      assert DigitsValue(a) == DigitsValue(a[..n]) * 10 + x;
      assert DigitsValue(b) == DigitsValue(b[..n]) * 10 + y;
      assert x == y && DigitsValue(a[..n]) == DigitsValue(b[..n]);
      DigitsInjective(a[..n], b[..n]);
      assert a == a[..n] + [a[n]] && b == b[..n] + [b[n]];
    }
  }

  /** Python's `<` on strings: code-point order, position by position, a proper prefix first. */
  predicate LexLess(a: string, b: string) {
    if |a| == 0 then |b| > 0
    else |b| > 0 && (a[0] < b[0] || (a[0] == b[0] && LexLess(a[1..], b[1..])))
  }

  /** Comparing concatenations of equally long heads: the heads decide unless they are equal. */
  lemma {:induction false} LexAppend(a: string, b: string, c: string, d: string)
    requires |a| == |c|
    ensures LexLess(a + b, c + d) <==> LexLess(a, c) || (a == c && LexLess(b, d))
  {
    if |a| > 0 {
      assert (a + b)[1..] == a[1..] + b;
      assert (c + d)[1..] == c[1..] + d;
      LexAppend(a[1..], b, c[1..], d);
      if a[0] == c[0] {
        assert a == c <==> a[1..] == c[1..] by {
          if a[1..] == c[1..] {
            assert a == [a[0]] + a[1..] && c == [c[0]] + c[1..];
          }
        }
      }
    } else {
      assert a + b == b && c + d == d;
    }
  }

  lemma Pad2Order(m: int, n: int)
    requires 0 <= m <= 99 && 0 <= n <= 99
    ensures LexLess(Pad2(m), Pad2(n)) <==> m < n
    ensures Pad2(m) == Pad2(n) <==> m == n
  {
    LexAppend([Digit(m / 10)], [Digit(m % 10)], [Digit(n / 10)], [Digit(n % 10)]);
    assert Pad2(m) == [Digit(m / 10)] + [Digit(m % 10)];
    assert Pad2(n) == [Digit(n / 10)] + [Digit(n % 10)];
    assert m == m / 10 * 10 + m % 10 && n == n / 10 * 10 + n % 10;
  }

  lemma Pad4Order(m: int, n: int)
    requires 0 <= m <= 9999 && 0 <= n <= 9999
    ensures LexLess(Pad4(m), Pad4(n)) <==> m < n
    ensures Pad4(m) == Pad4(n) <==> m == n
  {
    LexAppend(Pad2(m / 100), Pad2(m % 100), Pad2(n / 100), Pad2(n % 100));
    Pad2Order(m / 100, n / 100);
    Pad2Order(m % 100, n % 100);
    if Pad4(m) == Pad4(n) {
      assert Pad4(m)[..2] == Pad2(m / 100) && Pad4(n)[..2] == Pad2(n / 100);
      assert Pad4(m)[2..] == Pad2(m % 100) && Pad4(n)[2..] == Pad2(n % 100);
    }
    assert m == m / 100 * 100 + m % 100 && n == n / 100 * 100 + n % 100;
  }

  /** A one-character separator shared by both sides never decides a comparison. */
  lemma LexSeparator(sep: string, b: string, d: string)
    requires |sep| == 1
    ensures LexLess(sep + b, sep + d) <==> LexLess(b, d)
    ensures sep + b == sep + d <==> b == d
  {
    LexAppend(sep, b, sep, d);
    assert !LexLess(sep, sep);
    if sep + b == sep + d {
      assert b == (sep + b)[1..] && d == (sep + d)[1..];
    }
  }

  /** One zero-padded field followed by the rest: the field decides unless it is equal. */
  lemma LexField(m: int, n: int, b: string, d: string)
    requires 0 <= m <= 99 && 0 <= n <= 99
    ensures LexLess(Pad2(m) + b, Pad2(n) + d) <==> m < n || (m == n && LexLess(b, d))
    ensures Pad2(m) + b == Pad2(n) + d <==> m == n && b == d
  {
    LexAppend(Pad2(m), b, Pad2(n), d);
    Pad2Order(m, n);
    if Pad2(m) + b == Pad2(n) + d {
      assert Pad2(m) == (Pad2(m) + b)[..2] && Pad2(n) == (Pad2(n) + d)[..2];
      assert b == (Pad2(m) + b)[2..] && d == (Pad2(n) + d)[2..];
    }
  }

  /**
   * The ledger's `DateTime` text sorts in clock order: comparing two cells as strings is
   * comparing the readings they record.
   */
  lemma TimestampOrder(t: Timestamp, u: Timestamp)
    requires ValidTimestamp(t) && ValidTimestamp(u)
    ensures LexLess(FormatTimestamp(t), FormatTimestamp(u)) <==> Before(t, u)
  {
    var s5 := ":" + Pad2(t.second);
    var u5 := ":" + Pad2(u.second);
    LexSeparator(":", Pad2(t.second), Pad2(u.second));
    Pad2Order(t.second, u.second);
    var s4 := ":" + (Pad2(t.minute) + s5);
    var u4 := ":" + (Pad2(u.minute) + u5);
    LexField(t.minute, u.minute, s5, u5);
    LexSeparator(":", Pad2(t.minute) + s5, Pad2(u.minute) + u5);
    var s3 := " " + (Pad2(t.hour) + s4);
    var u3 := " " + (Pad2(u.hour) + u4);
    LexField(t.hour, u.hour, s4, u4);
    LexSeparator(" ", Pad2(t.hour) + s4, Pad2(u.hour) + u4);
    var s2 := "-" + (Pad2(t.day) + s3);
    var u2 := "-" + (Pad2(u.day) + u3);
    LexField(t.day, u.day, s3, u3);
    LexSeparator("-", Pad2(t.day) + s3, Pad2(u.day) + u3);
    var s1 := "-" + (Pad2(t.month) + s2);
    var u1 := "-" + (Pad2(u.month) + u2);
    LexField(t.month, u.month, s2, u2);
    LexSeparator("-", Pad2(t.month) + s2, Pad2(u.month) + u2);
    LexAppend(Pad4(t.year), s1, Pad4(u.year), u1);
    Pad4Order(t.year, u.year);
    assert FormatTimestamp(t) == Pad4(t.year) + s1;
    assert FormatTimestamp(u) == Pad4(u.year) + u1;
  }

  /** One ledger line. The price is whatever the market data held, so its type is a parameter. */
  datatype Row<P> = Row(dateTime: string, stock: string, price: P, decision: string)

  /** The ledger file: absent, or present with its rows in file order. */
  type Ledger<P> = Option<seq<Row<P>>>

  /** What `get_portfolio` hands the sidebar. */
  datatype Table<P> = Table(columns: seq<string>, rows: seq<Row<P>>)

  function Rows<P>(ledger: Ledger<P>): seq<Row<P>> {
    if ledger.Some? then ledger.value else []
  }

  /**
   * `log_decision`: appends one row stamped with the current time, creating the file when it
   * is absent. Rows are never merged or dropped, so logging the same decision twice keeps both.
   */
  function LogDecision<P>(ledger: Ledger<P>, now: Timestamp, symbol: string, price: P, decision: string): (r: Ledger<P>)
    requires ValidTimestamp(now)
    ensures r.Some? && |r.value| == |Rows(ledger)| + 1
    ensures r.value[..|Rows(ledger)|] == Rows(ledger)
    ensures r.value[|Rows(ledger)|] == Row(FormatTimestamp(now), symbol, price, decision)
    ensures ledger.None? ==> r.value == [Row(FormatTimestamp(now), symbol, price, decision)]
  {
    var entry := [Row(FormatTimestamp(now), symbol, price, decision)];
    match ledger
    case Some(rows) => Some(rows + entry)
    case None => Some(entry)
  }

  /** `get_portfolio`: the file's rows under the fixed header, or no rows when there is no file. */
  function GetPortfolio<P>(ledger: Ledger<P>): (t: Table<P>)
    ensures t.columns == COLUMNS && |t.columns| == 4
    ensures ledger.None? ==> t.rows == []
    ensures ledger.Some? ==> t.rows == ledger.value
  {
    match ledger
    case Some(rows) => Table(COLUMNS, rows)
    case None => Table(COLUMNS, [])
  }

  /** A decision waiting to be logged. */
  datatype Entry<P> = Entry(now: Timestamp, symbol: string, price: P, decision: string)

  predicate ValidEntries<P>(entries: seq<Entry<P>>) {
    forall k :: 0 <= k < |entries| ==> ValidTimestamp(entries[k].now)
  }

  function EntryRow<P>(e: Entry<P>): Row<P>
    requires ValidTimestamp(e.now)
  {
    Row(FormatTimestamp(e.now), e.symbol, e.price, e.decision)
  }

  /** Logging a run of decisions one after another, oldest first. */
  function LogAll<P>(ledger: Ledger<P>, entries: seq<Entry<P>>): Ledger<P>
    requires ValidEntries(entries)
    decreases |entries|
  {
    if |entries| == 0 then ledger
    else
      var e := entries[0];
      LogAll(LogDecision(ledger, e.now, e.symbol, e.price, e.decision), entries[1..])
  }

  /** The rows the entries become, in order. */
  function EntryRows<P>(entries: seq<Entry<P>>): (rows: seq<Row<P>>)
    requires ValidEntries(entries)
    ensures |rows| == |entries|
    ensures forall k :: 0 <= k < |entries| ==> rows[k] == EntryRow(entries[k])
  {
    if |entries| == 0 then [] else [EntryRow(entries[0])] + EntryRows(entries[1..])
  }

  /**
   * The ledger is append-only: after any run of decisions the portfolio shows the earlier rows
   * unchanged, followed by one row per decision in logging order.
   */
  lemma {:induction false} LogAllAppends<P>(ledger: Ledger<P>, entries: seq<Entry<P>>)
    requires ValidEntries(entries)
    ensures Rows(LogAll(ledger, entries)) == Rows(ledger) + EntryRows(entries)
    decreases |entries|
  {
    if |entries| == 0 {
      assert Rows(ledger) + EntryRows(entries) == Rows(ledger);
    } else {
      var e, rest := entries[0], entries[1..];
      assert ValidEntries(rest);
      var row := EntryRow(e);
      var next := LogDecision(ledger, e.now, e.symbol, e.price, e.decision);
      assert Rows(next) == Rows(ledger) + [row];
      LogAllAppends(next, rest);
      assert LogAll(ledger, entries) == LogAll(next, rest);
      assert EntryRows(entries) == [row] + EntryRows(rest);
      AppendAssoc(Rows(ledger), [row], EntryRows(rest));
    }
  }

  /** What the sidebar shows after a run of decisions: the old portfolio with the new rows below it. */
  lemma PortfolioAfterLogAll<P>(ledger: Ledger<P>, entries: seq<Entry<P>>)
    requires ValidEntries(entries)
    ensures GetPortfolio(LogAll(ledger, entries)).rows == GetPortfolio(ledger).rows + EntryRows(entries)
    ensures GetPortfolio(LogAll(ledger, entries)).columns == COLUMNS
  {
    LogAllAppends(ledger, entries);
  }

  lemma AppendAssoc<T>(a: seq<T>, b: seq<T>, c: seq<T>)
    ensures a + b + c == a + (b + c)
  {
  }

  /** After a run of decisions the file exists exactly when it did before or something was logged. */
  lemma {:induction false} LogAllSome<P>(ledger: Ledger<P>, entries: seq<Entry<P>>)
    requires ValidEntries(entries)
    ensures LogAll(ledger, entries).Some? <==> ledger.Some? || |entries| > 0
    decreases |entries|
  {
    if |entries| > 0 {
      var e := entries[0];
      LogAllSome(LogDecision(ledger, e.now, e.symbol, e.price, e.decision), entries[1..]);
    }
  }
}
