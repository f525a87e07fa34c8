/** The price bar that the CSV reader produces and the analyzer consumes. */
module StockBars {
  import opened Text

  /** Timestamps are milliseconds since the epoch; prices are exact. */
  datatype Bar = Bar(timestamp: int, session: string, open: real, high: real, low: real, close: real)

  /** A session label: `dddd-dd-dd`. */
  predicate IsSession(s: string) {
    && |s| == 10
    && forall i | 0 <= i < 10 :: if i == 4 || i == 7 then s[i] == '-' else IsDigit(s[i])
  }

  ghost predicate Numeric(s: string) {
    forall i | 0 <= i < |s| :: s[i] in "0123456789"
  }

  ghost predicate IsDay(s: string, year: string, month: string, day: string) {
    && |year| == 4 && |month| == 2 && |day| == 2 && Numeric(year) && Numeric(month) && Numeric(day)
    && s == year + "-" + month + "-" + day
  }

  /** A label is a year of four digits, a month of two and a day of two, joined by dashes. */
  lemma SessionForm(s: string)
    ensures IsSession(s) <==> exists year, month, day :: IsDay(s, year, month, day)
  {
    if IsSession(s) {
      SessionParts(s);
    }
    if year, month, day :| IsDay(s, year, month, day) {
      DayIsSession(s, year, month, day);
    }
  }

  lemma SessionParts(s: string)
    requires IsSession(s)
    ensures IsDay(s, s[..4], s[5..7], s[8..])
  {
    forall i | 0 <= i < 10 && i != 4 && i != 7
      ensures s[i] in "0123456789"
    {
      DigitCharacters(s[i]);
    }
  }

  lemma DayIsSession(s: string, year: string, month: string, day: string)
    requires IsDay(s, year, month, day)
    ensures IsSession(s)
  {
    forall i | 0 <= i < 10
      ensures if i == 4 || i == 7 then s[i] == '-' else IsDigit(s[i])
    {
      DigitCharacters(s[i]);
      assert i < 4 ==> s[i] == year[i];
      assert 4 < i < 7 ==> s[i] == month[i - 5];
      assert 7 < i ==> s[i] == day[i - 8];
    }
  }

  /** Positive prices with the open and the close inside the range. */
  predicate ValidBar(bar: Bar) {
    && IsSession(bar.session)
    && 0.0 < bar.low
    && bar.low <= bar.open <= bar.high
    && bar.low <= bar.close <= bar.high
  }

  ghost predicate Increasing(bars: seq<Bar>) {
    forall i | 1 <= i < |bars| :: bars[i - 1].timestamp < bars[i].timestamp
  }

  /** What the analyzer may rely on once a CSV has been read. */
  ghost predicate ValidHistory(bars: seq<Bar>) {
    && bars != []
    && (forall bar <- bars :: ValidBar(bar))
    && Increasing(bars)
  }

  ghost predicate PositivePrices(bars: seq<Bar>) {
    forall i | 0 <= i < |bars| :: 0.0 < bars[i].open && 0.0 < bars[i].close
  }

  /** No close is zero, so that prices can be compared with it. */
  ghost predicate Comparable(bars: seq<Bar>) {
    forall i | 0 <= i < |bars| :: bars[i].close != 0.0
  }

  lemma ValidHistoryHasPositivePrices(bars: seq<Bar>)
    requires ValidHistory(bars)
    ensures PositivePrices(bars)
  {
    forall i | 0 <= i < |bars|
      ensures 0.0 < bars[i].open && 0.0 < bars[i].close
    {
      assert ValidBar(bars[i]);
    }
  }

  lemma {:induction false} IncreasingAcross(bars: seq<Bar>, i: nat, j: nat)
    requires Increasing(bars) && i < j < |bars|
    ensures bars[i].timestamp < bars[j].timestamp
  {
    if i + 1 < j {
      IncreasingAcross(bars, i, j - 1);
    }
    assert bars[j - 1].timestamp < bars[j].timestamp;
  }
}
