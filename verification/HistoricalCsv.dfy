/**
Reading the historical price CSV. Date and number parsing are left to the
caller as a codec: `None` stands for a result that is not finite.
*/
module HistoricalCsv {
  import opened Wrappers
  import opened Numbers
  import opened StockBars
  import opened Text

  const HEADER := "timestamp,session,open,high,low,close"

  datatype Codec = Codec(parseDate: string -> Option<int>, parseNumber: string -> Option<real>)

  datatype RowError = WrongColumns | InvalidTimestamp | InvalidSession | InvalidPrices | InconsistentRange

  datatype CsvError =
    | BadHeader
    | NoBars
    | BadRow(line: nat, reason: RowError)
    | NotIncreasing(line: nat)

  /** The header names the columns in the order in which a row is decoded. */
  lemma HeaderColumns()
    ensures Split(HEADER, ',') == ["timestamp", "session", "open", "high", "low", "close"]
  {
    var names := ["timestamp", "session", "open", "high", "low", "close"];
    HeaderText();
    JoinNext("low", ["close"]);
    JoinNext("high", ["low", "close"]);
    JoinNext("open", ["high", "low", "close"]);
    JoinNext("session", ["open", "high", "low", "close"]);
    JoinNext("timestamp", ["session", "open", "high", "low", "close"]);
    assert forall name <- names :: ',' !in name;
    SplitJoin(names, ',');
  }

  lemma HeaderText()
    ensures HEADER == "timestamp" + "," + ("session" + "," + ("open" + "," + ("high" + "," + ("low" + "," + "close"))))
  {
  }

  lemma JoinNext(part: string, parts: seq<string>)
    requires parts != []
    ensures Join([part] + parts, ',') == part + "," + Join(parts, ',')
  {
    assert ([part] + parts)[1..] == parts;
  }

  // ---------- One row ----------

  predicate IsPrice(x: Option<real>) {
    x.Some? && x.value > 0.0
  }

  /** The checks of one row, in the order in which they are made. */
  function ParseRow(codec: Codec, line: string): Result<Bar, RowError> {
    var columns := Split(line, ',');
    if |columns| != 6 then Failure(WrongColumns)
    else
      var timestamp := codec.parseDate(columns[0]);
      var open, high := codec.parseNumber(columns[2]), codec.parseNumber(columns[3]);
      var low, close := codec.parseNumber(columns[4]), codec.parseNumber(columns[5]);
      if timestamp.None? then Failure(InvalidTimestamp)
      else if !IsSession(columns[1]) then Failure(InvalidSession)
      else if !(IsPrice(open) && IsPrice(high) && IsPrice(low) && IsPrice(close)) then Failure(InvalidPrices)
      else if
        || low.value > MinReal(open.value, close.value)
        || high.value < MaxReal(open.value, close.value)
        || low.value > high.value
      then Failure(InconsistentRange)
      else Success(Bar(timestamp.value, columns[1], open.value, high.value, low.value, close.value))
  }

  /** The bars of the lines from index `n` on, or the first of them that is malformed. */
  function ParseRows(codec: Codec, lines: seq<string>, n: nat): (r: Result<seq<Bar>, CsvError>)
    requires n <= |lines|
    ensures r.Success? ==> |r.value| == |lines| - n
    ensures r.Success? ==> forall i | n <= i < |lines| :: ParseRow(codec, lines[i]) == Success(r.value[i - n])
    ensures r.Failure? ==> r.error.BadRow? && n < r.error.line <= |lines|
    ensures r.Failure? ==> ParseRow(codec, lines[r.error.line - 1]) == Failure(r.error.reason)
    ensures r.Failure? ==> forall i | n <= i < r.error.line - 1 :: ParseRow(codec, lines[i]).Success?
    decreases |lines| - n
  {
    if n == |lines| then Success([])
    else match ParseRow(codec, lines[n])
      case Failure(reason) => Failure(BadRow(n + 1, reason))
      case Success(bar) =>
        match ParseRows(codec, lines, n + 1)
        case Failure(error) => Failure(error)
        case Success(bars) => Success([bar] + bars)
  }

  /** A row is accepted as `bar` exactly when its six fields decode to the parts of `bar` and `bar` is valid. */
  lemma RowAccepted(codec: Codec, line: string, bar: Bar)
    ensures var columns := Split(line, ',');
      ParseRow(codec, line) == Success(bar) <==>
        && |columns| == 6
        && codec.parseDate(columns[0]) == Some(bar.timestamp)
        && columns[1] == bar.session
        && codec.parseNumber(columns[2]) == Some(bar.open)
        && codec.parseNumber(columns[3]) == Some(bar.high)
        && codec.parseNumber(columns[4]) == Some(bar.low)
        && codec.parseNumber(columns[5]) == Some(bar.close)
        && ValidBar(bar)
  {
  }

  const ROW_CHECKS := [WrongColumns, InvalidTimestamp, InvalidSession, InvalidPrices, InconsistentRange]

  /** Whether the columns of a row are in order in the respect that `check` is about, as far as they can be decoded. */
  ghost predicate InOrder(codec: Codec, columns: seq<string>, check: RowError) {
    if check.WrongColumns? || |columns| != 6 then |columns| == 6
    else
      var open, high := codec.parseNumber(columns[2]), codec.parseNumber(columns[3]);
      var low, close := codec.parseNumber(columns[4]), codec.parseNumber(columns[5]);
      var numbers := open.Some? && high.Some? && low.Some? && close.Some?;
      if check.InvalidTimestamp? then codec.parseDate(columns[0]).Some?
      else if check.InvalidSession? then IsSession(columns[1])
      else if check.InvalidPrices? then
        numbers && 0.0 < open.value && 0.0 < high.value && 0.0 < low.value && 0.0 < close.value
      else
        numbers ==> low.value <= open.value <= high.value && low.value <= close.value <= high.value
  }

  /** A refusal names the first of the five respects in which the row is not in order. */
  lemma RowRefused(codec: Codec, line: string, i: nat)
    requires i < |ROW_CHECKS|
    ensures var columns := Split(line, ',');
      ParseRow(codec, line) == Failure(ROW_CHECKS[i]) <==>
        !InOrder(codec, columns, ROW_CHECKS[i]) && forall j | 0 <= j < i :: InOrder(codec, columns, ROW_CHECKS[j])
  {
    assert ROW_CHECKS[0].WrongColumns? && ROW_CHECKS[1].InvalidTimestamp? && ROW_CHECKS[2].InvalidSession?;
    assert ROW_CHECKS[3].InvalidPrices? && ROW_CHECKS[4].InconsistentRange?;
  }

  // ---------- The whole text ----------

  /** The lines of the trimmed text; line number n is `Lines(source)[n - 1]`. */
  function Lines(source: string): (lines: seq<string>)
    ensures 1 <= |lines|
  {
    SplitLines(Trim(source))
  }

  /**
  Joined by line ends of either kind the lines give the trimmed text, and white
  space around a text makes no difference to its lines.
  */
  lemma LinesMeaning(before: string, source: string, after: string) returns (ends: seq<LineEnd>)
    requires Blank(before) && Blank(after)
    ensures AreLines(Lines(source), ends) && JoinLines(Lines(source), ends) == Trim(source)
    ensures Lines(before + source + after) == Lines(source)
  {
    ends := JoinSplitLines(Trim(source));
    TrimAbsorbs(before, source, after);
  }

  ghost predicate RowsParse(codec: Codec, lines: seq<string>, upTo: nat)
    requires upTo <= |lines|
  {
    forall n | 1 <= n < upTo :: ParseRow(codec, lines[n]).Success?
  }

  /** The bar of line number n + 1 is later than the bar of the line before it. */
  ghost predicate Follows(codec: Codec, lines: seq<string>, n: nat)
    requires 2 <= n < |lines| && RowsParse(codec, lines, |lines|)
  {
    ParseRow(codec, lines[n - 1]).value.timestamp < ParseRow(codec, lines[n]).value.timestamp
  }

  /**
  The meaning of reading `source`. A rejection names the earliest malformed row
  when there is one, and otherwise the earliest row that does not come after the
  row before it; both count lines in the trimmed text, the header being line 1.
  */
  ghost predicate Outcome(codec: Codec, source: string, r: Result<seq<Bar>, CsvError>) {
    var lines := Lines(source);
    match r
    case Success(bars) =>
      && lines[0] == HEADER && 2 <= |lines| == |bars| + 1
      && RowsParse(codec, lines, |lines|)
      && (forall i | 0 <= i < |bars| :: bars[i] == ParseRow(codec, lines[i + 1]).value)
      && (forall n | 2 <= n < |lines| :: Follows(codec, lines, n))
    case Failure(BadHeader) => lines[0] != HEADER
    case Failure(NoBars) => lines == [HEADER]
    case Failure(BadRow(line, reason)) =>
      && lines[0] == HEADER && 2 <= line <= |lines|
      && RowsParse(codec, lines, line - 1)
      && ParseRow(codec, lines[line - 1]) == Failure(reason)
    case Failure(NotIncreasing(line)) =>
      && lines[0] == HEADER && 3 <= line <= |lines|
      && RowsParse(codec, lines, |lines|)
      && !Follows(codec, lines, line - 1)
      && forall n | 2 <= n < line - 1 :: Follows(codec, lines, n)
  }

  /** The rows of `source` parse to `bars`. */
  ghost predicate Rows(codec: Codec, source: string, bars: seq<Bar>) {
    var lines := Lines(source);
    && lines[0] == HEADER && |lines| == |bars| + 1
    && forall n | 1 <= n < |lines| :: ParseRow(codec, lines[n]) == Success(bars[n - 1])
  }

  lemma RowsFollow(codec: Codec, source: string, bars: seq<Bar>, n: nat)
    requires Rows(codec, source, bars) && 2 <= n < |bars| + 1
    ensures RowsParse(codec, Lines(source), |bars| + 1)
    ensures Follows(codec, Lines(source), n) <==> bars[n - 2].timestamp < bars[n - 1].timestamp
  {
  }

  /** Rows that are increasing are accepted. */
  lemma AcceptedRows(codec: Codec, source: string, bars: seq<Bar>)
    requires Rows(codec, source, bars) && bars != [] && Increasing(bars)
    ensures Outcome(codec, source, Success(bars))
  {
    var lines := Lines(source);
    forall n | 2 <= n < |lines|
      ensures RowsParse(codec, lines, |lines|) && Follows(codec, lines, n)
    {
      RowsFollow(codec, source, bars, n);
      assert bars[(n - 1) - 1].timestamp < bars[n - 1].timestamp;
    }
  }

  /** The first row that is not later than the row before it is refused, under its number in the trimmed text. */
  lemma RefusedRow(codec: Codec, source: string, bars: seq<Bar>, index: nat)
    requires Rows(codec, source, bars) && 1 <= index < |bars|
    requires bars[index].timestamp <= bars[index - 1].timestamp
    requires forall i | 1 <= i < index :: bars[i - 1].timestamp < bars[i].timestamp
    ensures Outcome(codec, source, Failure(NotIncreasing(index + 2)))
  {
    var lines := Lines(source);
    RowsFollow(codec, source, bars, index + 1);
    forall n | 2 <= n < index + 1
      ensures Follows(codec, lines, n)
    {
      RowsFollow(codec, source, bars, n);
      assert bars[(n - 1) - 1].timestamp < bars[n - 1].timestamp;
    }
  }

  method ParseHistoricalCsv(codec: Codec, source: string) returns (r: Result<seq<Bar>, CsvError>)
    ensures Outcome(codec, source, r)
  {
    var lines := Lines(source);
    if lines[0] != HEADER {
      return Failure(BadHeader);
    }
    if |lines| < 2 {
      assert lines == [HEADER];
      return Failure(NoBars);
    }
    var rows := ParseRows(codec, lines, 1);
    if rows.Failure? {
      return Failure(rows.error);
    }
    var bars := rows.value;
    assert Rows(codec, source, bars);
    for index := 1 to |bars|
      invariant forall i | 1 <= i < index :: bars[i - 1].timestamp < bars[i].timestamp
    {
      if bars[index].timestamp <= bars[index - 1].timestamp {
        RefusedRow(codec, source, bars, index);
        return Failure(NotIncreasing(index + 2));
      }
    }
    AcceptedRows(codec, source, bars);
    return Success(bars);
  }

  // ---------- What the outcome implies ----------

  /** The outcome is determined by the text: there is exactly one thing the reader may return. */
  lemma OutcomeUnique(codec: Codec, source: string, r: Result<seq<Bar>, CsvError>, s: Result<seq<Bar>, CsvError>)
    requires Outcome(codec, source, r) && Outcome(codec, source, s)
    ensures r == s
  {
    match (r, s) {
      case (Success(bars), Success(others)) =>
        assert bars == others;
      case (Failure(NotIncreasing(line)), _) =>
        assert s.Failure? ==> s.error.NotIncreasing?;
      case _ =>
    }
  }

  /** Whatever is read is a valid history, whatever the codec does. */
  lemma ParsedHistoryIsValid(codec: Codec, source: string, bars: seq<Bar>)
    requires Outcome(codec, source, Success(bars))
    ensures ValidHistory(bars)
  {
    var lines := Lines(source);
    forall i | 1 <= i < |bars|
      ensures bars[i - 1].timestamp < bars[i].timestamp
    {
      assert Follows(codec, lines, i + 1);
    }
  }

  // ---------- Printing ----------

  datatype Printer = Printer(showDate: int -> string, showNumber: real -> string)

  /** A field that survives between commas and at the end of a line. */
  predicate IsField(s: string) {
    Tight(s) && ',' !in s && '\n' !in s
  }

  ghost predicate ShowsNumber(codec: Codec, printer: Printer, x: real) {
    IsField(printer.showNumber(x)) && codec.parseNumber(printer.showNumber(x)) == Some(x)
  }

  /** The printer's fields for `bar` are plain, and the codec reads them back. */
  ghost predicate Shows(codec: Codec, printer: Printer, bar: Bar) {
    && IsField(printer.showDate(bar.timestamp))
    && codec.parseDate(printer.showDate(bar.timestamp)) == Some(bar.timestamp)
    && ShowsNumber(codec, printer, bar.open) && ShowsNumber(codec, printer, bar.high)
    && ShowsNumber(codec, printer, bar.low) && ShowsNumber(codec, printer, bar.close)
  }

  function Fields(printer: Printer, bar: Bar): seq<string> {
    [printer.showDate(bar.timestamp), bar.session, printer.showNumber(bar.open), printer.showNumber(bar.high),
     printer.showNumber(bar.low), printer.showNumber(bar.close)]
  }

  function Row(printer: Printer, bar: Bar): string {
    Join(Fields(printer, bar), ',')
  }

  function PrintLines(printer: Printer, bars: seq<Bar>): (lines: seq<string>)
    ensures |lines| == |bars| + 1 && lines[0] == HEADER
    ensures forall i | 0 <= i < |bars| :: lines[i + 1] == Row(printer, bars[i])
  {
    [HEADER] + seq(|bars|, i requires 0 <= i < |bars| => Row(printer, bars[i]))
  }

  function Print(printer: Printer, bars: seq<Bar>, ends: seq<LineEnd>): string
    requires |ends| == |bars|
  {
    JoinLines(PrintLines(printer, bars), ends)
  }

  lemma SessionCharacters(s: string)
    requires IsSession(s)
    ensures forall c <- s :: IsDigit(c) || c == '-'
  {
    forall i | 0 <= i < |s|
      ensures IsDigit(s[i]) || s[i] == '-'
    {
      assert if i == 4 || i == 7 then s[i] == '-' else IsDigit(s[i]);
    }
  }

  lemma RowReadsBack(codec: Codec, printer: Printer, bar: Bar)
    requires ValidBar(bar) && Shows(codec, printer, bar)
    ensures ParseRow(codec, Row(printer, bar)) == Success(bar)
  {
    var fields := Fields(printer, bar);
    assert ',' !in bar.session by {
      SessionCharacters(bar.session);
    }
    assert forall field <- fields :: ',' !in field;
    SplitJoin(fields, ',');
  }

  /** A line joined from tight fields is itself tight. */
  lemma {:induction false} JoinIsTight(parts: seq<string>)
    requires parts != [] && forall part <- parts :: Tight(part) && '\n' !in part
    ensures Tight(Join(parts, ',')) && '\n' !in Join(parts, ',')
    ensures parts[0] != "" && Join(parts, ',')[0] == parts[0][0]
  {
    assert Tight(parts[0]);
    if 1 < |parts| {
      JoinIsTight(parts[1..]);
      var rest := Join(parts[1..], ',');
      assert Join(parts, ',')[|Join(parts, ',')| - 1] == rest[|rest| - 1];
    }
  }

  lemma SessionIsTight(s: string)
    requires IsSession(s)
    ensures Tight(s) && '\n' !in s
  {
    SessionCharacters(s);
    assert s[0] in s && s[9] in s;
  }

  lemma RowIsTight(codec: Codec, printer: Printer, bar: Bar)
    requires ValidBar(bar) && Shows(codec, printer, bar)
    ensures Tight(Row(printer, bar)) && '\n' !in Row(printer, bar)
  {
    SessionIsTight(bar.session);
    JoinIsTight(Fields(printer, bar));
  }

  lemma {:induction false} LinesAreTight(lines: seq<string>, ends: seq<LineEnd>)
    requires |lines| == |ends| + 1 && forall line <- lines :: Tight(line)
    ensures Tight(JoinLines(lines, ends))
    ensures lines[0] != "" && JoinLines(lines, ends)[0] == lines[0][0]
  {
    assert Tight(lines[0]);
    if ends != [] {
      LinesAreTight(lines[1..], ends[1..]);
      var rest := JoinLines(lines[1..], ends[1..]);
      var all := JoinLines(lines, ends);
      assert all == lines[0] + ends[0].Chars() + rest;
      assert all[|all| - 1] == rest[|rest| - 1];
    }
  }

  /** The lines found in a printed history are the lines that were printed. */
  lemma PrintedLines(codec: Codec, printer: Printer, bars: seq<Bar>, ends: seq<LineEnd>, before: string, after: string)
    requires ValidHistory(bars) && |ends| == |bars| && Blank(before) && Blank(after)
    requires forall bar <- bars :: Shows(codec, printer, bar)
    ensures Lines(before + Print(printer, bars, ends) + after) == PrintLines(printer, bars)
  {
    var lines := PrintLines(printer, bars);
    forall n | 0 <= n < |lines|
      ensures Tight(lines[n]) && '\n' !in lines[n]
    {
      if n > 0 {
        assert lines[(n - 1) + 1] == Row(printer, bars[n - 1]);
        RowIsTight(codec, printer, bars[n - 1]);
      }
    }
    LinesAreTight(lines, ends);
    assert forall i | 0 <= i < |ends| :: EndsWith(lines[i], ends[i]);
    TrimSurrounded(before, Print(printer, bars, ends), after);
    SplitJoinLines(lines, ends);
  }

  /**
  Printing a valid history with any mixture of line ends and any white space
  around it, and reading it, gives the same bars.
  */
  lemma PrintedHistoryReadsBack(codec: Codec, printer: Printer, bars: seq<Bar>, ends: seq<LineEnd>,
                                before: string, after: string)
    requires ValidHistory(bars) && |ends| == |bars| && Blank(before) && Blank(after)
    requires forall bar <- bars :: Shows(codec, printer, bar)
    ensures Outcome(codec, before + Print(printer, bars, ends) + after, Success(bars))
  {
    PrintedLines(codec, printer, bars, ends, before, after);
    var source, lines := before + Print(printer, bars, ends) + after, PrintLines(printer, bars);
    forall n | 1 <= n < |lines|
      ensures ParseRow(codec, lines[n]) == Success(bars[n - 1])
    {
      assert lines[(n - 1) + 1] == Row(printer, bars[n - 1]);
      RowReadsBack(codec, printer, bars[n - 1]);
    }
    AcceptedRows(codec, source, bars);
  }
}
