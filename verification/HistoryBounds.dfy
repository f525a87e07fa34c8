/** What a report says about the history as a whole. */
module HistoryBounds {
  import opened Wrappers
  import opened Numbers
  import opened StockBars
  import opened StockRisk
  import opened Scan
  import opened HistoryAnalysis
  import opened HistoricalCsv

  // ---------- Returns ----------

  /** A return is the exact relative move to the nearest basis point, halves going up. */
  lemma ReturnRounding(next: real, previous: real)
    requires previous != 0.0
    ensures var exact := (next / previous - 1.0) * 10_000.0;
      ReturnBps(next, previous) as real - 0.5 <= exact < ReturnBps(next, previous) as real + 0.5
  {
  }

  lemma ReturnAtLeastMinusAll(next: real, previous: real)
    requires 0.0 < next && 0.0 < previous
    ensures -10_000 <= ReturnBps(next, previous)
  {
    assert 0.0 < next / previous;
  }

  lemma ReadingAtLeastMinusAll(cmp: Comparison, st: Setting, bars: seq<Bar>, i: nat)
    requires Ready(st, bars) && PositivePrices(bars) && i < |bars| && Applies(cmp, st, bars, i)
    ensures -10_000 <= Return(cmp, st, bars, i)
  {
    match cmp
    case SessionGap => ReturnAtLeastMinusAll(bars[i].open, bars[i - 1].close);
    case Step => ReturnAtLeastMinusAll(bars[i].close, bars[i - 1].close);
    case ThirtyMinute => ReturnAtLeastMinusAll(bars[i].close, bars[i - st.thirtyMinuteBars].close);
  }

  lemma ReadingsAtLeastMinusAll(cmp: Comparison, st: Setting, bars: seq<Bar>)
    requires Ready(st, bars) && PositivePrices(bars)
    ensures forall r <- Readings(cmp, st, bars) :: r.Some? ==> -10_000 <= r.value
  {
    var readings := Readings(cmp, st, bars);
    forall i: nat | i < |readings| && readings[i].Some?
      ensures -10_000 <= readings[i].value
    {
      ReadingAtLeastMinusAll(cmp, st, bars, i);
    }
  }

  /** Both worst returns lie between a total loss and no change. */
  lemma WorstInRange(st: Setting, bars: seq<Bar>)
    requires Ready(st, bars) && PositivePrices(bars)
    ensures -10_000 <= AnalysisOf(st, bars).worstSessionGapBps <= 0
    ensures -10_000 <= AnalysisOf(st, bars).worstThirtyMinuteReturnBps <= 0
  {
    WorstAtLeastMinusAll(SessionGap, st, bars);
    WorstAtLeastMinusAll(ThirtyMinute, st, bars);
  }

  lemma WorstAtLeastMinusAll(cmp: Comparison, st: Setting, bars: seq<Bar>)
    requires Ready(st, bars) && PositivePrices(bars)
    ensures -10_000 <= WorstOf(cmp, st, bars) <= 0
  {
    ReadingsAtLeastMinusAll(cmp, st, bars);
    WorstOfAll(cmp, st, bars);
    var worst := WorstOf(cmp, st, bars);
    assert worst != 0 ==> Some(worst) in Readings(cmp, st, bars);
  }

  // ---------- Closures ----------

  ghost function Minutes(millis: int): real {
    millis as real / 60_000.0
  }

  /** The time that `steps` steps can take when no closure is longer than `longest`. */
  ghost function StepsBound(st: Setting, steps: nat, longest: real): real {
    steps as real * (st.intervalMinutes + longest)
  }

  lemma {:induction false} StepsBoundSpan(st: Setting, bars: seq<Bar>, end: nat, longest: real)
    requires 1 <= end <= |bars| && IsLongest(longest, Closures(st, bars))
    ensures Minutes(bars[end - 1].timestamp - bars[0].timestamp) <= StepsBound(st, end - 1, longest)
  {
    if end > 1 {
      StepsBoundSpan(st, bars, end - 1, longest);
      assert Closures(st, bars)[end - 1] in Closures(st, bars);
      var step := Minutes(bars[end - 1].timestamp - bars[end - 2].timestamp);
      assert step <= st.intervalMinutes + longest;
      assert Minutes(bars[end - 1].timestamp - bars[0].timestamp) ==
             Minutes(bars[end - 2].timestamp - bars[0].timestamp) + step;
      var each := st.intervalMinutes + longest;
      assert (end - 1) as real * each == (end - 2) as real * each + each;
    }
  }

  lemma StepWithinSpan(bars: seq<Bar>, i: nat)
    requires Increasing(bars) && 1 <= i < |bars|
    ensures bars[i].timestamp - bars[i - 1].timestamp <= bars[|bars| - 1].timestamp - bars[0].timestamp
  {
    if 0 < i - 1 { IncreasingAcross(bars, 0, i - 1); }
    if i < |bars| - 1 { IncreasingAcross(bars, i, |bars| - 1); }
  }

  lemma ClosureWithinSpan(st: Setting, bars: seq<Bar>, i: nat)
    requires Increasing(bars) && 1 <= i < |bars|
    ensures ClosureMinutes(st, bars, i) <=
            MaxReal(0.0, Minutes(bars[|bars| - 1].timestamp - bars[0].timestamp) - st.intervalMinutes)
  {
    StepWithinSpan(bars, i);
  }

  lemma LongestWithinSpan(st: Setting, bars: seq<Bar>, longest: real)
    requires Increasing(bars) && bars != [] && IsLongest(longest, Closures(st, bars))
    ensures 0.0 <= longest
    ensures longest <= MaxReal(0.0, Minutes(bars[|bars| - 1].timestamp - bars[0].timestamp) - st.intervalMinutes)
  {
    if longest != 0.0 {
      var i: nat :| i < |bars| && Closures(st, bars)[i] == longest;
      ClosureWithinSpan(st, bars, i);
    }
  }

  /**
  The time span of a history in minutes is at most one interval and one longest
  closure per step, and no closure is longer than the span less one interval.
  */
  lemma ClosureAgainstSpan(st: Setting, bars: seq<Bar>)
    requires Ready(st, bars) && Increasing(bars) && bars != []
    ensures var a, span := AnalysisOf(st, bars), Minutes(bars[|bars| - 1].timestamp - bars[0].timestamp);
      && span <= StepsBound(st, a.observations - 1, a.longestClosureMinutes)
      && 0.0 <= a.longestClosureMinutes <= MaxReal(0.0, span - st.intervalMinutes)
  {
    LongestOfAll(st, bars);
    StepsBoundSpan(st, bars, |bars|, LongestOf(st, bars));
    LongestWithinSpan(st, bars, LongestOf(st, bars));
  }

  // ---------- Shortfalls ----------

  lemma AlarmIsShortfall(cmp: Comparison, st: Setting, bars: seq<Bar>, i: nat)
    requires Ready(st, bars) && !cmp.Step? && i < |bars| && Alarms(cmp, st, bars)[i]
    ensures Readings(cmp, st, bars)[i].Some? && Shortfall(st.config, st.risk, Readings(cmp, st, bars)[i].value)
  {
    assert Counted(cmp, st, Reading(cmp, st, bars, i));
  }

  lemma ShortfallIsAlarm(cmp: Comparison, st: Setting, bars: seq<Bar>, returnBps: int)
    requires Ready(st, bars) && !cmp.Step? && Some(returnBps) in Readings(cmp, st, bars)
    requires Shortfall(st.config, st.risk, returnBps)
    ensures 0 < Count(Alarms(cmp, st, bars))
  {
    var i: nat :| i < |bars| && Readings(cmp, st, bars)[i] == Some(returnBps);
    assert Counted(cmp, st, Reading(cmp, st, bars, i));
    var first := CountPositive(Alarms(cmp, st, bars));
  }

  /** The shortfalls of one comparison against the worst return it reports. */
  lemma WorstDecides(cmp: Comparison, st: Setting, bars: seq<Bar>)
    requires Ready(st, bars) && !cmp.Step?
    requires PositivePrices(bars) || 0 <= StartingRatioBps(st.config, st.risk)
    ensures 0 < CountOf(cmp, st, bars) ==> Shortfall(st.config, st.risk, WorstOf(cmp, st, bars))
    ensures !Shortfall(st.config, st.risk, 0) ==>
      (0 < CountOf(cmp, st, bars) <==> Shortfall(st.config, st.risk, WorstOf(cmp, st, bars)))
    ensures Shortfall(st.config, st.risk, 0) ==> Shortfall(st.config, st.risk, WorstOf(cmp, st, bars))
  {
    var worst := WorstOf(cmp, st, bars);
    if PositivePrices(bars) {
      WorstAtLeastMinusAll(cmp, st, bars);
    }
    WorstOfAll(cmp, st, bars);
    CountOfAll(cmp, st, bars);
    var i := CountPositive(Alarms(cmp, st, bars));
    if 0 < CountOf(cmp, st, bars) {
      AlarmIsShortfall(cmp, st, bars, i);
      assert Readings(cmp, st, bars)[i] in Readings(cmp, st, bars);
      ShortfallDownwardClosed(st.config, st.risk, worst, Readings(cmp, st, bars)[i].value);
    }
    if Shortfall(st.config, st.risk, 0) {
      ShortfallDownwardClosed(st.config, st.risk, worst, 0);
    } else if Shortfall(st.config, st.risk, worst) {
      ShortfallIsAlarm(cmp, st, bars, worst);
    }
  }

  // ---------- When the worst return decides ----------

  /** A shortfall was counted exactly when the worst return is one. */
  ghost predicate WorstTells(cmp: Comparison, st: Setting, bars: seq<Bar>)
    requires Ready(st, bars)
  {
    0 < CountOf(cmp, st, bars) <==> Shortfall(st.config, st.risk, WorstOf(cmp, st, bars))
  }

  /** Two equal bars, a millisecond apart in one session: nothing is counted and nothing was lost. */
  function FlatBars(): seq<Bar> {
    [Bar(0, "2026-09-01", 1.0, 1.0, 1.0, 1.0), Bar(1, "2026-09-01", 1.0, 1.0, 1.0, 1.0)]
  }

  lemma FlatBarsAreQuiet(cmp: Comparison, st: Setting)
    requires st.Valid() && !cmp.Step?
    ensures ValidHistory(FlatBars()) && Ready(st, FlatBars())
    ensures CountOf(cmp, st, FlatBars()) == 0 && WorstOf(cmp, st, FlatBars()) == 0
  {
    var bars := FlatBars();
    assert ValidBar(bars[0]) && ValidBar(bars[1]);
    assert Ready(st, bars);
    NothingBeforeSecondBar(st, bars);
    assert !Applies(cmp, st, bars, 1);
    assert Reading(cmp, st, bars, 1) == None;
    assert WorstBefore(cmp, st, bars, 2) == Worse(WorstBefore(cmp, st, bars, 1), Reading(cmp, st, bars, 1));
    assert CountBefore(cmp, st, bars, 2) == CountBefore(cmp, st, bars, 1);
  }

  /** Nothing has to be covered, or the starting ratio covers it. */
  ghost predicate CoveredAtStart(st: Setting) {
    || BPS + st.risk.liquidationPenaltyBps <= 0
    || BPS + st.risk.liquidationPenaltyBps <= StartingRatioBps(st.config, st.risk)
  }

  /**
  The worst return of every readable history decides whether a shortfall was
  counted exactly when the position is covered at its start.
  */
  lemma WorstTellsExactly(cmp: Comparison, st: Setting)
    requires st.Valid() && !cmp.Step?
    ensures (forall bars | Ready(st, bars) && ValidHistory(bars) && 2 <= |bars| :: WorstTells(cmp, st, bars)) <==>
            CoveredAtStart(st)
  {
    ShortfallAtRest(st.config, st.risk);
    if CoveredAtStart(st) {
      forall bars | Ready(st, bars) && ValidHistory(bars)
        ensures WorstTells(cmp, st, bars)
      {
        ValidHistoryHasPositivePrices(bars);
        WorstDecides(cmp, st, bars);
      }
    } else {
      FlatBarsAreQuiet(cmp, st);
      assert !WorstTells(cmp, st, FlatBars());
    }
  }

  /** A shortfall was counted exactly when the worst return is below minus the gap limit. */
  ghost predicate LimitTells(cmp: Comparison, st: Setting, bars: seq<Bar>)
    requires Ready(st, bars) && 0 < StartingRatioBps(st.config, st.risk)
  {
    0 < CountOf(cmp, st, bars) <==> WorstOf(cmp, st, bars) < -GapLimit(st.config, st.risk)
  }

  lemma LimitTellsAsWorst(cmp: Comparison, st: Setting, bars: seq<Bar>)
    requires Ready(st, bars)
    requires 0 < StartingRatioBps(st.config, st.risk) && 0 < BPS + st.risk.liquidationPenaltyBps
    ensures LimitTells(cmp, st, bars) <==> WorstTells(cmp, st, bars)
  {
    ShortfallThreshold(st.config, st.risk, WorstOf(cmp, st, bars));
  }

  /**
  The same in terms of the gap limit, where there is one: a positive starting
  ratio and something to cover. Both comparisons of every readable history are
  decided by the limit exactly when the start covers what has to be covered.
  */
  lemma WorstReturnDecidesShortfall(cmp: Comparison, st: Setting)
    requires st.Valid() && !cmp.Step?
    requires 0 < StartingRatioBps(st.config, st.risk) && 0 < BPS + st.risk.liquidationPenaltyBps
    ensures (forall bars | Ready(st, bars) && ValidHistory(bars) && 2 <= |bars| :: LimitTells(cmp, st, bars)) <==>
            BPS + st.risk.liquidationPenaltyBps <= StartingRatioBps(st.config, st.risk)
  {
    WorstTellsExactly(cmp, st);
    forall bars | Ready(st, bars)
      ensures LimitTells(cmp, st, bars) <==> WorstTells(cmp, st, bars)
    {
      LimitTellsAsWorst(cmp, st, bars);
    }
  }

  /** An example of the failure: a ratio of 105% against debt and a 10% penalty, and the two flat bars. */
  lemma UncoveredStartBreaksEquivalence()
    ensures var st := Setting(RiskConfig("X", 10_000, 2_000), Risk(500, 1_000), 30.0, 1);
      && ValidHistory(FlatBars()) && Ready(st, FlatBars())
      && AnalysisOf(st, FlatBars()).sessionGapShortfallCount == 0
      && Shortfall(st.config, st.risk, AnalysisOf(st, FlatBars()).worstSessionGapBps)
      && AnalysisOf(st, FlatBars()).thirtyMinuteShortfallCount == 0
      && Shortfall(st.config, st.risk, AnalysisOf(st, FlatBars()).worstThirtyMinuteReturnBps)
  {
    var st := Setting(RiskConfig("X", 10_000, 2_000), Risk(500, 1_000), 30.0, 1);
    ShortfallAtRest(st.config, st.risk);
    FlatBarsAreQuiet(SessionGap, st);
    FlatBarsAreQuiet(ThirtyMinute, st);
  }

  // ---------- Change of unit and of origin ----------

  function Rescaled(bar: Bar, factor: real, shift: int): Bar {
    Bar(bar.timestamp + shift, bar.session, bar.open * factor, bar.high * factor, bar.low * factor, bar.close * factor)
  }

  function RescaledAll(bars: seq<Bar>, factor: real, shift: int): (r: seq<Bar>)
    ensures |r| == |bars| && forall i | 0 <= i < |bars| :: r[i] == Rescaled(bars[i], factor, shift)
  {
    seq(|bars|, i requires 0 <= i < |bars| => Rescaled(bars[i], factor, shift))
  }

  lemma SameReturn(next: real, previous: real, scaledNext: real, scaledPrevious: real, factor: real)
    requires previous != 0.0 && factor != 0.0
    requires scaledNext == next * factor && scaledPrevious == previous * factor
    ensures ReturnBps(scaledNext, scaledPrevious) == ReturnBps(next, previous)
  {
    var q := next / previous;
    NonzeroProduct(previous, factor);
    assert next == q * previous;
    assert scaledNext == q * scaledPrevious;
    QuotientUnique(scaledNext, scaledPrevious, q);
  }

  lemma NonzeroProduct(x: real, y: real)
    requires x != 0.0 && y != 0.0
    ensures x * y != 0.0
  {
  }

  lemma QuotientUnique(n: real, d: real, q: real)
    requires d != 0.0 && n == q * d
    ensures n / d == q
  {
  }

  lemma RescaledApplies(cmp: Comparison, st: Setting, bars: seq<Bar>, factor: real, shift: int, i: nat)
    requires st.Valid() && i < |bars|
    ensures Applies(cmp, st, RescaledAll(bars, factor, shift), i) == Applies(cmp, st, bars, i)
  {
  }

  lemma RescaledReading(cmp: Comparison, st: Setting, bars: seq<Bar>, factor: real, shift: int, i: nat)
    requires Ready(st, bars) && factor != 0.0 && i < |bars|
    requires Comparable(RescaledAll(bars, factor, shift))
    ensures Reading(cmp, st, RescaledAll(bars, factor, shift), i) == Reading(cmp, st, bars, i)
  {
    var others := RescaledAll(bars, factor, shift);
    RescaledApplies(cmp, st, bars, factor, shift, i);
    if Applies(cmp, st, bars, i) {
      var j := if cmp.ThirtyMinute? then i - st.thirtyMinuteBars else i - 1;
      assert others[i] == Rescaled(bars[i], factor, shift) && others[j] == Rescaled(bars[j], factor, shift);
      if cmp.SessionGap? {
        SameReturn(bars[i].open, bars[j].close, others[i].open, others[j].close, factor);
      } else {
        SameReturn(bars[i].close, bars[j].close, others[i].close, others[j].close, factor);
      }
    }
  }

  lemma RescaledComparable(bars: seq<Bar>, factor: real, shift: int)
    requires Comparable(bars) && factor != 0.0
    ensures Comparable(RescaledAll(bars, factor, shift))
  {
    forall i | 0 <= i < |bars|
      ensures bars[i].close * factor != 0.0
    {
      NonzeroProduct(bars[i].close, factor);
    }
  }

  lemma RescaledReadings(cmp: Comparison, st: Setting, bars: seq<Bar>, factor: real, shift: int)
    requires Ready(st, bars) && factor != 0.0
    requires Comparable(RescaledAll(bars, factor, shift))
    ensures Readings(cmp, st, RescaledAll(bars, factor, shift)) == Readings(cmp, st, bars)
    ensures Alarms(cmp, st, RescaledAll(bars, factor, shift)) == Alarms(cmp, st, bars)
  {
    var others := RescaledAll(bars, factor, shift);
    forall i: nat | i < |bars|
      ensures Reading(cmp, st, others, i) == Reading(cmp, st, bars, i)
    {
      RescaledReading(cmp, st, bars, factor, shift, i);
    }
  }

  lemma RescaledComparison(cmp: Comparison, st: Setting, bars: seq<Bar>, factor: real, shift: int)
    requires Ready(st, bars) && factor != 0.0
    requires Comparable(RescaledAll(bars, factor, shift))
    ensures WorstOf(cmp, st, RescaledAll(bars, factor, shift)) == WorstOf(cmp, st, bars)
    ensures CountOf(cmp, st, RescaledAll(bars, factor, shift)) == CountOf(cmp, st, bars)
  {
    var others := RescaledAll(bars, factor, shift);
    RescaledReadings(cmp, st, bars, factor, shift);
    WorstOfAll(cmp, st, bars);
    WorstOfAll(cmp, st, others);
    WorstUnique(Readings(cmp, st, bars), WorstOf(cmp, st, bars), WorstOf(cmp, st, others));
    CountOfAll(cmp, st, bars);
    CountOfAll(cmp, st, others);
  }

  lemma RescaledLongest(st: Setting, bars: seq<Bar>, factor: real, shift: int)
    ensures LongestOf(st, RescaledAll(bars, factor, shift)) == LongestOf(st, bars)
  {
    var others := RescaledAll(bars, factor, shift);
    assert Closures(st, others) == Closures(st, bars);
    LongestOfAll(st, bars);
    LongestOfAll(st, others);
    LongestUnique(Closures(st, bars), LongestOf(st, bars), LongestOf(st, others));
  }

  /** A change of currency and of time origin changes no field of the report. */
  lemma AnalysisInvariant(st: Setting, bars: seq<Bar>, factor: real, shift: int)
    requires Ready(st, bars) && factor != 0.0
    ensures Ready(st, RescaledAll(bars, factor, shift))
    ensures AnalysisOf(st, RescaledAll(bars, factor, shift)) == AnalysisOf(st, bars)
  {
    RescaledComparable(bars, factor, shift);
    RescaledComparison(Step, st, bars, factor, shift);
    RescaledComparison(SessionGap, st, bars, factor, shift);
    RescaledComparison(ThirtyMinute, st, bars, factor, shift);
    RescaledLongest(st, bars, factor, shift);
    RescaledSessions(bars, factor, shift);
  }

  lemma RescaledSessions(bars: seq<Bar>, factor: real, shift: int)
    ensures SessionsOf(RescaledAll(bars, factor, shift)) == SessionsOf(bars)
  {
    var others := RescaledAll(bars, factor, shift);
    forall session
      ensures session in SessionsOf(others) <==> session in SessionsOf(bars)
    {
      if session in SessionsOf(others) {
        var i :| 0 <= i < |others| && others[i].session == session;
        assert bars[i] in bars;
      }
      if session in SessionsOf(bars) {
        var i :| 0 <= i < |bars| && bars[i].session == session;
        assert others[i] in others;
      }
    }
  }

  // ---------- From text to report ----------

  datatype DatasetError = BadCsv(csv: CsvError) | BadAnalysis(analysis: AnalysisError)

  /** `r` is the right answer to a dataset in the form of a text. */
  ghost predicate DescribesDataset(
    codec: Codec, source: string, config: RiskConfig, intervalMinutes: real, r: Result<Analysis, DatasetError>)
  {
    match r
    case Failure(BadCsv(error)) => Outcome(codec, source, Failure(error))
    case Failure(BadAnalysis(TooFewBars(symbol))) =>
      symbol == config.symbol && exists bars :: Outcome(codec, source, Success(bars)) && |bars| == 1
    case Failure(BadAnalysis(MissingReference)) =>
      exists bars :: Outcome(codec, source, Success(bars)) && 2 <= |bars| && ReadsOutside(intervalMinutes, |bars|)
    case Success(a) =>
      && -10_000 <= a.worstSessionGapBps <= 0 && -10_000 <= a.worstThirtyMinuteReturnBps <= 0
      && exists bars ::
           && Outcome(codec, source, Success(bars)) && ValidHistory(bars)
           && 2 <= |bars| && !ReadsOutside(intervalMinutes, |bars|)
           && IsAnalysis(a, SettingOf(config, Risk(500, 1_000), intervalMinutes, |bars|), bars)
  }

  /**
  Reading a CSV and analysing it: either error is passed on as it is, and a report
  describes the bars that were read, with both worst returns in range, however the
  codec reads dates and numbers.
  */
  method AnalyzeCsv(codec: Codec, source: string, config: RiskConfig, intervalMinutes: real)
    returns (r: Result<Analysis, DatasetError>)
    ensures DescribesDataset(codec, source, config, intervalMinutes, r)
  {
    var parsed := ParseHistoricalCsv(codec, source);
    if parsed.Failure? {
      return Failure(BadCsv(parsed.error));
    }
    var bars := parsed.value;
    ParsedHistoryIsValid(codec, source, bars);
    ValidHistoryHasPositivePrices(bars);
    var analysed := AnalyzeHistory(config, bars, intervalMinutes);
    if analysed.Failure? {
      return Failure(BadAnalysis(analysed.error));
    }
    WorstInRange(SettingOf(config, Risk(500, 1_000), intervalMinutes, |bars|), bars);
    return Success(analysed.value);
  }
}
