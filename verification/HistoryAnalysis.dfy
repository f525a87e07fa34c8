/**
The single pass over a price history. At each bar the loop makes up to three
comparisons; what each one reads at each bar is written down here as a sequence
of readings, and the pass is proved to compute their extremes and counts.
*/
module HistoryAnalysis {
  import opened Wrappers
  import opened Numbers
  import opened StockBars
  import opened StockRisk
  import opened Provenance
  import opened Scan

  const MILLIS_PER_MINUTE := 60_000

  datatype Analysis = Analysis(
    symbol: string,
    observations: nat,
    sessions: nat,
    worstSessionGapBps: int,
    worstThirtyMinuteReturnBps: int,
    circuitBreakerMoveCount: nat,
    sessionGapShortfallCount: nat,
    thirtyMinuteShortfallCount: nat,
    longestClosureMinutes: real
  )

  /** The second error is the one raised by reading a bar that is not there. */
  datatype AnalysisError = TooFewBars(symbol: string) | MissingReference

  /** What a pass is run with, and how many bars the thirty-minute comparison looks back. */
  datatype Setting = Setting(config: RiskConfig, risk: Risk, intervalMinutes: real, thirtyMinuteBars: nat) {
    predicate Valid() {
      1 <= thirtyMinuteBars
    }

    /** That many intervals make half an hour. */
    ghost predicate Exact() {
      Valid() && thirtyMinuteBars as real * intervalMinutes == 30.0
    }
  }

  // ---------- Looking back half an hour ----------

  /** What the index test and the element access find at a bar. */
  datatype Reference = NotYet | Missing | At(index: nat)

  /**
  Half an hour in intervals is subtracted from the bar's index, once the index is
  large enough. A zero interval gives infinity, which no index reaches; an element
  access finds a bar for whole numbers within bounds only.
  */
  function ReferenceOf(intervalMinutes: real, n: nat, i: nat): (r: Reference)
    ensures r.At? ==> r.index < n
  {
    if intervalMinutes == 0.0 then NotYet
    else
      var thirtyMinuteBars := 30.0 / intervalMinutes;
      if i as real < thirtyMinuteBars then NotYet
      else
        var at := i as real - thirtyMinuteBars;
        if IsWhole(at) && 0 <= at.Floor < n then At(at.Floor) else Missing
  }

  /** Somewhere in a history of `n` bars the pass reads a bar that is not there. */
  ghost predicate ReadsOutside(intervalMinutes: real, n: nat) {
    exists i: nat | 1 <= i < n :: ReferenceOf(intervalMinutes, n, i) == Missing
  }

  /** The setting of a pass over `n` bars; a look-back of `n` bars is never possible. */
  function SettingOf(config: RiskConfig, risk: Risk, intervalMinutes: real, n: nat): (st: Setting)
    requires 1 <= n
    ensures st.Valid()
  {
    if 0.0 < intervalMinutes && IsWhole(30.0 / intervalMinutes) then
      assert 0.0 < 30.0 / intervalMinutes;
      Setting(config, risk, intervalMinutes, (30.0 / intervalMinutes).Floor)
    else
      Setting(config, risk, intervalMinutes, n)
  }

  lemma WholeDifference(i: int, x: real)
    ensures IsWhole(i as real - x) <==> IsWhole(x)
    ensures IsWhole(x) ==> (i as real - x).Floor == i - x.Floor
  {
    if IsWhole(x) {
      assert i as real - x == (i - x.Floor) as real;
    }
    if IsWhole(i as real - x) {
      assert x == (i - (i as real - x).Floor) as real;
    }
  }

  /** Where the reference bar stands, for intervals that are not negative. */
  lemma ReferenceFound(st: Setting, n: nat, i: nat)
    requires 1 <= n && st == SettingOf(st.config, st.risk, st.intervalMinutes, n)
    requires 0.0 <= st.intervalMinutes && 1 <= i < n
    ensures match ReferenceOf(st.intervalMinutes, n, i)
      case NotYet => i < st.thirtyMinuteBars
      case Missing => true
      case At(j) => st.thirtyMinuteBars <= i && j == i - st.thirtyMinuteBars
  {
    if 0.0 < st.intervalMinutes {
      WholeDifference(i, 30.0 / st.intervalMinutes);
    }
  }

  /** With a negative interval the look-back points ahead, and past the end at the last bar if not before. */
  lemma NegativeReadsOutside(intervalMinutes: real, n: nat)
    requires intervalMinutes < 0.0 && 2 <= n
    ensures ReferenceOf(intervalMinutes, n, n - 1) == Missing
  {
    var k := 30.0 / intervalMinutes;
    assert k * intervalMinutes == 30.0;
    assert k < 0.0;
    WholeDifference(n - 1, k);
  }

  /**
  A pass fails on a missing bar exactly when the interval is negative, or no whole
  number of intervals makes half an hour and the history is long enough to look.
  */
  lemma ReadsOutsideExactly(intervalMinutes: real, n: nat)
    requires 2 <= n
    ensures ReadsOutside(intervalMinutes, n) <==>
      || intervalMinutes < 0.0
      || (0.0 < intervalMinutes && !IsWhole(30.0 / intervalMinutes) && 30.0 / intervalMinutes <= (n - 1) as real)
  {
    if intervalMinutes < 0.0 {
      NegativeReadsOutside(intervalMinutes, n);
    } else if 0.0 < intervalMinutes {
      var k := 30.0 / intervalMinutes;
      PositiveQuotient(intervalMinutes);
      forall i: nat | 1 <= i < n
        ensures ReferenceOf(intervalMinutes, n, i) == Missing <==> k <= i as real && !IsWhole(k)
      {
        WholeDifference(i, k);
      }
      assert k <= (n - 1) as real && !IsWhole(k) ==> ReferenceOf(intervalMinutes, n, n - 1) == Missing;
    }
  }

  lemma PositiveQuotient(intervalMinutes: real)
    requires 0.0 < intervalMinutes
    ensures 0.0 < 30.0 / intervalMinutes
  {
  }

  /** When half an hour is a whole number of intervals, that many make the look-back. */
  lemma WholeSetting(config: RiskConfig, risk: Risk, intervalMinutes: real, n: nat)
    requires 0.0 < intervalMinutes && IsWhole(30.0 / intervalMinutes) && 1 <= n
    ensures SettingOf(config, risk, intervalMinutes, n).Exact()
  {
    var k := 30.0 / intervalMinutes;
    assert k * intervalMinutes == 30.0;
  }

  /** An admitted interval never fails in this way, and its windows are exactly half an hour. */
  lemma AdmittedSetting(config: RiskConfig, risk: Risk, minutes: int, n: nat)
    requires IsInterval(minutes) && 2 <= n
    ensures var st := SettingOf(config, risk, minutes as real, n);
      st.Exact() && st.thirtyMinuteBars == 30 / minutes
    ensures !ReadsOutside(minutes as real, n)
  {
    AdmittedIntervals(minutes);
    var k := 30 / minutes;
    WholeQuotient(k, minutes);
    WholeSetting(config, risk, minutes as real, n);
    ReadsOutsideExactly(minutes as real, n);
  }

  lemma WholeQuotient(k: int, minutes: int)
    requires 0 < minutes && k * minutes == 30
    ensures 30.0 / minutes as real == k as real
  {
    assert k as real * minutes as real == 30.0;
  }

  /** The relative move in basis points, to the nearest integer with ties going up. */
  function ReturnBps(next: real, previous: real): int
    requires previous != 0.0
  {
    ((next / previous - 1.0) * 10_000.0 + 0.5).Floor
  }

  // ---------- The three comparisons ----------

  datatype Comparison = Step | SessionGap | ThirtyMinute

  /** Whether the comparison is made at bar `i`. */
  ghost predicate Applies(cmp: Comparison, st: Setting, bars: seq<Bar>, i: nat)
    requires st.Valid() && i < |bars|
  {
    match cmp
    case Step => 1 <= i
    case SessionGap => 1 <= i && bars[i].session != bars[i - 1].session
    case ThirtyMinute =>
      var k := st.thirtyMinuteBars;
      && k <= i
      && bars[i].session == bars[i - k].session
      && bars[i].timestamp - bars[i - k].timestamp == 30 * MILLIS_PER_MINUTE
  }

  /** The return that the comparison measures at bar `i`. */
  ghost function Return(cmp: Comparison, st: Setting, bars: seq<Bar>, i: nat): int
    requires st.Valid() && Comparable(bars) && i < |bars| && Applies(cmp, st, bars, i)
  {
    match cmp
    case Step => ReturnBps(bars[i].close, bars[i - 1].close)
    case SessionGap => ReturnBps(bars[i].open, bars[i - 1].close)
    case ThirtyMinute => ReturnBps(bars[i].close, bars[i - st.thirtyMinuteBars].close)
  }

  ghost function Reading(cmp: Comparison, st: Setting, bars: seq<Bar>, i: nat): Option<int>
    requires st.Valid() && Comparable(bars) && i < |bars|
  {
    if Applies(cmp, st, bars, i) then Some(Return(cmp, st, bars, i)) else None
  }

  /** Whether a reading is counted: a breaker move for steps, a penalty shortfall otherwise. */
  ghost predicate Counted(cmp: Comparison, st: Setting, reading: Option<int>) {
    && reading.Some?
    && if cmp.Step? then Abs(reading.value) > st.config.maxOracleDeviationBps
       else Shortfall(st.config, st.risk, reading.value)
  }

  /** Minutes by which bar `i` is later than one interval after its predecessor. */
  ghost function ClosureMinutes(st: Setting, bars: seq<Bar>, i: nat): real
    requires i < |bars|
  {
    if i == 0 then 0.0
    else
      var elapsed := (bars[i].timestamp - bars[i - 1].timestamp) as real / MILLIS_PER_MINUTE as real;
      MaxReal(0.0, elapsed - st.intervalMinutes)
  }

  /** A closure is the time in milliseconds by which a step is longer than the interval, if it is longer. */
  lemma ClosureInMillis(st: Setting, bars: seq<Bar>, i: nat)
    requires 1 <= i < |bars|
    ensures var excess := (bars[i].timestamp - bars[i - 1].timestamp) as real - st.intervalMinutes * 60_000.0;
      ClosureMinutes(st, bars, i) * 60_000.0 == if 0.0 < excess then excess else 0.0
  {
  }

  // ---------- What a pass reads ----------

  ghost predicate Ready(st: Setting, bars: seq<Bar>) {
    st.Valid() && Comparable(bars)
  }

  ghost function Readings(cmp: Comparison, st: Setting, bars: seq<Bar>): (rs: seq<Option<int>>)
    requires Ready(st, bars)
    ensures |rs| == |bars|
    ensures forall i | 0 <= i < |bars| :: rs[i] == Reading(cmp, st, bars, i)
  {
    seq(|bars|, i requires 0 <= i < |bars| => Reading(cmp, st, bars, i))
  }

  ghost function Alarms(cmp: Comparison, st: Setting, bars: seq<Bar>): (flags: seq<bool>)
    requires Ready(st, bars)
    ensures |flags| == |bars|
    ensures forall i | 0 <= i < |bars| :: flags[i] == Counted(cmp, st, Reading(cmp, st, bars, i))
  {
    seq(|bars|, i requires 0 <= i < |bars| => Counted(cmp, st, Reading(cmp, st, bars, i)))
  }

  ghost function Closures(st: Setting, bars: seq<Bar>): (minutes: seq<real>)
    ensures |minutes| == |bars|
    ensures forall i | 0 <= i < |bars| :: minutes[i] == ClosureMinutes(st, bars, i)
  {
    seq(|bars|, i requires 0 <= i < |bars| => ClosureMinutes(st, bars, i))
  }

  ghost function SessionsOf(bars: seq<Bar>): set<string> {
    set bar | bar in bars :: bar.session
  }

  /** `a` is the analysis of `bars`. */
  ghost predicate IsAnalysis(a: Analysis, st: Setting, bars: seq<Bar>) {
    && 2 <= |bars| && Ready(st, bars)
    && a.symbol == st.config.symbol
    && a.observations == |bars|
    && a.sessions == |SessionsOf(bars)|
    && IsWorst(a.worstSessionGapBps, Readings(SessionGap, st, bars))
    && IsWorst(a.worstThirtyMinuteReturnBps, Readings(ThirtyMinute, st, bars))
    && a.circuitBreakerMoveCount == Count(Alarms(Step, st, bars))
    && a.sessionGapShortfallCount == Count(Alarms(SessionGap, st, bars))
    && a.thirtyMinuteShortfallCount == Count(Alarms(ThirtyMinute, st, bars))
    && IsLongest(a.longestClosureMinutes, Closures(st, bars))
  }

  // ---------- The accumulators of the pass ----------

  ghost function WorstBefore(cmp: Comparison, st: Setting, bars: seq<Bar>, end: nat): int
    requires Ready(st, bars) && end <= |bars|
  {
    if end == 0 then 0 else Worse(WorstBefore(cmp, st, bars, end - 1), Reading(cmp, st, bars, end - 1))
  }

  ghost function CountBefore(cmp: Comparison, st: Setting, bars: seq<Bar>, end: nat): nat
    requires Ready(st, bars) && end <= |bars|
  {
    if end == 0 then 0
    else CountBefore(cmp, st, bars, end - 1) + (if Counted(cmp, st, Reading(cmp, st, bars, end - 1)) then 1 else 0)
  }

  ghost function LongestBefore(st: Setting, bars: seq<Bar>, end: nat): real
    requires end <= |bars|
  {
    if end == 0 then 0.0 else MaxReal(LongestBefore(st, bars, end - 1), ClosureMinutes(st, bars, end - 1))
  }

  ghost function WorstOf(cmp: Comparison, st: Setting, bars: seq<Bar>): int
    requires Ready(st, bars)
  {
    WorstBefore(cmp, st, bars, |bars|)
  }

  ghost function CountOf(cmp: Comparison, st: Setting, bars: seq<Bar>): nat
    requires Ready(st, bars)
  {
    CountBefore(cmp, st, bars, |bars|)
  }

  ghost function LongestOf(st: Setting, bars: seq<Bar>): real {
    LongestBefore(st, bars, |bars|)
  }

  /** The report made from the accumulators at the end of the pass. */
  ghost function AnalysisOf(st: Setting, bars: seq<Bar>): Analysis
    requires Ready(st, bars)
  {
    Analysis(st.config.symbol, |bars|, |SessionsOf(bars)|,
      WorstOf(SessionGap, st, bars), WorstOf(ThirtyMinute, st, bars),
      CountOf(Step, st, bars), CountOf(SessionGap, st, bars), CountOf(ThirtyMinute, st, bars),
      LongestOf(st, bars))
  }

  // ---------- What the accumulators mean ----------

  lemma {:induction false} WorstMeaning(cmp: Comparison, st: Setting, bars: seq<Bar>, end: nat)
    requires Ready(st, bars) && end <= |bars|
    ensures IsWorst(WorstBefore(cmp, st, bars, end), Readings(cmp, st, bars)[..end])
  {
    if end > 0 {
      var readings := Readings(cmp, st, bars);
      WorstMeaning(cmp, st, bars, end - 1);
      WorstExtends(readings[..end - 1], readings[end - 1], WorstBefore(cmp, st, bars, end - 1));
      assert readings[..end] == readings[..end - 1] + [readings[end - 1]];
    }
  }

  lemma {:induction false} CountMeaning(cmp: Comparison, st: Setting, bars: seq<Bar>, end: nat)
    requires Ready(st, bars) && end <= |bars|
    ensures CountBefore(cmp, st, bars, end) == Count(Alarms(cmp, st, bars)[..end])
  {
    var flags := Alarms(cmp, st, bars);
    if end == 0 {
      assert Positions(flags[..0]) == {};
    } else {
      CountMeaning(cmp, st, bars, end - 1);
      CountExtends(flags[..end - 1], flags[end - 1]);
      assert flags[..end] == flags[..end - 1] + [flags[end - 1]];
    }
  }

  lemma {:induction false} LongestMeaning(st: Setting, bars: seq<Bar>, end: nat)
    requires end <= |bars|
    ensures IsLongest(LongestBefore(st, bars, end), Closures(st, bars)[..end])
  {
    if end > 0 {
      var closures := Closures(st, bars);
      LongestMeaning(st, bars, end - 1);
      LongestExtends(closures[..end - 1], closures[end - 1], LongestBefore(st, bars, end - 1));
      assert closures[..end] == closures[..end - 1] + [closures[end - 1]];
    }
  }

  lemma WorstOfAll(cmp: Comparison, st: Setting, bars: seq<Bar>)
    requires Ready(st, bars)
    ensures IsWorst(WorstOf(cmp, st, bars), Readings(cmp, st, bars))
  {
    WorstMeaning(cmp, st, bars, |bars|);
    assert Readings(cmp, st, bars)[..|bars|] == Readings(cmp, st, bars);
  }

  lemma CountOfAll(cmp: Comparison, st: Setting, bars: seq<Bar>)
    requires Ready(st, bars)
    ensures CountOf(cmp, st, bars) == Count(Alarms(cmp, st, bars))
  {
    CountMeaning(cmp, st, bars, |bars|);
    assert Alarms(cmp, st, bars)[..|bars|] == Alarms(cmp, st, bars);
  }

  lemma LongestOfAll(st: Setting, bars: seq<Bar>)
    ensures IsLongest(LongestOf(st, bars), Closures(st, bars))
  {
    LongestMeaning(st, bars, |bars|);
    assert Closures(st, bars)[..|bars|] == Closures(st, bars);
  }

  /** At the end of the pass each accumulator is the extreme or the count it stands for. */
  lemma AnalysisMeaning(st: Setting, bars: seq<Bar>)
    requires Ready(st, bars) && 2 <= |bars|
    ensures IsAnalysis(AnalysisOf(st, bars), st, bars)
  {
    WorstOfAll(SessionGap, st, bars);
    WorstOfAll(ThirtyMinute, st, bars);
    CountOfAll(Step, st, bars);
    CountOfAll(SessionGap, st, bars);
    CountOfAll(ThirtyMinute, st, bars);
    LongestOfAll(st, bars);
  }

  /** Nothing but that report satisfies the description. */
  lemma AnalysisUnique(a: Analysis, st: Setting, bars: seq<Bar>)
    requires IsAnalysis(a, st, bars)
    ensures a == AnalysisOf(st, bars)
  {
    var b := AnalysisOf(st, bars);
    AnalysisMeaning(st, bars);
    WorstUnique(Readings(SessionGap, st, bars), a.worstSessionGapBps, b.worstSessionGapBps);
    WorstUnique(Readings(ThirtyMinute, st, bars), a.worstThirtyMinuteReturnBps, b.worstThirtyMinuteReturnBps);
    LongestUnique(Closures(st, bars), a.longestClosureMinutes, b.longestClosureMinutes);
  }

  // ---------- The pass ----------

  method AnalyzeHistory(config: RiskConfig, bars: seq<Bar>, intervalMinutes: real,
                        startingBufferBps: int := 500, liquidationPenaltyBps: int := 1_000)
    returns (r: Result<Analysis, AnalysisError>)
    requires Comparable(bars)
    ensures r == Failure(TooFewBars(config.symbol)) <==> |bars| < 2
    ensures r == Failure(MissingReference) <==> 2 <= |bars| && ReadsOutside(intervalMinutes, |bars|)
    ensures r.Success? <==> 2 <= |bars| && !ReadsOutside(intervalMinutes, |bars|)
    ensures r.Success? ==>
      var st := SettingOf(config, Risk(startingBufferBps, liquidationPenaltyBps), intervalMinutes, |bars|);
      r.value == AnalysisOf(st, bars) && IsAnalysis(r.value, st, bars)
  {
    if |bars| < 2 {
      return Failure(TooFewBars(config.symbol));
    }
    var worstSessionGapBps := 0;
    var worstThirtyMinuteReturnBps := 0;
    var circuitBreakerMoveCount := 0;
    var sessionGapShortfallCount := 0;
    var thirtyMinuteShortfallCount := 0;
    var longestClosureMinutes := 0.0;
    var sessions := set bar | bar in bars :: bar.session;
    var risk := Risk(startingBufferBps, liquidationPenaltyBps);

    ghost var st := SettingOf(config, risk, intervalMinutes, |bars|);
    NothingBeforeSecondBar(st, bars);

    for index := 1 to |bars|
      invariant worstSessionGapBps == WorstBefore(SessionGap, st, bars, index)
      invariant forall i: nat | 1 <= i < index :: ReferenceOf(intervalMinutes, |bars|, i) != Missing
      invariant 0.0 <= intervalMinutes ==> worstThirtyMinuteReturnBps == WorstBefore(ThirtyMinute, st, bars, index)
      invariant circuitBreakerMoveCount == CountBefore(Step, st, bars, index)
      invariant sessionGapShortfallCount == CountBefore(SessionGap, st, bars, index)
      invariant 0.0 <= intervalMinutes ==> thirtyMinuteShortfallCount == CountBefore(ThirtyMinute, st, bars, index)
      invariant longestClosureMinutes == LongestBefore(st, bars, index)
    {
      OneMoreBar(st, bars, index);
      if 0.0 <= intervalMinutes {
        OneMoreWindow(st, bars, index);
      }
      var previous := bars[index - 1];
      var current := bars[index];
      var elapsedMinutes := (current.timestamp - previous.timestamp) as real / MILLIS_PER_MINUTE as real;
      longestClosureMinutes := MaxReal(longestClosureMinutes, MaxReal(0.0, elapsedMinutes - intervalMinutes));

      var observedReturnBps := ReturnBps(current.close, previous.close);
      if Abs(observedReturnBps) > config.maxOracleDeviationBps {
        circuitBreakerMoveCount := circuitBreakerMoveCount + 1;
      }

      if current.session != previous.session {
        var gapBps := ReturnBps(current.open, previous.close);
        worstSessionGapBps := Min(worstSessionGapBps, gapBps);
        if ClassifyGap(config, risk, gapBps).penaltyShortfall {
          sessionGapShortfallCount := sessionGapShortfallCount + 1;
        }
      }

      var found := ReferenceOf(intervalMinutes, |bars|, index);
      if found.Missing? {
        return Failure(MissingReference);
      }
      if found.At? {
        var reference := bars[found.index];
        var isContinuousThirtyMinutes :=
          && current.session == reference.session
          && current.timestamp - reference.timestamp == 30 * MILLIS_PER_MINUTE;
        if !isContinuousThirtyMinutes {
          continue;
        }
        var thirtyMinuteReturnBps := ReturnBps(current.close, reference.close);
        worstThirtyMinuteReturnBps := Min(worstThirtyMinuteReturnBps, thirtyMinuteReturnBps);
        if ClassifyGap(config, risk, thirtyMinuteReturnBps).penaltyShortfall {
          thirtyMinuteShortfallCount := thirtyMinuteShortfallCount + 1;
        }
      }
    }

    if intervalMinutes < 0.0 {
      NegativeReadsOutside(intervalMinutes, |bars|);
    }
    AnalysisMeaning(st, bars);
    return Success(Analysis(config.symbol, |bars|, |sessions|, worstSessionGapBps, worstThirtyMinuteReturnBps,
      circuitBreakerMoveCount, sessionGapShortfallCount, thirtyMinuteShortfallCount, longestClosureMinutes));
  }

  // ---------- One more bar ----------

  lemma NothingBeforeSecondBar(st: Setting, bars: seq<Bar>)
    requires Ready(st, bars) && 1 <= |bars|
    ensures forall cmp: Comparison :: WorstBefore(cmp, st, bars, 1) == 0 && CountBefore(cmp, st, bars, 1) == 0
    ensures LongestBefore(st, bars, 1) == 0.0
  {
    forall cmp: Comparison
      ensures WorstBefore(cmp, st, bars, 1) == 0 && CountBefore(cmp, st, bars, 1) == 0
    {
      assert !Applies(cmp, st, bars, 0);
    }
  }

  /** What the thirty-minute accumulators become at bar `i`, in terms of the reference bar found there. */
  lemma OneMoreWindow(st: Setting, bars: seq<Bar>, i: nat)
    requires Ready(st, bars) && 1 <= i < |bars|
    requires 0.0 <= st.intervalMinutes && st == SettingOf(st.config, st.risk, st.intervalMinutes, |bars|)
    ensures var worst, count := WorstBefore(ThirtyMinute, st, bars, i), CountBefore(ThirtyMinute, st, bars, i);
      var newWorst, newCount := WorstBefore(ThirtyMinute, st, bars, i + 1), CountBefore(ThirtyMinute, st, bars, i + 1);
      var found := ReferenceOf(st.intervalMinutes, |bars|, i);
      && (found.NotYet? ==> newWorst == worst && newCount == count)
      && (found.At? ==>
            var reference := bars[found.index];
            if bars[i].session == reference.session &&
               bars[i].timestamp - reference.timestamp == 30 * MILLIS_PER_MINUTE
            then
              var bps := ReturnBps(bars[i].close, reference.close);
              && newWorst == Min(worst, bps)
              && newCount == count + (if Shortfall(st.config, st.risk, bps) then 1 else 0)
            else newWorst == worst && newCount == count)
  {
    ReferenceFound(st, |bars|, i);
  }

  /** What each accumulator of the loop becomes at bar `i`, in terms of the bars compared there. */
  lemma OneMoreBar(st: Setting, bars: seq<Bar>, i: nat)
    requires Ready(st, bars) && 1 <= i < |bars|
    ensures CountBefore(Step, st, bars, i + 1) == CountBefore(Step, st, bars, i) +
      (if Abs(ReturnBps(bars[i].close, bars[i - 1].close)) > st.config.maxOracleDeviationBps then 1 else 0)
    ensures var gap := ReturnBps(bars[i].open, bars[i - 1].close);
      if bars[i].session != bars[i - 1].session then
        && WorstBefore(SessionGap, st, bars, i + 1) == Min(WorstBefore(SessionGap, st, bars, i), gap)
        && CountBefore(SessionGap, st, bars, i + 1) ==
           CountBefore(SessionGap, st, bars, i) + (if Shortfall(st.config, st.risk, gap) then 1 else 0)
      else
        && WorstBefore(SessionGap, st, bars, i + 1) == WorstBefore(SessionGap, st, bars, i)
        && CountBefore(SessionGap, st, bars, i + 1) == CountBefore(SessionGap, st, bars, i)
  {
  }
}
