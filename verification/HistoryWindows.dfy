/** The thirty-minute test: an index distance and a timestamp distance against windows with no missing bar. */
module HistoryWindows {
  import opened StockBars
  import opened StockRisk
  import opened Provenance
  import opened Scan
  import opened HistoryAnalysis

  ghost function StepMillis(bars: seq<Bar>, i: nat): real
    requires 1 <= i < |bars|
  {
    (bars[i].timestamp - bars[i - 1].timestamp) as real
  }

  ghost function IntervalMillis(st: Setting): real {
    st.intervalMinutes * 60_000.0
  }

  /** Every step of the window that ends at bar `i` is exactly one interval. */
  ghost predicate NoMissingBar(st: Setting, bars: seq<Bar>, i: nat)
    requires st.thirtyMinuteBars <= i < |bars|
  {
    forall j: nat | i - st.thirtyMinuteBars < j <= i :: StepMillis(bars, j) == IntervalMillis(st)
  }

  /** No step of the window that ends at bar `i` is shorter than one interval. */
  ghost predicate NoShortStep(st: Setting, bars: seq<Bar>, i: nat)
    requires st.thirtyMinuteBars <= i < |bars|
  {
    forall j: nat | i - st.thirtyMinuteBars < j <= i :: StepMillis(bars, j) >= IntervalMillis(st)
  }

  /** What the thirty-minute test is meant to find: a full window between two bars of one session. */
  ghost predicate FullWindow(st: Setting, bars: seq<Bar>, i: nat)
    requires st.Valid() && i < |bars|
  {
    && st.thirtyMinuteBars <= i
    && bars[i].session == bars[i - st.thirtyMinuteBars].session
    && NoMissingBar(st, bars, i)
  }

  // ---------- Sums of steps ----------

  ghost function Steps(count: nat, step: real): real {
    count as real * step
  }

  lemma OneMoreStep(count: nat, step: real)
    ensures Steps(count + 1, step) == Steps(count, step) + step
  {
  }

  ghost function SpanMillis(bars: seq<Bar>, lo: nat, hi: nat): real
    requires lo <= hi < |bars|
  {
    (bars[hi].timestamp - bars[lo].timestamp) as real
  }

  lemma {:induction false} SpanAtLeast(bars: seq<Bar>, lo: nat, hi: nat, step: real)
    requires lo <= hi < |bars|
    requires forall j: nat | lo < j <= hi :: StepMillis(bars, j) >= step
    ensures SpanMillis(bars, lo, hi) >= Steps(hi - lo, step)
  {
    if lo < hi {
      SpanAtLeast(bars, lo, hi - 1, step);
      OneMoreStep(hi - 1 - lo, step);
      assert SpanMillis(bars, lo, hi) == SpanMillis(bars, lo, hi - 1) + StepMillis(bars, hi);
    }
  }

  lemma {:induction false} SpanExact(bars: seq<Bar>, lo: nat, hi: nat, step: real)
    requires lo <= hi < |bars|
    requires forall j: nat | lo < j <= hi :: StepMillis(bars, j) >= step
    ensures SpanMillis(bars, lo, hi) == Steps(hi - lo, step) <==>
            forall j: nat | lo < j <= hi :: StepMillis(bars, j) == step
  {
    if lo < hi {
      SpanAtLeast(bars, lo, hi - 1, step);
      SpanExact(bars, lo, hi - 1, step);
      OneMoreStep(hi - 1 - lo, step);
      assert SpanMillis(bars, lo, hi) == SpanMillis(bars, lo, hi - 1) + StepMillis(bars, hi);
    }
  }

  lemma HalfHour(st: Setting)
    requires st.Exact()
    ensures Steps(st.thirtyMinuteBars, IntervalMillis(st)) == 1_800_000.0
  {
    var k := st.thirtyMinuteBars as real;
    assert k * (st.intervalMinutes * 60_000.0) == k * st.intervalMinutes * 60_000.0;
  }

  // ---------- The test ----------

  /**
  For every history: the test accepts a window none of whose steps is shorter
  than the interval exactly when the window is full.
  */
  lemma WindowExactness(st: Setting, bars: seq<Bar>, i: nat)
    requires st.Exact() && i < |bars|
    ensures st.thirtyMinuteBars <= i && NoShortStep(st, bars, i) && Applies(ThirtyMinute, st, bars, i) <==>
            FullWindow(st, bars, i)
  {
    var k := st.thirtyMinuteBars;
    if k <= i && NoShortStep(st, bars, i) {
      SpanExact(bars, i - k, i, IntervalMillis(st));
      HalfHour(st);
    }
  }

  /** Consecutive bars are at least one interval apart. */
  ghost predicate Spaced(st: Setting, bars: seq<Bar>) {
    forall i: nat | 1 <= i < |bars| :: StepMillis(bars, i) >= IntervalMillis(st)
  }

  /** On a spaced history the windows counted are precisely the full ones. */
  lemma CountedWindows(st: Setting, bars: seq<Bar>)
    requires Ready(st, bars) && st.Exact() && Spaced(st, bars)
    ensures forall i: nat | i < |bars| :: Readings(ThirtyMinute, st, bars)[i].Some? <==> FullWindow(st, bars, i)
  {
    forall i: nat | i < |bars|
      ensures Applies(ThirtyMinute, st, bars, i) <==> FullWindow(st, bars, i)
    {
      WindowExactness(st, bars, i);
    }
  }

  // ---------- A regular history ----------

  /** Bars of one session, `minutes` minutes apart. */
  ghost predicate Regular(bars: seq<Bar>, minutes: int) {
    forall i | 0 <= i < |bars| ::
      bars[i].session == bars[0].session && bars[i].timestamp == bars[0].timestamp + i * (minutes * 60_000)
  }

  /** Bars of a regular history that are half an hour apart by index are half an hour apart in time. */
  lemma HalfHourApart(bars: seq<Bar>, minutes: int, i: nat)
    requires IsInterval(minutes) && Regular(bars, minutes) && 30 / minutes <= i < |bars|
    ensures bars[i].timestamp - bars[i - 30 / minutes].timestamp == 1_800_000
  {
    var k, step := 30 / minutes, minutes * 60_000;
    AdmittedIntervals(minutes);
    assert k * minutes == 30;
    assert k * step == 1_800_000;
    assert i * step - (i - k) * step == k * step;
  }

  /**
  In a regular history of any admitted interval the test reads a window at every
  bar that has half an hour before it, and there is no closure.
  */
  lemma RegularHistory(config: RiskConfig, risk: Risk, minutes: int, bars: seq<Bar>)
    requires IsInterval(minutes) && 2 <= |bars| && Comparable(bars) && Regular(bars, minutes)
    ensures var st := SettingOf(config, risk, minutes as real, |bars|);
      && (forall i: nat | i < |bars| :: Readings(ThirtyMinute, st, bars)[i].Some? <==> 30 / minutes <= i)
      && AnalysisOf(st, bars).longestClosureMinutes == 0.0
  {
    var st := SettingOf(config, risk, minutes as real, |bars|);
    AdmittedSetting(config, risk, minutes, |bars|);
    forall i: nat | i < |bars|
      ensures Applies(ThirtyMinute, st, bars, i) <==> 30 / minutes <= i
    {
      if 30 / minutes <= i {
        HalfHourApart(bars, minutes, i);
      }
    }
    forall i: nat | i < |bars|
      ensures ClosureMinutes(st, bars, i) == 0.0
    {
      if 1 <= i {
        assert i * (minutes * 60_000) - (i - 1) * (minutes * 60_000) == minutes * 60_000;
        ClosureInMillis(st, bars, i);
      }
    }
    LongestOfAll(st, bars);
    LongestUnique(Closures(st, bars), LongestOf(st, bars), 0.0);
  }

  // ---------- When the test is right ----------

  /** The test agrees with its meaning at every bar. */
  ghost predicate TestIsRight(st: Setting, bars: seq<Bar>)
    requires st.Valid()
  {
    forall i: nat | i < |bars| :: Applies(ThirtyMinute, st, bars, i) <==> FullWindow(st, bars, i)
  }

  /** The test agrees with its meaning on a whole history exactly when no accepted window hides a short step. */
  lemma TestAgreesWithMeaning(st: Setting, bars: seq<Bar>)
    requires st.Exact()
    ensures
      TestIsRight(st, bars) <==>
      (forall i: nat | i < |bars| && Applies(ThirtyMinute, st, bars, i) :: NoShortStep(st, bars, i))
  {
    forall i: nat | i < |bars|
      ensures (Applies(ThirtyMinute, st, bars, i) <==> FullWindow(st, bars, i)) <==>
              (Applies(ThirtyMinute, st, bars, i) ==> NoShortStep(st, bars, i))
    {
      WindowExactness(st, bars, i);
    }
  }

  /** Bars a millisecond apart, and one more half an hour after the first. */
  function CrowdedBars(k: nat): (bars: seq<Bar>)
    ensures |bars| == k + 1
  {
    seq(k + 1, i requires 0 <= i <= k =>
      Bar(if i < k then i else 1_800_000, "2026-09-01", 1.0, 1.0, 1.0, 1.0))
  }

  /**
  The CSV reader only asks for increasing timestamps, so the test can fail: where
  a window has two steps or more, all but the last can be a millisecond long.
  */
  lemma ShortStepHidesGap(st: Setting)
    requires st.Exact() && 2 <= st.thirtyMinuteBars < 1_800_000
    ensures var k := st.thirtyMinuteBars;
      && ValidHistory(CrowdedBars(k))
      && Applies(ThirtyMinute, st, CrowdedBars(k), k) && !FullWindow(st, CrowdedBars(k), k)
  {
    var k := st.thirtyMinuteBars;
    var bars := CrowdedBars(k);
    assert forall bar <- bars :: ValidBar(bar);
    assert StepMillis(bars, 1) == 1.0;
    HalfHour(st);
    LongInterval(k, IntervalMillis(st));
  }

  lemma LongInterval(k: nat, interval: real)
    requires k < 1_800_000 && Steps(k, interval) == 1_800_000.0
    ensures interval != 1.0
  {
  }

  lemma SingleStep(st: Setting, bars: seq<Bar>, i: nat)
    requires st.Exact() && st.thirtyMinuteBars == 1 && i < |bars|
    ensures Applies(ThirtyMinute, st, bars, i) <==> FullWindow(st, bars, i)
  {
    HalfHour(st);
    assert IntervalMillis(st) == 1_800_000.0;
    if 1 <= i {
      assert NoMissingBar(st, bars, i) <==> StepMillis(bars, i) == IntervalMillis(st);
    }
  }

  /** Half an hour holds at most one step a millisecond, so a window of more bars is neither accepted nor full. */
  lemma CrowdedIsFull(st: Setting, bars: seq<Bar>, i: nat)
    requires st.Exact() && 1_800_000 <= st.thirtyMinuteBars && i < |bars| && Increasing(bars)
    ensures Applies(ThirtyMinute, st, bars, i) <==> FullWindow(st, bars, i)
  {
    var k := st.thirtyMinuteBars;
    HalfHour(st);
    if Applies(ThirtyMinute, st, bars, i) {
      SpanAtLeast(bars, i - k, i, 1.0);
      assert k == 1_800_000;
      ShortInterval(k, IntervalMillis(st));
    }
    WindowExactness(st, bars, i);
  }

  lemma ShortInterval(k: nat, interval: real)
    requires k == 1_800_000 && Steps(k, interval) == k as real
    ensures interval == 1.0
  {
  }

  /**
  For every setting: the test is right on all readable histories exactly when a
  window is a single step, or has so many that no step can be a millisecond too short.
  */
  lemma TestIsRightExactly(st: Setting)
    requires st.Exact()
    ensures (forall bars | ValidHistory(bars) :: TestIsRight(st, bars)) <==>
            st.thirtyMinuteBars == 1 || 1_800_000 <= st.thirtyMinuteBars
  {
    var k := st.thirtyMinuteBars;
    if k == 1 || 1_800_000 <= k {
      forall bars, i: nat | ValidHistory(bars) && i < |bars|
        ensures Applies(ThirtyMinute, st, bars, i) <==> FullWindow(st, bars, i)
      {
        if k == 1 {
          SingleStep(st, bars, i);
        } else {
          CrowdedIsFull(st, bars, i);
        }
      }
    } else {
      ShortStepHidesGap(st);
      assert !TestIsRight(st, CrowdedBars(k));
    }
  }

  /** Of the admitted intervals only half an hour itself makes the test right on all readable histories. */
  lemma AdmittedIntervalIsRight(config: RiskConfig, risk: Risk, minutes: int, n: nat)
    requires IsInterval(minutes) && 2 <= n
    ensures var st := SettingOf(config, risk, minutes as real, n);
      (forall bars | ValidHistory(bars) :: TestIsRight(st, bars)) <==> minutes == 30
  {
    AdmittedSetting(config, risk, minutes, n);
    AdmittedIntervals(minutes);
    TestIsRightExactly(SettingOf(config, risk, minutes as real, n));
  }

  // ---------- Sessions inside a window ----------

  /** Bar `j` of another session interrupts the session of bars `i` and `l`. */
  ghost predicate Interrupts(bars: seq<Bar>, i: nat, j: nat, l: nat)
    requires i < j < l < |bars|
  {
    bars[i].session == bars[l].session && bars[j].session != bars[i].session
  }

  /** Among the bars before `end`, those of one session form one unbroken run. */
  ghost predicate OneRunPerSession(bars: seq<Bar>, end: nat)
    requires end <= |bars|
  {
    forall i: nat, j: nat, l: nat | i < j < l < end :: !Interrupts(bars, i, j, l)
  }

  /** When sessions are unbroken, checking the two ends puts the whole window in one session. */
  lemma WindowInOneSession(st: Setting, bars: seq<Bar>, i: nat, j: nat)
    requires st.Valid() && i < |bars| && OneRunPerSession(bars, |bars|)
    requires Applies(ThirtyMinute, st, bars, i) && i - st.thirtyMinuteBars <= j <= i
    ensures bars[j].session == bars[i].session
  {
    if i - st.thirtyMinuteBars < j < i {
      assert !Interrupts(bars, i - st.thirtyMinuteBars, j, i);
    }
  }
}
