/** Analysing a history in two overlapping pieces. */
module HistoryMerge {
  import opened Wrappers
  import opened Numbers
  import opened StockBars
  import opened Scan
  import opened HistoryAnalysis

  /** How many bars a comparison looks back. */
  ghost function Reach(cmp: Comparison, st: Setting): nat {
    if cmp.ThirtyMinute? then st.thirtyMinuteBars else 1
  }

  lemma PrefixReading(cmp: Comparison, st: Setting, bars: seq<Bar>, m: nat, i: nat)
    requires Ready(st, bars) && i < m <= |bars|
    ensures Ready(st, bars[..m]) && Reading(cmp, st, bars[..m], i) == Reading(cmp, st, bars, i)
  {
  }

  lemma SuffixReading(cmp: Comparison, st: Setting, bars: seq<Bar>, from: nat, i: nat)
    requires Ready(st, bars) && from + Reach(cmp, st) <= i < |bars|
    ensures Ready(st, bars[from..]) && Reading(cmp, st, bars[from..], i - from) == Reading(cmp, st, bars, i)
  {
  }

  lemma NoEarlyReading(cmp: Comparison, st: Setting, bars: seq<Bar>, i: nat)
    requires Ready(st, bars) && i < |bars| && i < Reach(cmp, st)
    ensures Reading(cmp, st, bars, i) == None
  {
  }

  lemma SlicesReady(st: Setting, bars: seq<Bar>, m: nat)
    requires Ready(st, bars) && m <= |bars|
    ensures Ready(st, bars[..m]) && Ready(st, bars[m..])
  {
  }

  lemma LeftSame(cmp: Comparison, st: Setting, bars: seq<Bar>, m: nat)
    requires Ready(st, bars) && m <= |bars| && Ready(st, bars[..m])
    ensures forall i | 0 <= i < m :: Readings(cmp, st, bars)[i] == Readings(cmp, st, bars[..m])[i]
    ensures forall i | 0 <= i < m :: Alarms(cmp, st, bars)[i] == Alarms(cmp, st, bars[..m])[i]
  {
    forall i: nat | i < m
      ensures Reading(cmp, st, bars, i) == Reading(cmp, st, bars[..m], i)
    {
      PrefixReading(cmp, st, bars, m, i);
    }
  }

  lemma RestSame(cmp: Comparison, st: Setting, bars: seq<Bar>, from: nat)
    requires Ready(st, bars) && from <= |bars| && Ready(st, bars[from..])
    ensures forall i | from + Reach(cmp, st) <= i < |bars| ::
      Readings(cmp, st, bars)[i] == Readings(cmp, st, bars[from..])[i - from]
    ensures forall i | from + Reach(cmp, st) <= i < |bars| ::
      Alarms(cmp, st, bars)[i] == Alarms(cmp, st, bars[from..])[i - from]
  {
    forall i: nat | from + Reach(cmp, st) <= i < |bars|
      ensures Reading(cmp, st, bars, i) == Reading(cmp, st, bars[from..], i - from)
    {
      SuffixReading(cmp, st, bars, from, i);
    }
  }

  lemma BlankStart(cmp: Comparison, st: Setting, bars: seq<Bar>)
    requires Ready(st, bars)
    ensures forall i | 0 <= i < |bars| && i < Reach(cmp, st) ::
      Readings(cmp, st, bars)[i] == None && !Alarms(cmp, st, bars)[i]
  {
    forall i: nat | i < |bars| && i < Reach(cmp, st)
      ensures Reading(cmp, st, bars, i) == None
    {
      NoEarlyReading(cmp, st, bars, i);
    }
  }

  lemma Assemble<T>(whole: seq<T>, left: seq<T>, rest: seq<T>, reach: nat) returns (start: seq<T>, more: seq<T>)
    requires reach <= |left| && reach <= |rest| && |whole| == |left| + |rest| - reach
    requires forall i | 0 <= i < |left| :: whole[i] == left[i]
    requires forall i | |left| <= i < |whole| :: whole[i] == rest[i - (|left| - reach)]
    ensures whole == left + more && rest == start + more && start == rest[..reach]
  {
    start, more := rest[..reach], rest[reach..];
  }

  /** What a comparison reads before `m`, and what it reads on resuming with its reach before `m`. */
  lemma ReadingsSplit(cmp: Comparison, st: Setting, bars: seq<Bar>, m: nat)
    returns (blank: seq<Option<int>>, more: seq<Option<int>>)
    requires Ready(st, bars) && Reach(cmp, st) <= m <= |bars|
    requires Ready(st, bars[..m]) && Ready(st, bars[m - Reach(cmp, st)..])
    ensures Readings(cmp, st, bars) == Readings(cmp, st, bars[..m]) + more
    ensures Readings(cmp, st, bars[m - Reach(cmp, st)..]) == blank + more
    ensures forall r <- blank :: r == None
  {
    LeftSame(cmp, st, bars, m);
    RestSame(cmp, st, bars, m - Reach(cmp, st));
    BlankStart(cmp, st, bars[m - Reach(cmp, st)..]);
    blank, more := Assemble(Readings(cmp, st, bars), Readings(cmp, st, bars[..m]),
      Readings(cmp, st, bars[m - Reach(cmp, st)..]), Reach(cmp, st));
  }

  /** The alarms follow the readings. */
  lemma AlarmsSplit(cmp: Comparison, st: Setting, bars: seq<Bar>, m: nat)
    returns (quiet: seq<bool>, more: seq<bool>)
    requires Ready(st, bars) && Reach(cmp, st) <= m <= |bars|
    requires Ready(st, bars[..m]) && Ready(st, bars[m - Reach(cmp, st)..])
    ensures Alarms(cmp, st, bars) == Alarms(cmp, st, bars[..m]) + more
    ensures Alarms(cmp, st, bars[m - Reach(cmp, st)..]) == quiet + more
    ensures forall i | 0 <= i < |quiet| :: !quiet[i]
  {
    LeftSame(cmp, st, bars, m);
    RestSame(cmp, st, bars, m - Reach(cmp, st));
    BlankStart(cmp, st, bars[m - Reach(cmp, st)..]);
    quiet, more := Assemble(Alarms(cmp, st, bars), Alarms(cmp, st, bars[..m]),
      Alarms(cmp, st, bars[m - Reach(cmp, st)..]), Reach(cmp, st));
  }

  // ---------- Merging reports ----------

  lemma SessionsSplit(bars: seq<Bar>, m: nat)
    requires 1 <= m <= |bars|
    ensures SessionsOf(bars) == SessionsOf(bars[..m]) + SessionsOf(bars[m - 1..])
  {
    assert bars == bars[..m] + bars[m..];
    assert bars[m - 1..] == [bars[m - 1]] + bars[m..];
    assert bars[m - 1] == bars[..m][m - 1];
  }

  /** The worst return of one comparison, for the whole and for the two pieces. */
  lemma MergeWorst(cmp: Comparison, st: Setting, bars: seq<Bar>, m: nat)
    requires Ready(st, bars) && Reach(cmp, st) <= m <= |bars|
    requires Ready(st, bars[..m]) && Ready(st, bars[m - Reach(cmp, st)..])
    ensures WorstOf(cmp, st, bars) ==
            Min(WorstOf(cmp, st, bars[..m]), WorstOf(cmp, st, bars[m - Reach(cmp, st)..]))
  {
    var blank, more := ReadingsSplit(cmp, st, bars, m);
    WorstOfAll(cmp, st, bars);
    WorstOfAll(cmp, st, bars[..m]);
    WorstOfAll(cmp, st, bars[m - Reach(cmp, st)..]);
    WorstMerges(Readings(cmp, st, bars[..m]), blank, more,
      WorstOf(cmp, st, bars[..m]), WorstOf(cmp, st, bars[m - Reach(cmp, st)..]), WorstOf(cmp, st, bars));
  }

  lemma MergeCount(cmp: Comparison, st: Setting, bars: seq<Bar>, m: nat)
    requires Ready(st, bars) && Reach(cmp, st) <= m <= |bars|
    requires Ready(st, bars[..m]) && Ready(st, bars[m - Reach(cmp, st)..])
    ensures CountOf(cmp, st, bars) ==
            CountOf(cmp, st, bars[..m]) + CountOf(cmp, st, bars[m - Reach(cmp, st)..])
  {
    var quiet, more := AlarmsSplit(cmp, st, bars, m);
    CountOfAll(cmp, st, bars);
    CountOfAll(cmp, st, bars[..m]);
    CountOfAll(cmp, st, bars[m - Reach(cmp, st)..]);
    CountMerges(Alarms(cmp, st, bars[..m]), quiet, more);
  }

  lemma MergeLongest(st: Setting, bars: seq<Bar>, m: nat)
    requires 1 <= m <= |bars|
    ensures LongestOf(st, bars) == MaxReal(LongestOf(st, bars[..m]), LongestOf(st, bars[m - 1..]))
  {
    var more := ClosuresSplit(st, bars, m);
    LongestOfAll(st, bars);
    LongestOfAll(st, bars[..m]);
    LongestOfAll(st, bars[m - 1..]);
    LongestMerges(Closures(st, bars[..m]), more,
      LongestOf(st, bars[..m]), LongestOf(st, bars[m - 1..]), LongestOf(st, bars));
  }

  lemma ClosuresSplit(st: Setting, bars: seq<Bar>, m: nat) returns (more: seq<real>)
    requires 1 <= m <= |bars|
    ensures Closures(st, bars) == Closures(st, bars[..m]) + more
    ensures Closures(st, bars[m - 1..]) == [0.0] + more
  {
    more := Closures(st, bars[m - 1..])[1..];
  }

  /** For any split point the pairwise results are the merge of analysing `bars[..m]` and `bars[m - 1..]`. */
  lemma SplitPairs(st: Setting, bars: seq<Bar>, m: nat)
    requires Ready(st, bars) && 2 <= m < |bars|
    ensures Ready(st, bars[..m]) && Ready(st, bars[m - 1..])
    ensures
      var whole, left, right := AnalysisOf(st, bars), AnalysisOf(st, bars[..m]), AnalysisOf(st, bars[m - 1..]);
      && whole.observations == left.observations + right.observations - 1
      && whole.sessions == |SessionsOf(bars[..m]) + SessionsOf(bars[m - 1..])|
      && whole.worstSessionGapBps == Min(left.worstSessionGapBps, right.worstSessionGapBps)
      && whole.circuitBreakerMoveCount == left.circuitBreakerMoveCount + right.circuitBreakerMoveCount
      && whole.sessionGapShortfallCount == left.sessionGapShortfallCount + right.sessionGapShortfallCount
      && whole.longestClosureMinutes == MaxReal(left.longestClosureMinutes, right.longestClosureMinutes)
  {
    SessionsSplit(bars, m);
    SlicesReady(st, bars, m);
    SlicesReady(st, bars, m - 1);
    MergeLongest(st, bars, m);
    MergeCount(Step, st, bars, m);
    MergeCount(SessionGap, st, bars, m);
    MergeWorst(SessionGap, st, bars, m);
  }

  /** The window results are the merge of `bars[..m]` and the bars from one whole window before `m`. */
  lemma SplitWindows(st: Setting, bars: seq<Bar>, m: nat)
    requires Ready(st, bars) && st.thirtyMinuteBars <= m < |bars|
    ensures Ready(st, bars[..m]) && Ready(st, bars[m - st.thirtyMinuteBars..])
    ensures
      var whole, left := AnalysisOf(st, bars), AnalysisOf(st, bars[..m]);
      var window := AnalysisOf(st, bars[m - st.thirtyMinuteBars..]);
      && whole.worstThirtyMinuteReturnBps == Min(left.worstThirtyMinuteReturnBps, window.worstThirtyMinuteReturnBps)
      && whole.thirtyMinuteShortfallCount == left.thirtyMinuteShortfallCount + window.thirtyMinuteShortfallCount
  {
    SlicesReady(st, bars, m);
    SlicesReady(st, bars, m - st.thirtyMinuteBars);
    MergeCount(ThirtyMinute, st, bars, m);
    MergeWorst(ThirtyMinute, st, bars, m);
  }
}
