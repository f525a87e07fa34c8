/** Session labels against session boundaries. */
module HistorySessions {
  import opened StockBars
  import opened Scan
  import opened HistoryAnalysis
  import opened HistoryWindows

  lemma SubsetSize<T>(small: set<T>, large: set<T>)
    requires small <= large
    ensures |small| <= |large|
  {
    assert |large| == |small| + |large - small| by {
      assert large == small + (large - small);
    }
  }

  ghost predicate Changes(bars: seq<Bar>, i: nat)
    requires 1 <= i < |bars|
  {
    bars[i].session != bars[i - 1].session
  }

  /** The boundaries before bar `end`. */
  ghost function Boundaries(bars: seq<Bar>, end: nat): set<nat>
    requires end <= |bars|
  {
    set i: nat | 1 <= i < end && Changes(bars, i)
  }

  /** Bar `i` carries a session label that was seen before it. */
  ghost predicate SeenBefore(bars: seq<Bar>, i: nat)
    requires i < |bars|
  {
    exists j: nat | j < i :: bars[j].session == bars[i].session
  }

  // ---------- Runs ----------

  /** One more bar keeps the runs unbroken exactly when it continues the last run or opens a new session. */
  lemma RunContinues(bars: seq<Bar>, i: nat)
    requires 1 <= i < |bars|
    ensures OneRunPerSession(bars, i + 1) <==>
            OneRunPerSession(bars, i) && (!Changes(bars, i) || !SeenBefore(bars, i))
  {
    if OneRunPerSession(bars, i + 1) {
      assert OneRunPerSession(bars, i);
      if SeenBefore(bars, i) {
        var j: nat :| j < i && bars[j].session == bars[i].session;
        assert j < i - 1 ==> !Interrupts(bars, j, i - 1, i);
      }
    }
    if OneRunPerSession(bars, i) && (!Changes(bars, i) || !SeenBefore(bars, i)) {
      forall a: nat, j: nat, l: nat | a < j < l < i + 1
        ensures !Interrupts(bars, a, j, l)
      {
        assert l == i && j < i - 1 ==> !Interrupts(bars, a, j, i - 1);
      }
    }
  }

  // ---------- Counting along the bars ----------

  /** The number of bars before `end` that open a session not seen before. */
  ghost function Openings(bars: seq<Bar>, end: nat): nat
    requires end <= |bars|
  {
    if end == 0 then 0 else Openings(bars, end - 1) + (if SeenBefore(bars, end - 1) then 0 else 1)
  }

  /** The number of boundaries before `end`. */
  ghost function Crossings(bars: seq<Bar>, end: nat): nat
    requires end <= |bars|
  {
    if end <= 1 then 0 else Crossings(bars, end - 1) + (if Changes(bars, end - 1) then 1 else 0)
  }

  /** No boundary before `end` leads back to a session seen earlier. */
  ghost predicate NeverResumes(bars: seq<Bar>, end: nat)
    requires end <= |bars|
  {
    end <= 1 || (NeverResumes(bars, end - 1) && (!Changes(bars, end - 1) || !SeenBefore(bars, end - 1)))
  }

  /** A boundary crossed opens a session or resumes one, and no session opens without a boundary. */
  lemma {:induction false} CrossingsAndOpenings(bars: seq<Bar>, end: nat)
    requires 1 <= end <= |bars|
    ensures Openings(bars, end) - 1 <= Crossings(bars, end) <= end - 1
    ensures Crossings(bars, end) == Openings(bars, end) - 1 <==> NeverResumes(bars, end)
  {
    if end == 1 {
      assert !SeenBefore(bars, 0);
      assert Openings(bars, 0) == 0;
    } else {
      CrossingsAndOpenings(bars, end - 1);
      assert !Changes(bars, end - 1) ==> SeenBefore(bars, end - 1);
    }
  }

  lemma {:induction false} NeverResumesMeaning(bars: seq<Bar>, end: nat)
    requires 1 <= end <= |bars|
    ensures NeverResumes(bars, end) <==> OneRunPerSession(bars, end)
  {
    if 1 < end {
      NeverResumesMeaning(bars, end - 1);
      RunContinues(bars, end - 1);
    }
  }

  lemma {:induction false} CrossingsMeaning(bars: seq<Bar>, end: nat)
    requires end <= |bars|
    ensures Crossings(bars, end) == |Boundaries(bars, end)|
  {
    if end <= 1 {
      assert Boundaries(bars, end) == {};
    } else {
      CrossingsMeaning(bars, end - 1);
      assert end - 1 !in Boundaries(bars, end - 1);
      assert Boundaries(bars, end) ==
             Boundaries(bars, end - 1) + (if Changes(bars, end - 1) then {end - 1} else {});
    }
  }

  lemma SessionSeen(bars: seq<Bar>, i: nat)
    requires i < |bars|
    ensures bars[i].session in SessionsOf(bars[..i]) <==> SeenBefore(bars, i)
  {
    if SeenBefore(bars, i) {
      var j: nat :| j < i && bars[j].session == bars[i].session;
      assert bars[..i][j] in bars[..i];
    }
    if bars[i].session in SessionsOf(bars[..i]) {
      var bar :| bar in bars[..i] && bar.session == bars[i].session;
      var j: nat :| j < i && bars[..i][j] == bar;
      assert bars[j].session == bars[i].session;
    }
  }

  lemma SessionsGrow(bars: seq<Bar>, i: nat)
    requires i < |bars|
    ensures |SessionsOf(bars[..i + 1])| == |SessionsOf(bars[..i])| + (if SeenBefore(bars, i) then 0 else 1)
  {
    SessionSeen(bars, i);
    assert bars[..i + 1] == bars[..i] + [bars[i]];
    assert SessionsOf(bars[..i + 1]) == SessionsOf(bars[..i]) + {bars[i].session};
    if SeenBefore(bars, i) {
      assert SessionsOf(bars[..i + 1]) == SessionsOf(bars[..i]);
    }
  }

  lemma {:induction false} OpeningsMeaning(bars: seq<Bar>, end: nat)
    requires end <= |bars|
    ensures Openings(bars, end) == |SessionsOf(bars[..end])|
  {
    if end == 0 {
      assert SessionsOf(bars[..0]) == {};
    } else {
      OpeningsMeaning(bars, end - 1);
      SessionsGrow(bars, end - 1);
    }
  }

  // ---------- In a report ----------

  /** The bars at which the session-gap comparison is made are the session boundaries. */
  lemma GapReadingsAtBoundaries(st: Setting, bars: seq<Bar>)
    requires Ready(st, bars)
    ensures forall i: nat | i < |bars| :: Readings(SessionGap, st, bars)[i].Some? <==> i in Boundaries(bars, |bars|)
    ensures Positions(Alarms(SessionGap, st, bars)) <= Boundaries(bars, |bars|)
  {
    forall i: nat | i < |bars|
      ensures Readings(SessionGap, st, bars)[i].Some? <==> i in Boundaries(bars, |bars|)
    {
      assert Readings(SessionGap, st, bars)[i].Some? <==> Applies(SessionGap, st, bars, i);
    }
  }

  /**
  The session-gap branch is taken at least `sessions - 1` and at most
  `observations - 1` times, exactly `sessions - 1` times when every session is
  one unbroken run, and it bounds the session-gap shortfalls.
  */
  lemma SessionsAndBoundaries(st: Setting, bars: seq<Bar>)
    requires Ready(st, bars) && bars != []
    ensures var a := AnalysisOf(st, bars);
      var gaps := set i: nat | i < |bars| && Readings(SessionGap, st, bars)[i].Some?;
      && a.sessions - 1 <= |gaps| <= a.observations - 1
      && (|gaps| == a.sessions - 1 <==> OneRunPerSession(bars, |bars|))
      && a.sessionGapShortfallCount <= |gaps|
  {
    GapReadingsAtBoundaries(st, bars);
    CountOfAll(SessionGap, st, bars);
    var gaps := set i: nat | i < |bars| && Readings(SessionGap, st, bars)[i].Some?;
    assert gaps == Boundaries(bars, |bars|);
    SubsetSize(Positions(Alarms(SessionGap, st, bars)), gaps);
    assert bars[..|bars|] == bars;
    CrossingsAndOpenings(bars, |bars|);
    CrossingsMeaning(bars, |bars|);
    OpeningsMeaning(bars, |bars|);
    NeverResumesMeaning(bars, |bars|);
  }
}
