/**
A price move beyond the oracle cutoff waits for confirmation. Each window either
brings the price back inside the cutoff, restarts the wait because the price
moved materially, or confirms the move.
*/
module ConfirmationPath {
  import opened Numbers
  import opened StockRisk

  datatype Scenario = Scenario(risk: Risk, confirmationDeviationBps: int)

  datatype Window = Window(
    combinedReturnBps: int,
    collateralRatioBps: int,
    confirmationRestarts: bool,
    confirmed: bool,
    recoveredWithoutConfirmation: bool,
    penaltyShortfallDuringDelay: bool
  )

  datatype Resolution = NotRequired | Confirmed | Recovered | Unresolved

  datatype Path = Path(
    resolution: Resolution,
    windowsUsed: nat,
    restartCount: nat,
    penaltyShortfallDuringDelay: bool,
    worstCollateralRatioBps: int
  )

  /** The return since the start after a further move of `windowReturnBps`. */
  function Combine(returnBps: int, windowReturnBps: int): int {
    Max(0, (BPS + returnBps) * (BPS + windowReturnBps) / BPS) - BPS
  }

  /** The price after both moves is their product rounded down to a basis point, and never negative. */
  lemma CombineMeaning(returnBps: int, windowReturnBps: int)
    ensures var exact := (10_000 + returnBps) as real * ((10_000 + windowReturnBps) as real / 10_000.0);
      var price := 10_000 + Combine(returnBps, windowReturnBps);
      if exact < 0.0 then price == 0 else price as real <= exact < price as real + 1.0
  {
    var product := (BPS + returnBps) * (BPS + windowReturnBps);
    var q := product / BPS;
    assert BPS * q <= product < BPS * q + BPS;
    assert (10_000 + returnBps) as real * ((10_000 + windowReturnBps) as real / 10_000.0) * 10_000.0 == product as real;
  }

  function ClassifyWindow(config: RiskConfig, scenario: Scenario, initialReturnBps: int, windowReturnBps: int): Window {
    var initial := ClassifyGap(config, scenario.risk, initialReturnBps);
    var combinedReturnBps := Combine(initialReturnBps, windowReturnBps);
    var afterWindow := ClassifyGap(config, scenario.risk, combinedReturnBps);
    var recovered := initial.confirmationRequired && Abs(combinedReturnBps) <= config.maxOracleDeviationBps;
    var restarts :=
      initial.confirmationRequired && !recovered && Abs(windowReturnBps) > scenario.confirmationDeviationBps;
    Window(
      combinedReturnBps,
      afterWindow.collateralRatioBps,
      restarts,
      initial.confirmationRequired && !recovered && !restarts,
      recovered,
      initial.confirmationRequired && (initial.penaltyShortfall || afterWindow.penaltyShortfall))
  }

  /** While a move waits, a window ends in exactly one of three ways. Without a wait it reports none of them. */
  lemma WindowOutcome(config: RiskConfig, scenario: Scenario, initialReturnBps: int, windowReturnBps: int)
    ensures var w := ClassifyWindow(config, scenario, initialReturnBps, windowReturnBps);
      var waiting := Abs(initialReturnBps) > config.maxOracleDeviationBps;
      && (waiting <==> w.recoveredWithoutConfirmation || w.confirmationRestarts || w.confirmed)
      && !(w.recoveredWithoutConfirmation && w.confirmationRestarts)
      && !(w.recoveredWithoutConfirmation && w.confirmed)
      && !(w.confirmationRestarts && w.confirmed)
  {
  }

  /**
  While a move waits, a window sees a shortfall exactly when the lower of the
  prices at its two ends is one, which is to say below the gap limit where there
  is one. A start with a negative ratio needs a first return of at least a total loss.
  */
  lemma WindowShortfall(config: RiskConfig, scenario: Scenario, initialReturnBps: int, windowReturnBps: int)
    requires -BPS <= initialReturnBps || 0 <= StartingRatioBps(config, scenario.risk)
    ensures var w := ClassifyWindow(config, scenario, initialReturnBps, windowReturnBps);
      var waiting := Abs(initialReturnBps) > config.maxOracleDeviationBps;
      var lowest := Min(initialReturnBps, w.combinedReturnBps);
      && (w.penaltyShortfallDuringDelay <==> waiting && Shortfall(config, scenario.risk, lowest))
      && (0 < StartingRatioBps(config, scenario.risk) && 0 < BPS + scenario.risk.liquidationPenaltyBps ==>
            (w.penaltyShortfallDuringDelay <==> waiting && lowest < -GapLimit(config, scenario.risk)))
  {
    var risk, combined := scenario.risk, Combine(initialReturnBps, windowReturnBps);
    var lowest, highest := Min(initialReturnBps, combined), Max(initialReturnBps, combined);
    assert -BPS <= combined;
    if Shortfall(config, risk, highest) {
      ShortfallDownwardClosed(config, risk, lowest, highest);
    }
    if 0 < StartingRatioBps(config, risk) && 0 < BPS + risk.liquidationPenaltyBps {
      ShortfallThreshold(config, risk, lowest);
    }
  }

  // ---------- What a path means ----------

  /** The return since the start once the first `k` windows have passed. */
  function ReturnAfter(initialReturnBps: int, windows: seq<int>, k: nat): int
    requires k <= |windows|
  {
    if k == 0 then initialReturnBps
    else Combine(ReturnAfter(initialReturnBps, windows, k - 1), windows[k - 1])
  }

  ghost predicate BeyondCutoff(config: RiskConfig, returnBps: int) {
    Abs(returnBps) > config.maxOracleDeviationBps
  }

  /** Window `k` starts a new wait: the price is still beyond the cutoff and moved materially. */
  ghost predicate Restarts(config: RiskConfig, scenario: Scenario, initialReturnBps: int, windows: seq<int>, k: nat)
    requires k < |windows|
  {
    && BeyondCutoff(config, ReturnAfter(initialReturnBps, windows, k + 1))
    && Abs(windows[k]) > scenario.confirmationDeviationBps
  }

  /** The ratios a position passes through from the move to the end of window `k`. */
  ghost function RatiosSeen(config: RiskConfig, risk: Risk, initialReturnBps: int, windows: seq<int>, k: nat): set<int>
    requires k <= |windows|
  {
    set j | 0 <= j <= k :: Ratio(config, risk, ReturnAfter(initialReturnBps, windows, j))
  }

  ghost predicate ShortfallSeen(config: RiskConfig, risk: Risk, initialReturnBps: int, windows: seq<int>, k: nat)
    requires k <= |windows|
  {
    exists j | 0 <= j <= k :: Shortfall(config, risk, ReturnAfter(initialReturnBps, windows, j))
  }

  ghost predicate IsLeast(least: int, values: set<int>) {
    least in values && forall v <- values :: least <= v
  }

  /** `worst` and `shortfall` summarise the prices from the first move to the end of window `k`. */
  ghost predicate Summary(config: RiskConfig, risk: Risk, initialReturnBps: int, windows: seq<int>, k: nat,
                          worst: int, shortfall: bool)
    requires k <= |windows|
  {
    && IsLeast(worst, RatiosSeen(config, risk, initialReturnBps, windows, k))
    && (shortfall <==> ShortfallSeen(config, risk, initialReturnBps, windows, k))
  }

  ghost predicate AllRestart(config: RiskConfig, scenario: Scenario, initialReturnBps: int, windows: seq<int>, end: nat)
    requires end <= |windows|
  {
    forall k | 0 <= k < end :: Restarts(config, scenario, initialReturnBps, windows, k)
  }

  /**
  A move inside the cutoff does not wait. Any other path stops at the first window
  that does not restart the wait, or runs out of windows; its summary covers every
  price from the first move to the stop.
  */
  ghost predicate IsPath(config: RiskConfig, scenario: Scenario, initialReturnBps: int, windows: seq<int>, p: Path) {
    if !BeyondCutoff(config, initialReturnBps) then
      p == Path(NotRequired, 0, 0, false, Ratio(config, scenario.risk, initialReturnBps))
    else
      && p.restartCount <= p.windowsUsed <= |windows|
      && AllRestart(config, scenario, initialReturnBps, windows, p.restartCount)
      && Summary(config, scenario.risk, initialReturnBps, windows, p.windowsUsed,
                 p.worstCollateralRatioBps, p.penaltyShortfallDuringDelay)
      && match p.resolution
         case NotRequired => false
         case Unresolved => p.restartCount == p.windowsUsed == |windows|
         case Recovered =>
           && p.windowsUsed == p.restartCount + 1
           && !BeyondCutoff(config, ReturnAfter(initialReturnBps, windows, p.windowsUsed))
         case Confirmed =>
           && p.windowsUsed == p.restartCount + 1
           && BeyondCutoff(config, ReturnAfter(initialReturnBps, windows, p.windowsUsed))
           && Abs(windows[p.restartCount]) <= scenario.confirmationDeviationBps
  }

  method ClassifyConfirmationPath(config: RiskConfig, scenario: Scenario, initialReturnBps: int, windows: seq<int>)
    returns (p: Path)
    ensures IsPath(config, scenario, initialReturnBps, windows, p)
    ensures BeyondCutoff(config, initialReturnBps) ==>
      && p.restartCount <= |windows|
      && forall k | 0 <= k <= p.restartCount :: BeyondCutoff(config, ReturnAfter(initialReturnBps, windows, k))
  {
    var initial := ClassifyGap(config, scenario.risk, initialReturnBps);
    if !initial.confirmationRequired {
      return Path(NotRequired, 0, 0, false, initial.collateralRatioBps);
    }
    var candidateReturnBps := initialReturnBps;
    var restartCount := 0;
    var penaltyShortfallDuringDelay := initial.penaltyShortfall;
    var worstCollateralRatioBps := initial.collateralRatioBps;
    FirstSummary(config, scenario.risk, initialReturnBps, windows);
    for index := 0 to |windows|
      invariant restartCount == index
      invariant candidateReturnBps == ReturnAfter(initialReturnBps, windows, index)
      invariant BeyondCutoff(config, candidateReturnBps)
      invariant AllRestart(config, scenario, initialReturnBps, windows, index)
      invariant Summary(config, scenario.risk, initialReturnBps, windows, index,
                        worstCollateralRatioBps, penaltyShortfallDuringDelay)
    {
      StaysBeyondCutoff(config, scenario, initialReturnBps, windows, index);
      NextSummary(config, scenario.risk, initialReturnBps, windows, index,
        worstCollateralRatioBps, penaltyShortfallDuringDelay);
      var window := ClassifyWindow(config, scenario, candidateReturnBps, windows[index]);
      penaltyShortfallDuringDelay := penaltyShortfallDuringDelay || window.penaltyShortfallDuringDelay;
      worstCollateralRatioBps := Min(worstCollateralRatioBps, window.collateralRatioBps);
      if window.recoveredWithoutConfirmation {
        return Path(Recovered, index + 1, restartCount, penaltyShortfallDuringDelay, worstCollateralRatioBps);
      }
      if window.confirmationRestarts {
        restartCount := restartCount + 1;
        candidateReturnBps := window.combinedReturnBps;
        continue;
      }
      return Path(Confirmed, index + 1, restartCount, penaltyShortfallDuringDelay, worstCollateralRatioBps);
    }
    StaysBeyondCutoff(config, scenario, initialReturnBps, windows, |windows|);
    return Path(Unresolved, |windows|, restartCount, penaltyShortfallDuringDelay, worstCollateralRatioBps);
  }

  /** The move is beyond the cutoff at every start and restart of the wait. */
  lemma StaysBeyondCutoff(config: RiskConfig, scenario: Scenario, initialReturnBps: int, windows: seq<int>, end: nat)
    requires end <= |windows| && BeyondCutoff(config, initialReturnBps)
    requires AllRestart(config, scenario, initialReturnBps, windows, end)
    ensures forall k | 0 <= k <= end :: BeyondCutoff(config, ReturnAfter(initialReturnBps, windows, k))
  {
    forall k | 0 <= k <= end
      ensures BeyondCutoff(config, ReturnAfter(initialReturnBps, windows, k))
    {
      assert k > 0 ==> Restarts(config, scenario, initialReturnBps, windows, k - 1);
    }
  }

  lemma FirstSummary(config: RiskConfig, risk: Risk, initialReturnBps: int, windows: seq<int>)
    ensures Summary(config, risk, initialReturnBps, windows, 0,
                    Ratio(config, risk, initialReturnBps), Shortfall(config, risk, initialReturnBps))
  {
    assert ReturnAfter(initialReturnBps, windows, 0) == initialReturnBps;
    assert RatiosSeen(config, risk, initialReturnBps, windows, 0) == {Ratio(config, risk, initialReturnBps)};
  }

  lemma LeastExtends(least: int, values: set<int>, v: int)
    requires IsLeast(least, values)
    ensures IsLeast(Min(least, v), values + {v})
  {
  }

  lemma RatiosExtend(config: RiskConfig, risk: Risk, initialReturnBps: int, windows: seq<int>, k: nat)
    requires k < |windows|
    ensures RatiosSeen(config, risk, initialReturnBps, windows, k + 1) ==
            RatiosSeen(config, risk, initialReturnBps, windows, k) +
            {Ratio(config, risk, ReturnAfter(initialReturnBps, windows, k + 1))}
  {
  }

  lemma ShortfallExtends(config: RiskConfig, risk: Risk, initialReturnBps: int, windows: seq<int>, k: nat)
    requires k < |windows|
    ensures ShortfallSeen(config, risk, initialReturnBps, windows, k + 1) <==>
            || ShortfallSeen(config, risk, initialReturnBps, windows, k)
            || Shortfall(config, risk, ReturnAfter(initialReturnBps, windows, k))
            || Shortfall(config, risk, ReturnAfter(initialReturnBps, windows, k + 1))
  {
  }

  /** One more window adds its price; its own shortfall flag may also repeat that of the price before it. */
  lemma NextSummary(config: RiskConfig, risk: Risk, initialReturnBps: int, windows: seq<int>, k: nat,
                    worst: int, shortfall: bool)
    requires k < |windows| && Summary(config, risk, initialReturnBps, windows, k, worst, shortfall)
    ensures var before, after := ReturnAfter(initialReturnBps, windows, k), ReturnAfter(initialReturnBps, windows, k + 1);
      Summary(config, risk, initialReturnBps, windows, k + 1, Min(worst, Ratio(config, risk, after)),
              shortfall || Shortfall(config, risk, before) || Shortfall(config, risk, after))
  {
    RatiosExtend(config, risk, initialReturnBps, windows, k);
    ShortfallExtends(config, risk, initialReturnBps, windows, k);
    LeastExtends(worst, RatiosSeen(config, risk, initialReturnBps, windows, k),
      Ratio(config, risk, ReturnAfter(initialReturnBps, windows, k + 1)));
  }

  // ---------- What follows from it ----------

  /** The summary of a path is determined by its inputs. */
  lemma PathUnique(config: RiskConfig, scenario: Scenario, initialReturnBps: int, windows: seq<int>, p: Path, q: Path)
    requires IsPath(config, scenario, initialReturnBps, windows, p)
    requires IsPath(config, scenario, initialReturnBps, windows, q)
    ensures p == q
  {
    if BeyondCutoff(config, initialReturnBps) {
      StopsNoEarlier(config, scenario, initialReturnBps, windows, p, q);
      StopsNoEarlier(config, scenario, initialReturnBps, windows, q, p);
    }
  }

  lemma StopsNoEarlier(config: RiskConfig, scenario: Scenario, initialReturnBps: int, windows: seq<int>, p: Path, q: Path)
    requires BeyondCutoff(config, initialReturnBps)
    requires IsPath(config, scenario, initialReturnBps, windows, p)
    requires IsPath(config, scenario, initialReturnBps, windows, q)
    ensures p.restartCount <= q.restartCount
  {
    assert q.restartCount < p.restartCount ==>
        Restarts(config, scenario, initialReturnBps, windows, q.restartCount);
  }

  /** While a move waits, a shortfall is reported exactly when the worst reported ratio fails to cover debt and penalty. */
  lemma ShortfallIffWorstRatio(config: RiskConfig, scenario: Scenario, initialReturnBps: int, windows: seq<int>, p: Path)
    requires IsPath(config, scenario, initialReturnBps, windows, p) && BeyondCutoff(config, initialReturnBps)
    ensures p.penaltyShortfallDuringDelay <==>
            p.worstCollateralRatioBps < BPS + scenario.risk.liquidationPenaltyBps
  {
    var ratios := RatiosSeen(config, scenario.risk, initialReturnBps, windows, p.windowsUsed);
    if ShortfallSeen(config, scenario.risk, initialReturnBps, windows, p.windowsUsed) {
      var j :| 0 <= j <= p.windowsUsed && Shortfall(config, scenario.risk, ReturnAfter(initialReturnBps, windows, j));
      assert Ratio(config, scenario.risk, ReturnAfter(initialReturnBps, windows, j)) in ratios;
    }
    assert p.worstCollateralRatioBps in ratios;
  }

  /** Some price seen fell below the gap limit. */
  ghost predicate LimitBroken(config: RiskConfig, risk: Risk, initialReturnBps: int, windows: seq<int>, k: nat)
    requires k <= |windows| && 0 < StartingRatioBps(config, risk)
  {
    exists j | 0 <= j <= k :: ReturnAfter(initialReturnBps, windows, j) < -GapLimit(config, risk)
  }

  lemma SeenIffBroken(config: RiskConfig, risk: Risk, initialReturnBps: int, windows: seq<int>, k: nat)
    requires k <= |windows| && 0 < StartingRatioBps(config, risk) && 0 < BPS + risk.liquidationPenaltyBps
    ensures ShortfallSeen(config, risk, initialReturnBps, windows, k) <==>
            LimitBroken(config, risk, initialReturnBps, windows, k)
  {
    if ShortfallSeen(config, risk, initialReturnBps, windows, k) {
      var j :| 0 <= j <= k && Shortfall(config, risk, ReturnAfter(initialReturnBps, windows, j));
      ShortfallThreshold(config, risk, ReturnAfter(initialReturnBps, windows, j));
    }
    if LimitBroken(config, risk, initialReturnBps, windows, k) {
      var j :| 0 <= j <= k && ReturnAfter(initialReturnBps, windows, j) < -GapLimit(config, risk);
      ShortfallThreshold(config, risk, ReturnAfter(initialReturnBps, windows, j));
    }
  }

  /** A shortfall is reported for the wait exactly when some price seen fell below the gap limit. */
  lemma ShortfallByGapLimit(config: RiskConfig, scenario: Scenario, initialReturnBps: int, windows: seq<int>, p: Path)
    requires IsPath(config, scenario, initialReturnBps, windows, p) && BeyondCutoff(config, initialReturnBps)
    requires 0 < StartingRatioBps(config, scenario.risk) && 0 < BPS + scenario.risk.liquidationPenaltyBps
    ensures p.penaltyShortfallDuringDelay <==>
            LimitBroken(config, scenario.risk, initialReturnBps, windows, p.windowsUsed)
  {
    SeenIffBroken(config, scenario.risk, initialReturnBps, windows, p.windowsUsed);
  }

  /** Windows after the stop cannot change the summary. */
  lemma LaterWindowsIrrelevant(config: RiskConfig, scenario: Scenario, initialReturnBps: int,
                               windows: seq<int>, more: seq<int>, p: Path)
    requires IsPath(config, scenario, initialReturnBps, windows, p) && !p.resolution.Unresolved?
    ensures IsPath(config, scenario, initialReturnBps, windows + more, p)
  {
    forall k | 0 <= k <= |windows|
      ensures ReturnAfter(initialReturnBps, windows + more, k) == ReturnAfter(initialReturnBps, windows, k)
    {
      SamePrefix(initialReturnBps, windows, more, k);
    }
    assert RatiosSeen(config, scenario.risk, initialReturnBps, windows + more, p.windowsUsed) ==
           RatiosSeen(config, scenario.risk, initialReturnBps, windows, p.windowsUsed);
    forall k | 0 <= k < p.restartCount
      ensures Restarts(config, scenario, initialReturnBps, windows + more, k)
    {
      assert Restarts(config, scenario, initialReturnBps, windows, k);
    }
  }

  lemma {:induction false} SamePrefix(initialReturnBps: int, windows: seq<int>, more: seq<int>, k: nat)
    requires k <= |windows|
    ensures ReturnAfter(initialReturnBps, windows + more, k) == ReturnAfter(initialReturnBps, windows, k)
  {
    if k > 0 {
      SamePrefix(initialReturnBps, windows, more, k - 1);
    }
  }

  // ---------- Rounding along the path ----------

  ghost function Factor(returnBps: int): real {
    (BPS + returnBps) as real / BPS as real
  }

  /** The price in basis points of the starting price, under exact compounding. */
  ghost function ExactPriceBps(initialReturnBps: int, windows: seq<int>, k: nat): real
    requires k <= |windows|
  {
    if k == 0 then (BPS + initialReturnBps) as real
    else ExactPriceBps(initialReturnBps, windows, k - 1) * Factor(windows[k - 1])
  }

  ghost function Pow2(k: nat): (p: nat)
    ensures 1 <= p
  {
    if k == 0 then 1 else 2 * Pow2(k - 1)
  }

  /** A return whose price is at most the exact price and within `slack` basis points of it. */
  ghost predicate Within(returnBps: int, exact: real, slack: int) {
    var price := (BPS + returnBps) as real;
    0.0 <= price <= exact && exact - slack as real <= price
  }

  /**
  Rounding at each window only ever understates the price, and after `k` windows
  of at most a doubling each by at most 2^k - 1 basis points.
  */
  lemma {:induction false} CompoundingError(initialReturnBps: int, windows: seq<int>, k: nat)
    requires k <= |windows| && -BPS <= initialReturnBps
    requires forall i | 0 <= i < |windows| :: -BPS <= windows[i] <= BPS
    ensures Within(ReturnAfter(initialReturnBps, windows, k), ExactPriceBps(initialReturnBps, windows, k), Pow2(k) - 1)
  {
    if k > 0 {
      CompoundingError(initialReturnBps, windows, k - 1);
      var before, exact := ReturnAfter(initialReturnBps, windows, k - 1), ExactPriceBps(initialReturnBps, windows, k - 1);
      var after, exactAfter := ReturnAfter(initialReturnBps, windows, k), ExactPriceBps(initialReturnBps, windows, k);
      OneWindow(before, windows[k - 1], exact, Pow2(k - 1) - 1, after, exactAfter);
      assert Pow2(k) - 1 == 2 * (Pow2(k - 1) - 1) + 1;
    }
  }

  lemma OneWindow(returnBps: int, windowReturnBps: int, exact: real, slack: nat, afterBps: int, exactAfter: real)
    requires -BPS <= windowReturnBps <= BPS && Within(returnBps, exact, slack)
    requires afterBps == Combine(returnBps, windowReturnBps) && exactAfter == exact * Factor(windowReturnBps)
    ensures Within(afterBps, exactAfter, 2 * slack + 1)
  {
    var before, after := BPS + returnBps, BPS + afterBps;
    var product := before * (BPS + windowReturnBps);
    MulNonNegative(before as real, (BPS + windowReturnBps) as real);
    assert product as real == before as real * (BPS + windowReturnBps) as real;
    assert after == product / BPS;
    assert BPS * after <= product < BPS * after + BPS;
    var factor := Factor(windowReturnBps);
    assert before as real * factor * BPS as real == product as real;
    var loss := exact - before as real;
    MulNonNegative(loss, factor);
    MulNonNegative(loss, 2.0 - factor);
    assert exact * factor == before as real * factor + loss * factor;
    assert loss * (2.0 - factor) == 2.0 * loss - loss * factor;
  }

  lemma MulNonNegative(x: real, y: real)
    requires 0.0 <= x && 0.0 <= y
    ensures 0.0 <= x * y
  {
  }
}
