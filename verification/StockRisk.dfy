/**
The gap model: how a price move changes a position's collateral ratio. All
quantities are whole basis points.
*/
module StockRisk {
  import opened Numbers

  const BPS := 10_000

  datatype RiskConfig = RiskConfig(symbol: string, mcrBps: int, maxOracleDeviationBps: int)

  datatype Risk = Risk(startingBufferBps: int, liquidationPenaltyBps: int)

  datatype GapClassification = GapClassification(
    collateralRatioBps: int,
    liquidatable: bool,
    confirmationRequired: bool,
    penaltyShortfall: bool
  )

  function Abs(x: int): nat {
    if x < 0 then -x else x
  }

  function StartingRatioBps(config: RiskConfig, risk: Risk): int {
    config.mcrBps + risk.startingBufferBps
  }

  function ClassifyGap(config: RiskConfig, risk: Risk, returnBps: int): GapClassification {
    var collateralRatioBps := Max(0, StartingRatioBps(config, risk) * (BPS + returnBps) / BPS);
    GapClassification(
      collateralRatioBps,
      collateralRatioBps < config.mcrBps,
      Abs(returnBps) > config.maxOracleDeviationBps,
      collateralRatioBps < BPS + risk.liquidationPenaltyBps)
  }

  predicate Shortfall(config: RiskConfig, risk: Risk, returnBps: int) {
    ClassifyGap(config, risk, returnBps).penaltyShortfall
  }

  function Ratio(config: RiskConfig, risk: Risk, returnBps: int): int {
    ClassifyGap(config, risk, returnBps).collateralRatioBps
  }

  // ---------- What the ratio means ----------

  /** The ratio is the starting ratio scaled by the price move, rounded down and never negative. */
  lemma RatioMeaning(config: RiskConfig, risk: Risk, returnBps: int)
    ensures var exact :=
        (config.mcrBps + risk.startingBufferBps) as real * ((10_000 + returnBps) as real / 10_000.0);
      var ratio := Ratio(config, risk, returnBps);
      if exact < 0.0 then ratio == 0 else ratio as real <= exact < ratio as real + 1.0
  {
    var value := StartingRatioBps(config, risk) * (BPS + returnBps);
    var q := value / BPS;
    assert BPS * q <= value < BPS * q + BPS;
    assert StartingRatioBps(config, risk) as real * ((BPS + returnBps) as real / BPS as real) * BPS as real
           == value as real;
  }

  /** Without a move the ratio is the minimum plus the starting buffer. */
  lemma UnmovedRatio(config: RiskConfig, risk: Risk)
    requires 0 <= config.mcrBps + risk.startingBufferBps
    ensures Ratio(config, risk, 0) == config.mcrBps + risk.startingBufferBps
  {
    RatioMeaning(config, risk, 0);
  }

  /** A move in either direction by more than the cutoff has to be confirmed. */
  lemma ConfirmationExactly(config: RiskConfig, risk: Risk, returnBps: int)
    ensures ClassifyGap(config, risk, returnBps).confirmationRequired <==>
            returnBps < -config.maxOracleDeviationBps || config.maxOracleDeviationBps < returnBps
  {
  }

  /** The rounding never moves a ratio across a whole positive target. */
  lemma RatioBelow(config: RiskConfig, risk: Risk, returnBps: int, target: int)
    requires 0 < target
    ensures Ratio(config, risk, returnBps) < target <==>
            StartingRatioBps(config, risk) * (BPS + returnBps) < target * BPS
  {
    FloorBelow(StartingRatioBps(config, risk) * (BPS + returnBps), BPS, target);
  }

  /** A position can be liquidated exactly when the moved collateral no longer covers the minimum ratio. */
  lemma LiquidatableExactly(config: RiskConfig, risk: Risk, returnBps: int)
    ensures ClassifyGap(config, risk, returnBps).liquidatable <==>
      && 0 < config.mcrBps
      && (config.mcrBps + risk.startingBufferBps) * (10_000 + returnBps) < config.mcrBps * 10_000
  {
    if 0 < config.mcrBps {
      RatioBelow(config, risk, returnBps, config.mcrBps);
    }
  }

  /** A shortfall means that the unrounded moved ratio is below the debt and the penalty, where there is something to cover. */
  lemma ShortfallExactly(config: RiskConfig, risk: Risk, returnBps: int)
    ensures Shortfall(config, risk, returnBps) <==>
      && 0 < 10_000 + risk.liquidationPenaltyBps
      && (config.mcrBps + risk.startingBufferBps) * (10_000 + returnBps) < (10_000 + risk.liquidationPenaltyBps) * 10_000
  {
    if 0 < 10_000 + risk.liquidationPenaltyBps {
      RatioBelow(config, risk, returnBps, 10_000 + risk.liquidationPenaltyBps);
    }
  }

  // ---------- The gap a position survives ----------

  lemma RatioMonotone(config: RiskConfig, risk: Risk, lower: int, higher: int)
    requires 0 <= StartingRatioBps(config, risk) && lower <= higher
    ensures Ratio(config, risk, lower) <= Ratio(config, risk, higher)
  {
    var start := StartingRatioBps(config, risk);
    ProductMonotone(start, BPS + lower, BPS + higher);
    FloorMonotone(start * (BPS + lower), start * (BPS + higher));
  }

  lemma ProductMonotone(x: int, y: int, z: int)
    requires 0 <= x && y <= z
    ensures x * y <= x * z
  {
  }

  lemma FloorMonotone(x: int, y: int)
    requires x <= y
    ensures x / BPS <= y / BPS
  {
  }

  /**
  A deeper fall is never safer: down to a total loss whatever the start, and at
  any depth when the starting ratio is not negative.
  */
  lemma ShortfallDownwardClosed(config: RiskConfig, risk: Risk, lower: int, higher: int)
    requires lower <= higher && Shortfall(config, risk, higher)
    requires -BPS <= lower || 0 <= StartingRatioBps(config, risk)
    ensures Shortfall(config, risk, lower)
  {
    var start := StartingRatioBps(config, risk);
    if 0 <= start {
      RatioMonotone(config, risk, lower, higher);
    } else {
      ProductMonotone(-start, 0, BPS + lower);
    }
  }

  /**
  Over all integer returns, including falls by more than everything, a deeper
  fall is never safer exactly when the starting ratio is not negative or nothing
  has to be covered.
  */
  lemma DownwardClosedExactly(config: RiskConfig, risk: Risk)
    ensures (forall lower, higher | lower <= higher && Shortfall(config, risk, higher) :: Shortfall(config, risk, lower))
            <==> 0 <= StartingRatioBps(config, risk) || BPS + risk.liquidationPenaltyBps <= 0
  {
    var start, floor := StartingRatioBps(config, risk), BPS + risk.liquidationPenaltyBps;
    if 0 <= start {
      forall lower, higher | lower <= higher && Shortfall(config, risk, higher)
        ensures Shortfall(config, risk, lower)
      {
        ShortfallDownwardClosed(config, risk, lower, higher);
      }
    } else if 0 < floor {
      FarFallIsSafe(config, risk);
    }
  }

  /** A negative price times a negative start: far enough below a total loss everything is covered again. */
  lemma FarFallIsSafe(config: RiskConfig, risk: Risk)
    requires StartingRatioBps(config, risk) < 0 < BPS + risk.liquidationPenaltyBps
    ensures var lower := -BPS * (BPS + risk.liquidationPenaltyBps) - BPS;
      lower <= 0 && Shortfall(config, risk, 0) && !Shortfall(config, risk, lower)
  {
    var start, floor := StartingRatioBps(config, risk), BPS + risk.liquidationPenaltyBps;
    var target := floor * BPS;
    ShortfallAtRest(config, risk);
    RatioBelow(config, risk, -target - BPS, floor);
    TimesAtLeastOne(-start, target);
    assert start * -target == -start * target;
  }

  lemma TimesAtLeastOne(x: int, y: int)
    requires 1 <= x && 0 <= y
    ensures y <= x * y
  {
  }

  /** An example of the failure: at a negative start no change is a shortfall, but losing the price twice over is not. */
  lemma NegativeStartIsNotDownwardClosed()
    ensures var config, risk := RiskConfig("X", -30_000, 0), Risk(0, 0);
      Shortfall(config, risk, 0) && !Shortfall(config, risk, -20_000)
  {
  }

  /** The deepest fall, in basis points, that leaves the debt and the penalty covered. */
  function GapLimit(config: RiskConfig, risk: Risk): int
    requires 0 < StartingRatioBps(config, risk)
  {
    (StartingRatioBps(config, risk) - BPS - risk.liquidationPenaltyBps) * BPS / StartingRatioBps(config, risk)
  }

  /** A return is a penalty shortfall exactly when it falls below minus the gap limit. */
  lemma ShortfallThreshold(config: RiskConfig, risk: Risk, returnBps: int)
    requires 0 < StartingRatioBps(config, risk) && 0 < BPS + risk.liquidationPenaltyBps
    ensures Shortfall(config, risk, returnBps) <==> returnBps < -GapLimit(config, risk)
  {
    var start, floor := StartingRatioBps(config, risk), BPS + risk.liquidationPenaltyBps;
    var value, room := start * (BPS + returnBps), (start - floor) * BPS;
    RatioBelow(config, risk, returnBps, floor);
    assert value == start * returnBps + start * BPS;
    assert room == start * BPS - floor * BPS;
    FloorBelow(room, start, -returnBps);
    assert start * -returnBps == -(start * returnBps);
  }

  lemma FloorBelow(n: int, d: int, q: int)
    requires 0 < d
    ensures n / d < q <==> n < d * q
  {
    var m := n / d;
    assert d * m <= n < d * m + d;
    if m < q {
      assert d * (m + 1) <= d * q;
    } else {
      assert d * q <= d * m;
    }
  }

  /** An unmoved price is a shortfall exactly when something has to be covered and the starting ratio does not cover it. */
  lemma ShortfallAtRest(config: RiskConfig, risk: Risk)
    ensures Shortfall(config, risk, 0) <==>
            && 0 < 10_000 + risk.liquidationPenaltyBps
            && config.mcrBps + risk.startingBufferBps < 10_000 + risk.liquidationPenaltyBps
  {
    var start := StartingRatioBps(config, risk);
    assert start * (BPS + 0) / BPS == start;
  }

  /**
  An example of the gap limit: the documented "gap before penalty shortfall" of a
  position opened exactly at the minimum ratio with the 10% penalty, for each
  distinct configured ratio.
  */
  lemma DocumentedGaps()
    ensures forall percent | percent in {175, 180, 185, 190, 200, 225, 250} ::
      GapLimit(RiskConfig("", percent * 100, 0), Risk(0, 1_000)) == DocumentedGap(percent)
  {
    assert DocumentedGap(175) == 3_714 && 6_500 * BPS / 17_500 == 3_714;
    assert DocumentedGap(180) == 3_888 && 7_000 * BPS / 18_000 == 3_888;
    assert DocumentedGap(185) == 4_054 && 7_500 * BPS / 18_500 == 4_054;
    assert DocumentedGap(190) == 4_210 && 8_000 * BPS / 19_000 == 4_210;
    assert DocumentedGap(200) == 4_500 && 9_000 * BPS / 20_000 == 4_500;
    assert DocumentedGap(225) == 5_111 && 11_500 * BPS / 22_500 == 5_111;
    assert DocumentedGap(250) == 5_600 && 14_000 * BPS / 25_000 == 5_600;
  }

  /** The documented table, in basis points, by minimum ratio in percent. */
  function DocumentedGap(percent: int): int {
    match percent
    case 175 => 3_714
    case 180 => 3_888
    case 185 => 4_054
    case 190 => 4_210
    case 200 => 4_500
    case 225 => 5_111
    case _ => 5_600
  }
}
