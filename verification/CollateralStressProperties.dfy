/** What the stress report promises against exact, unrounded arithmetic. */
module CollateralStressProperties {
  import opened Wrappers
  import opened CollateralStress

  // ---------- Exact reference arithmetic ----------

  /** The share of value that survives a haircut. */
  ghost function Kept(bps: int): real {
    (10_000 - bps) as real / 10_000.0
  }

  ghost function ExactSale(c: StressCase): real {
    c.collateralUsd6 as real * Kept(c.priceDropBps) * Kept(c.slippageBps) * Kept(c.sellFeeBps)
  }

  ghost function ExactIncentive(c: StressCase): real {
    c.debtUsd6 as real * (c.incentiveBps as real / 10_000.0)
  }

  /** Exact proceeds less gas, which may be negative. */
  ghost function ExactMargin(c: StressCase): real {
    ExactSale(c) - c.gasUsd6 as real - c.debtUsd6 as real - ExactIncentive(c)
  }

  /** The exact margin of a seller who, like the source, walks away from a sale that cannot pay its gas. */
  ghost function ExactClampedMargin(c: StressCase): real {
    var net := ExactSale(c) - c.gasUsd6 as real;
    (if net > 0.0 then net else 0.0) - c.debtUsd6 as real - ExactIncentive(c)
  }

  // ---------- Rounding ----------

  lemma HaircutRoundsDown(value: int, bps: int)
    requires 0 <= value && IsRate(bps)
    ensures 0 <= Haircut(value, bps)
    ensures value as real * Kept(bps) - 1.0 < Haircut(value, bps) as real <= value as real * Kept(bps)
  {
    var product := value * (BPS - bps);
    var q := Haircut(value, bps);
    assert BPS * q <= product < BPS * q + BPS;
    assert value as real * Kept(bps) * BPS as real == product as real;
  }

  /** `whole` is at most `exact`, and less than `slack` below it. */
  ghost predicate Near(exact: real, whole: int, slack: real) {
    exact - slack < whole as real <= exact
  }

  /** One more haircut adds at most one micro-dollar to the loss: what was lost before only shrinks. */
  lemma HaircutNear(exact: real, whole: int, bps: int, slack: real)
    requires 0 <= whole && IsRate(bps) && 0.0 <= slack && Near(exact, whole, slack)
    ensures 0 <= Haircut(whole, bps) && Near(exact * Kept(bps), Haircut(whole, bps), slack + 1.0)
  {
    HaircutRoundsDown(whole, bps);
    ScaleBound(exact, whole as real, Kept(bps), slack);
  }

  lemma ScaleBound(x: real, y: real, kept: real, slack: real)
    requires x - slack < y <= x && 0.0 <= kept <= 1.0
    ensures x * kept - slack <= y * kept <= x * kept
  {
    var loss := x - y;
    var scaled := loss * kept;
    ShareShrinks(loss, kept);
    ShareOfDifference(x, y, loss, kept);
    assert 0.0 <= scaled <= loss;
    assert scaled == x * kept - y * kept;
  }

  lemma ShareShrinks(loss: real, kept: real)
    requires 0.0 <= loss && 0.0 <= kept <= 1.0
    ensures 0.0 <= loss * kept <= loss
  {
  }

  lemma ShareOfDifference(x: real, y: real, loss: real, kept: real)
    requires loss == x - y
    ensures loss * kept == x * kept - y * kept
  {
  }

  /** Each of the three floors loses less than one micro-dollar. */
  lemma SaleRounding(c: StressCase)
    requires Valid(c)
    ensures 0 <= SaleProceeds(c)
    ensures ExactSale(c) - 3.0 < SaleProceeds(c) as real <= ExactSale(c)
  {
    var first := Haircut(c.collateralUsd6, c.priceDropBps);
    var exactFirst := c.collateralUsd6 as real * Kept(c.priceDropBps);
    HaircutRoundsDown(c.collateralUsd6, c.priceDropBps);
    HaircutNear(exactFirst, first, c.slippageBps, 1.0);
    HaircutNear(exactFirst * Kept(c.slippageBps), Haircut(first, c.slippageBps), c.sellFeeBps, 2.0);
  }

  lemma IncentiveRoundsUp(c: StressCase)
    requires Valid(c)
    ensures 0 <= RequiredIncentive(c)
    ensures ExactIncentive(c) <= RequiredIncentive(c) as real < ExactIncentive(c) + 1.0
  {
    var product := c.debtUsd6 * c.incentiveBps;
    var q := RequiredIncentive(c);
    assert 0 <= product;
    assert product <= BPS * q < product + BPS;
    assert ExactIncentive(c) * BPS as real == product as real;
  }

  /**
  The whole chain: rounding never flatters the margin and costs less than four
  micro-dollars, measured against the exact margin with the same gas clamp.
  */
  lemma MarginRounding(c: StressCase)
    requires Valid(c)
    ensures ExactClampedMargin(c) - 4.0 < Margin(c) as real <= ExactClampedMargin(c)
  {
    SaleRounding(c);
    IncentiveRoundsUp(c);
  }

  /**
  Against the margin without the clamp the lower bound always holds. The upper
  bound fails exactly when gas exceeds the proceeds by more than the incentive
  rounding gives back.
  */
  lemma MarginAgainstUnclamped(c: StressCase)
    requires Valid(c)
    ensures ExactMargin(c) - 4.0 < Margin(c) as real
    ensures SaleProceeds(c) >= c.gasUsd6 ==> Margin(c) as real <= ExactMargin(c)
    ensures Margin(c) as real <= ExactMargin(c) <==>
      c.gasUsd6 as real - ExactSale(c) <= RequiredIncentive(c) as real - ExactIncentive(c)
  {
    SaleRounding(c);
    IncentiveRoundsUp(c);
  }

  /** When gas exceeds the exact proceeds by a micro-dollar or more, the clamp always flatters the margin. */
  lemma ClampHidesGasDeficit(c: StressCase)
    requires Valid(c) && c.gasUsd6 as real >= ExactSale(c) + 1.0
    ensures Margin(c) as real > ExactMargin(c)
  {
    SaleRounding(c);
    IncentiveRoundsUp(c);
  }

  /** A concrete case: 50 micro-dollars of proceeds against 1000 of gas flatter the margin by 950. */
  lemma ClampWitness()
    ensures var c := StressCase(100, 20, 5_000, 0, 0, 1_000, 5_000);
      Valid(c) && Margin(c) == -30 && ExactMargin(c) == -980.0
  {
    var c := StressCase(100, 20, 5_000, 0, 0, 1_000, 5_000);
    assert Haircut(100, 5_000) == 50 && Haircut(50, 0) == 50;
    assert SaleProceeds(c) == 50 && RequiredIncentive(c) == 10;
    assert ExactSale(c) == 100.0 * 0.5 * 1.0 * 1.0;
    assert ExactIncentive(c) == 20.0 * 0.5;
  }

  // ---------- Verdicts ----------

  /** With debt outstanding, a non-negative margin is never an artefact of clamping or staged rounding. */
  lemma SolvencyVerdictSound(c: StressCase)
    requires Valid(c) && 0 < c.debtUsd6 && 0 <= Margin(c)
    ensures DebtShortfall(c) == 0
    ensures ExactSale(c) - c.gasUsd6 as real >= c.debtUsd6 as real + ExactIncentive(c)
  {
    SaleRounding(c);
    IncentiveRoundsUp(c);
  }

  /** Conversely, exact solvency with three spare micro-dollars is always reported as solvent. */
  lemma SolvencyVerdictComplete(c: StressCase)
    requires Valid(c) && 3.0 <= ExactMargin(c)
    ensures 0 <= Margin(c) && DebtShortfall(c) == 0
  {
    SaleRounding(c);
    IncentiveRoundsUp(c);
    assert Margin(c) as real > -1.0;
  }

  // ---------- Monotonicity ----------

  /** `w` is at least as stressful as `c` in every one of the seven inputs. */
  ghost predicate Harsher(w: StressCase, c: StressCase) {
    && w.collateralUsd6 <= c.collateralUsd6 && w.debtUsd6 >= c.debtUsd6
    && w.priceDropBps >= c.priceDropBps && w.slippageBps >= c.slippageBps && w.sellFeeBps >= c.sellFeeBps
    && w.gasUsd6 >= c.gasUsd6 && w.incentiveBps >= c.incentiveBps
  }

  lemma MulMono(a: int, b: int, c: int, d: int)
    requires 0 <= a <= b && 0 <= c <= d
    ensures a * c <= b * d
  {
    assert a * c <= b * c;
    assert b * c <= b * d;
  }

  lemma HaircutMono(v: int, w: int, bps: int, cps: int)
    requires 0 <= v <= w && IsRate(bps) && IsRate(cps) && cps <= bps
    ensures 0 <= Haircut(v, bps) <= Haircut(w, cps)
  {
    MulMono(v, w, BPS - bps, BPS - cps);
    HaircutShrinks(v, bps);
  }

  lemma Monotonicity(w: StressCase, c: StressCase)
    requires Valid(w) && Valid(c) && Harsher(w, c)
    ensures NetProceeds(w) <= NetProceeds(c)
    ensures DebtShortfall(w) >= DebtShortfall(c)
    ensures Margin(w) <= Margin(c)
  {
    HaircutMono(w.collateralUsd6, c.collateralUsd6, w.priceDropBps, c.priceDropBps);
    var w1, c1 := Haircut(w.collateralUsd6, w.priceDropBps), Haircut(c.collateralUsd6, c.priceDropBps);
    HaircutMono(w1, c1, w.slippageBps, c.slippageBps);
    HaircutMono(Haircut(w1, w.slippageBps), Haircut(c1, c.slippageBps), w.sellFeeBps, c.sellFeeBps);
    MulMono(c.debtUsd6, w.debtUsd6, c.incentiveBps, w.incentiveBps);
    assert RequiredIncentive(c) <= RequiredIncentive(w);
  }

  // ---------- Break-even collateral ----------

  /** The least value that a haircut of `bps` leaves at or above `target`. */
  function BeforeHaircut(target: int, bps: int): int
    requires IsRate(bps) && bps < BPS
  {
    (target * BPS + (BPS - bps) - 1) / (BPS - bps)
  }

  lemma HaircutThreshold(value: int, bps: int, target: int)
    requires 0 <= value && 0 <= target && IsRate(bps) && bps < BPS
    ensures 0 <= BeforeHaircut(target, bps)
    ensures Haircut(value, bps) >= target <==> value >= BeforeHaircut(target, bps)
  {
    var k := BPS - bps;
    var product, t := value * k, BeforeHaircut(target, bps);
    assert product / BPS >= target <==> product >= target * BPS;
    var n := target * BPS + k - 1;
    DivMod(n, k);
    assert t * k <= n < t * k + k;
    if value >= t {
      MulMono(t, value, k, k);
    } else {
      MulMono(value, t - 1, k, k);
      assert (t - 1) * k == t * k - k;
    }
  }

  lemma DivMod(n: int, k: int)
    requires 0 <= n && 0 < k
    ensures 0 <= n / k && n / k * k <= n < n / k * k + k
  {
  }

  /** The collateral at which the reported margin stops being negative. */
  function BreakEven(c: StressCase): int
    requires Valid(c) && c.priceDropBps < BPS && c.slippageBps < BPS && c.sellFeeBps < BPS
  {
    var owed := c.debtUsd6 + RequiredIncentive(c);
    if owed == 0 then 0
    else BeforeHaircut(BeforeHaircut(BeforeHaircut(c.gasUsd6 + owed, c.sellFeeBps), c.slippageBps), c.priceDropBps)
  }

  lemma BreakEvenExact(c: StressCase, collateral: int)
    requires Valid(c) && c.priceDropBps < BPS && c.slippageBps < BPS && c.sellFeeBps < BPS
    requires 0 <= collateral
    ensures 0 <= Margin(c.(collateralUsd6 := collateral)) <==> BreakEven(c) <= collateral
  {
    var d := c.(collateralUsd6 := collateral);
    var owed := c.debtUsd6 + RequiredIncentive(c);
    IncentiveRoundsUp(c);
    assert RequiredIncentive(d) == RequiredIncentive(c);
    SaleRounding(d);
    if owed > 0 {
      var v1 := Haircut(collateral, c.priceDropBps);
      var v2 := Haircut(v1, c.slippageBps);
      var t2 := BeforeHaircut(c.gasUsd6 + owed, c.sellFeeBps);
      var t1 := BeforeHaircut(t2, c.slippageBps);
      HaircutShrinks(collateral, c.priceDropBps);
      HaircutShrinks(v1, c.slippageBps);
      HaircutThreshold(v2, c.sellFeeBps, c.gasUsd6 + owed);
      HaircutThreshold(v1, c.slippageBps, t2);
      HaircutThreshold(collateral, c.priceDropBps, t1);
    }
  }

  /** `t` separates the collateral amounts with a negative margin from the rest. */
  ghost predicate Separates(c: StressCase, t: int) {
    forall collateral :: 0 <= collateral ==>
      (0 <= Margin(c.(collateralUsd6 := collateral)) <==> t <= collateral)
  }

  /** A break-even amount exists exactly when no haircut is total, or nothing is owed. */
  lemma BreakEvenExists(c: StressCase)
    requires Valid(c)
    ensures (exists t :: Separates(c, t)) <==>
      (c.priceDropBps < BPS && c.slippageBps < BPS && c.sellFeeBps < BPS) || c.debtUsd6 == 0
  {
    if c.priceDropBps < BPS && c.slippageBps < BPS && c.sellFeeBps < BPS {
      forall collateral | 0 <= collateral
        ensures 0 <= Margin(c.(collateralUsd6 := collateral)) <==> BreakEven(c) <= collateral
      {
        BreakEvenExact(c, collateral);
      }
      assert Separates(c, BreakEven(c));
    } else if c.debtUsd6 == 0 {
      forall collateral | 0 <= collateral
        ensures 0 <= Margin(c.(collateralUsd6 := collateral))
      {
        assert RequiredIncentive(c.(collateralUsd6 := collateral)) == 0;
      }
      assert Separates(c, 0);
    } else {
      forall t
        ensures !Separates(c, t)
      {
        var collateral := if t < 0 then 0 else t;
        TotalHaircut(c.(collateralUsd6 := collateral));
        assert c.(collateralUsd6 := collateral).collateralUsd6 == collateral;
      }
    }
  }

  lemma TotalHaircut(c: StressCase)
    requires Valid(c) && 0 < c.debtUsd6
    requires c.priceDropBps == BPS || c.slippageBps == BPS || c.sellFeeBps == BPS
    ensures NetProceeds(c) == 0 && Margin(c) < 0
  {
    SaleRounding(c);
    assert ExactSale(c) == 0.0 by {
      var x, a, b, d := c.collateralUsd6 as real, Kept(c.priceDropBps), Kept(c.slippageBps), Kept(c.sellFeeBps);
      if a == 0.0 { assert x * a == 0.0; }
      else if b == 0.0 { assert x * a * b == 0.0; }
    }
    IncentiveRoundsUp(c);
  }

  // ---------- Pooling ----------

  /** A haircut on a pooled amount, which may exceed its two parts by what earlier haircuts lost on them. */
  lemma HaircutPools(v: int, w: int, pooled: int, excess: int, bps: int)
    requires 0 <= v && 0 <= w && IsRate(bps) && v + w <= pooled <= v + w + excess
    ensures Haircut(v, bps) + Haircut(w, bps) <= Haircut(pooled, bps) <= Haircut(v, bps) + Haircut(w, bps) + excess + 1
    ensures 0 <= Haircut(v, bps) && 0 <= Haircut(w, bps)
  {
    var k := BPS - bps;
    var extra := pooled - v - w;
    HaircutShrinks(v, bps);
    HaircutShrinks(w, bps);
    assert pooled * k == v * k + w * k + extra * k by { ShareOfSum(v, w, extra, k); }
    assert 0 <= extra * k <= extra * BPS by { MulMono(0, extra, k, k); MulMono(extra, extra, k, BPS); }
  }

  lemma ShareOfSum(v: int, w: int, extra: int, k: int)
    ensures (v + w + extra) * k == v * k + w * k + extra * k
  {
  }

  /** Selling two lots together loses nothing, and recovers at most the three micro-dollars their separate floors lost. */
  lemma PoolingSale(c: StressCase, d: StressCase)
    requires Valid(c) && Valid(d) && d == c.(collateralUsd6 := d.collateralUsd6)
    ensures var pooled := c.(collateralUsd6 := c.collateralUsd6 + d.collateralUsd6);
      SaleProceeds(c) + SaleProceeds(d) <= SaleProceeds(pooled) <= SaleProceeds(c) + SaleProceeds(d) + 3
  {
    var v, w, p := c.collateralUsd6, d.collateralUsd6, c.collateralUsd6 + d.collateralUsd6;
    HaircutPools(v, w, p, 0, c.priceDropBps);
    v, w, p := Haircut(v, c.priceDropBps), Haircut(w, c.priceDropBps), Haircut(p, c.priceDropBps);
    HaircutPools(v, w, p, 1, c.slippageBps);
    v, w, p := Haircut(v, c.slippageBps), Haircut(w, c.slippageBps), Haircut(p, c.slippageBps);
    HaircutPools(v, w, p, 2, c.sellFeeBps);
  }

  /** The pooled sale is never worse, and what it gains is at most the gas that is paid only once and three. */
  lemma Pooling(c: StressCase, d: StressCase)
    requires Valid(c) && Valid(d) && d == c.(collateralUsd6 := d.collateralUsd6)
    ensures var pooled := c.(collateralUsd6 := c.collateralUsd6 + d.collateralUsd6);
      NetProceeds(c) + NetProceeds(d) <= NetProceeds(pooled) <= NetProceeds(c) + NetProceeds(d) + 3 + c.gasUsd6
  {
    PoolingSale(c, d);
    SaleRounding(c);
    SaleRounding(d);
  }

  // ---------- Order of the haircuts ----------

  /** Proceeds lie within two of the floor of the exact product, whichever haircut is taken first. */
  lemma SaleNearFloor(c: StressCase)
    requires Valid(c)
    ensures ExactSale(c).Floor - 2 <= SaleProceeds(c) <= ExactSale(c).Floor
  {
    SaleRounding(c);
  }

  ghost predicate SameHaircuts(c: StressCase, d: StressCase) {
    multiset{c.priceDropBps, c.slippageBps, c.sellFeeBps} == multiset{d.priceDropBps, d.slippageBps, d.sellFeeBps}
  }

  lemma OrderBarelyMatters(c: StressCase, d: StressCase)
    requires Valid(c) && Valid(d)
    requires c.collateralUsd6 == d.collateralUsd6 && c.gasUsd6 == d.gasUsd6 && SameHaircuts(c, d)
    ensures -2 <= NetProceeds(c) - NetProceeds(d) <= 2
  {
    SaleNearFloor(c);
    SaleNearFloor(d);
    SameProduct(c, d);
  }

  lemma SameProduct(c: StressCase, d: StressCase)
    requires c.collateralUsd6 == d.collateralUsd6 && SameHaircuts(c, d)
    ensures ExactSale(c) == ExactSale(d)
  {
    var x, y, z := c.priceDropBps, c.slippageBps, c.sellFeeBps;
    Permutation3(x, y, z, d.priceDropBps, d.slippageBps, d.sellFeeBps);
    Commute(c.collateralUsd6 as real, Kept(x), Kept(y), Kept(z));
  }

  lemma Permutation3(x: int, y: int, z: int, u: int, v: int, w: int)
    requires multiset{x, y, z} == multiset{u, v, w}
    ensures || (u, v, w) == (x, y, z) || (u, v, w) == (x, z, y) || (u, v, w) == (y, x, z)
            || (u, v, w) == (y, z, x) || (u, v, w) == (z, x, y) || (u, v, w) == (z, y, x)
  {
    if u == x {
      RemoveFirst(x, y, z, v, w);
    } else if u == y {
      assert multiset{x, y, z} == multiset{y, x, z};
      RemoveFirst(y, x, z, v, w);
    } else {
      assert u in multiset{x, y, z};
      assert multiset{x, y, z} == multiset{z, x, y};
      RemoveFirst(z, x, y, v, w);
    }
  }

  lemma RemoveFirst(x: int, y: int, z: int, v: int, w: int)
    requires multiset{x, y, z} == multiset{x, v, w}
    ensures (v, w) == (y, z) || (v, w) == (z, y)
  {
    var left, right := multiset{x, y, z}, multiset{x, v, w};
    assert left[y] == right[y] && left[z] == right[z];
  }

  lemma Commute(t: real, a: real, b: real, c: real)
    ensures t * a * b * c == t * a * c * b == t * b * a * c == t * b * c * a == t * c * a * b == t * c * b * a
  {
  }

  // ---------- The bounds above cannot be tightened ----------

  lemma MarginRoundingIsSharp()
    ensures var c := StressCase(45_022, 1, 2, 2, 10, 0, 1);
      Valid(c) && Margin(c) as real < ExactMargin(c) - 3.98
  {
    var c := StressCase(45_022, 1, 2, 2, 10, 0, 1);
    assert Haircut(45_022, 2) == 45_012 && Haircut(45_012, 2) == 45_002 && Haircut(45_002, 10) == 44_956;
    assert ExactSale(c) == 45_022.0 * 0.9998 * 0.9998 * 0.999;
  }

  lemma PoolingIsSharp()
    ensures var c, d := StressCase(188, 0, 16, 19, 35, 0, 0), StressCase(19, 0, 16, 19, 35, 0, 0);
      Valid(c) && Valid(d) && NetProceeds(c.(collateralUsd6 := 207)) == NetProceeds(c) + NetProceeds(d) + 3
  {
  }

  lemma OrderIsSharp()
    ensures var c, d := StressCase(109, 0, 975, 554, 9_772, 0, 0), StressCase(109, 0, 9_772, 975, 554, 0, 0);
      Valid(c) && Valid(d) && SameHaircuts(c, d) && NetProceeds(c) == NetProceeds(d) + 2
  {
    var c, d := StressCase(109, 0, 975, 554, 9_772, 0, 0), StressCase(109, 0, 9_772, 975, 554, 0, 0);
    assert Haircut(109, 975) == 98 && Haircut(98, 554) == 92 && Haircut(92, 9_772) == 2;
    assert Haircut(109, 9_772) == 2 && Haircut(2, 975) == 1 && Haircut(1, 554) == 0;
  }

  // ---------- The report ----------

  /** `left` is what a haircut of `bps` leaves of `value`, rounded down. */
  ghost predicate LeftAfter(value: int, bps: int, left: int) {
    left as real <= value as real * Kept(bps) < left as real + 1.0
  }

  /** `net` is what a sale of `sold` leaves once gas is paid, and never negative. */
  ghost predicate AfterGas(sold: int, gas: int, net: int) {
    && 0 <= net && sold - gas <= net
    && (net == 0 || net == sold - gas)
  }

  /**
  The four reported amounts in terms of the inputs: three floors in sale order,
  the gas deduction, what is missing from the debt, and what is left after the
  debt and the least whole incentive.
  */
  lemma ReportMeaning(c: StressCase)
    requires Valid(c)
    ensures StressCollateral(c).Success?
    ensures var r := StressCollateral(c).value;
      var incentive := r.netSaleProceedsUsd6 - c.debtUsd6 - r.proceedsAfterDebtAndIncentiveUsd6;
      && LeftAfter(c.collateralUsd6, c.priceDropBps, r.shockedValueUsd6)
      && (exists slipped, sold :: LeftAfter(r.shockedValueUsd6, c.slippageBps, slipped)
            && LeftAfter(slipped, c.sellFeeBps, sold)
            && AfterGas(sold, c.gasUsd6, r.netSaleProceedsUsd6))
      && AfterGas(c.debtUsd6, r.netSaleProceedsUsd6, r.debtShortfallUsd6)
      && incentive as real - 1.0 < ExactIncentive(c) <= incentive as real
  {
    var shocked := Haircut(c.collateralUsd6, c.priceDropBps);
    var slipped := Haircut(shocked, c.slippageBps);
    var sold := Haircut(slipped, c.sellFeeBps);
    HaircutLeaves(c.collateralUsd6, c.priceDropBps);
    HaircutLeaves(shocked, c.slippageBps);
    HaircutLeaves(slipped, c.sellFeeBps);
    IncentiveRoundsUp(c);
    assert AfterGas(sold, c.gasUsd6, NetProceeds(c));
  }

  lemma HaircutLeaves(value: int, bps: int)
    requires 0 <= value && IsRate(bps)
    ensures 0 <= Haircut(value, bps) && LeftAfter(value, bps, Haircut(value, bps))
  {
    HaircutRoundsDown(value, bps);
  }

  /** The field an amount or rate is read from. */
  function Reading(c: StressCase, f: Field): int {
    match f
    case CollateralUsd6 => c.collateralUsd6
    case DebtUsd6 => c.debtUsd6
    case GasUsd6 => c.gasUsd6
    case PriceDropBps => c.priceDropBps
    case SlippageBps => c.slippageBps
    case SellFeeBps => c.sellFeeBps
    case IncentiveBps => c.incentiveBps
  }

  const CHECK_ORDER := [CollateralUsd6, DebtUsd6, GasUsd6, PriceDropBps, SlippageBps, SellFeeBps, IncentiveBps]

  ghost predicate Admissible(c: StressCase, f: Field) {
    0 <= Reading(c, f) && (f.CollateralUsd6? || f.DebtUsd6? || f.GasUsd6? || Reading(c, f) <= 10_000)
  }

  /** A rejection names the first inadmissible field in the order of the source's two checking loops. */
  lemma RejectionNamesFirst(c: StressCase, i: nat)
    requires i < |CHECK_ORDER|
    ensures StressCollateral(c) == Failure(CHECK_ORDER[i]) <==>
      !Admissible(c, CHECK_ORDER[i]) && forall j | 0 <= j < i :: Admissible(c, CHECK_ORDER[j])
  {
    assert CHECK_ORDER[0].CollateralUsd6? && CHECK_ORDER[1].DebtUsd6? && CHECK_ORDER[2].GasUsd6?;
    assert CHECK_ORDER[3].PriceDropBps? && CHECK_ORDER[4].SlippageBps? && CHECK_ORDER[5].SellFeeBps?;
    assert CHECK_ORDER[6].IncentiveBps?;
  }
}
