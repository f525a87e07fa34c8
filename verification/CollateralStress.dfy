/**
The full-collateral sale stress: three staged haircuts rounded down, a clamped
gas deduction, and a required incentive rounded up. Money is in whole
micro-dollars and every rate is in basis points of `BPS`.
*/
module CollateralStress {
  import opened Wrappers

  const BPS := 10_000

  datatype StressCase = StressCase(
    collateralUsd6: int,
    debtUsd6: int,
    priceDropBps: int,
    slippageBps: int,
    sellFeeBps: int,
    gasUsd6: int,
    incentiveBps: int
  )

  datatype StressReport = StressReport(
    shockedValueUsd6: int,
    netSaleProceedsUsd6: int,
    debtShortfallUsd6: int,
    proceedsAfterDebtAndIncentiveUsd6: int
  )

  datatype Field = CollateralUsd6 | DebtUsd6 | GasUsd6 | PriceDropBps | SlippageBps | SellFeeBps | IncentiveBps

  predicate IsRate(bps: int) {
    0 <= bps <= BPS
  }

  ghost predicate Valid(c: StressCase) {
    && 0 <= c.collateralUsd6 && 0 <= c.debtUsd6 && 0 <= c.gasUsd6
    && IsRate(c.priceDropBps) && IsRate(c.slippageBps) && IsRate(c.sellFeeBps) && IsRate(c.incentiveBps)
  }

  /** What the input check reports: the first offending field, amounts before rates. */
  function FirstInvalid(c: StressCase): Option<Field> {
    if c.collateralUsd6 < 0 then Some(CollateralUsd6)
    else if c.debtUsd6 < 0 then Some(DebtUsd6)
    else if c.gasUsd6 < 0 then Some(GasUsd6)
    else if !IsRate(c.priceDropBps) then Some(PriceDropBps)
    else if !IsRate(c.slippageBps) then Some(SlippageBps)
    else if !IsRate(c.sellFeeBps) then Some(SellFeeBps)
    else if !IsRate(c.incentiveBps) then Some(IncentiveBps)
    else None
  }

  /** What is left of `value` after a haircut of `bps`, rounded down to a micro-dollar. */
  function Haircut(value: int, bps: int): int {
    value * (BPS - bps) / BPS
  }

  function SaleProceeds(c: StressCase): int {
    Haircut(Haircut(Haircut(c.collateralUsd6, c.priceDropBps), c.slippageBps), c.sellFeeBps)
  }

  function NetProceeds(c: StressCase): int {
    if SaleProceeds(c) > c.gasUsd6 then SaleProceeds(c) - c.gasUsd6 else 0
  }

  function DebtShortfall(c: StressCase): int {
    if c.debtUsd6 > NetProceeds(c) then c.debtUsd6 - NetProceeds(c) else 0
  }

  /** The incentive, rounded up. */
  function RequiredIncentive(c: StressCase): int {
    (c.debtUsd6 * c.incentiveBps + BPS - 1) / BPS
  }

  function Margin(c: StressCase): int {
    NetProceeds(c) - c.debtUsd6 - RequiredIncentive(c)
  }

  /** The stress report, or the first field that fails the input check. */
  function StressCollateral(c: StressCase): (r: Result<StressReport, Field>)
    ensures r.Success? <==> Valid(c)
    ensures r.Success? ==> 0 <= r.value.netSaleProceedsUsd6 <= r.value.shockedValueUsd6 <= c.collateralUsd6
    ensures r.Success? ==>
      r.value.debtShortfallUsd6 == 0 || r.value.debtShortfallUsd6 + r.value.netSaleProceedsUsd6 == c.debtUsd6
  {
    match FirstInvalid(c)
    case Some(field) => Failure(field)
    case None =>
      HaircutShrinks(c.collateralUsd6, c.priceDropBps);
      HaircutShrinks(Haircut(c.collateralUsd6, c.priceDropBps), c.slippageBps);
      HaircutShrinks(Haircut(Haircut(c.collateralUsd6, c.priceDropBps), c.slippageBps), c.sellFeeBps);
      Success(StressReport(Haircut(c.collateralUsd6, c.priceDropBps), NetProceeds(c), DebtShortfall(c), Margin(c)))
  }

  lemma HaircutShrinks(value: int, bps: int)
    requires 0 <= value && IsRate(bps)
    ensures 0 <= Haircut(value, bps) <= value
  {
    var product := value * (BPS - bps);
    assert 0 <= product <= value * BPS;
  }
}
