# Verified models of Turret's stock-history and collateral utilities

This project models four of the utilities under `contracts/utils` and proves what
they promise:

- the **historical price analyzer**: admission of a dataset manifest, the CSV
  reader, and the single pass that measures session gaps, thirty-minute losses,
  circuit-breaker moves and closures;
- the **gap model** the analyzer counts shortfalls with, and the confirmation
  path of a move beyond the oracle cutoff;
- the **collateral sale stress**, exact integer arithmetic with staged rounding;
- the **fixed-point decimal converter**.

| file | models |
|---|---|
| `Provenance.dfy` | manifest admission |
| `HistoricalCsv.dfy`, `Text.dfy`, `StockBars.dfy` | reading and printing the CSV |
| `HistoryAnalysis.dfy`, `Scan.dfy` | the single pass and what its accumulators mean |
| `HistoryWindows.dfy`, `HistoryMerge.dfy`, `HistorySessions.dfy`, `HistoryBounds.dfy` | properties of whole reports |
| `StockRisk.dfy`, `ConfirmationPath.dfy` | gap classification and confirmation |
| `CollateralStress.dfy`, `CollateralStressProperties.dfy` | the sale stress |
| `BnConverter.dfy`, `Digits.dfy` | decimal strings and scaled integers |
| `Wrappers.dfy`, `Numbers.dfy` | shared datatypes, minimum/maximum and whole numbers |

`dafny verify dfyconfig.toml` checks everything.

## How the model reads the source

- Prices are exact reals and timestamps whole milliseconds; a return is rounded
  to the nearest basis point with halves going up, as `Math.round` does.
- Date, number and URL parsing are parameters: functions that return nothing for
  a value that is not finite, or a truth value. The round-trip result states what
  it needs from them, and only for the values that occur in the bars printed.
- The two loops of the source that update variables (the analyzer's pass and the
  confirmation path), the CSV order check and the manifest's file check are
  methods with loops. Each is proved against a declarative meaning: `IsAnalysis`,
  `IsPath`, `Outcome` and `Admissible` say what is computed by sets, extremes and
  first positions, and lemmas show that they determine the result.
- A pass is described by the *readings* of three comparisons: adjacent closes, the
  gap across a session boundary, and the thirty-minute return.
- Constants, character classes and field orders of the source are compared with
  statements that write them out: milliseconds, basis points, the header's columns,
  the nine header checks with their ranks, code points and digits.
- Thrown errors are `Failure` values, the type error of reading a bar that is not
  there among them. `analyzeHistory` takes any interval and any prices, of either
  sign, as the source does; that no close is zero is its one precondition, and
  `AnalyzeCsv` shows that reading a CSV establishes it.

## Where the code does not do what one would expect

- The thirty-minute test compares an index distance and a timestamp distance. The
  CSV reader only asks for increasing timestamps, so bars closer together than
  the interval can make a window with a missing bar pass. `ShortStepHidesGap`
  builds such a history; `WindowExactness` and `TestAgreesWithMeaning` say exactly
  when the test is right on a given one, and `AdmittedIntervalIsRight` that it is
  right on all of them for an interval of half an hour only.
- The gas clamp reports a smaller loss than the exact one when gas exceeds the
  proceeds; `MarginAgainstUnclamped` gives the exact condition and `ClampWitness`
  a case.
- `makeDecimal` with zero digits puts the whole number on both sides of the point,
  because `slice(-0)` takes everything; `MakeDecimalExactly` shows that this is
  the only failure.
- The reported worst return tells whether a shortfall was counted exactly when
  nothing has to be covered or the starting ratio covers it (`WorstTellsExactly`).
  `UncoveredStartBreaksEquivalence` is an example of the other case.
- A deeper fall is never safer down to a total loss. At any depth it holds exactly
  under the condition of `DownwardClosedExactly`; no caller goes there.

## Model

| member | source | states |
|---|---|---|
| `Provenance.ValidateProvenance` | contracts/utils/analyze-stock-token-history.ts:41-81 | a manifest passes exactly when it is admissible, covering the expected symbols and no others; a refusal names the first respect in which the header is not in order, or the first bad symbol, or the extra symbols |
| `Provenance.HeaderDecided` | contracts/utils/analyze-stock-token-history.ts:46-72 | going through the list of checks decides the nine written-out respects, and finds the first, by rank, that is not in order |
| `Provenance.FileChecks` | contracts/utils/analyze-stock-token-history.ts:74-78 | looking a symbol up means that some reference names a file that is not blank, and a digest of 64 hexadecimal characters |
| `Provenance.PassesInOrder` | contracts/utils/analyze-stock-token-history.ts:46-72 | the header conditions mean what they are for: non-blank texts, a licence that does not spell a placeholder in any case or spacing, one of eight intervals |
| `Provenance.UnexpectedInOrder` | contracts/utils/analyze-stock-token-history.ts:79-80 | extra symbols are reported in key order |
| `Provenance.AdmittedIntervals` | contracts/utils/analyze-stock-token-history.ts:68-72 | the admitted intervals are the eight divisors of 30, each making a whole number of bars in half an hour |
| `Text.TrimMeaning` | contracts/utils/analyze-stock-token-history.ts:84 | trimming removes white space from the two ends only, and all of it |
| `Text.SpaceCodes` | contracts/utils/analyze-stock-token-history.ts:84 | the white space trimmed is that of the language, by code point |
| `Text.JoinSplit` | contracts/utils/analyze-stock-token-history.ts:89 | joining the parts of a split text gives the text back |
| `Text.SplitJoinLines` | contracts/utils/analyze-stock-token-history.ts:84 | splitting on line ends undoes joining with any mixture of LF and CRLF, wherever a line holds other carriage returns |
| `Text.JoinSplitLines` | contracts/utils/analyze-stock-token-history.ts:84 | every text is split into lines that joined by their line ends give it back, so the splitting is determined |
| `HistoricalCsv.HeaderColumns` | contracts/utils/analyze-stock-token-history.ts:39 | the header names the six columns in the order in which a row is decoded |
| `HistoricalCsv.LinesMeaning` | contracts/utils/analyze-stock-token-history.ts:84 | the lines joined by their line ends are the trimmed text, and white space around a text does not change them |
| `StockBars.SessionForm` | contracts/utils/analyze-stock-token-history.ts:94 | a session label is four, two and two decimal digits joined by dashes |
| `HistoricalCsv.RowAccepted` | contracts/utils/analyze-stock-token-history.ts:88-102 | a row becomes a bar exactly when its six fields decode to that bar and the bar is valid |
| `HistoricalCsv.RowRefused` | contracts/utils/analyze-stock-token-history.ts:88-102 | a refusal names the first of five respects in which the fields of a row are not in order, the last being open and close within low and high |
| `HistoricalCsv.ParseHistoricalCsv` | contracts/utils/analyze-stock-token-history.ts:83-110 | the outcome: all bars in order, or the earliest malformed row, or else the earliest row that is not later than its predecessor, numbered in the trimmed text |
| `HistoricalCsv.OutcomeUnique` | contracts/utils/analyze-stock-token-history.ts:83-110 | every text has one outcome, so the first-error rule leaves no choice |
| `HistoricalCsv.ParsedHistoryIsValid` | contracts/utils/analyze-stock-token-history.ts:93-109 | whatever is accepted is non-empty, valid and strictly increasing in time |
| `HistoricalCsv.PrintedHistoryReadsBack` | contracts/utils/analyze-stock-token-history.ts:83-110 | printing any valid history, with any line ends and surrounding white space, and reading it gives the same bars |
| `HistoryBounds.ReturnRounding` | contracts/utils/analyze-stock-token-history.ts:112-114 | a return is the exact relative move to the nearest basis point, halves going up |
| `HistoryAnalysis.AnalyzeHistory` | contracts/utils/analyze-stock-token-history.ts:116-171 | for every interval: the single pass returns the declarative report, or fails exactly on fewer than two bars or on a reference bar that is not there |
| `HistoryAnalysis.ReadsOutsideExactly` | contracts/utils/analyze-stock-token-history.ts:124-152 | the latter exactly when the interval is negative, or half an hour is not a whole number of intervals and the history is long enough to look back |
| `HistoryAnalysis.WholeSetting` | contracts/utils/analyze-stock-token-history.ts:124 | when half an hour is a whole number of intervals, the look-back is that number |
| `HistoryAnalysis.AdmittedSetting` | contracts/utils/analyze-stock-token-history.ts:68-72 | an admitted interval never fails so, and its look-back is exactly half an hour |
| `HistoryAnalysis.AnalysisMeaning` | contracts/utils/analyze-stock-token-history.ts:125-170 | the accumulated report is the least of zero and the returns, the number of counted readings, and the greatest of zero and the closures |
| `HistoryAnalysis.ClosureInMillis` | contracts/utils/analyze-stock-token-history.ts:137-138 | a closure is the excess of a step over the interval at 60 000 milliseconds a minute |
| `HistoryAnalysis.AnalysisUnique` | contracts/utils/analyze-stock-token-history.ts:160-170 | no other report fits that description |
| `HistoryWindows.WindowExactness` | contracts/utils/analyze-stock-token-history.ts:149-153 | among windows without a short step, the test accepts exactly those with both ends in one session and every step one interval |
| `HistoryWindows.CountedWindows` | contracts/utils/analyze-stock-token-history.ts:149-153 | when bars are at least one interval apart, the windows read are precisely the full ones |
| `HistoryWindows.RegularHistory` | contracts/utils/analyze-stock-token-history.ts:137-157 | one session of bars an admitted interval apart: every bar with half an hour before it is read, and no closure is reported |
| `HistoryWindows.TestAgreesWithMeaning` | contracts/utils/analyze-stock-token-history.ts:149-153 | test and meaning agree on a history exactly when no accepted window hides a short step |
| `HistoryWindows.ShortStepHidesGap` | contracts/utils/analyze-stock-token-history.ts:104-108 | for every window length of two steps or more (and under one step a millisecond), a valid history in which an accepted window misses a bar |
| `HistoryWindows.TestIsRightExactly` | contracts/utils/analyze-stock-token-history.ts:149-153 | for every setting: the test is right on all readable histories exactly when a window is one step, or at least one step for every millisecond of half an hour |
| `HistoryWindows.AdmittedIntervalIsRight` | contracts/utils/analyze-stock-token-history.ts:68-72 | of the admitted intervals that is the case for 30 minutes only |
| `HistoryWindows.WindowInOneSession` | contracts/utils/analyze-stock-token-history.ts:151-152 | when sessions are unbroken runs, comparing the two ends puts every bar of the window in one session |
| `HistoryMerge.SplitPairs` | contracts/utils/analyze-stock-token-history.ts:131-147 | pairwise results merge from the two pieces that share one bar, and sessions count once |
| `HistoryMerge.SplitWindows` | contracts/utils/analyze-stock-token-history.ts:149-157 | window results merge from two pieces that share one whole window |
| `HistorySessions.SessionsAndBoundaries` | contracts/utils/analyze-stock-token-history.ts:131-147 | the gap branch is taken between sessions - 1 and observations - 1 times, the former exactly when no session resumes, and bounds the gap shortfalls |
| `HistoryBounds.ClosureAgainstSpan` | contracts/utils/analyze-stock-token-history.ts:137-138 | the whole time span is bounded by steps of one interval plus the longest closure, and that closure by the span |
| `HistoryBounds.WorstDecides` | contracts/utils/analyze-stock-token-history.ts:145-156 | for every starting ratio on positive prices, and on any prices when that ratio is not negative, a counted shortfall makes the worst return a shortfall, and conversely when no change is not one |
| `HistoryBounds.WorstTellsExactly` | contracts/utils/analyze-stock-token-history.ts:143-157 | on all readable histories the worst return tells whether a shortfall was counted exactly when nothing has to be covered or the starting ratio covers it |
| `HistoryBounds.WorstReturnDecidesShortfall` | contracts/utils/analyze-stock-token-history.ts:143-157 | where there is a gap limit, it decides both shortfall counts of all readable histories from the worst return exactly when the starting ratio covers debt and penalty |
| `HistoryBounds.UncoveredStartBreaksEquivalence` | contracts/utils/simulate-stock-token-risk.ts:90-97 | an example: a readable history whose two reported worst returns are shortfalls that nothing counted |
| `HistoryBounds.WorstInRange` | contracts/utils/analyze-stock-token-history.ts:125-126 | on positive prices both worst returns lie in [-10000, 0] |
| `HistoryBounds.AnalysisInvariant` | contracts/utils/analyze-stock-token-history.ts:134-158 | scaling all prices by anything but zero and shifting all timestamps changes no field |
| `HistoryBounds.AnalyzeCsv` | contracts/utils/analyze-stock-token-history.ts:192-197 | a reading error or an analysis error is passed on as it is; otherwise the report describes the bars that were read and its worst returns are in range |
| `StockRisk.RatioMeaning` | contracts/utils/simulate-stock-token-risk.ts:90-91 | the ratio is the exact moved ratio rounded down and clamped at zero |
| `StockRisk.LiquidatableExactly` | contracts/utils/simulate-stock-token-risk.ts:92 | liquidatable means that the minimum is positive and the unrounded moved ratio, of minimum and buffer, is below it |
| `StockRisk.ShortfallExactly` | contracts/utils/simulate-stock-token-risk.ts:97 | a shortfall means that debt and penalty are positive and the unrounded moved ratio is below them |
| `StockRisk.ConfirmationExactly` | contracts/utils/simulate-stock-token-risk.ts:96 | a move needs confirmation exactly when it rises or falls by more than the cutoff |
| `StockRisk.UnmovedRatio` | contracts/utils/simulate-stock-token-risk.ts:90 | without a move the ratio is the minimum plus the starting buffer |
| `StockRisk.ShortfallDownwardClosed` | contracts/utils/simulate-stock-token-risk.ts:85-99 | a deeper fall is never safer: down to a total loss for every starting ratio, and at any depth for one that is not negative |
| `StockRisk.DownwardClosedExactly` | contracts/utils/simulate-stock-token-risk.ts:85-99 | over all integer returns, exactly when the starting ratio is not negative or nothing has to be covered |
| `StockRisk.NegativeStartIsNotDownwardClosed` | contracts/utils/simulate-stock-token-risk.ts:90-91 | an example of the failure, at a return below a total loss that no caller in the repository passes |
| `StockRisk.ShortfallThreshold` | contracts/utils/simulate-stock-token-risk.ts:91-97 | a shortfall is exactly a return below minus the gap limit |
| `StockRisk.ShortfallAtRest` | contracts/utils/simulate-stock-token-risk.ts:90-97 | an unmoved price is a shortfall exactly when something has to be covered and the starting ratio does not cover it |
| `StockRisk.DocumentedGaps` | SANDCASTLE.md:44-57 | an example: the gap limit at the seven configured ratios is the documented table |
| `ConfirmationPath.CombineMeaning` | contracts/utils/simulate-stock-token-risk.ts:111-115 | the price after a window is the exact product rounded down to a basis point and clamped at zero |
| `ConfirmationPath.WindowOutcome` | contracts/utils/simulate-stock-token-risk.ts:101-132 | for every configuration, a waiting window ends in exactly one of three ways |
| `ConfirmationPath.WindowShortfall` | contracts/utils/simulate-stock-token-risk.ts:111-131 | it sees a shortfall exactly when the lower of its two prices is one, and where there is a gap limit, exactly when that price is below it |
| `ConfirmationPath.ClassifyConfirmationPath` | contracts/utils/simulate-stock-token-risk.ts:134-199 | the path stops at the first window that does not restart, with the move beyond the cutoff until then; its summary covers every price from the move to the stop |
| `ConfirmationPath.PathUnique` | contracts/utils/simulate-stock-token-risk.ts:134-199 | the description determines the summary |
| `ConfirmationPath.ShortfallIffWorstRatio` | contracts/utils/simulate-stock-token-risk.ts:156-167 | a shortfall during the wait is reported exactly when the worst reported ratio does not cover debt and penalty |
| `ConfirmationPath.ShortfallByGapLimit` | contracts/utils/simulate-stock-token-risk.ts:156-167 | that is, exactly when some price seen fell below the gap limit |
| `ConfirmationPath.LaterWindowsIrrelevant` | contracts/utils/simulate-stock-token-risk.ts:159-190 | windows after the stop change nothing |
| `ConfirmationPath.CompoundingError` | contracts/utils/simulate-stock-token-risk.ts:111-115 | rounding at each window never overstates the price and understates it by at most 2^k - 1 basis points after k windows |
| `CollateralStress.StressCollateral` | contracts/utils/assess-collateral.ts:19-43 | succeeds exactly on valid input, with proceeds between zero and the collateral |
| `CollateralStressProperties.RejectionNamesFirst` | contracts/utils/assess-collateral.ts:20-27 | a rejection names the first inadmissible field, amounts before rates |
| `CollateralStressProperties.ReportMeaning` | contracts/utils/assess-collateral.ts:28-38 | the four reported amounts as three floors, a gas deduction, the missing debt, and what is left after the least whole incentive |
| `CollateralStressProperties.MarginRounding` | contracts/utils/assess-collateral.ts:28-38 | the margin is never above the exact clamped margin and less than 4 micro-dollars below it |
| `CollateralStressProperties.MarginRoundingIsSharp` | contracts/utils/assess-collateral.ts:28-38 | a case that loses more than 3.98 |
| `CollateralStressProperties.MarginAgainstUnclamped` | contracts/utils/assess-collateral.ts:31-38 | against the margin without the clamp: the lower bound always, the upper bound exactly when gas exceeds the exact proceeds by no more than the incentive was rounded up |
| `CollateralStressProperties.ClampHidesGasDeficit` | contracts/utils/assess-collateral.ts:31 | whenever gas exceeds the exact proceeds by one micro-dollar the margin is flattered |
| `CollateralStressProperties.ClampWitness` | contracts/utils/assess-collateral.ts:31 | a concrete such case |
| `CollateralStressProperties.SolvencyVerdictSound` | contracts/utils/assess-collateral.ts:16-38 | a non-negative margin with debt means no shortfall and exact solvency |
| `CollateralStressProperties.SolvencyVerdictComplete` | contracts/utils/assess-collateral.ts:16-38 | exact solvency with three spare micro-dollars is always reported |
| `CollateralStressProperties.Monotonicity` | contracts/utils/assess-collateral.ts:28-38 | margin and shortfall move the right way in all seven inputs at once |
| `CollateralStressProperties.BreakEvenExact` | contracts/utils/assess-collateral.ts:28-38 | the computed threshold separates negative from non-negative margins |
| `CollateralStressProperties.BreakEvenExists` | contracts/utils/assess-collateral.ts:28-38 | a threshold exists exactly when no haircut is total or nothing is owed |
| `CollateralStressProperties.PoolingSale` | contracts/utils/assess-collateral.ts:28-30 | pooled proceeds are between the sum of the separate ones and three more |
| `CollateralStressProperties.Pooling` | contracts/utils/assess-collateral.ts:28-31 | after gas a pooled sale is never worse than two separate ones, and better by at most three plus one gas payment |
| `CollateralStressProperties.PoolingIsSharp` | contracts/utils/assess-collateral.ts:28-30 | the three are attained |
| `CollateralStressProperties.OrderBarelyMatters` | contracts/utils/assess-collateral.ts:28-31 | any order of the three haircuts gives net proceeds within two |
| `CollateralStressProperties.OrderIsSharp` | contracts/utils/assess-collateral.ts:28-31 | the two are attained |
| `BnConverter.PlainForms` | contracts/utils/BNConverter.js:22-23 | the plain decimals are the digit strings and the digits around a point, either side but not both empty |
| `BnConverter.MakeBNScales` | contracts/utils/BNConverter.js:17-32 | the integer is the decimal scaled to the precision; refused only for more places than that |
| `BnConverter.ParsedParts` | contracts/utils/BNConverter.js:22-23 | what a text with a point denotes, from the values of its two digit strings |
| `BnConverter.MakeBNOfParts` | contracts/utils/BNConverter.js:22-31 | and what it converts to |
| `BnConverter.MakeBNOfDigits` | contracts/utils/BNConverter.js:22-31 | the same for a text without a point |
| `BnConverter.DocumentedExample` | contracts/utils/BNConverter.js:12 | the documented conversion that keeps a one in the eighteenth place |
| `BnConverter.MakeBNMeaning` | contracts/utils/BNConverter.js:17-32 | the integer over the power of ten is the number converted |
| `BnConverter.MakeDecimalMeaning` | contracts/utils/BNConverter.js:47-63 | in both length branches, with one digit or more, the decimal is the integer over the power of ten |
| `BnConverter.MakeDecimalExactly` | contracts/utils/BNConverter.js:53-61 | it is the intended number exactly when a digit is asked for or the number is zero |
| `BnConverter.NoDigitsWitness` | contracts/utils/BNConverter.js:58-60 | seven with no digits becomes 7.7 |
| `Digits.ShowHasNoLeadingZero` | contracts/utils/BNConverter.js:48 | the decimal notation of an integer starts with a zero for zero only |
| `Digits.DigitMeaning` | contracts/utils/BNConverter.js:31 | digits denote their place in 0123456789, both ways |
| `BnConverter.StringRoundTrip` | contracts/utils/BNConverter.js:17-63 | string to integer to decimal keeps the number, exactly when a place is kept or it is zero |
| `BnConverter.IntegerRoundTrip` | contracts/utils/BNConverter.js:17-63 | an integer comes back from every plain spelling of its decimal |
| `BnConverter.ExpansionRoundTrip` | contracts/utils/BNConverter.js:47-63 | in particular from its own expansion, which has exactly the places asked for |
| `BnConverter.RoundTrip18` | contracts/utils/BNConverter.js:42-67 | the 18-digit wrappers undo each other |
| `BnConverter.SpellingIrrelevant` | contracts/utils/BNConverter.js:17-32 | spellings of one number give one integer |

## Left out

- Double-precision rounding, negative zero and the internals of `Number` and `Date.parse`: arithmetic is exact and the two parsers are parameters.
- URL parsing and the digest comparison: the manifest takes "is an HTTPS URL" as given, and no file is hashed or read.
- Provenance.ValidateProvenance: the default of `allowSynthetic` is left to the caller; the file references are the manifest's own keys in key order; properties inherited by every object are not modelled.
- Numbers that are not finite, as intervals or in a manifest, and stress inputs that are not whole: the model's types do not hold them.
- `main`, `percent`, console output and file access of the analyzer, and the analysis of one symbol after another.
- The Monte Carlo runner (`simulateBranch`, its generator and `runSimulation`) and `parseRiskManifest`: random draws and a regular expression over a contract file.
- `inspectToken`, `inspectV3Pool`, `missingEvidence`, `currentVaultBlockers` and the constant admission field: remote reads, single filters and a constant.
- HistoryAnalysis.AnalyzeHistory: requires that no close is zero, which the CSV reader establishes; the source divides by closes, and by zero gets infinities that exact arithmetic has no value for.
- `checkOnlyNumericChars` and inputs of `makeBN` that are not plain decimals (signs, exponents, other bases) or that come without a precision: they depend on libraries that are not part of this model.
