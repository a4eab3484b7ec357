# NHS 2015 CARE estimator and LAS contribution rate checker: a Dafny model

This project models the arithmetic and table handling of two browser tools for members of the
NHS Pension Scheme 2015 section.

**The CARE estimator** (`nhs-2015-care/assets/app.js`) keeps a ledger of scheme years. Each
year is a row `{yearEnd, ara, pay}`. It also keeps three sparse tables:

- the Annual Revaluation Amount (ARA) rates, by year end;
- the early-retirement factors (ERF), by months;
- the late-retirement factors (LRF), by months.

The estimator's behaviour, as modelled:

- `buildUnreduced` picks the final scheme year F. It adds a zero-pay row for F when the ledger
  has none. Each completed year's accrual (pay / 54) is compounded by `1 + ARA` for every later
  year up to F-1. In `estimate` mode one more factor, `1 + ARA(F)`, is applied. F's own
  accrual is added unrevalued, and the tool records an audit trail and the total.
- `applyRetirementFactors` works out the months short of or beyond Normal Pension Age. It
  removes bought-out months, looks up a factor with `getFactor` (exact key, else floor key,
  else the smallest key), and settles the commutation.
- The ledger and table edits of the user interface are modelled too, as is the CSV export.

The mutable `state` object is a class, `CareCalculator.CareState`. Its methods change the
fields the source changes. Each is specified by functions of the old state, and the
properties are proved about those functions:

- `CareRevaluation`: the audit and multipliers.
- `CareLedger`: ledger edits and seeding.
- `CareTables`: table lookups.
- `CareRetirement`: dates, months and commutation.

The loops of the source are methods with invariants:

- the `for` over t that pushes the multipliers;
- the `forEach` over completed rows;
- the `seedYears` loop;
- the key scan of `getFactor`.

**The contribution rate checker** (`contribution-rate-checker/assets/app.js`) is pure code. It
works out:

- the officer type (A–D) from three flags;
- which whole-time-equivalent (WTE) pay is used for tiering;
- a WTE helper;
- the first band of a year's rate table that holds the tiering pay, with both limits
  inclusive;
- the merge of stored override tables over the built-in ones;
- the scheme-year label of a date;
- the default year;
- the contribution estimate.

Module `ContributionRates` models it as functions.

Conventions used throughout:

- Money and rates are `real`.
- `Math.round(x)` is `(x + 0.5).Floor`.
- Dates are (year, month, day) triples, and "today" is a parameter.
- A form field that is blank or not a number is `None`, and so is a stored value that does not
  parse. The two year-end inputs are the exception: they fall back to the row's own year end
  when blank, so a `YearInput` tells a blank field from one that `parseInt` reads as NaN.
- `String(n)` is the decimal rendering of an integer.
- JavaScript's `%` is written out, truncating toward zero.

## Model

| member | source | states |
|---|---|---|
| Common.Round | nhs-2015-care/assets/app.js:227 | `Math.round` gives the integer within half of x, halves going up |
| Common.JsRem | contribution-rate-checker/assets/app.js:29-30 | JavaScript `%`: a = b × q + r for an integer q, with r the ordinary remainder for a non-negative dividend and r in (-b, 0] for a negative one, which is division truncated toward zero |
| Common.LastTwoDigits | nhs-2015-care/assets/app.js:47 | for n >= 10, `String(n).slice(-2)` is the zero-padded two-digit rendering of n mod 100 |
| CareTables.Ara | nhs-2015-care/assets/app.js:149 | `araTable[t] ?? 0`: the stored rate for a year in the table, 0 for a year without one |
| CareTables.SortedKeys | nhs-2015-care/assets/app.js:211 | the numeric sort of the keys yields every key of the table exactly once, strictly ascending |
| CareTables.GetFactor | nhs-2015-care/assets/app.js:210-216 | 1.0 for an empty table. Otherwise: the stored factor for an exact key; else the factor at the largest key not above the months; else (months below every key) the factor at the smallest key. A non-empty table always answers one of its own values |
| CareTables.FactorLookupDetermines | nhs-2015-care/assets/app.js:210-216 | the lookup rule above allows one factor only, so any two answers that meet it agree |
| CareTables.FloorKeyPins | nhs-2015-care/assets/app.js:214-215 | when months has a floor key, the factor is the value stored at that key |
| CareTables.ErfFloorExample | nhs-2015-care/assets/app.js:214-215 | on an ERF table with keys 0, 12 and 24: 18 months answers the 12-month factor, 100 months the 24-month factor, 0 months 1.0 |
| CareTables.BelowEveryKeyExample | nhs-2015-care/assets/app.js:214 | months below every key answer the smallest key's factor, not 1.0 |
| CareRevaluation.Accrual | nhs-2015-care/assets/app.js:147 | a year's accrual is its pay / 54: 54 times the accrual is the pay |
| CareRevaluation.Product | nhs-2015-care/assets/app.js:21 | defined as the left fold of `*` from 1; its concatenation law is `ProductConcat` |
| CareRevaluation.ProductConcat | nhs-2015-care/assets/app.js:21 | the left fold `product` of a concatenation is the product of the two parts' products |
| CareRevaluation.Uplifts | nhs-2015-care/assets/app.js:149 | the loop's pushes `1 + ARA(t)` for t = lo .. hi, one per year (hi - lo + 1 of them, none when hi < lo) |
| CareRevaluation.MultiplierFactors | nhs-2015-care/assets/app.js:148-150 | defined as the uplifts of y+1 .. F-1, then `1 + ARA(F)` in estimate mode; its product is `Multiplier` (`MultiplierIsProduct`) |
| CareRevaluation.Multiplier | nhs-2015-care/assets/app.js:148-151 | defined as a forward recurrence over the years after y; equal to `product(multipliers)` by `MultiplierIsProduct` |
| CareRevaluation.MultiplierIsProduct | nhs-2015-care/assets/app.js:148-151 | the product of the factors the loop pushes is the compounded multiplier: `1 + ARA(t)` for t = y+1 .. F-1, times `1 + ARA(F)` in estimate mode |
| CareRevaluation.EstimateMultiplier | nhs-2015-care/assets/app.js:150 | a completed year's estimate-mode multiplier is its actual-mode multiplier times `1 + ARA(F)` |
| CareRevaluation.LastCompletedYearMultiplier | nhs-2015-care/assets/app.js:149-151 | year F-1 is multiplied by the empty product 1 in actual mode and by `1 + ARA(F)` in estimate mode |
| CareRevaluation.MultiplierAtLeastOne | nhs-2015-care/assets/app.js:149-151 | with no negative ARA after a year, its multiplier is at least 1 |
| CareRevaluation.CompletedMembers | nhs-2015-care/assets/app.js:143 | a row is a completed year exactly when it is in the ledger with year end at most F-1 |
| CareRevaluation.CompletedAscending | nhs-2015-care/assets/app.js:143 | the completed years of an ascending ledger are ascending, so the sort on that line changes nothing |
| CareRevaluation.FindYear | nhs-2015-care/assets/app.js:144 | no row is found exactly when no row has that year end; a found row has it |
| CareRevaluation.FindYearInLedger | nhs-2015-care/assets/app.js:144 | the row found is a row of the ledger |
| CareRevaluation.CompletedAudit | nhs-2015-care/assets/app.js:146-155 | one entry per completed row, in order; each is the row's accrual, its multiplier and their product |
| CareRevaluation.AuditShape | nhs-2015-care/assets/app.js:143-161 | the audit is one entry per completed year, year ends ascending and below F, then one part-year entry for F with multiplier 1 and revalued amount pay(F) / 54 |
| CareRevaluation.EstimateScalesCompleted | nhs-2015-care/assets/app.js:150 | the estimate-mode total of the completed years is the actual-mode total times `1 + ARA(F)` |
| CareRevaluation.EstimateVersusActual | nhs-2015-care/assets/app.js:146-161 | estimate and actual totals differ only in the completed years, scaled by `1 + ARA(F)`; the final accrual is the same in both |
| CareRevaluation.RevaluedAtLeastAccrual | nhs-2015-care/assets/app.js:147-152 | with non-negative pay and ARA, a completed year's revalued amount is at least its accrual, which is at least 0 |
| CareRevaluation.Completed | nhs-2015-care/assets/app.js:143 | the rows with year end at most F-1, in ledger order, never more than the ledger holds; membership is `CompletedMembers` |
| CareRevaluation.EntryFor | nhs-2015-care/assets/app.js:147-153 | defined as a completed row's audit entry: accrual, multiplier, their product; its use is `CompletedAudit` |
| CareRevaluation.Audit | nhs-2015-care/assets/app.js:140-161 | defined as the completed rows' entries, then F's part-year entry when F has a row; its shape is `AuditShape` |
| CareRevaluation.SumRevalued | nhs-2015-care/assets/app.js:141-160 | defined as the sum of the entries' revalued amounts, the `unreduced +=` accumulation |
| CareRevaluation.Unreduced | nhs-2015-care/assets/app.js:146-163 | defined as the audit's total; `EstimateVersusActual` relates its two modes |
| CareRevaluation.InsertByYear | nhs-2015-care/assets/app.js:134-135 | push then sort by year end: the ledger stays ascending and holds the old rows plus the new one (as a multiset) |
| CareRevaluation.RowBeyondFinalIgnored | nhs-2015-care/assets/app.js:143-144 | a row with year end beyond F changes neither the completed years nor the final row found |
| CareRevaluation.CompoundingOrderExample | nhs-2015-care/assets/app.js:149-152 | worked: 2016 pay with final year 2020 in actual mode is revalued by ARA 2017, 2018 and 2019, whatever ARA 2020 is |
| CareRetirement.SchemeYearEndForDate | nhs-2015-care/assets/app.js:43 | the scheme year end of a date is its calendar year or the next |
| CareRetirement.SchemeYearContainsDate | nhs-2015-care/assets/app.js:43 | a valid date falls in the scheme year ending y (1 April y-1 .. 31 March y) exactly when y is its scheme year end |
| CareRetirement.SchemeYearMonotone | nhs-2015-care/assets/app.js:43 | a later date never has an earlier scheme year |
| CareRetirement.YearLabelDigits | nhs-2015-care/assets/app.js:47 | from year end 10 on, the label is the start year, a slash, and the end year's tens and units digits |
| CareRetirement.YearLabel | nhs-2015-care/assets/app.js:47 | defined as `yearLabel`; `YearLabelDigits` states its digits from year end 10 on |
| CareRetirement.MonthsBetween | nhs-2015-care/assets/app.js:205-209 | defined as `monthsBetween`; `MonthsBetweenCountsWholeMonths` states that it counts whole months |
| CareRetirement.MonthsBetweenCountsWholeMonths | nhs-2015-care/assets/app.js:205-209 | `monthsBetween` is the unique n with the n-month anniversary reached and the (n+1)-month one not |
| CareRetirement.MonthsBetweenSelf | nhs-2015-care/assets/app.js:205-209 | no months lie between a date and itself |
| CareRetirement.MonthsBetweenMonotone | nhs-2015-care/assets/app.js:205-209 | a later end date never counts fewer months |
| CareRetirement.NpaReachedMeansNoShortfall | nhs-2015-care/assets/app.js:226-227 | the months short of Normal Pension Age are at most 0 exactly when the birth date's NPA-month anniversary is reached |
| CareRetirement.MonthsFromNpa | nhs-2015-care/assets/app.js:225-227 | defined as 0 without a date of birth, else the rounded NPA months less the months lived; `NpaReachedMeansNoShortfall` gives its sign |
| CareRetirement.ErrboMonths | nhs-2015-care/assets/app.js:229-230 | buy-out months lie in [0, 36] and are the rounded months of the years when those are in [0, 3] |
| CareRetirement.ErrboMonotone | nhs-2015-care/assets/app.js:229-230 | more buy-out years never give fewer months |
| CareRetirement.RetirementTypeFromSelect | nhs-2015-care/assets/app.js:232-241 | "early" and "late" select the ERF and LRF paths; every other value is retirement at age |
| CareRetirement.MonthsAdjustment | nhs-2015-care/assets/app.js:233-241 | the adjusted months are never negative |
| CareRetirement.AdjustmentOnlyOnTheRightSide | nhs-2015-care/assets/app.js:234-240 | early retirement adjusts at most the months short of NPA and none once NPA is reached; late retirement adjusts exactly the months beyond NPA and none before |
| CareRetirement.BuyOutReducesEarlyMonths | nhs-2015-care/assets/app.js:235-236 | more buy-out never raises the early adjustment, and each bought-out month removes at most one month |
| CareRetirement.Settle | nhs-2015-care/assets/app.js:243-247 | afterFactor = unreduced × factor. Commute lies in [0, afterFactor] (0 when afterFactor is negative) and is the request when that is allowed. lump = 12 × commute; payable + commute = afterFactor; payable >= 0 when afterFactor >= 0 |
| CareRetirement.CommuteIsNearestAllowed | nhs-2015-care/assets/app.js:245 | the commuted amount is the point of [0, afterFactor] nearest to the request |
| CareRetirement.SettleIdempotent | nhs-2015-care/assets/app.js:244-245 | asking again for the amount that was commuted commutes it again |
| CareRetirement.CommutationExample | nhs-2015-care/assets/app.js:243-247 | worked: 2,500 of 10,000 commuted pays 30,000 lump sum and 7,500 a year; an excess request commutes everything |
| CareLedger.FindYearUnique | nhs-2015-care/assets/app.js:144 | in an ascending ledger the row found for a year is the only row with it |
| CareLedger.RemoveAt | nhs-2015-care/assets/app.js:93 | `splice(idx, 1)`: one shorter, the rows before idx in place, the rows after shifted down one |
| CareLedger.RemoveAtProperties | nhs-2015-care/assets/app.js:91-93 | deleting a row keeps the ledger ascending and removes exactly that row (multiset difference) |
| CareLedger.RemoveAtHasYear | nhs-2015-care/assets/app.js:93 | after deleting row idx a year is present exactly when another row holds it |
| CareLedger.YearEndEdited | nhs-2015-care/assets/app.js:61-69 | the year end entered, or the row's own for a blank field, is accepted when it is a number, at least 2016 and held by no other row; a rejected edit leaves the ledger unchanged; an accepted one keeps it ascending and swaps the row for one with that year end, that year's ARA from the table (else its own) and the same pay |
| CareLedger.EditedRow | nhs-2015-care/assets/app.js:66-67 | defined as the row with the new year end, the table's ARA for it when present else the row's own, and the same pay |
| CareLedger.EditKeepsOtherRows | nhs-2015-care/assets/app.js:61-67 | an accepted edit keeps the length and every other row, and the edited row carries the new year end |
| CareLedger.InsertBetween | nhs-2015-care/assets/app.js:134-135 | push then sort places a row whose year end lies between rows k-1 and k of an ascending ledger at index k, the other rows keeping their order |
| CareLedger.BlankEditReloadsAra | nhs-2015-care/assets/app.js:62-67 | a blank field re-enters the row's own year end: from 2016 on the row keeps its place and reloads its ARA from the table; before 2016 nothing changes |
| CareLedger.LedgerLastYear | nhs-2015-care/assets/app.js:131 | defined as the last row's year end, or 2025 for an empty ledger or a last year end of 0, which JavaScript's logical or treats as missing |
| CareLedger.NextLedgerYear | nhs-2015-care/assets/app.js:374-375 | defined as one after `LedgerLastYear`; `NextYearIsLatest` states it is after every year |
| CareLedger.NextYearIsLatest | nhs-2015-care/assets/app.js:374-377 | the year "add year" appends is later than every year of an ascending ledger |
| CareLedger.AppendLatest | nhs-2015-care/assets/app.js:377 | appending a row later than every row keeps the ledger ascending |
| CareLedger.SeedAra | nhs-2015-care/assets/app.js:117 | defined as the table's ARA for the year, else the NHS default, else 0; `SeedLedgerYears` states it per year |
| CareLedger.SeedLedger | nhs-2015-care/assets/app.js:115-118 | the seeded list has one zero-pay row per year end 2016 .. F, in order, and none when F < 2016 |
| CareLedger.SeedLedgerYears | nhs-2015-care/assets/app.js:115-118 | a seeded ledger holds a year exactly when it is in 2016 .. F, with ARA from the table, else the NHS default, else 0 |
| CareLedger.SeedRowAt | nhs-2015-care/assets/app.js:117 | the seeded row i is year 2016 + i with its seeded ARA and zero pay |
| CareLedger.DefaultLedgerIsSeeded | nhs-2015-care/assets/app.js:10-15 | the initial ledger is the NHS ARA set seeded to year end 2025 |
| CareLedger.FinalYearEnd | nhs-2015-care/assets/app.js:131 | defined as the retirement date's scheme year end, else `LedgerLastYear`; `NoDateUsesLastRow` covers the second case |
| CareLedger.WithFinalRow | nhs-2015-care/assets/app.js:133-135 | defined as the ledger unchanged when F has a row, else F's zero-pay row inserted in year order; `WithFinalRowShape` states the result |
| CareLedger.WithFinalRowShape | nhs-2015-care/assets/app.js:133-135 | after ensuring the final row the ledger is ascending and holds F; an existing row leaves it unchanged; otherwise exactly one new row is added |
| CareLedger.SynthesisedFinalRowFound | nhs-2015-care/assets/app.js:133-144 | when F has no row, the row the calculation then finds for F is the synthesised one (zero pay, ARA from the table or 0), so F adds an accrual of 0 |
| CareLedger.NoDateUsesLastRow | nhs-2015-care/assets/app.js:131-133 | without a retirement date F is the last row's year end, so no row is added |
| CareCalculator.ParseDateField | nhs-2015-care/assets/app.js:42 | a date is read exactly when the field holds a parseable date |
| CareCalculator.ModeFromSelect | nhs-2015-care/assets/app.js:129 | estimate mode exactly for an empty or "estimate" selection |
| CareCalculator.SeedFinalYear | nhs-2015-care/assets/app.js:106-114 | the seeding end year: the date's scheme year; today's when the field is blank; 2026 when it does not parse |
| CareCalculator.CompoundMultiplier | nhs-2015-care/assets/app.js:148-151 | the loop that pushes the uplifts and the estimate factor, then takes the product, computes the year's multiplier |
| CareCalculator.AuditCompleted | nhs-2015-care/assets/app.js:146-155 | the `forEach` over completed rows builds their audit entries and sums the revalued amounts |
| CareCalculator.FinalEntryAppended | nhs-2015-care/assets/app.js:157-161 | appending the final row's entry completes the audit and adds its accrual to the total |
| CareCalculator.AuditOf | nhs-2015-care/assets/app.js:140-163 | the audit step gives the ledger's audit trail and its total |
| CareCalculator.SeedList | nhs-2015-care/assets/app.js:115-118 | the seeding loop builds the seeded ledger 2016 .. F |
| CareCalculator.CareState.constructor | nhs-2015-care/assets/app.js:22-39 | the initial state: the default ledger; the ARA, ERF and LRF tables as stored when a stored table was read, else the NHS set and `{0: 1.0}`; estimate mode; empty audit |
| CareCalculator.CareState.EditYearEnd | nhs-2015-care/assets/app.js:61-69 | the ledger becomes the year-end edit of the old ledger (a blank field standing for the row's own year end); everything else is unchanged |
| CareCalculator.CareState.SetRowAra | nhs-2015-care/assets/app.js:76 | only that row's ARA changes |
| CareCalculator.CareState.SetRowPay | nhs-2015-care/assets/app.js:82 | only that row's pay changes |
| CareCalculator.CareState.DeleteRow | nhs-2015-care/assets/app.js:91-96 | no change when one row is left; otherwise exactly the indexed row is removed |
| CareCalculator.CareState.AddYear | nhs-2015-care/assets/app.js:372-379 | appends a zero-pay row for the year after the last (ARA from the table or 0), or nothing when that year is before 2016; the ledger stays ascending |
| CareCalculator.CareState.SeedYears | nhs-2015-care/assets/app.js:104-122 | the ledger becomes the seeded list up to the seeding end year |
| CareCalculator.CareState.BuildUnreduced | nhs-2015-care/assets/app.js:125-172 | records the date and mode, ensures the final row, records the audit of the new ledger and returns its total; the tables are unchanged |
| CareCalculator.CareState.AddFinalRow | nhs-2015-care/assets/app.js:131-138 | the ledger gains F's row when missing and stays ascending |
| CareCalculator.CareState.RecordAudit | nhs-2015-care/assets/app.js:140-163 | the recorded audit and total are those of the current ledger |
| CareCalculator.CareState.ApplyRetirementFactors | nhs-2015-care/assets/app.js:218-254 | uses the recorded total, or recalculates it when that is 0. The months are the adjustment for the retirement type. Early and late take their factor by the lookup rule from the ERF and LRF tables, retirement at age takes 1.0, and the result is settled. The three tables are unchanged |
| CareCalculator.CareState.SetAraValue | nhs-2015-care/assets/app.js:273 | only that year's ARA changes |
| CareCalculator.CareState.RenameAraYear | nhs-2015-care/assets/app.js:266-269 | the year end entered, or the row's own for a blank field: NaN or below 2016 changes nothing; otherwise the old key goes and that year end takes the shown rate, so a blank field on a key from 2016 on writes the shown rate back |
| CareCalculator.CareState.DeleteAraYear | nhs-2015-care/assets/app.js:277 | exactly that key is removed |
| CareCalculator.CareState.AraAddYear | nhs-2015-care/assets/app.js:283-288 | a zero rate is added for the largest key + 1, or for 2026 when the table is empty or its largest key is 0; the year added is after every existing key |
| CareCalculator.CareState.AraNhsDefaults | nhs-2015-care/assets/app.js:290 | the ARA table becomes the NHS set |
| CareCalculator.CareState.AraReset | nhs-2015-care/assets/app.js:289 | the ARA table becomes the stored table, or the NHS set without one |
| CareCalculator.CareState.AraImport | nhs-2015-care/assets/app.js:292 | a parsed object replaces the ARA table; anything else leaves it |
| CareCalculator.CareState.RenameFactorMonths | nhs-2015-care/assets/app.js:312-317 | in the chosen table the old key goes and the new key takes the shown factor; the other table is unchanged |
| CareCalculator.CareState.SetFactorValue | nhs-2015-care/assets/app.js:318-322 | only that key of the chosen table changes |
| CareCalculator.CareState.DeleteFactor | nhs-2015-care/assets/app.js:323-327 | exactly that key of the chosen table is removed |
| CareCalculator.CareState.ResetFactors | nhs-2015-care/assets/app.js:416-419 | both factor tables become `{0: 1.0}` |
| CareCsv.HalveDoubled | nhs-2015-care/assets/app.js:388 | doubling the quotes of a value and reading them back as single quotes gives the value |
| CareCsv.DoubleQuotes | nhs-2015-care/assets/app.js:388 | `replaceAll('"', '""')`, never shorter than the value; `HalveDoubled` is its inverse |
| CareCsv.QuoteField | nhs-2015-care/assets/app.js:388 | defined as the quoted, quote-doubled value when it holds a comma, else the value; `QuoteRoundTrip` states when it reads back |
| CareCsv.QuoteRoundTrip | nhs-2015-care/assets/app.js:388 | an exported value reads back unchanged exactly when it holds a comma or is not itself wrapped in quotes |
| CareCsv.QuoteBareExample | nhs-2015-care/assets/app.js:388 | a quoted value without a comma is written bare and reads back without its quotes |
| CareCsv.QuoteCommaExample | nhs-2015-care/assets/app.js:388 | a value with a comma is quoted and its quotes doubled |
| CareCsv.SplitJoin | nhs-2015-care/assets/app.js:388 | strings without the separator split back into themselves after `join` |
| CareCsv.Join | nhs-2015-care/assets/app.js:388 | defined as `join`: one separator between neighbours; `SplitJoin` is its inverse |
| CareCsv.CsvLine | nhs-2015-care/assets/app.js:388 | defined as one row's quoted values joined by commas |
| CareCsv.ExportCsv | nhs-2015-care/assets/app.js:382-388 | defined as the lines joined by newlines; `ExportReadsBack` states that it reads back |
| CareCsv.ExportReadsBack | nhs-2015-care/assets/app.js:382-388 | when no value holds a comma or line break, the export splits into one line per row and each line into the row's values (an empty row into one empty value) |
| ContributionRates.OfficerTypeOf | contribution-rate-checker/assets/app.js:87-93 | D exactly for a new starter; B exactly for multiple posts and not new; C exactly for a material change alone; A when no flag is set |
| ContributionRates.OrZero | contribution-rate-checker/assets/app.js:106-108 | defined as a blank or non-numeric field read as 0 |
| ContributionRates.TieringPay | contribution-rate-checker/assets/app.js:95-98 | types C and D are tiered on the current year's WTE, types A and B on the previous year's |
| ContributionRates.TieringFromFlags | contribution-rate-checker/assets/app.js:87-98 | the current year's WTE is used exactly for a new starter, or a material change without multiple posts |
| ContributionRates.ContractHours | contribution-rate-checker/assets/app.js:108 | defined as the contract hours, with 37.5 when blank or 0 |
| ContributionRates.ComputeWteBasic | contribution-rate-checker/assets/app.js:105-111 | never negative; positive exactly when pay, hours and contract hours (37.5 when blank or 0) are all positive |
| ContributionRates.WteKeepsHourlyRate | contribution-rate-checker/assets/app.js:104-110 | pay per contract hour at WTE equals pay per hour worked |
| ContributionRates.WteAtContractHours | contribution-rate-checker/assets/app.js:105-110 | working the contract hours gives the pay itself; blank contract hours act as 37.5 |
| ContributionRates.FindBandForYear | contribution-rate-checker/assets/app.js:114-119 | no band for a year without a table |
| ContributionRates.FirstBand | contribution-rate-checker/assets/app.js:118 | defined as the first band holding the pay, both limits inclusive; `FirstBandNone` and `FirstBandIsFirst` state this |
| ContributionRates.FirstBandNone | contribution-rate-checker/assets/app.js:118 | no band is found exactly when no band contains the pay, both limits inclusive |
| ContributionRates.FirstBandIsFirst | contribution-rate-checker/assets/app.js:118 | the band found is a table band that contains the pay, and no earlier band does |
| ContributionRates.OrderedBandFound | contribution-rate-checker/assets/app.js:337-338 | in an ordered table, a band that contains the pay is the one found, so the highlighted band is the one used |
| ContributionRates.Bands2023Ordered | contribution-rate-checker/assets/app.js:37-49 | the 2023/24 bands are well formed and in order |
| ContributionRates.Bands2024Ordered | contribution-rate-checker/assets/app.js:50-57 | the 2024/25 bands are well formed and in order |
| ContributionRates.Bands2025Ordered | contribution-rate-checker/assets/app.js:58-65 | the 2025/26 bands are well formed and in order |
| ContributionRates.GapFindsNoBand | contribution-rate-checker/assets/app.js:118 | in an ordered table a pay below the first band, or between one band's upper limit and the next lower limit, finds no band |
| ContributionRates.BaseRatesBounded | contribution-rate-checker/assets/app.js:36-66 | every built-in rate lies between 5.1% and 13.5% |
| ContributionRates.BandLookupExamples | contribution-rate-checker/assets/app.js:38-39 | 0 is in the 5.1% band and 13,247 in the 5.7% band of 2023/24 |
| ContributionRates.NoBandExamples | contribution-rate-checker/assets/app.js:38-39 | 13,246.995 (between 13,246.99 and 13,247) and a negative pay find no 2023/24 band |
| ContributionRates.NoTableExample | contribution-rate-checker/assets/app.js:115-116 | a year without a table finds no band |
| ContributionRates.MergeTables | contribution-rate-checker/assets/app.js:69-80 | the merged years are the union of both key sets; each year has the override's bands when overridden, else the base bands; no override leaves the base |
| ContributionRates.MergeIdempotent | contribution-rate-checker/assets/app.js:80 | merging the same override a second time changes nothing |
| ContributionRates.SchemeYearLabelsAgree | contribution-rate-checker/assets/app.js:26-31 | from year 10 on, the label of a date is "start/yy" for the scheme year holding the date, as the CARE estimator labels it |
| ContributionRates.LabelsDifferBeforeYear10 | contribution-rate-checker/assets/app.js:29 | before year 10 the padded label ("5/06") differs from the CARE estimator's ("5/6") |
| ContributionRates.SchemeYearFromDate | contribution-rate-checker/assets/app.js:26-31 | defined as the "start/yy" label of the scheme year holding the date; `SchemeYearLabelsAgree` ties it to the CARE estimator's label |
| ContributionRates.DefaultYear | contribution-rate-checker/assets/app.js:128-132 | the current scheme year when it has a table; otherwise a year that has one; none only without tables |
| ContributionRates.DefaultIsLatestKey | contribution-rate-checker/assets/app.js:128-131 | when the current scheme year has no table, the default is no earlier in key order than any year with a table |
| ContributionRates.BaseYearsSorted | contribution-rate-checker/assets/app.js:128 | the built-in years sort as 2023/24, 2024/25, 2025/26 |
| ContributionRates.EstimateContribution | contribution-rate-checker/assets/app.js:403-406 | an estimate exactly when there is a band: yearly = annual pay × rate, monthly × 12 = yearly |
| ContributionRates.EstimateMonotone | contribution-rate-checker/assets/app.js:405-406 | at a non-negative rate more pay never costs less, yearly or monthly |
| ContributionRates.CheckContribution | contribution-rate-checker/assets/app.js:375-406 | defined as the tiering pay's band lookup in the chosen year's table and the estimate from it; `CheckShowsEstimateIff` states the result |
| ContributionRates.CheckShowsEstimateIff | contribution-rate-checker/assets/app.js:375-406 | an estimate is shown exactly when the year's table has a band holding the tiering pay; that band holds it, and yearly is annual pay × its rate |

## Left out

- DOM rendering, tabs, event wiring, `localStorage`, `FileReader`, Blob downloads, the
  clipboard, theme, compact mode and embed URLs: these are browser I/O. Stored tables enter the
  constructor and `AraReset` as `Option` parameters, and an imported table enters `AraImport`
  already parsed.
- CareCalculator.CareState.constructor: the stored ledger (`nhs_care_years_v21`) is not read;
  the model starts from the default ledger. A stored ledger may be out of order or hold
  duplicate year ends, which the ascending-ledger invariant excludes.
- `Intl` currency formatting, `toFixed` and `pct`: text formatting of numbers. The CSV export
  takes its values already rendered as strings.
- IEEE-754 floating point, including NaN. A blank or non-numeric field is `None`. Not
  modelled: NaN from `parseFloat` on an ARA, pay or NPA input; a factor-table key written as
  NaN by a month rename; an invalid date of birth, which makes the source's month count NaN.
- `Date` parsing and time zones: a date field is blank, unparseable or a (year, month, day)
  triple, and "today" is a parameter.
- The `recalc()` and `renderCalcRows()` calls that follow each edit. `BuildUnreduced` is its
  own operation, and the ledger is kept ascending as an invariant, which is the order that
  rendering sorts it into.
- CareCalculator.CareState.AddYear: models the push only. The `recalc()` that follows it
  (which can add the final year's row) is a separate `BuildUnreduced` call.
- The ERF and LRF import handlers call `importFactors`, which the file never defines, so
  those handlers are not modelled.
- Row `label` fields: they are derived from `yearEnd` by `yearLabel` and read by nothing.
- Stored override tables whose values are not arrays of bands. A JSON array as the override
  is also not modelled; it is an object to `typeof`.
- ContributionRates.DefaultYear: takes the sorted key list as a parameter. The sort is
  characterised by `SortedKeysOf`; the `Array.prototype.sort` implementation is not
  modelled.
- `LexLe` compares characters as code points. This equals JavaScript's UTF-16 order for the
  ASCII year labels.
- ContributionRates.ComputeWteBasic: `null` and `undefined` inputs become `None`, as a
  non-numeric value does. The JavaScript distinction between a missing property (which gets
  the 37.5 default) and an explicit `0` is not kept, since `|| 37.5` maps both to 37.5.
