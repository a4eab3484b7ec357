/** The retirement-side arithmetic of the CARE estimator: the scheme year a date falls in and
    its label, whole months between two dates, the month adjustment for early or late
    retirement (less any bought-out years), and commuting pension for a lump sum. */
module CareRetirement {

  import opened Common

  /** `schemeYearEndForDate`: a scheme year runs from 1 April to 31 March and is named by the
      calendar year in which it ends. */
  function SchemeYearEndForDate(d: Date): (y: int)
    ensures y == d.year || y == d.year + 1
  {
    if d.month >= 4 then d.year + 1 else d.year
  }

  /** A date falls in the scheme year ending 31 March y, and in no other. */
  lemma SchemeYearContainsDate(d: Date, y: int)
    requires ValidDate(d)
    ensures y == SchemeYearEndForDate(d) <==> DateLe(Date(y - 1, 4, 1), d) && DateLe(d, Date(y, 3, 31))
  {
  }

  /** A later date never falls in an earlier scheme year. */
  lemma SchemeYearMonotone(a: Date, b: Date)
    requires DateLe(a, b)
    ensures SchemeYearEndForDate(a) <= SchemeYearEndForDate(b)
  {
  }

  /** `yearLabel`: the scheme year ending in yEnd, written "start/yy". */
  function YearLabel(yEnd: int): string {
    IntString(yEnd - 1) + "/" + SliceLast2(IntString(yEnd))
  }

  /** From year end 10 on, the label is the start year, a slash, and the two last digits of
      the end year, a leading zero kept. */
  lemma {:induction false} YearLabelDigits(yEnd: int)
    requires yEnd >= 10
    ensures YearLabel(yEnd) == NatString(yEnd - 1) + "/" + [Digit((yEnd % 100) / 10), Digit(yEnd % 10)]
  {
    LastTwoDigits(yEnd);
    PaddedRendering(yEnd % 100);
    LastTwoDigitsArithmetic(yEnd);
  }

  /** A month count on a single time line: the months since year 0. */
  function MonthIndex(d: Date): int {
    d.year * 12 + (d.month - 1)
  }

  /** `monthsBetween`: calendar months from d1 to d2, one less when d2's day of the month is
      before d1's. */
  function MonthsBetween(d1: Date, d2: Date): int {
    var months := (d2.year - d1.year) * 12 + (d2.month - d1.month);
    if d2.day < d1.day then months - 1 else months
  }

  /** The n-month anniversary of `from` (same day of the month, n months on) is not after
      `to`. */
  predicate AnniversaryReached(from: Date, to: Date, n: int) {
    var a := MonthIndex(from) + n;
    a < MonthIndex(to) || (a == MonthIndex(to) && from.day <= to.day)
  }

  /** n whole months lie between the dates: the n-month anniversary is reached and the
      (n+1)-month one is not. */
  predicate WholeMonths(from: Date, to: Date, n: int) {
    AnniversaryReached(from, to, n) && !AnniversaryReached(from, to, n + 1)
  }

  /** `monthsBetween` counts the whole months between two dates, and that count is unique. */
  lemma MonthsBetweenCountsWholeMonths(d1: Date, d2: Date, n: int)
    ensures WholeMonths(d1, d2, MonthsBetween(d1, d2))
    ensures WholeMonths(d1, d2, n) ==> n == MonthsBetween(d1, d2)
  {
  }

  lemma MonthsBetweenSelf(d: Date)
    ensures MonthsBetween(d, d) == 0
  {
  }

  /** A later end date never counts fewer months. */
  lemma MonthsBetweenMonotone(d1: Date, a: Date, b: Date)
    requires ValidDate(a) && ValidDate(b) && DateLe(a, b)
    ensures MonthsBetween(d1, a) <= MonthsBetween(d1, b)
  {
  }

  /** `Math.round(npaAge * 12) - monthsBetween(dob, retDate)`: months short of Normal Pension
      Age at the retirement date (negative when beyond it); 0 with no date of birth. */
  function MonthsFromNpa(dob: Option<Date>, retDate: Date, npaAge: real): int {
    match dob
    case None => 0
    case Some(birth) => Round(npaAge * 12.0) - MonthsBetween(birth, retDate)
  }

  /** Retiring on or after the date on which Normal Pension Age (rounded to whole months) is
      reached leaves no months short of it, and retiring before leaves some. */
  lemma NpaReachedMeansNoShortfall(birth: Date, retDate: Date, npaAge: real)
    ensures MonthsFromNpa(Some(birth), retDate, npaAge) <= 0
        <==> AnniversaryReached(birth, retDate, Round(npaAge * 12.0))
  {
    var n := Round(npaAge * 12.0);
    MonthsBetweenCountsWholeMonths(birth, retDate, n);
  }

  /** The buy-out (ERRBO) years clamped into [0, 3], rounded to months. */
  function ErrboMonths(years: real): (r: int)
    ensures 0 <= r <= 36
    ensures 0.0 <= years <= 3.0 ==> r == Round(years * 12.0)
  {
    Round(RealMax(0.0, RealMin(3.0, years)) * 12.0)
  }

  lemma RoundMonotone(x: real, y: real)
    requires x <= y
    ensures Round(x) <= Round(y)
  {
    assert (x + 0.5).Floor as real <= x + 0.5 <= y + 0.5 < (y + 0.5).Floor as real + 1.0;
  }

  /** Buying out more years never buys out fewer months. */
  lemma ErrboMonotone(x: real, y: real)
    requires x <= y
    ensures ErrboMonths(x) <= ErrboMonths(y)
  {
    RoundMonotone(RealMax(0.0, RealMin(3.0, x)) * 12.0, RealMax(0.0, RealMin(3.0, y)) * 12.0);
  }

  /** `retType`: `early` and `late` pick a factor table; any other value is retirement at
      Normal Pension Age. */
  datatype RetirementType = AtAge | Early | Late

  function RetirementTypeFromSelect(s: string): (t: RetirementType)
    ensures t == Early <==> s == "early"
    ensures t == Late <==> s == "late"
  {
    if s == "early" then Early else if s == "late" then Late else AtAge
  }

  /** The months the factor is looked up for: early retirement counts the months short of
      Normal Pension Age less the bought-out months, late retirement the months beyond it,
      retirement at age none. */
  function MonthsAdjustment(t: RetirementType, monthsToNpa: int, errboMonths: int): (r: int)
    ensures r >= 0
  {
    match t
    case Early => Max(0, Max(0, monthsToNpa) - errboMonths)
    case Late => Max(0, -monthsToNpa)
    case AtAge => 0
  }

  /** Early retirement is never adjusted for more months than it falls short of Normal
      Pension Age, and not at all once that age is reached; late retirement is not adjusted
      before it. */
  lemma AdjustmentOnlyOnTheRightSide(monthsToNpa: int, errboMonths: int)
    requires errboMonths >= 0
    ensures MonthsAdjustment(Early, monthsToNpa, errboMonths) <= Max(0, monthsToNpa)
    ensures monthsToNpa <= 0 ==> MonthsAdjustment(Early, monthsToNpa, errboMonths) == 0
    ensures monthsToNpa >= 0 ==> MonthsAdjustment(Late, monthsToNpa, errboMonths) == 0
    ensures monthsToNpa <= 0 ==> MonthsAdjustment(Late, monthsToNpa, errboMonths) == -monthsToNpa
  {
  }

  /** Each bought-out month removes at most one month of early-retirement adjustment, and
      more buy-out never increases it. */
  lemma BuyOutReducesEarlyMonths(monthsToNpa: int, e1: int, e2: int)
    requires 0 <= e1 <= e2
    ensures MonthsAdjustment(Early, monthsToNpa, e2) <= MonthsAdjustment(Early, monthsToNpa, e1)
    ensures MonthsAdjustment(Early, monthsToNpa, e1) - MonthsAdjustment(Early, monthsToNpa, e2) <= e2 - e1
  {
  }

  /** The figures of one retirement calculation after the factor is applied. */
  datatype Settlement = Settlement(afterFactor: real, commute: real, lump: real, payable: real)

  /** Commutation: the pension given up is the request clamped into [0, afterFactor] (0 when
      afterFactor is negative), the lump sum is 12 times it, and the rest is payable. */
  function Settle(unreduced: real, factor: real, requested: real): (s: Settlement)
    ensures s.afterFactor == unreduced * factor
    ensures s.commute >= 0.0
    ensures s.afterFactor >= 0.0 ==> s.commute <= s.afterFactor
    ensures s.afterFactor < 0.0 ==> s.commute == 0.0
    ensures 0.0 <= requested <= s.afterFactor ==> s.commute == requested
    ensures s.lump == 12.0 * s.commute
    ensures s.payable + s.commute == s.afterFactor
    ensures s.afterFactor >= 0.0 ==> s.payable >= 0.0
  {
    var afterFactor := unreduced * factor;
    var commute := RealMax(0.0, RealMin(requested, afterFactor));
    Settlement(afterFactor, commute, commute * 12.0, afterFactor - commute)
  }

  function Distance(a: real, b: real): real {
    if a < b then b - a else a - b
  }

  /** When the pension after the factor is not negative, the commuted amount is the point of
      [0, afterFactor] nearest to the request. */
  lemma CommuteIsNearestAllowed(unreduced: real, factor: real, requested: real, x: real)
    requires unreduced * factor >= 0.0
    requires 0.0 <= x <= unreduced * factor
    ensures Distance(Settle(unreduced, factor, requested).commute, requested) <= Distance(x, requested)
  {
  }

  /** Re-requesting the amount that was commuted commutes it again. */
  lemma SettleIdempotent(unreduced: real, factor: real, requested: real)
    ensures var c := Settle(unreduced, factor, requested).commute;
      Settle(unreduced, factor, c) == Settle(unreduced, factor, requested)
  {
  }

  /** The worked example: a pension of 10,000 after the factor, 2,500 of it commuted, pays a
      lump sum of 30,000 and 7,500 a year; asking to commute more than there is commutes
      it all. */
  lemma CommutationExample()
    ensures Settle(10000.0, 1.0, 2500.0) == Settlement(10000.0, 2500.0, 30000.0, 7500.0)
    ensures Settle(8000.0, 0.5, 9000.0) == Settlement(4000.0, 4000.0, 48000.0, 0.0)
  {
  }
}
