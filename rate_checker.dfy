/** The LAS contribution rate checker: the officer type from the three flags, the
    whole-time-equivalent (WTE) pay the band is tiered on, the first-match band lookup in a
    year's rate table, the merge of built-in and override tables, the scheme-year label of
    a date, the default year, and the contribution estimate. Form inputs arrive already read:
    a number field as `Option<real>`, with None for a blank or non-numeric value. */
module ContributionRates {

  import opened Common
  import opened CareRetirement

  // ---------- Officer types ----------

  datatype OfficerFlags = OfficerFlags(isNewStarter: bool, hasMultiplePosts: bool, hasMaterialChange: bool)

  /** A: standard; B: multiple employments; C: material change of at least 12 months;
      D: new starter in the scheme year. */
  datatype OfficerType = A | B | C | D

  /** `getOfficerType`: the flags are read in a fixed priority, new starter first, then
      multiple posts, then material change. */
  function OfficerTypeOf(f: OfficerFlags): (t: OfficerType)
    ensures t == D <==> f.isNewStarter
    ensures t == B <==> !f.isNewStarter && f.hasMultiplePosts
    ensures t == C <==> !f.isNewStarter && !f.hasMultiplePosts && f.hasMaterialChange
    ensures t == A <==> !f.isNewStarter && !f.hasMultiplePosts && !f.hasMaterialChange
  {
    if f.isNewStarter then D
    else if f.hasMultiplePosts then B
    else if f.hasMaterialChange then C
    else A
  }

  /** `+field || 0`: a blank or non-numeric number field counts as 0. */
  function OrZero(x: Option<real>): real {
    x.GetOr(0.0)
  }

  /** `getTieringPay`: types C and D are tiered on the current year's WTE pay, types A and
      B on the previous year's. */
  function TieringPay(t: OfficerType, prevYearWte: real, currentYearWte: real): (p: real)
    ensures t == C || t == D ==> p == currentYearWte
    ensures t == A || t == B ==> p == prevYearWte
  {
    if t == C || t == D then currentYearWte else prevYearWte
  }

  /** The flags decide the WTE figure: the current year's exactly for a new starter, or for
      a material change without multiple posts (multiple posts outrank a material change). */
  lemma TieringFromFlags(f: OfficerFlags, prevYearWte: real, currentYearWte: real)
    ensures TieringPay(OfficerTypeOf(f), prevYearWte, currentYearWte)
         == if f.isNewStarter || (f.hasMaterialChange && !f.hasMultiplePosts) then currentYearWte else prevYearWte
  {
  }

  // ---------- WTE helper ----------

  /** The contract hours used: 37.5 when the field is blank or 0. */
  function ContractHours(contract: Option<real>): real {
    if contract.None? || contract.value == 0.0 then 37.5 else contract.value
  }

  /** `computeWTEBasic`: pay at your hours scaled to the contract hours, 0 unless the pay,
      your hours and the contract hours are all positive. */
  function ComputeWteBasic(annualAtYourHours: Option<real>, yourHours: Option<real>, contract: Option<real>): (w: real)
    ensures w >= 0.0
    ensures w > 0.0 <==> OrZero(annualAtYourHours) > 0.0 && OrZero(yourHours) > 0.0 && ContractHours(contract) > 0.0
  {
    var a := OrZero(annualAtYourHours);
    var h := OrZero(yourHours);
    var c := ContractHours(contract);
    if a <= 0.0 || h <= 0.0 || c <= 0.0 then 0.0 else a * (c / h)
  }

  /** The WTE figure keeps the hourly rate: pay per contract hour at WTE is pay per hour
      worked. */
  lemma WteKeepsHourlyRate(a: real, h: real, c: real)
    requires a > 0.0 && h > 0.0 && c > 0.0
    ensures ComputeWteBasic(Some(a), Some(h), Some(c)) / c == a / h
  {
    var w := a * (c / h);
    assert w == (a / h) * c;
  }

  /** Working the contract hours makes the WTE figure the pay itself, and a blank contract
      field means 37.5 hours. */
  lemma WteAtContractHours(a: real, h: real)
    requires a > 0.0 && h > 0.0
    ensures ComputeWteBasic(Some(a), Some(h), Some(h)) == a
    ensures ComputeWteBasic(Some(a), Some(h), None) == ComputeWteBasic(Some(a), Some(h), Some(37.5))
  {
  }

  // ---------- Bands ----------

  /** A contribution band: inclusive lower and upper limits of WTE pay, and the member rate. */
  datatype Band = Band(lower: real, upper: real, rate: real)

  /** The band test of `findBandForYear` and of the band table's highlight: both limits
      inclusive. */
  predicate InBand(b: Band, pay: real) {
    b.lower <= pay <= b.upper
  }

  /** `table.find(...) || null`: the first band, in table order, that contains the pay. */
  function FirstBand(bands: seq<Band>, pay: real): Option<Band> {
    if bands == [] then None
    else if InBand(bands[0], pay) then Some(bands[0])
    else FirstBand(bands[1..], pay)
  }

  /** `findBandForYear`: no band when the year has no table, else the first band that holds
      the pay. */
  function FindBandForYear(tables: map<string, seq<Band>>, year: string, pay: real): (r: Option<Band>)
    ensures year !in tables ==> r == None
  {
    if year !in tables then None else FirstBand(tables[year], pay)
  }

  /** No band is found exactly when no band of the table contains the pay. */
  lemma {:induction false} FirstBandNone(bands: seq<Band>, pay: real)
    ensures FirstBand(bands, pay).None? <==> forall i :: 0 <= i < |bands| ==> !InBand(bands[i], pay)
  {
    if bands != [] {
      FirstBandNone(bands[1..], pay);
      if !InBand(bands[0], pay) {
        forall i | 0 < i < |bands| ensures bands[i] == bands[1..][i - 1] { }
      }
    }
  }

  /** The band found is a band of the table that contains the pay, and no band before it
      does. */
  lemma {:induction false} FirstBandIsFirst(bands: seq<Band>, pay: real)
    requires FirstBand(bands, pay).Some?
    ensures exists i :: 0 <= i < |bands| && bands[i] == FirstBand(bands, pay).value
              && InBand(bands[i], pay) && forall j :: 0 <= j < i ==> !InBand(bands[j], pay)
  {
    if !InBand(bands[0], pay) {
      FirstBandIsFirst(bands[1..], pay);
      var i :| 0 <= i < |bands[1..]| && bands[1..][i] == FirstBand(bands[1..], pay).value
               && InBand(bands[1..][i], pay) && forall j :: 0 <= j < i ==> !InBand(bands[1..][j], pay);
      assert bands[i + 1] == bands[1..][i];
      forall j | 0 <= j < i + 1 ensures !InBand(bands[j], pay) {
        if j > 0 { assert bands[j] == bands[1..][j - 1]; }
      }
    }
  }

  /** The bands are well formed and in order: each band's limits are in order and every
      band ends below the next one's lower limit. */
  predicate OrderedBands(bands: seq<Band>) {
    && (forall i :: 0 <= i < |bands| ==> bands[i].lower <= bands[i].upper)
    && (forall i, j :: 0 <= i < j < |bands| ==> bands[i].upper < bands[j].lower)
  }

  /** In an ordered table the band that contains the pay is the one found, so at most one
      band of the table is highlighted. */
  lemma OrderedBandFound(bands: seq<Band>, pay: real, i: int)
    requires OrderedBands(bands) && 0 <= i < |bands| && InBand(bands[i], pay)
    ensures FirstBand(bands, pay) == Some(bands[i])
  {
    FirstBandNone(bands, pay);
    FirstBandIsFirst(bands, pay);
    var k :| 0 <= k < |bands| && bands[k] == FirstBand(bands, pay).value
             && InBand(bands[k], pay) && forall j :: 0 <= j < k ==> !InBand(bands[j], pay);
    assert k == i;
  }

  // ---------- Rate tables ----------

  const Bands2023: seq<Band> := [
    Band(0.0, 13246.99, 0.051), Band(13247.0, 17673.99, 0.057), Band(17674.0, 24022.99, 0.061),
    Band(24023.0, 25146.99, 0.068), Band(25147.0, 29635.99, 0.077), Band(29636.0, 30638.99, 0.088),
    Band(30639.0, 45996.99, 0.098), Band(45997.0, 51708.99, 0.100), Band(51709.0, 58972.99, 0.116),
    Band(58973.0, 75632.99, 0.125), Band(75633.0, 999999.99, 0.135)]

  const Bands2024: seq<Band> := [
    Band(0.0, 13259.99, 0.052), Band(13260.0, 27288.99, 0.065), Band(27289.0, 33247.99, 0.083),
    Band(33248.0, 49913.99, 0.098), Band(49914.0, 63994.99, 0.107), Band(63995.0, 9999999.99, 0.125)]

  const Bands2025: seq<Band> := [
    Band(0.0, 13259.99, 0.052), Band(13260.0, 27797.99, 0.065), Band(27798.0, 33868.99, 0.083),
    Band(33869.0, 50845.99, 0.098), Band(50846.0, 65190.99, 0.107), Band(65191.0, 9999999.99, 0.125)]

  /** `RATE_TABLES_BASE`: the preloaded tables, by scheme-year label. */
  const RateTablesBase: map<string, seq<Band>> := map["2023/24" := Bands2023, "2024/25" := Bands2024, "2025/26" := Bands2025]

  /** Every preloaded table is ordered, so its lookup finds the one band that holds the pay. */
  lemma Bands2023Ordered()
    ensures OrderedBands(Bands2023)
  {
  }

  lemma Bands2024Ordered()
    ensures OrderedBands(Bands2024)
  {
  }

  lemma Bands2025Ordered()
    ensures OrderedBands(Bands2025)
  {
  }

  /** In an ordered table a pay below the first band, or strictly between one band's upper
      limit and the next band's lower limit, finds no band. */
  lemma GapFindsNoBand(bands: seq<Band>, pay: real)
    requires OrderedBands(bands) && |bands| > 0
    requires pay < bands[0].lower || exists k :: 0 <= k < |bands| - 1 && bands[k].upper < pay < bands[k + 1].lower
    ensures FirstBand(bands, pay) == None
  {
    forall i | 0 <= i < |bands| ensures !InBand(bands[i], pay) {
      if pay >= bands[0].lower {
        var k :| 0 <= k < |bands| - 1 && bands[k].upper < pay < bands[k + 1].lower;
        if i < k {
          assert bands[i].upper < bands[k].lower;
        } else if k + 1 < i {
          assert bands[k + 1].upper < bands[i].lower;
        }
      } else if 0 < i {
        assert bands[0].upper < bands[i].lower;
      }
    }
    FirstBandNone(bands, pay);
  }

  /** Preloaded rates lie between 5.1% and 13.5%. */
  lemma BaseRatesBounded(year: string, i: int)
    requires year in RateTablesBase && 0 <= i < |RateTablesBase[year]|
    ensures 0.051 <= RateTablesBase[year][i].rate <= 0.135
  {
  }

  /** Worked lookups in the 2023/24 table: the lowest pay, and the first pay of the second
      band. */
  lemma BandLookupExamples()
    ensures FindBandForYear(RateTablesBase, "2023/24", 0.0) == Some(Band(0.0, 13246.99, 0.051))
    ensures FindBandForYear(RateTablesBase, "2023/24", 13247.0) == Some(Band(13247.0, 17673.99, 0.057))
  {
    assert RateTablesBase["2023/24"] == Bands2023;
    assert InBand(Bands2023[1], 13247.0);
    OrderedBandFound(Bands2023, 13247.0, 1);
  }

  /** A pay in the gap between one band's upper limit (x.99) and the next lower limit, or
      below the first band, finds no band. */
  lemma NoBandExamples()
    ensures FirstBand(Bands2023, 13246.995) == None
    ensures FirstBand(Bands2023, -1.0) == None
  {
    Bands2023Ordered();
    assert Bands2023[0].upper < 13246.995 < Bands2023[1].lower;
    GapFindsNoBand(Bands2023, 13246.995);
    GapFindsNoBand(Bands2023, -1.0);
  }

  /** A year with no table finds no band, and the preloaded 2023/24 table is the one the gap
      examples search. */
  lemma NoTableExample()
    ensures FindBandForYear(RateTablesBase, "2022/23", 30000.0) == None
    ensures FindBandForYear(RateTablesBase, "2023/24", 13246.995) == FirstBand(Bands2023, 13246.995)
  {
  }

  /** `loadRateOverrides` then `{ ...RATE_TABLES_BASE, ...overrides }`: no override (nothing
      stored, or what is stored does not parse to an object) leaves the base tables; an
      override year replaces the base year's bands. */
  function MergeTables(base: map<string, seq<Band>>, overrides: Option<map<string, seq<Band>>>): (r: map<string, seq<Band>>)
    ensures r.Keys == base.Keys + (if overrides.Some? then overrides.value.Keys else {})
    ensures forall y :: y in r ==> r[y] == if overrides.Some? && y in overrides.value then overrides.value[y] else base[y]
  {
    base + overrides.GetOr(map[])
  }

  /** Merging twice with the same override changes nothing more. */
  lemma MergeIdempotent(base: map<string, seq<Band>>, overrides: map<string, seq<Band>>)
    ensures MergeTables(MergeTables(base, Some(overrides)), Some(overrides)) == MergeTables(base, Some(overrides))
  {
  }

  // ---------- Scheme year label ----------

  /** `schemeYearFromDate`: from April, "y/" and the next year's last two digits; before
      April, "(y-1)/" and this year's; the remainder is JavaScript's and the digits are
      padded to two. */
  function SchemeYearFromDate(d: Date): string {
    if d.month >= 4 then IntString(d.year) + "/" + PadStart2(IntString(JsRem(d.year + 1, 100)))
    else IntString(d.year - 1) + "/" + PadStart2(IntString(JsRem(d.year, 100)))
  }

  lemma {:induction false} EndYearDigits(e: int)
    requires e >= 10
    ensures PadStart2(IntString(JsRem(e, 100))) == SliceLast2(IntString(e))
  {
    LastTwoDigits(e);
    assert IntString(e % 100) == NatString(e % 100);
  }

  /** From year 10 on, the rate checker's label of a date is the CARE estimator's label of
      the scheme year the date falls in: the start year is one less than the end year, and
      the end year's last two digits follow the slash. */
  lemma {:induction false} SchemeYearLabelsAgree(d: Date)
    requires d.year >= 10
    ensures SchemeYearFromDate(d) == YearLabel(SchemeYearEndForDate(d))
  {
    EndYearDigits(SchemeYearEndForDate(d));
  }

  /** Before year 10 the two labels part: the rate checker pads the end year to two digits,
      the CARE estimator's `slice(-2)` does not. */
  lemma LabelsDifferBeforeYear10()
    ensures SchemeYearFromDate(Date(5, 4, 1)) == "5/06"
    ensures YearLabel(SchemeYearEndForDate(Date(5, 4, 1))) == "5/6"
  {
    assert NatString(5) == "5";
    assert NatString(6) == "6";
  }

  // ---------- Default year ----------

  /** Lexicographic order of strings, as `Array.prototype.sort` compares keys (character by
      character, a prefix first). */
  predicate LexLe(a: string, b: string)
    decreases |a|
  {
    a == [] || (b != [] && (a[0] < b[0] || (a[0] == b[0] && LexLe(a[1..], b[1..]))))
  }

  /** `years`, the key list of the select: the table keys, each once, in sorted order. */
  ghost predicate SortedKeysOf(tables: map<string, seq<Band>>, years: seq<string>) {
    && (forall i, j :: 0 <= i < j < |years| ==> LexLe(years[i], years[j]) && years[i] != years[j])
    && (forall y :: y in tables <==> y in years)
  }

  /** The default year: the current scheme year when it has a table, otherwise the last key;
      no year at all when there are no tables. */
  function DefaultYear(years: seq<string>, current: string): (r: Option<string>)
    ensures r.Some? ==> r.value in years
    ensures current in years ==> r == Some(current)
    ensures r.None? <==> years == []
  {
    if current in years then Some(current)
    else if years == [] then None
    else Some(years[|years| - 1])
  }

  /** When the current scheme year has no table, the default is the latest year in key
      order, which is no earlier than any key. */
  lemma DefaultIsLatestKey(tables: map<string, seq<Band>>, years: seq<string>, current: string, y: string)
    requires SortedKeysOf(tables, years) && current !in tables && y in tables
    ensures DefaultYear(years, current).Some?
    ensures LexLe(y, DefaultYear(years, current).value)
  {
    var i :| 0 <= i < |years| && years[i] == y;
    if i < |years| - 1 {
      assert LexLe(years[i], years[|years| - 1]);
    } else {
      LexLeReflexive(y);
    }
  }

  lemma {:induction false} LexLeReflexive(a: string)
    ensures LexLe(a, a)
    decreases |a|
  {
    if a != [] {
      LexLeReflexive(a[1..]);
    }
  }

  /** The preloaded keys in sorted order. */
  lemma BaseYearsSorted()
    ensures SortedKeysOf(RateTablesBase, ["2023/24", "2024/25", "2025/26"])
  {
    var y := ["2023/24", "2024/25", "2025/26"];
    assert LexLe(y[0], y[1]) by {
      assert y[0][..3] == y[1][..3];
      assert y[0][3] < y[1][3];
    }
  }

  // ---------- Contribution estimate ----------

  datatype Contribution = Contribution(yearly: real, monthly: real)

  /** The estimate from annual pensionable pay: yearly pay times the band's rate, monthly a
      twelfth of that; none without a band. */
  function EstimateContribution(annualPay: Option<real>, band: Option<Band>): (r: Option<Contribution>)
    ensures r.Some? <==> band.Some?
    ensures r.Some? ==> r.value.yearly == OrZero(annualPay) * band.value.rate
    ensures r.Some? ==> r.value.monthly * 12.0 == r.value.yearly
  {
    match band
    case None => None
    case Some(b) =>
      var yearly := OrZero(annualPay) * b.rate;
      Some(Contribution(yearly, yearly / 12.0))
  }

  /** At a non-negative rate, more pay never costs less. */
  lemma EstimateMonotone(p1: real, p2: real, b: Band)
    requires p1 <= p2 && b.rate >= 0.0
    ensures EstimateContribution(Some(p1), Some(b)).value.yearly <= EstimateContribution(Some(p2), Some(b)).value.yearly
    ensures EstimateContribution(Some(p1), Some(b)).value.monthly <= EstimateContribution(Some(p2), Some(b)).value.monthly
  {
    assert p1 * b.rate <= p2 * b.rate;
  }

  /** What `calculateAndRender` shows: without a band only the officer type and the tiering
      pay, with one the band and the estimate. */
  datatype CheckResult =
    | NoBand(officer: OfficerType, tieringPay: real)
    | Estimated(officer: OfficerType, tieringPay: real, band: Band, contribution: Contribution)

  function CheckContribution(tables: map<string, seq<Band>>, year: string, flags: OfficerFlags,
                             prevWte: Option<real>, currWte: Option<real>, annualPay: Option<real>): CheckResult
  {
    var officer := OfficerTypeOf(flags);
    var tiering := TieringPay(officer, OrZero(prevWte), OrZero(currWte));
    match FindBandForYear(tables, year, tiering)
    case None => NoBand(officer, tiering)
    case Some(b) => Estimated(officer, tiering, b, EstimateContribution(annualPay, Some(b)).value)
  }

  /** An estimate is shown exactly when the year has a table with a band that holds the
      tiering pay; the band shown holds it, and the estimate is the annual pay at its rate. */
  lemma CheckShowsEstimateIff(tables: map<string, seq<Band>>, year: string, flags: OfficerFlags,
                              prevWte: Option<real>, currWte: Option<real>, annualPay: Option<real>)
    ensures var r := CheckContribution(tables, year, flags, prevWte, currWte, annualPay);
      && (r.Estimated? <==> year in tables && exists i :: 0 <= i < |tables[year]| && InBand(tables[year][i], r.tieringPay))
      && (r.Estimated? ==> InBand(r.band, r.tieringPay) && r.contribution.yearly == OrZero(annualPay) * r.band.rate)
  {
    var r := CheckContribution(tables, year, flags, prevWte, currWte, annualPay);
    if year in tables {
      FirstBandNone(tables[year], r.tieringPay);
      if r.Estimated? {
        FirstBandIsFirst(tables[year], r.tieringPay);
      }
    }
  }
}
