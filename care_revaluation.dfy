/** The pot-by-pot revaluation of the CARE estimator: each completed scheme year's accrual
    (pay / 54) is uplifted by `1 + ARA` for every later completed year up to, but not
    including, the final scheme year F; in estimate mode by F's own rate as well. The final
    (part) year is added unrevalued. These are the specification functions that the
    calculator's `BuildUnreduced` method is proved against, with their properties. */
module CareRevaluation {

  import opened Common
  import opened CareTables

  /** One row of the ledger: `{yearEnd, ara, pay}` (the label is derived from `yearEnd`). */
  datatype Row = Row(yearEnd: int, ara: real, pay: real)

  /** `estimate` applies the final year's ARA to every completed year; anything else is `actual`. */
  datatype Mode = Actual | Estimate

  /** One line of the audit trail; `partYear` marks the final row's entry. */
  datatype AuditEntry = AuditEntry(yearEnd: int, accrual: real, multiplier: real, revalued: real, partYear: bool)

  /** A year's pension accrual at the scheme's fixed rate of 1/54th of pensionable pay. */
  function Accrual(pay: real): (a: real)
    ensures a * 54.0 == pay
  {
    pay / 54.0
  }

  /** The ledger order every edit of the tool leaves behind: year ends strictly ascending
      (so also distinct). */
  predicate Ascending(years: seq<Row>) {
    forall i, j :: 0 <= i < j < |years| ==> years[i].yearEnd < years[j].yearEnd
  }

  predicate HasYear(years: seq<Row>, y: int) {
    exists i :: 0 <= i < |years| && years[i].yearEnd == y
  }

  /** `product`: `arr.reduce((a, b) => a * b, 1)`, folding from the left. */
  function Product(s: seq<real>): real {
    if s == [] then 1.0 else Product(s[..|s| - 1]) * s[|s| - 1]
  }

  lemma {:induction false} ProductConcat(a: seq<real>, b: seq<real>)
    ensures Product(a + b) == Product(a) * Product(b)
    decreases |b|
  {
    if b != [] {
      var b' := b[..|b| - 1];
      assert (a + b)[..|a + b| - 1] == a + b';
      ProductConcat(a, b');
      assert Product(a + b) == Product(a + b') * b[|b| - 1];
    } else {
      assert a + b == a;
    }
  }

  /** `1 + (araTable[t] ?? 0)`: the uplift of scheme year t. */
  function Uplift(table: map<int, real>, t: int): real {
    1.0 + Ara(table, t)
  }

  /** The uplifts of the years t = lo, lo+1, ..., hi, in that order. */
  function Uplifts(table: map<int, real>, lo: int, hi: int): (s: seq<real>)
    ensures |s| == Max(0, hi - lo + 1)
    decreases hi - lo
  {
    if hi < lo then [] else Uplifts(table, lo, hi - 1) + [Uplift(table, hi)]
  }

  /** The uplifts are also built by taking the first year off the front. */
  lemma {:induction false} UpliftsFront(table: map<int, real>, lo: int, hi: int)
    requires lo <= hi
    ensures Uplifts(table, lo, hi) == [Uplift(table, lo)] + Uplifts(table, lo + 1, hi)
    decreases hi - lo
  {
    if lo < hi {
      UpliftsFront(table, lo, hi - 1);
      assert Uplifts(table, lo, hi) == ([Uplift(table, lo)] + Uplifts(table, lo + 1, hi - 1)) + [Uplift(table, hi)];
    }
  }

  /** The multipliers pushed for a completed year y when the final scheme year is F: the
      uplifts of y+1 .. F-1, then, in estimate mode, the uplift of F itself. */
  function MultiplierFactors(table: map<int, real>, y: int, finalYear: int, mode: Mode): seq<real> {
    Uplifts(table, y + 1, finalYear - 1) + (if mode == Estimate then [Uplift(table, finalYear)] else [])
  }

  /** The compound multiplier of year y, as a forward recurrence: y's slice is uplifted by
      the next year's rate and then by whatever uplifts the next year's slice; the year before
      F is uplifted by nothing (actual) or by F's own rate (estimate). */
  function Multiplier(table: map<int, real>, y: int, finalYear: int, mode: Mode): real
    decreases finalYear - y
  {
    if y + 1 <= finalYear - 1 then Uplift(table, y + 1) * Multiplier(table, y + 1, finalYear, mode)
    else if mode == Estimate then Uplift(table, finalYear)
    else 1.0
  }

  lemma {:induction false} ProductCons(a: real, s: seq<real>)
    ensures Product([a] + s) == a * Product(s)
  {
    assert [a][..0] == [];
    ProductConcat([a], s);
  }

  lemma {:induction false} FactorsCons(table: map<int, real>, y: int, finalYear: int, mode: Mode)
    requires y + 1 <= finalYear - 1
    ensures MultiplierFactors(table, y, finalYear, mode)
         == [Uplift(table, y + 1)] + MultiplierFactors(table, y + 1, finalYear, mode)
  {
    UpliftsFront(table, y + 1, finalYear - 1);
  }

  /** Past the last completed year nothing but the estimate-mode factor is pushed. */
  lemma {:induction false} FactorsBase(table: map<int, real>, y: int, finalYear: int, mode: Mode)
    requires finalYear - 1 < y + 1
    ensures MultiplierFactors(table, y, finalYear, mode) == if mode == Estimate then [Uplift(table, finalYear)] else []
  {
  }

  lemma {:induction false} ProductSingleton(a: real)
    ensures Product([a]) == a
  {
    assert [a][..0] == [];
  }

  lemma MultiplierStep(table: map<int, real>, y: int, finalYear: int, mode: Mode)
    requires y + 1 <= finalYear - 1
    ensures Multiplier(table, y, finalYear, mode) == Uplift(table, y + 1) * Multiplier(table, y + 1, finalYear, mode)
  {
  }

  /** One year earlier, one more uplift at the front of both the pushed factors and the
      recurrence. */
  lemma {:induction false} ProductStep(table: map<int, real>, y: int, finalYear: int, mode: Mode)
    requires y + 1 <= finalYear - 1
    requires Product(MultiplierFactors(table, y + 1, finalYear, mode)) == Multiplier(table, y + 1, finalYear, mode)
    ensures Product(MultiplierFactors(table, y, finalYear, mode)) == Multiplier(table, y, finalYear, mode)
  {
    var u := Uplift(table, y + 1);
    var rest := MultiplierFactors(table, y + 1, finalYear, mode);
    calc {
      Product(MultiplierFactors(table, y, finalYear, mode));
      { FactorsCons(table, y, finalYear, mode); }
      Product([u] + rest);
      { ProductCons(u, rest); }
      u * Product(rest);
      u * Multiplier(table, y + 1, finalYear, mode);
      { MultiplierStep(table, y, finalYear, mode); }
      Multiplier(table, y, finalYear, mode);
    }
  }

  lemma {:induction false} ProductBase(table: map<int, real>, y: int, finalYear: int, mode: Mode)
    requires finalYear - 1 < y + 1
    ensures Product(MultiplierFactors(table, y, finalYear, mode)) == Multiplier(table, y, finalYear, mode)
  {
    FactorsBase(table, y, finalYear, mode);
    ProductSingleton(Uplift(table, finalYear));
  }

  /** The product the tool computes, `product(mults)` over the pushed factors, is the
      compound multiplier. */
  lemma {:induction false} MultiplierIsProduct(table: map<int, real>, y: int, finalYear: int, mode: Mode)
    ensures Product(MultiplierFactors(table, y, finalYear, mode)) == Multiplier(table, y, finalYear, mode)
    decreases finalYear - y
  {
    if y + 1 <= finalYear - 1 {
      MultiplierIsProduct(table, y + 1, finalYear, mode);
      ProductStep(table, y, finalYear, mode);
    } else {
      ProductBase(table, y, finalYear, mode);
    }
  }

  lemma Associate(a: real, b: real, c: real)
    ensures a * (b * c) == (a * b) * c
  {
  }

  /** In estimate mode a year's multiplier is its actual-mode multiplier times `1 + ara(F)`,
      and nothing else changes. */
  lemma {:induction false} EstimateMultiplier(table: map<int, real>, y: int, finalYear: int)
    ensures Multiplier(table, y, finalYear, Estimate)
         == Multiplier(table, y, finalYear, Actual) * Uplift(table, finalYear)
    decreases finalYear - y
  {
    if y + 1 <= finalYear - 1 {
      EstimateMultiplier(table, y + 1, finalYear);
      Associate(Uplift(table, y + 1), Multiplier(table, y + 1, finalYear, Actual), Uplift(table, finalYear));
    }
  }

  /** The year just before the final year is not revalued in actual mode (an empty product),
      and in estimate mode only by the final year's own rate. */
  lemma {:induction false} LastCompletedYearMultiplier(table: map<int, real>, finalYear: int)
    ensures Product(MultiplierFactors(table, finalYear - 1, finalYear, Actual)) == 1.0
    ensures Product(MultiplierFactors(table, finalYear - 1, finalYear, Estimate)) == Uplift(table, finalYear)
  {
    MultiplierIsProduct(table, finalYear - 1, finalYear, Actual);
    MultiplierIsProduct(table, finalYear - 1, finalYear, Estimate);
  }

  lemma AtLeastOneTimes(a: real, b: real)
    requires a >= 1.0 && b >= 1.0
    ensures a * b >= 1.0
  {
    assert a * b >= a * 1.0;
  }

  /** With no negative ARA in the revaluation window, no completed year's multiplier is
      below 1. */
  lemma {:induction false} MultiplierAtLeastOne(table: map<int, real>, y: int, finalYear: int, mode: Mode)
    requires y < finalYear
    requires forall t :: y < t <= finalYear && t in table ==> table[t] >= 0.0
    ensures Multiplier(table, y, finalYear, mode) >= 1.0
    decreases finalYear - y
  {
    if y + 1 <= finalYear - 1 {
      MultiplierAtLeastOne(table, y + 1, finalYear, mode);
      AtLeastOneTimes(Uplift(table, y + 1), Multiplier(table, y + 1, finalYear, mode));
    }
  }

  /** The completed years: `years.filter(y => y.yearEnd <= F - 1)`, in ledger order. */
  function Completed(years: seq<Row>, finalYear: int): (c: seq<Row>)
    ensures |c| <= |years|
  {
    if years == [] then []
    else
      var last := years[|years| - 1];
      Completed(years[..|years| - 1], finalYear) + (if last.yearEnd <= finalYear - 1 then [last] else [])
  }

  /** The completed rows are exactly the ledger's rows that end before the final year. */
  lemma {:induction false} CompletedMembers(years: seq<Row>, finalYear: int)
    ensures forall r :: r in Completed(years, finalYear) <==> r in years && r.yearEnd <= finalYear - 1
    decreases |years|
  {
    if years != [] {
      var init := years[..|years| - 1];
      CompletedMembers(init, finalYear);
      assert years == init + [years[|years| - 1]];
    }
  }

  /** Filtering keeps the ledger's order. */
  lemma {:induction false} CompletedAscending(years: seq<Row>, finalYear: int)
    requires Ascending(years)
    ensures Ascending(Completed(years, finalYear))
    decreases |years|
  {
    if years != [] {
      var init := years[..|years| - 1];
      CompletedAscending(init, finalYear);
      CompletedMembers(init, finalYear);
      var c := Completed(init, finalYear);
      forall r | r in c ensures r.yearEnd < years[|years| - 1].yearEnd {
        var i :| 0 <= i < |init| && init[i] == r;
      }
    }
  }

  /** A ledger holds a year exactly when its first row or the rest of it does. */
  lemma {:induction false} HasYearTail(years: seq<Row>, y: int)
    requires years != []
    ensures HasYear(years, y) <==> years[0].yearEnd == y || HasYear(years[1..], y)
  {
    if HasYear(years[1..], y) {
      var i :| 0 <= i < |years[1..]| && years[1..][i].yearEnd == y;
      assert years[i + 1].yearEnd == y;
    }
    if HasYear(years, y) && years[0].yearEnd != y {
      var i :| 0 <= i < |years| && years[i].yearEnd == y;
      assert years[1..][i - 1].yearEnd == y;
    }
  }

  /** The first row for a year: `years.find(y => y.yearEnd === F)`. */
  function FindYear(years: seq<Row>, y: int): (r: Option<Row>)
    ensures r.None? <==> !HasYear(years, y)
    ensures r.Some? ==> r.value.yearEnd == y
  {
    if years == [] then None
    else if years[0].yearEnd == y then Some(years[0])
    else
      HasYearTail(years, y);
      FindYear(years[1..], y)
  }

  /** The row found is one of the ledger's rows. */
  lemma {:induction false} FindYearInLedger(years: seq<Row>, y: int)
    requires HasYear(years, y)
    ensures FindYear(years, y).value in years
    decreases |years|
  {
    if years[0].yearEnd != y {
      HasYearTail(years, y);
      FindYearInLedger(years[1..], y);
    }
  }

  /** The audit entry of a completed year. */
  function EntryFor(r: Row, table: map<int, real>, finalYear: int, mode: Mode): AuditEntry {
    var accrual := Accrual(r.pay);
    var m := Multiplier(table, r.yearEnd, finalYear, mode);
    AuditEntry(r.yearEnd, accrual, m, accrual * m, false)
  }

  /** The audit entries of the completed years, in order. */
  function CompletedAudit(rows: seq<Row>, table: map<int, real>, finalYear: int, mode: Mode): (a: seq<AuditEntry>)
    ensures |a| == |rows|
    ensures forall i :: 0 <= i < |rows| ==> a[i] == EntryFor(rows[i], table, finalYear, mode)
  {
    seq(|rows|, i requires 0 <= i < |rows| => EntryFor(rows[i], table, finalYear, mode))
  }

  /** The final (part) year's entry: its accrual, unrevalued. */
  function FinalEntry(r: Row): AuditEntry {
    AuditEntry(r.yearEnd, Accrual(r.pay), 1.0, Accrual(r.pay), true)
  }

  /** The whole audit trail for a ledger that holds a row for the final year. */
  function Audit(years: seq<Row>, table: map<int, real>, finalYear: int, mode: Mode): seq<AuditEntry> {
    CompletedAudit(Completed(years, finalYear), table, finalYear, mode)
      + match FindYear(years, finalYear) case Some(r) => [FinalEntry(r)] case None => []
  }

  /** The total of the `revalued` column, summed in order. */
  function SumRevalued(a: seq<AuditEntry>): real {
    if a == [] then 0.0 else SumRevalued(a[..|a| - 1]) + a[|a| - 1].revalued
  }

  lemma {:induction false} SumRevaluedSnoc(a: seq<AuditEntry>, e: AuditEntry)
    ensures SumRevalued(a + [e]) == SumRevalued(a) + e.revalued
  {
    assert (a + [e])[..|a + [e]| - 1] == a;
  }

  /** The unreduced annual pension: the sum of the revalued column of the audit trail. */
  function Unreduced(years: seq<Row>, table: map<int, real>, finalYear: int, mode: Mode): real
    requires HasYear(years, finalYear)
  {
    SumRevalued(Audit(years, table, finalYear, mode))
  }

  /** The shape of the audit trail: one entry per completed row, in ascending year order and
      all before F, then exactly one part-year entry for F with multiplier 1 whose revalued
      amount is the final row's pay / 54. */
  lemma {:induction false} AuditShape(years: seq<Row>, table: map<int, real>, finalYear: int, mode: Mode)
    requires Ascending(years) && HasYear(years, finalYear)
    ensures var a := Audit(years, table, finalYear, mode);
      && var c := Completed(years, finalYear);
      && |a| == |c| + 1
      && (forall i :: 0 <= i < |c| ==> a[i].yearEnd == c[i].yearEnd <= finalYear - 1 && !a[i].partYear)
      && (forall i, j :: 0 <= i < j < |a| ==> a[i].yearEnd < a[j].yearEnd)
      && a[|c|].yearEnd == finalYear && a[|c|].multiplier == 1.0 && a[|c|].partYear
      && a[|c|].revalued == Accrual(FindYear(years, finalYear).value.pay)
  {
    CompletedAscending(years, finalYear);
    CompletedMembers(years, finalYear);
    var c := Completed(years, finalYear);
    forall i | 0 <= i < |c| ensures c[i].yearEnd <= finalYear - 1 {
      assert c[i] in c;
    }
  }

  lemma Distribute(x: real, y: real, k: real)
    ensures x * k + y * k == (x + y) * k
  {
  }

  /** Entry by entry, the revalued amounts of e are those of a times k. */
  predicate ScaledBy(e: seq<AuditEntry>, a: seq<AuditEntry>, k: real) {
    |e| == |a| && forall i :: 0 <= i < |e| ==> e[i].revalued == a[i].revalued * k
  }

  /** Scaling every entry's revalued amount by k scales their total by k. */
  lemma {:induction false} SumScaled(e: seq<AuditEntry>, a: seq<AuditEntry>, k: real)
    requires ScaledBy(e, a, k)
    ensures SumRevalued(e) == SumRevalued(a) * k
    decreases |e|
  {
    if e != [] {
      SumScaled(e[..|e| - 1], a[..|a| - 1], k);
      Distribute(SumRevalued(a[..|a| - 1]), a[|a| - 1].revalued, k);
    }
  }

  /** One completed year: its estimate-mode revalued amount is its actual-mode one times
      k = `1 + ara(F)`. */
  lemma {:induction false} EntryScales(r: Row, table: map<int, real>, finalYear: int, k: real)
    requires k == Uplift(table, finalYear)
    ensures EntryFor(r, table, finalYear, Estimate).revalued == EntryFor(r, table, finalYear, Actual).revalued * k
  {
    EstimateMultiplier(table, r.yearEnd, finalYear);
    Associate(Accrual(r.pay), Multiplier(table, r.yearEnd, finalYear, Actual), k);
  }

  lemma {:induction false} EntriesScale(rows: seq<Row>, table: map<int, real>, finalYear: int, k: real)
    requires k == Uplift(table, finalYear)
    ensures ScaledBy(CompletedAudit(rows, table, finalYear, Estimate), CompletedAudit(rows, table, finalYear, Actual), k)
  {
    var e := CompletedAudit(rows, table, finalYear, Estimate);
    var a := CompletedAudit(rows, table, finalYear, Actual);
    forall i | 0 <= i < |e| ensures e[i].revalued == a[i].revalued * k {
      EntryScales(rows[i], table, finalYear, k);
    }
  }

  /** In estimate mode the completed years' total is the actual-mode total times
      k = `1 + ara(F)`. */
  lemma {:induction false} EstimateScalesCompleted(rows: seq<Row>, table: map<int, real>, finalYear: int, k: real)
    requires k == Uplift(table, finalYear)
    ensures SumRevalued(CompletedAudit(rows, table, finalYear, Estimate))
         == SumRevalued(CompletedAudit(rows, table, finalYear, Actual)) * k
  {
    EntriesScale(rows, table, finalYear, k);
    SumScaled(CompletedAudit(rows, table, finalYear, Estimate), CompletedAudit(rows, table, finalYear, Actual), k);
  }

  /** Appending the same final entry to two audits, one scaled from the other by k, keeps
      the scaling for everything but that entry. */
  lemma {:induction false} SumScaledBesideFinal(e: seq<AuditEntry>, a: seq<AuditEntry>, f: AuditEntry, k: real)
    requires ScaledBy(e, a, k)
    ensures SumRevalued(e + [f]) - f.revalued == (SumRevalued(a + [f]) - f.revalued) * k
  {
    SumScaled(e, a, k);
    SumRevaluedSnoc(e, f);
    SumRevaluedSnoc(a, f);
  }

  /** Switching the mode to estimate changes the total only through the completed years,
      each scaled by k = `1 + ara(F)`; the final year's accrual is the same in both modes. */
  lemma {:induction false} EstimateVersusActual(years: seq<Row>, table: map<int, real>, finalYear: int, k: real)
    requires HasYear(years, finalYear) && k == Uplift(table, finalYear)
    ensures var finalAccrual := Accrual(FindYear(years, finalYear).value.pay);
      && Unreduced(years, table, finalYear, Estimate) - finalAccrual
         == (Unreduced(years, table, finalYear, Actual) - finalAccrual) * k
  {
    var c := Completed(years, finalYear);
    EntriesScale(c, table, finalYear, k);
    SumScaledBesideFinal(CompletedAudit(c, table, finalYear, Estimate), CompletedAudit(c, table, finalYear, Actual),
                         FinalEntry(FindYear(years, finalYear).value), k);
  }

  /** With non-negative pay and ARA, each completed year's revalued amount is at least its
      accrual, which is itself non-negative. */
  lemma {:induction false} RevaluedAtLeastAccrual(r: Row, table: map<int, real>, finalYear: int, mode: Mode)
    requires r.yearEnd < finalYear && r.pay >= 0.0
    requires forall t :: r.yearEnd < t <= finalYear && t in table ==> table[t] >= 0.0
    ensures 0.0 <= EntryFor(r, table, finalYear, mode).accrual <= EntryFor(r, table, finalYear, mode).revalued
  {
    MultiplierAtLeastOne(table, r.yearEnd, finalYear, mode);
    ScaleAtLeast(Accrual(r.pay), Multiplier(table, r.yearEnd, finalYear, mode));
  }

  lemma ScaleAtLeast(acc: real, m: real)
    requires acc >= 0.0 && m >= 1.0
    ensures acc <= acc * m
  {
    assert acc * m >= acc * 1.0;
  }

  /** A row placed in front of an ascending ledger whose every row is later keeps it
      ascending. */
  lemma {:induction false} ConsAscending(h: Row, rest: seq<Row>)
    requires Ascending(rest)
    requires forall x :: x in rest ==> h.yearEnd < x.yearEnd
    ensures Ascending([h] + rest)
  {
    var out := [h] + rest;
    forall i, j | 0 <= i < j < |out| ensures out[i].yearEnd < out[j].yearEnd {
      if i == 0 {
        assert out[j] == rest[j - 1];
        assert rest[j - 1] in rest;
      } else {
        assert out[i] == rest[i - 1] && out[j] == rest[j - 1];
      }
    }
  }

  /** Every row after the first of an ascending ledger is later than the first. */
  lemma {:induction false} AscendingTailAbove(years: seq<Row>)
    requires Ascending(years) && years != []
    ensures forall x :: x in years[1..] ==> years[0].yearEnd < x.yearEnd
  {
    forall x | x in years[1..] ensures years[0].yearEnd < x.yearEnd {
      var i :| 0 <= i < |years[1..]| && years[1..][i] == x;
      assert years[i + 1] == x;
    }
  }

  /** The rows of `rest` are those of `tail` and r, so all of them are later than h. */
  lemma {:induction false} InsertedAbove(h: Row, tail: seq<Row>, r: Row, rest: seq<Row>)
    requires multiset(rest) == multiset(tail) + multiset{r}
    requires forall x :: x in tail ==> h.yearEnd < x.yearEnd
    requires h.yearEnd < r.yearEnd
    ensures forall x :: x in rest ==> h.yearEnd < x.yearEnd
  {
    forall x | x in rest ensures h.yearEnd < x.yearEnd {
      assert x in multiset(rest);
      if x != r {
        assert x in multiset(tail);
      }
    }
  }

  /** `[...years, r].sort(by yearEnd)` for an ascending ledger without r's year: r goes to its
      place and every other row stays as it was. */
  function InsertByYear(years: seq<Row>, r: Row): (out: seq<Row>)
    requires Ascending(years) && !HasYear(years, r.yearEnd)
    ensures Ascending(out)
    ensures multiset(out) == multiset(years) + multiset{r}
    ensures |out| == |years| + 1
  {
    if years == [] then [r]
    else if r.yearEnd < years[0].yearEnd then
      AscendingTailAbove([r] + years);
      ConsAscending(r, years);
      [r] + years
    else
      HasYearTail(years, r.yearEnd);
      var rest := InsertByYear(years[1..], r);
      AscendingTailAbove(years);
      InsertedAbove(years[0], years[1..], r, rest);
      ConsAscending(years[0], rest);
      Recompose(years);
      MultisetCons(years[0], years[1..], r, rest);
      [years[0]] + rest
  }

  lemma {:induction false} MultisetCons(h: Row, tail: seq<Row>, r: Row, rest: seq<Row>)
    requires multiset(rest) == multiset(tail) + multiset{r}
    ensures multiset([h] + rest) == multiset([h] + tail) + multiset{r}
  {
  }

  lemma {:induction false} CompletedCons(x: Row, ys: seq<Row>, finalYear: int)
    ensures Completed([x] + ys, finalYear)
         == (if x.yearEnd <= finalYear - 1 then [x] else []) + Completed(ys, finalYear)
    decreases |ys|
  {
    if ys == [] {
      assert [x] + ys == [x];
      assert [x][..0] == [];
    } else {
      var xs := [x] + ys;
      assert xs[..|xs| - 1] == [x] + ys[..|ys| - 1];
      CompletedCons(x, ys[..|ys| - 1], finalYear);
    }
  }

  /** Prepending a row beyond the final year changes neither the completed rows nor the
      final row. */
  lemma {:induction false} CompletedPrefixBeyond(years: seq<Row>, r: Row, finalYear: int)
    requires r.yearEnd > finalYear
    ensures Completed([r] + years, finalYear) == Completed(years, finalYear)
    ensures FindYear([r] + years, finalYear) == FindYear(years, finalYear)
  {
    CompletedCons(r, years, finalYear);
    assert ([r] + years)[1..] == years;
  }

  /** A row beyond the final year never reaches the calculation: inserting it leaves the
      completed rows and the final row as they were. */
  lemma {:induction false} RowBeyondFinalIgnored(years: seq<Row>, r: Row, finalYear: int)
    requires Ascending(years) && !HasYear(years, r.yearEnd) && r.yearEnd > finalYear
    ensures Completed(InsertByYear(years, r), finalYear) == Completed(years, finalYear)
    ensures FindYear(InsertByYear(years, r), finalYear) == FindYear(years, finalYear)
    decreases |years|
  {
    if years == [] {
      CompletedPrefixBeyond(years, r, finalYear);
    } else if r.yearEnd < years[0].yearEnd {
      CompletedPrefixBeyond(years, r, finalYear);
    } else {
      Recompose(years);
      HasYearTail(years, r.yearEnd);
      InsertByYearStep(years, r);
      var rest := InsertByYear(years[1..], r);
      RowBeyondFinalIgnored(years[1..], r, finalYear);
      SameHeadSameView(years[0], rest, years[1..], finalYear);
    }
  }

  lemma {:induction false} InsertByYearStep(years: seq<Row>, r: Row)
    requires Ascending(years) && !HasYear(years, r.yearEnd)
    requires years != [] && years[0].yearEnd <= r.yearEnd
    ensures !HasYear(years[1..], r.yearEnd)
    ensures InsertByYear(years, r) == [years[0]] + InsertByYear(years[1..], r)
  {
    HasYearTail(years, r.yearEnd);
  }

  lemma {:induction false} Recompose(years: seq<Row>)
    requires years != []
    ensures [years[0]] + years[1..] == years
  {
  }

  /** Two ledgers that agree on their completed rows and final row still agree once the same
      row is put in front of both. */
  lemma {:induction false} SameHeadSameView(h: Row, a: seq<Row>, b: seq<Row>, finalYear: int)
    requires Completed(a, finalYear) == Completed(b, finalYear)
    requires FindYear(a, finalYear) == FindYear(b, finalYear)
    ensures Completed([h] + a, finalYear) == Completed([h] + b, finalYear)
    ensures FindYear([h] + a, finalYear) == FindYear([h] + b, finalYear)
  {
    CompletedCons(h, a, finalYear);
    CompletedCons(h, b, finalYear);
    assert ([h] + a)[1..] == a;
    assert ([h] + b)[1..] == b;
  }

  /** The worked example: pay only in 2016, ARA 2017 = 2%, 2018 = 3%, 2019 = 1%, final year
      2020, actual mode: the factors pushed for 2016 multiply to 1.02 x 1.03 x 1.01 and
      2020's own rate plays no part. */
  lemma {:induction false} CompoundingOrderExample(ara2020: real)
    ensures var table := map[2017 := 0.02, 2018 := 0.03, 2019 := 0.01, 2020 := ara2020];
      && Product(MultiplierFactors(table, 2016, 2020, Actual)) == 1.02 * 1.03 * 1.01
      && EntryFor(Row(2016, 0.0, 30000.0), table, 2020, Actual).revalued == (30000.0 / 54.0) * (1.02 * 1.03 * 1.01)
  {
    var table := map[2017 := 0.02, 2018 := 0.03, 2019 := 0.01, 2020 := ara2020];
    MultiplierIsProduct(table, 2016, 2020, Actual);
    assert Multiplier(table, 2018, 2020, Actual) == 1.01;
    assert Multiplier(table, 2017, 2020, Actual) == 1.03 * 1.01;
  }
}
