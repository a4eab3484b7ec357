/** The CARE estimator's `state` object and the handlers that change it: the ledger edits,
    seeding, the unreduced-pension calculation that rebuilds the audit trail, the retirement
    calculation, and the ARA and factor table edits. Form fields arrive as parameters, already
    read: a date field as `DateField`, a year-end field as `YearInput`, any other number field
    as `Option` (None for a blank field where the handler supplies a default). */
module CareCalculator {

  import opened Common
  import opened CareTables
  import opened CareRevaluation
  import opened CareRetirement
  import opened CareLedger

  /** A date input as `parseDateISO` sees it: empty, not a date, or a date. */
  datatype DateField = Blank | Unparseable | Parsed(date: Date)

  /** `parseDateISO`: no date for an empty or unparseable field. */
  function ParseDateField(f: DateField): (d: Option<Date>)
    ensures d.Some? <==> f.Parsed?
  {
    match f
    case Parsed(date) => Some(date)
    case _ => None
  }

  /** `el('#mode').value || 'estimate'`, then the comparison with `'estimate'`: an empty
      selection means estimate, any other value than `estimate` means actual. */
  function ModeFromSelect(s: string): (m: Mode)
    ensures m == Estimate <==> s == [] || s == "estimate"
  {
    if s == [] || s == "estimate" then Estimate else Actual
  }

  /** `seedYears`'s final year end: from a parsable retirement date, from today when the
      field is empty, and 2026 when the field holds something that is not a date. */
  function SeedFinalYear(f: DateField, now: Date): (y: int)
    ensures f.Unparseable? ==> y == 2026
    ensures f.Blank? ==> y == SchemeYearEndForDate(now)
    ensures f.Parsed? ==> y == SchemeYearEndForDate(f.date)
  {
    match f
    case Blank => SchemeYearEndForDate(now)
    case Unparseable => 2026
    case Parsed(d) => SchemeYearEndForDate(d)
  }

  /** Which factor table a factor edit applies to. */
  datatype FactorKind = Erf | Lrf

  /** The figures `applyRetirementFactors` shows. */
  datatype RetirementResult = RetirementResult(unreduced: real, months: int, factor: real, settlement: Settlement)

  lemma UpliftsSnoc(table: map<int, real>, lo: int, hi: int)
    requires lo <= hi
    ensures Uplifts(table, lo, hi) == Uplifts(table, lo, hi - 1) + [Uplift(table, hi)]
  {
  }

  lemma UpliftsEmpty(table: map<int, real>, lo: int, hi: int)
    requires hi < lo
    ensures Uplifts(table, lo, hi) == []
  {
  }

  /** The factors pushed once the loop over t has run to its end. */
  lemma FactorsPushed(table: map<int, real>, y: int, finalYear: int, t: int, mode: Mode, pushed: seq<real>)
    requires y + 1 <= t && (t <= finalYear || t == y + 1) && !(t <= finalYear - 1)
    requires pushed == Uplifts(table, y + 1, t - 1)
    ensures pushed + (if mode == Estimate then [Uplift(table, finalYear)] else [])
         == MultiplierFactors(table, y, finalYear, mode)
  {
    if t != finalYear {
      UpliftsEmpty(table, y + 1, t - 1);
      UpliftsEmpty(table, y + 1, finalYear - 1);
    }
  }

  /** The multiplier of one completed year, as `buildUnreduced` computes it: push
      `1 + ara(t)` for t = y+1 .. F-1, and `1 + ara(F)` in estimate mode, then take the
      product. */
  method CompoundMultiplier(table: map<int, real>, y: int, finalYear: int, mode: Mode) returns (mult: real)
    ensures mult == Multiplier(table, y, finalYear, mode)
  {
    var multipliers: seq<real> := [];
    var t := y + 1;
    while t <= finalYear - 1
      invariant y + 1 <= t && (t <= finalYear || t == y + 1)
      invariant multipliers == Uplifts(table, y + 1, t - 1)
      decreases finalYear - t
    {
      UpliftsSnoc(table, y + 1, t);
      multipliers := multipliers + [Uplift(table, t)];
      t := t + 1;
    }
    FactorsPushed(table, y, finalYear, t, mode, multipliers);
    if mode == Estimate {
      multipliers := multipliers + [Uplift(table, finalYear)];
    } else {
      assert multipliers + [] == multipliers;
    }
    mult := Product(multipliers);
    MultiplierIsProduct(table, y, finalYear, mode);
  }

  lemma CompletedAuditSnoc(rows: seq<Row>, table: map<int, real>, finalYear: int, mode: Mode, i: int)
    requires 0 <= i < |rows|
    ensures CompletedAudit(rows[..i + 1], table, finalYear, mode)
         == CompletedAudit(rows[..i], table, finalYear, mode) + [EntryFor(rows[i], table, finalYear, mode)]
  {
    var a := CompletedAudit(rows[..i + 1], table, finalYear, mode);
    var b := CompletedAudit(rows[..i], table, finalYear, mode) + [EntryFor(rows[i], table, finalYear, mode)];
    assert |a| == |b|;
    forall j | 0 <= j < |a| ensures a[j] == b[j] {
      assert rows[..i + 1][j] == rows[j];
      if j < i {
        assert rows[..i][j] == rows[j];
      }
    }
  }

  /** The entry the loop builds for a row is the row's audit entry. */
  lemma EntryBuilt(row: Row, table: map<int, real>, finalYear: int, mode: Mode, accrual: real, mult: real)
    requires accrual == Accrual(row.pay) && mult == Multiplier(table, row.yearEnd, finalYear, mode)
    ensures AuditEntry(row.yearEnd, accrual, mult, accrual * mult, false) == EntryFor(row, table, finalYear, mode)
  {
  }

  /** The `completed.forEach` of `buildUnreduced`: one audit entry per completed row, in
      order, and the running total of their revalued amounts. */
  method AuditCompleted(completed: seq<Row>, table: map<int, real>, finalYear: int, mode: Mode)
    returns (audit: seq<AuditEntry>, total: real)
    ensures audit == CompletedAudit(completed, table, finalYear, mode)
    ensures total == SumRevalued(audit)
  {
    audit := [];
    total := 0.0;
    var i := 0;
    while i < |completed|
      invariant 0 <= i <= |completed|
      invariant audit == CompletedAudit(completed[..i], table, finalYear, mode)
      invariant total == SumRevalued(audit)
    {
      var row := completed[i];
      var accrual := Accrual(row.pay);
      var mult := CompoundMultiplier(table, row.yearEnd, finalYear, mode);
      var revalued := accrual * mult;
      var entry := AuditEntry(row.yearEnd, accrual, mult, revalued, false);
      EntryBuilt(row, table, finalYear, mode, accrual, mult);
      CompletedAuditSnoc(completed, table, finalYear, mode, i);
      SumRevaluedSnoc(audit, entry);
      audit := audit + [entry];
      total := total + revalued;
      i := i + 1;
    }
    assert completed[..i] == completed;
  }

  /** Appending the part-year entry to the completed years' entries gives the audit trail,
      and adds the entry's amount to the total. */
  lemma FinalEntryAppended(years: seq<Row>, table: map<int, real>, finalYear: int, mode: Mode,
                           audit: seq<AuditEntry>, entry: AuditEntry)
    requires audit == CompletedAudit(Completed(years, finalYear), table, finalYear, mode)
    requires FindYear(years, finalYear).Some?
    requires var r := FindYear(years, finalYear).value;
      entry == AuditEntry(r.yearEnd, Accrual(r.pay), 1.0, Accrual(r.pay), true)
    ensures audit + [entry] == Audit(years, table, finalYear, mode)
    ensures SumRevalued(audit + [entry]) == SumRevalued(audit) + entry.revalued
  {
    SumRevaluedSnoc(audit, entry);
  }

  /** The list `seedYears` builds: a zero-pay row for every year end from 2016 to F. */
  method SeedList(finalYE: int, table: map<int, real>) returns (ys: seq<Row>)
    ensures ys == SeedLedger(finalYE, table)
  {
    ys := [];
    var yEnd := 2016;
    while yEnd <= finalYE
      invariant 2016 <= yEnd && (yEnd <= finalYE + 1 || yEnd == 2016)
      invariant ys == SeedLedger(yEnd - 1, table)
      decreases finalYE - yEnd
    {
      SeedLedgerSnoc(yEnd, table);
      ys := ys + [Row(yEnd, SeedAra(table, yEnd), 0.0)];
      yEnd := yEnd + 1;
    }
    if yEnd == 2016 {
      SeedLedgerEmpty(finalYE, table);
    }
  }

  /** The outcome of a calculation on a ledger `before`: the date and mode as read, the
      ledger with its final row for F, and the audit trail of that ledger and its total. */
  ghost predicate CalculationOf(field: DateField, modeSelect: string, before: seq<Row>, table: map<int, real>,
                                retDate: Option<Date>, mode: Mode, years: seq<Row>, audit: seq<AuditEntry>, total: real)
    requires Ascending(before)
  {
    var F := FinalYearEnd(ParseDateField(field), before);
    && retDate == ParseDateField(field)
    && mode == ModeFromSelect(modeSelect)
    && years == WithFinalRow(before, table, F)
    && audit == Audit(years, table, F, mode)
    && total == SumRevalued(audit)
  }

  /** The audit step of `buildUnreduced` on a ledger: one entry per completed year,
      compounded to F, then the final year's accrual unrevalued when the ledger has a row
      for F, and the total of the entries. */
  method AuditOf(ledger: seq<Row>, table: map<int, real>, finalYearEnd: int, mode: Mode)
    returns (audit: seq<AuditEntry>, total: real)
    ensures audit == Audit(ledger, table, finalYearEnd, mode)
    ensures total == SumRevalued(audit)
  {
    var completed := Completed(ledger, finalYearEnd);
    audit, total := AuditCompleted(completed, table, finalYearEnd, mode);
    var finalRow := FindYear(ledger, finalYearEnd);
    if finalRow.Some? {
      var finalAccrual := Accrual(finalRow.value.pay);
      var entry := AuditEntry(finalRow.value.yearEnd, finalAccrual, 1.0, finalAccrual, true);
      FinalEntryAppended(ledger, table, finalYearEnd, mode, audit, entry);
      audit := audit + [entry];
      total := total + finalAccrual;
    }
  }

  class CareState {
    var years: seq<Row>
    var araTable: map<int, real>
    var erfTable: map<int, real>
    var lrfTable: map<int, real>
    var retDate: Option<Date>
    var mode: Mode
    var lastAudit: seq<AuditEntry>
    var lastUnreduced: real

    /** The ledger is in ascending year-end order, as every handler leaves it. */
    ghost predicate Valid()
      reads this
    {
      Ascending(years)
    }

    /** What a calculation leaves behind, for a ledger that was `before` it. */
    ghost predicate Calculated(field: DateField, modeSelect: string, before: seq<Row>)
      reads this
      requires Ascending(before)
    {
      CalculationOf(field, modeSelect, before, araTable, retDate, mode, years, lastAudit, lastUnreduced)
    }

    /** The initial state: the default ledger, each rate table as stored when one was
        saved and could be read and otherwise its default (the built-in ARA rates, neutral
        factor tables), estimate mode, no calculation yet. */
    constructor (storedAra: Option<map<int, real>>, storedErf: Option<map<int, real>>,
                 storedLrf: Option<map<int, real>>)
      ensures Valid()
      ensures years == SeedLedger(2025, NhsAraSet) && araTable == storedAra.GetOr(NhsAraSet)
      ensures erfTable == storedErf.GetOr(UnitFactorTable) && lrfTable == storedLrf.GetOr(UnitFactorTable)
      ensures retDate == None && mode == Estimate && lastAudit == [] && lastUnreduced == 0.0
    {
      years := SeedLedger(2025, NhsAraSet);
      araTable := storedAra.GetOr(NhsAraSet);
      erfTable := storedErf.GetOr(UnitFactorTable);
      lrfTable := storedLrf.GetOr(UnitFactorTable);
      retDate := None;
      mode := Estimate;
      lastAudit := [];
      lastUnreduced := 0.0;
    }

    /** The year-end input of row idx. */
    method EditYearEnd(idx: int, entered: YearInput)
      requires Valid() && 0 <= idx < |years|
      modifies this
      ensures Valid()
      ensures years == YearEndEdited(old(years), idx, entered, old(araTable))
      ensures araTable == old(araTable) && erfTable == old(erfTable) && lrfTable == old(lrfTable)
      ensures retDate == old(retDate) && mode == old(mode)
      ensures lastAudit == old(lastAudit) && lastUnreduced == old(lastUnreduced)
    {
      var v := InputYear(entered, years[idx].yearEnd);
      if v.None? || v.value < 2016 {
        assert !YearEndAccepted(years, idx, entered);
        return;
      }
      if exists j :: 0 <= j < |years| && j != idx && years[j].yearEnd == v.value {
        assert !YearEndAccepted(years, idx, entered);
        return;
      }
      years := YearEndEdited(years, idx, entered, araTable);
    }

    /** The ARA input of row idx. */
    method SetRowAra(idx: int, v: real)
      requires Valid() && 0 <= idx < |years|
      modifies this
      ensures Valid()
      ensures years == old(years)[idx := old(years)[idx].(ara := v)]
      ensures araTable == old(araTable) && erfTable == old(erfTable) && lrfTable == old(lrfTable)
      ensures retDate == old(retDate) && mode == old(mode)
      ensures lastAudit == old(lastAudit) && lastUnreduced == old(lastUnreduced)
    {
      years := years[idx := years[idx].(ara := v)];
    }

    /** The pay input of row idx. */
    method SetRowPay(idx: int, v: real)
      requires Valid() && 0 <= idx < |years|
      modifies this
      ensures Valid()
      ensures years == old(years)[idx := old(years)[idx].(pay := v)]
      ensures araTable == old(araTable) && erfTable == old(erfTable) && lrfTable == old(lrfTable)
      ensures retDate == old(retDate) && mode == old(mode)
      ensures lastAudit == old(lastAudit) && lastUnreduced == old(lastUnreduced)
    {
      years := years[idx := years[idx].(pay := v)];
    }

    /** The delete button of row idx: the last remaining row is kept. */
    method DeleteRow(idx: int)
      requires Valid() && 0 <= idx < |years|
      modifies this
      ensures Valid()
      ensures |old(years)| <= 1 ==> years == old(years)
      ensures |old(years)| > 1 ==> years == RemoveAt(old(years), idx)
      ensures araTable == old(araTable) && erfTable == old(erfTable) && lrfTable == old(lrfTable)
      ensures retDate == old(retDate) && mode == old(mode)
      ensures lastAudit == old(lastAudit) && lastUnreduced == old(lastUnreduced)
    {
      if |years| <= 1 {
        return;
      }
      RemoveAtProperties(years, idx);
      years := years[..idx] + years[idx + 1..];
    }

    /** The add-year button: the year after the last one, with its ARA from the table, unless
        that year would be before 2016. */
    method AddYear()
      requires Valid()
      modifies this
      ensures Valid()
      ensures NextLedgerYear(old(years)) < 2016 ==> years == old(years)
      ensures NextLedgerYear(old(years)) >= 2016 ==>
        years == old(years) + [Row(NextLedgerYear(old(years)), Ara(araTable, NextLedgerYear(old(years))), 0.0)]
      ensures araTable == old(araTable) && erfTable == old(erfTable) && lrfTable == old(lrfTable)
      ensures retDate == old(retDate) && mode == old(mode)
      ensures lastAudit == old(lastAudit) && lastUnreduced == old(lastUnreduced)
    {
      // The ledger is already in year order, so sorting a copy of it changes nothing.
      var next := LedgerLastYear(years) + 1;
      if next < 2016 {
        return;
      }
      var r := Row(next, Ara(araTable, next), 0.0);
      NextYearIsLatest(years);
      AppendLatest(years, r);
      years := years + [r];
    }

    /** The seed button: one zero-pay row for every year end from 2016 to the final year. */
    method SeedYears(field: DateField, now: Date)
      requires Valid()
      modifies this
      ensures Valid()
      ensures years == SeedLedger(SeedFinalYear(field, now), araTable)
      ensures araTable == old(araTable) && erfTable == old(erfTable) && lrfTable == old(lrfTable)
      ensures retDate == old(retDate) && mode == old(mode)
      ensures lastAudit == old(lastAudit) && lastUnreduced == old(lastUnreduced)
    {
      var finalYE := 2026;
      match field {
        case Parsed(d) => finalYE := SchemeYearEndForDate(d);
        case Unparseable =>
        case Blank => finalYE := SchemeYearEndForDate(now);
      }
      var ys := SeedList(finalYE, araTable);
      years := ys;
    }

    /** `buildUnreduced`: fix the final scheme year F, make sure the ledger has a row for it,
        then record one audit entry per completed year, compounded to F, and the final
        year's accrual unrevalued, and return their total. */
    method BuildUnreduced(field: DateField, modeSelect: string) returns (unreduced: real)
      requires Valid()
      modifies this
      ensures Valid()
      ensures CalculationOf(field, modeSelect, old(years), araTable, retDate, mode, years, lastAudit, lastUnreduced)
      ensures unreduced == lastUnreduced
      ensures araTable == old(araTable) && erfTable == old(erfTable) && lrfTable == old(lrfTable)
    {
      retDate := ParseDateField(field);
      mode := ModeFromSelect(modeSelect);
      var finalYearEnd := FinalYearEnd(retDate, years);
      AddFinalRow(finalYearEnd);
      unreduced := RecordAudit(finalYearEnd);
    }

    /** `buildUnreduced` makes sure the ledger has a row for F, so that part-year pay can be
        entered: a zero-pay row carrying F's ARA, pushed and sorted into year order. */
    method AddFinalRow(finalYearEnd: int)
      requires Valid()
      modifies this
      ensures Valid() && HasYear(years, finalYearEnd)
      ensures years == WithFinalRow(old(years), araTable, finalYearEnd)
      ensures araTable == old(araTable) && erfTable == old(erfTable) && lrfTable == old(lrfTable)
      ensures retDate == old(retDate) && mode == old(mode)
      ensures lastAudit == old(lastAudit) && lastUnreduced == old(lastUnreduced)
    {
      WithFinalRowShape(years, araTable, finalYearEnd);
      if !HasYear(years, finalYearEnd) {
        years := InsertByYear(years, FinalYearRow(araTable, finalYearEnd));
      }
    }

    /** `buildUnreduced` records the audit trail of the ledger and its total as the
        unreduced pension. */
    method RecordAudit(finalYearEnd: int) returns (unreduced: real)
      modifies this
      ensures lastAudit == Audit(years, araTable, finalYearEnd, mode)
      ensures lastUnreduced == SumRevalued(lastAudit) && unreduced == lastUnreduced
      ensures years == old(years) && araTable == old(araTable) && erfTable == old(erfTable) && lrfTable == old(lrfTable)
      ensures retDate == old(retDate) && mode == old(mode)
    {
      var audit, total := AuditOf(years, araTable, finalYearEnd, mode);
      lastAudit := audit;
      lastUnreduced := total;
      unreduced := total;
    }

    /** `applyRetirementFactors`: the unreduced pension (recalculated when none is recorded),
        the months short of or beyond Normal Pension Age at the retirement date (today when
        no calculation has fixed one), the factor for the adjusted months from the ERF or LRF
        table, and the commutation. */
    method ApplyRetirementFactors(dob: Option<Date>, npaAgeField: Option<real>, errboField: Option<real>,
                                  retType: RetirementType, commuteField: Option<real>, now: Date,
                                  field: DateField, modeSelect: string)
      returns (res: RetirementResult)
      requires Valid()
      modifies this
      ensures Valid()
      ensures old(lastUnreduced) != 0.0 ==> res.unreduced == old(lastUnreduced) && unchanged(this)
      ensures old(lastUnreduced) == 0.0 ==> Calculated(field, modeSelect, old(years)) && res.unreduced == lastUnreduced
      ensures araTable == old(araTable) && erfTable == old(erfTable) && lrfTable == old(lrfTable)
      ensures var m := MonthsFromNpa(dob, retDate.GetOr(now), npaAgeField.GetOr(67.0));
        res.months == MonthsAdjustment(retType, m, ErrboMonths(errboField.GetOr(0.0)))
      ensures retType == Early ==> FactorLookup(erfTable, res.months, res.factor)
      ensures retType == Late ==> FactorLookup(lrfTable, res.months, res.factor)
      ensures retType == AtAge ==> res.factor == 1.0
      ensures res.settlement == Settle(res.unreduced, res.factor, commuteField.GetOr(0.0))
    {
      var unreduced := lastUnreduced;
      if unreduced == 0.0 {
        unreduced := BuildUnreduced(field, modeSelect);
      }
      var at := retDate.GetOr(now);
      var monthsToFromNpa := MonthsFromNpa(dob, at, npaAgeField.GetOr(67.0));
      var errboMonths := ErrboMonths(errboField.GetOr(0.0));
      var factor := 1.0;
      var monthsAdj := 0;
      if retType == Early {
        monthsAdj := Max(0, Max(0, monthsToFromNpa) - errboMonths);
        factor := GetFactor(erfTable, monthsAdj);
      } else if retType == Late {
        monthsAdj := Max(0, -monthsToFromNpa);
        factor := GetFactor(lrfTable, monthsAdj);
      }
      var settlement := Settle(unreduced, factor, commuteField.GetOr(0.0));
      res := RetirementResult(unreduced, monthsAdj, factor, settlement);
    }

    /** The ARA input of the ARA table row for yearEnd. */
    method SetAraValue(yearEnd: int, v: real)
      modifies this
      ensures araTable == old(araTable)[yearEnd := v]
      ensures years == old(years) && erfTable == old(erfTable) && lrfTable == old(lrfTable)
      ensures retDate == old(retDate) && mode == old(mode)
      ensures lastAudit == old(lastAudit) && lastUnreduced == old(lastUnreduced)
    {
      araTable := araTable[yearEnd := v];
    }

    /** The year-end input of the ARA table row for yearEnd, which shows the rate `shown`:
        the year end entered, or yearEnd itself when the field is blank, takes that rate in
        place of yearEnd when it is at least 2016. */
    method RenameAraYear(yearEnd: int, shown: real, entered: YearInput)
      modifies this
      ensures var v := InputYear(entered, yearEnd);
        (v.None? || v.value < 2016) ==> araTable == old(araTable)
      ensures var v := InputYear(entered, yearEnd);
        v.Some? && v.value >= 2016 ==> araTable == (old(araTable) - {yearEnd})[v.value := shown]
      ensures entered.BlankYear? && yearEnd >= 2016 ==> araTable == old(araTable)[yearEnd := shown]
      ensures years == old(years) && erfTable == old(erfTable) && lrfTable == old(lrfTable)
      ensures retDate == old(retDate) && mode == old(mode)
      ensures lastAudit == old(lastAudit) && lastUnreduced == old(lastUnreduced)
    {
      var v := InputYear(entered, yearEnd);
      if v.None? || v.value < 2016 {
        return;
      }
      araTable := araTable - {yearEnd};
      araTable := araTable[v.value := shown];
    }

    /** The delete button of the ARA table row for yearEnd. */
    method DeleteAraYear(yearEnd: int)
      modifies this
      ensures araTable == old(araTable) - {yearEnd}
      ensures years == old(years) && erfTable == old(erfTable) && lrfTable == old(lrfTable)
      ensures retDate == old(retDate) && mode == old(mode)
      ensures lastAudit == old(lastAudit) && lastUnreduced == old(lastUnreduced)
    {
      araTable := araTable - {yearEnd};
    }

    /** `araAddYear`: a zero rate for the year after the largest key (after 2025 when there is
        no key, or when the largest key is 0). The year added is returned. */
    method AraAddYear() returns (added: int)
      modifies this
      ensures araTable == old(araTable)[added := 0.0]
      ensures forall k :: k in old(araTable) ==> k < added
      ensures (old(araTable) == map[] || IsMax(old(araTable).Keys, 0)) ==> added == 2026
      ensures old(araTable) != map[] && !IsMax(old(araTable).Keys, 0) ==>
        IsMax(old(araTable).Keys, added - 1)
      ensures years == old(years) && erfTable == old(erfTable) && lrfTable == old(lrfTable)
      ensures retDate == old(retDate) && mode == old(mode)
      ensures lastAudit == old(lastAudit) && lastUnreduced == old(lastUnreduced)
    {
      var keys := SortedKeys(araTable);
      var last := if |keys| == 0 || keys[|keys| - 1] == 0 then 2025 else keys[|keys| - 1];
      forall k | k in araTable ensures k < last + 1 && (|keys| > 0 ==> k <= keys[|keys| - 1]) {
        var i :| 0 <= i < |keys| && keys[i] == k;
        if i < |keys| - 1 {
          assert keys[i] < keys[|keys| - 1];
        }
      }
      if |keys| == 0 {
        assert araTable == map[];
      } else {
        assert IsMax(araTable.Keys, keys[|keys| - 1]);
      }
      added := last + 1;
      araTable := araTable[added := 0.0];
    }

    /** The NHS-defaults button. */
    method AraNhsDefaults()
      modifies this
      ensures araTable == NhsAraSet
      ensures years == old(years) && erfTable == old(erfTable) && lrfTable == old(lrfTable)
      ensures retDate == old(retDate) && mode == old(mode)
      ensures lastAudit == old(lastAudit) && lastUnreduced == old(lastUnreduced)
    {
      araTable := NhsAraSet;
    }

    /** The reset button: the stored table when one was saved and could be read, otherwise
        the built-in rates. */
    method AraReset(stored: Option<map<int, real>>)
      modifies this
      ensures araTable == stored.GetOr(NhsAraSet)
      ensures years == old(years) && erfTable == old(erfTable) && lrfTable == old(lrfTable)
      ensures retDate == old(retDate) && mode == old(mode)
      ensures lastAudit == old(lastAudit) && lastUnreduced == old(lastUnreduced)
    {
      araTable := stored.GetOr(NhsAraSet);
    }

    /** `araImport`: a file that parsed to an object replaces the table wholesale; anything
        else leaves it as it was. */
    method AraImport(parsed: Option<map<int, real>>)
      modifies this
      ensures parsed.Some? ==> araTable == parsed.value
      ensures parsed.None? ==> araTable == old(araTable)
      ensures years == old(years) && erfTable == old(erfTable) && lrfTable == old(lrfTable)
      ensures retDate == old(retDate) && mode == old(mode)
      ensures lastAudit == old(lastAudit) && lastUnreduced == old(lastUnreduced)
    {
      if parsed.Some? {
        araTable := parsed.value;
      }
    }

    /** The months input of a factor row: the factor moves from `months` to the new month
        count. */
    method RenameFactorMonths(kind: FactorKind, months: int, factor: real, newMonths: int)
      modifies this
      ensures kind == Erf ==> erfTable == (old(erfTable) - {months})[newMonths := factor] && lrfTable == old(lrfTable)
      ensures kind == Lrf ==> lrfTable == (old(lrfTable) - {months})[newMonths := factor] && erfTable == old(erfTable)
      ensures years == old(years) && araTable == old(araTable)
      ensures retDate == old(retDate) && mode == old(mode)
      ensures lastAudit == old(lastAudit) && lastUnreduced == old(lastUnreduced)
    {
      if kind == Erf {
        erfTable := erfTable - {months};
        erfTable := erfTable[newMonths := factor];
      } else {
        lrfTable := lrfTable - {months};
        lrfTable := lrfTable[newMonths := factor];
      }
    }

    /** The factor input of a factor row. */
    method SetFactorValue(kind: FactorKind, months: int, v: real)
      modifies this
      ensures kind == Erf ==> erfTable == old(erfTable)[months := v] && lrfTable == old(lrfTable)
      ensures kind == Lrf ==> lrfTable == old(lrfTable)[months := v] && erfTable == old(erfTable)
      ensures years == old(years) && araTable == old(araTable)
      ensures retDate == old(retDate) && mode == old(mode)
      ensures lastAudit == old(lastAudit) && lastUnreduced == old(lastUnreduced)
    {
      if kind == Erf {
        erfTable := erfTable[months := v];
      } else {
        lrfTable := lrfTable[months := v];
      }
    }

    /** The delete button of a factor row. */
    method DeleteFactor(kind: FactorKind, months: int)
      modifies this
      ensures kind == Erf ==> erfTable == old(erfTable) - {months} && lrfTable == old(lrfTable)
      ensures kind == Lrf ==> lrfTable == old(lrfTable) - {months} && erfTable == old(erfTable)
      ensures years == old(years) && araTable == old(araTable)
      ensures retDate == old(retDate) && mode == old(mode)
      ensures lastAudit == old(lastAudit) && lastUnreduced == old(lastUnreduced)
    {
      if kind == Erf {
        erfTable := erfTable - {months};
      } else {
        lrfTable := lrfTable - {months};
      }
    }

    /** The reset-factors button: both tables back to a single neutral entry. */
    method ResetFactors()
      modifies this
      ensures erfTable == UnitFactorTable && lrfTable == UnitFactorTable
      ensures years == old(years) && araTable == old(araTable)
      ensures retDate == old(retDate) && mode == old(mode)
      ensures lastAudit == old(lastAudit) && lastUnreduced == old(lastUnreduced)
    {
      erfTable := UnitFactorTable;
      lrfTable := UnitFactorTable;
    }
  }
}
