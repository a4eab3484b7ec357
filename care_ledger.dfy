/** The ledger of scheme years (`state.years`) and the values its edits produce: removing a
    row, changing a row's year end, adding the next year, seeding a contiguous run of years,
    and synthesising the row for the final scheme year before a calculation. The ledger is
    kept in ascending year-end order, as the tool re-sorts it after every edit. */
module CareLedger {

  import opened Common
  import opened CareTables
  import opened CareRevaluation
  import opened CareRetirement

  /** A row that is in the ledger makes its year present. */
  lemma MemberHasYear(years: seq<Row>, r: Row)
    requires r in years
    ensures HasYear(years, r.yearEnd)
  {
    var i :| 0 <= i < |years| && years[i] == r;
  }

  /** In an ascending ledger the row found for a year is the only row with that year. */
  lemma {:induction false} FindYearUnique(years: seq<Row>, r: Row)
    requires Ascending(years) && r in years
    ensures FindYear(years, r.yearEnd) == Some(r)
    decreases |years|
  {
    if years[0] != r {
      var i :| 0 <= i < |years| && years[i] == r;
      assert i > 0;
      assert years[0].yearEnd < r.yearEnd;
      assert years[1..][i - 1] == r;
      FindYearUnique(years[1..], r);
    }
  }

  /** `years.splice(idx, 1)`. */
  function RemoveAt(years: seq<Row>, idx: int): (out: seq<Row>)
    requires 0 <= idx < |years|
    ensures |out| == |years| - 1
    ensures forall i :: 0 <= i < idx ==> out[i] == years[i]
    ensures forall i :: idx <= i < |out| ==> out[i] == years[i + 1]
  {
    years[..idx] + years[idx + 1..]
  }

  /** Removing a row keeps the ledger ascending and removes exactly that row. */
  lemma RemoveAtProperties(years: seq<Row>, idx: int)
    requires 0 <= idx < |years|
    ensures Ascending(years) ==> Ascending(RemoveAt(years, idx))
    ensures multiset(RemoveAt(years, idx)) == multiset(years) - multiset{years[idx]}
  {
    assert years == years[..idx] + [years[idx]] + years[idx + 1..];
  }

  /** A year is held by the ledger without row idx exactly when some other row holds it. */
  lemma RemoveAtHasYear(years: seq<Row>, idx: int, y: int)
    requires 0 <= idx < |years|
    ensures HasYear(RemoveAt(years, idx), y)
        <==> exists j :: 0 <= j < |years| && j != idx && years[j].yearEnd == y
  {
    var out := RemoveAt(years, idx);
    if HasYear(out, y) {
      var i :| 0 <= i < |out| && out[i].yearEnd == y;
      if i < idx {
        assert years[i].yearEnd == y;
      } else {
        assert years[i + 1].yearEnd == y;
      }
    }
    if exists j :: 0 <= j < |years| && j != idx && years[j].yearEnd == y {
      var j :| 0 <= j < |years| && j != idx && years[j].yearEnd == y;
      if j < idx {
        assert out[j].yearEnd == y;
      } else {
        assert out[j - 1].yearEnd == y;
      }
    }
  }

  /** A year-end input as `parseInt(value || fallback, 10)` reads it: blank (the fallback is
      read instead), text that reads as NaN (such as ".5", which a number input accepts), or
      the integer read. */
  datatype YearInput = BlankYear | NaNYear | YearOf(value: int)

  /** The year end an input stands for, or None for NaN. */
  function InputYear(entered: YearInput, fallback: int): Option<int> {
    match entered
    case BlankYear => Some(fallback)
    case NaNYear => None
    case YearOf(v) => Some(v)
  }

  /** The year end an edit of row idx stands for. */
  function EnteredYearEnd(years: seq<Row>, idx: int, entered: YearInput): Option<int>
    requires 0 <= idx < |years|
  {
    InputYear(entered, years[idx].yearEnd)
  }

  /** The year-end editor accepts a year end that is a number, at least 2016 and not the
      year end of another row. */
  predicate YearEndAccepted(years: seq<Row>, idx: int, entered: YearInput)
    requires 0 <= idx < |years|
  {
    var v := EnteredYearEnd(years, idx, entered);
    v.Some? && v.value >= 2016 && !(exists j :: 0 <= j < |years| && j != idx && years[j].yearEnd == v.value)
  }

  /** The edited row: the new year end, that year's ARA from the table when the table has
      one and otherwise the row's own, and the same pay. */
  function EditedRow(r: Row, v: int, table: map<int, real>): Row {
    Row(v, if v in table then table[v] else r.ara, r.pay)
  }

  /** The ledger after editing row idx's year end, re-sorted. */
  function YearEndEdited(years: seq<Row>, idx: int, entered: YearInput, table: map<int, real>): (out: seq<Row>)
    requires Ascending(years) && 0 <= idx < |years|
    ensures Ascending(out)
    ensures !YearEndAccepted(years, idx, entered) ==> out == years
    ensures YearEndAccepted(years, idx, entered) ==>
      multiset(out) == multiset(years) - multiset{years[idx]}
        + multiset{EditedRow(years[idx], EnteredYearEnd(years, idx, entered).value, table)}
  {
    if !YearEndAccepted(years, idx, entered) then years
    else
      var v := EnteredYearEnd(years, idx, entered).value;
      RemoveAtProperties(years, idx);
      RemoveAtHasYear(years, idx, v);
      InsertByYear(RemoveAt(years, idx), EditedRow(years[idx], v, table))
  }

  /** An accepted edit changes only the edited row: the ledger keeps its length, every other
      row is still there, and the edited row now carries the new year end. */
  lemma EditKeepsOtherRows(years: seq<Row>, idx: int, entered: YearInput, table: map<int, real>)
    requires Ascending(years) && 0 <= idx < |years| && YearEndAccepted(years, idx, entered)
    ensures var out := YearEndEdited(years, idx, entered, table);
      var v := EnteredYearEnd(years, idx, entered).value;
      && |out| == |years|
      && EditedRow(years[idx], v, table) in out
      && HasYear(out, v)
      && forall j :: 0 <= j < |years| && j != idx ==> years[j] in out
  {
    var out := YearEndEdited(years, idx, entered, table);
    var e := EditedRow(years[idx], EnteredYearEnd(years, idx, entered).value, table);
    assert |multiset(out)| == |multiset(years)|;
    assert e in multiset(out);
    MemberHasYear(out, e);
    forall j | 0 <= j < |years| && j != idx ensures years[j] in out {
      assert years[j] != years[idx];
      assert years[j] in multiset(years);
      assert years[j] in multiset(out);
    }
  }

  /** In an ascending ledger no other row shares row idx's year end. */
  lemma {:induction false} OwnYearUnique(years: seq<Row>, idx: int)
    requires Ascending(years) && 0 <= idx < |years|
    ensures Ascending(RemoveAt(years, idx)) && !HasYear(RemoveAt(years, idx), years[idx].yearEnd)
  {
    RemoveAtProperties(years, idx);
    RemoveAtHasYear(years, idx, years[idx].yearEnd);
    forall j | 0 <= j < |years| && j != idx ensures years[j].yearEnd != years[idx].yearEnd {
      if j < idx {
        assert years[j].yearEnd < years[idx].yearEnd;
      } else {
        assert years[idx].yearEnd < years[j].yearEnd;
      }
    }
  }

  /** A row below every year end of the ledger is inserted at its front. */
  lemma InsertAtFront(s: seq<Row>, r: Row)
    requires Ascending(s) && !HasYear(s, r.yearEnd) && (s == [] || r.yearEnd < s[0].yearEnd)
    ensures InsertByYear(s, r) == [r] + s
  {
  }

  /** The tail of an ascending ledger without a year is ascending and still without it. */
  lemma TailWithout(s: seq<Row>, y: int)
    requires Ascending(s) && !HasYear(s, y) && s != []
    ensures Ascending(s[1..]) && !HasYear(s[1..], y)
  {
    HasYearTail(s, y);
  }

  /** Splitting at k > 0 is taking the head off and splitting the tail at k - 1. */
  lemma SplitAfterHead(s: seq<Row>, k: int, r: Row)
    requires 0 < k <= |s|
    ensures s[..k] + [r] + s[k..] == [s[0]] + (s[1..][..k - 1] + [r] + s[1..][k - 1..])
  {
    var t := s[1..];
    assert s[..k] == [s[0]] + t[..k - 1];
    assert s[k..] == t[k - 1..];
  }

  /** The bounds of a row inserted between rows k-1 and k carry over to the tail. */
  lemma BetweenInTail(s: seq<Row>, k: int, r: Row)
    requires Ascending(s) && 0 < k <= |s|
    requires s[k - 1].yearEnd < r.yearEnd
    requires k == |s| || r.yearEnd < s[k].yearEnd
    ensures s[0].yearEnd < r.yearEnd
    ensures k - 1 == 0 || s[1..][k - 2].yearEnd < r.yearEnd
    ensures k - 1 == |s[1..]| || r.yearEnd < s[1..][k - 1].yearEnd
  {
    if k > 1 {
      assert s[0].yearEnd < s[k - 1].yearEnd;
    }
  }

  /** A row above the ledger's first year end, inserted at k - 1 in the tail, is inserted at
      k in the ledger. */
  lemma InsertPastHead(s: seq<Row>, k: int, r: Row)
    requires Ascending(s) && !HasYear(s, r.yearEnd) && 0 < k <= |s| && s[0].yearEnd < r.yearEnd
    requires Ascending(s[1..]) && !HasYear(s[1..], r.yearEnd)
    requires InsertByYear(s[1..], r) == s[1..][..k - 1] + [r] + s[1..][k - 1..]
    ensures InsertByYear(s, r) == s[..k] + [r] + s[k..]
  {
    HasYearTail(s, r.yearEnd);
    SplitAfterHead(s, k, r);
  }

  /** A row whose year end falls between rows k-1 and k is inserted at index k. */
  lemma {:induction false} InsertBetween(s: seq<Row>, k: int, r: Row)
    requires Ascending(s) && !HasYear(s, r.yearEnd) && 0 <= k <= |s|
    requires k == 0 || s[k - 1].yearEnd < r.yearEnd
    requires k == |s| || r.yearEnd < s[k].yearEnd
    ensures InsertByYear(s, r) == s[..k] + [r] + s[k..]
  {
    if k == 0 {
      InsertAtFront(s, r);
      assert s[..0] + [r] + s[0..] == [r] + s;
    } else {
      BetweenInTail(s, k, r);
      TailWithout(s, r.yearEnd);
      InsertBetween(s[1..], k - 1, r);
      InsertPastHead(s, k, r);
    }
  }

  /** Replacing row idx is removing it and inserting the new row at idx. */
  lemma UpdateIsRemoveInsert(years: seq<Row>, idx: int, r: Row)
    requires 0 <= idx < |years|
    ensures years[idx := r] == RemoveAt(years, idx)[..idx] + [r] + RemoveAt(years, idx)[idx..]
  {
    var rest := RemoveAt(years, idx);
    assert rest[..idx] == years[..idx];
    assert rest[idx..] == years[idx + 1..];
  }

  /** Re-inserting a row under the year end it was removed from puts it back in its place. */
  lemma ReinsertInPlace(years: seq<Row>, idx: int, r: Row)
    requires Ascending(years) && 0 <= idx < |years| && r.yearEnd == years[idx].yearEnd
    ensures Ascending(RemoveAt(years, idx)) && !HasYear(RemoveAt(years, idx), r.yearEnd)
    ensures InsertByYear(RemoveAt(years, idx), r) == years[idx := r]
  {
    OwnYearUnique(years, idx);
    var rest := RemoveAt(years, idx);
    if idx > 0 {
      assert rest[idx - 1] == years[idx - 1];
    }
    if idx < |rest| {
      assert rest[idx] == years[idx + 1];
    }
    InsertBetween(rest, idx, r);
    UpdateIsRemoveInsert(years, idx, r);
  }

  /** A blank year-end field re-enters the row's own year end: when that is at least 2016
      the row keeps its place and reloads that year's ARA from the table (or keeps its own
      when the table has none); below 2016 nothing changes. */
  lemma BlankEditReloadsAra(years: seq<Row>, idx: int, table: map<int, real>)
    requires Ascending(years) && 0 <= idx < |years|
    ensures years[idx].yearEnd >= 2016 ==>
      YearEndEdited(years, idx, BlankYear, table) == years[idx := EditedRow(years[idx], years[idx].yearEnd, table)]
    ensures years[idx].yearEnd < 2016 ==> YearEndEdited(years, idx, BlankYear, table) == years
  {
    if years[idx].yearEnd >= 2016 {
      var r := EditedRow(years[idx], years[idx].yearEnd, table);
      OwnYearUnique(years, idx);
      RemoveAtHasYear(years, idx, years[idx].yearEnd);
      ReinsertInPlace(years, idx, r);
    }
  }

  /** `(ledger.at(-1)?.yearEnd || 2025)`: the last year end, with 2025 for an empty ledger
      and for a last year end of 0 (which `||` treats as missing). */
  function LedgerLastYear(years: seq<Row>): int {
    if years == [] || years[|years| - 1].yearEnd == 0 then 2025 else years[|years| - 1].yearEnd
  }

  /** The year the "add year" button appends. */
  function NextLedgerYear(years: seq<Row>): int {
    LedgerLastYear(years) + 1
  }

  /** The appended year is later than every year of an ascending ledger. */
  lemma NextYearIsLatest(years: seq<Row>)
    requires Ascending(years)
    ensures forall r :: r in years ==> r.yearEnd < NextLedgerYear(years)
  {
    forall r | r in years ensures r.yearEnd < NextLedgerYear(years) {
      var i :| 0 <= i < |years| && years[i] == r;
      if i < |years| - 1 {
        assert years[i].yearEnd < years[|years| - 1].yearEnd;
      }
    }
  }

  /** Appending a row later than every row keeps the ledger ascending. */
  lemma AppendLatest(years: seq<Row>, r: Row)
    requires Ascending(years)
    requires forall x :: x in years ==> x.yearEnd < r.yearEnd
    ensures Ascending(years + [r])
  {
    var out := years + [r];
    forall i, j | 0 <= i < j < |out| ensures out[i].yearEnd < out[j].yearEnd {
      if j == |years| {
        assert out[i] in years;
      }
    }
  }

  /** `araTable[y] ?? NHS_ARA_SET[y] ?? 0`: a seeded row's ARA. */
  function SeedAra(table: map<int, real>, y: int): real {
    if y in table then table[y] else Ara(NhsAraSet, y)
  }

  /** `seedYears`'s list: one zero-pay row per year end 2016 .. F, in order. */
  function SeedLedger(finalYear: int, table: map<int, real>): (s: seq<Row>)
    ensures |s| == Max(0, finalYear - 2015)
    ensures forall i :: 0 <= i < |s| ==> s[i].yearEnd == 2016 + i && s[i].pay == 0.0
    ensures Ascending(s)
    decreases finalYear
  {
    if finalYear < 2016 then []
    else SeedLedger(finalYear - 1, table) + [Row(finalYear, SeedAra(table, finalYear), 0.0)]
  }

  lemma SeedLedgerSnoc(finalYear: int, table: map<int, real>)
    requires finalYear >= 2016
    ensures SeedLedger(finalYear, table) == SeedLedger(finalYear - 1, table) + [Row(finalYear, SeedAra(table, finalYear), 0.0)]
  {
  }

  lemma SeedLedgerEmpty(finalYear: int, table: map<int, real>)
    requires finalYear < 2016
    ensures SeedLedger(finalYear, table) == SeedLedger(2015, table) == []
  {
  }

  /** A seeded ledger holds exactly the years 2016 .. F, each once, each with its seeded
      ARA. */
  lemma SeedLedgerYears(finalYear: int, table: map<int, real>, y: int)
    ensures HasYear(SeedLedger(finalYear, table), y) <==> 2016 <= y <= finalYear
    ensures 2016 <= y <= finalYear ==>
      FindYear(SeedLedger(finalYear, table), y) == Some(Row(y, SeedAra(table, y), 0.0))
  {
    var s := SeedLedger(finalYear, table);
    if 2016 <= y <= finalYear {
      SeedRowAt(finalYear, table, y - 2016);
      assert s[y - 2016] in s;
      FindYearUnique(s, s[y - 2016]);
    }
  }

  lemma {:induction false} SeedRowAt(finalYear: int, table: map<int, real>, i: int)
    requires 0 <= i < |SeedLedger(finalYear, table)|
    ensures SeedLedger(finalYear, table)[i] == Row(2016 + i, SeedAra(table, 2016 + i), 0.0)
    decreases finalYear
  {
    var s := SeedLedger(finalYear, table);
    if i < |s| - 1 {
      SeedRowAt(finalYear - 1, table, i);
      assert s[i] == SeedLedger(finalYear - 1, table)[i];
    }
  }

  /** The ledger the tool starts with, `DEFAULT_YEARS`, is the seeded ledger for year end
      2025 under the built-in rates: one zero-pay row per built-in year, with its rate. */
  lemma DefaultLedgerIsSeeded(y: int)
    requires y in NhsAraSet
    ensures FindYear(SeedLedger(2025, NhsAraSet), y) == Some(Row(y, NhsAraSet[y], 0.0))
  {
    assert 2016 <= y <= 2025;
    SeedLedgerYears(2025, NhsAraSet, y);
  }

  /** The final scheme year F of a calculation: the retirement date's scheme year, or the
      ledger's last year end when there is no date. */
  function FinalYearEnd(retDate: Option<Date>, years: seq<Row>): int {
    match retDate
    case Some(d) => SchemeYearEndForDate(d)
    case None => LedgerLastYear(years)
  }

  /** The row synthesised for the final year when the ledger has none. */
  function FinalYearRow(table: map<int, real>, finalYear: int): Row {
    Row(finalYear, Ara(table, finalYear), 0.0)
  }

  /** The ledger with a row for the final year: unchanged when it has one, otherwise with a
      zero-pay row for F inserted in year order. */
  function WithFinalRow(years: seq<Row>, table: map<int, real>, finalYear: int): seq<Row>
    requires Ascending(years)
  {
    if HasYear(years, finalYear) then years else InsertByYear(years, FinalYearRow(table, finalYear))
  }

  /** The ledger with its final row stays in year order and holds the final year: it is the
      ledger itself when that already held it, and the ledger plus the synthesised row
      otherwise. */
  lemma WithFinalRowShape(years: seq<Row>, table: map<int, real>, finalYear: int)
    requires Ascending(years)
    ensures var out := WithFinalRow(years, table, finalYear);
      && Ascending(out) && HasYear(out, finalYear)
      && (HasYear(years, finalYear) ==> out == years)
      && (!HasYear(years, finalYear) ==> multiset(out) == multiset(years) + multiset{FinalYearRow(table, finalYear)})
  {
    if !HasYear(years, finalYear) {
      var out := WithFinalRow(years, table, finalYear);
      assert FinalYearRow(table, finalYear) in multiset(out);
      MemberHasYear(out, FinalYearRow(table, finalYear));
    }
  }

  /** When the final row has to be synthesised, it is the row the calculation finds for F:
      its accrual, and so the part-year entry, is 0. */
  lemma SynthesisedFinalRowFound(years: seq<Row>, table: map<int, real>, finalYear: int)
    requires Ascending(years) && !HasYear(years, finalYear)
    ensures FindYear(WithFinalRow(years, table, finalYear), finalYear) == Some(FinalYearRow(table, finalYear))
    ensures Accrual(FindYear(WithFinalRow(years, table, finalYear), finalYear).value.pay) == 0.0
  {
    WithFinalRowShape(years, table, finalYear);
    var out := WithFinalRow(years, table, finalYear);
    assert FinalYearRow(table, finalYear) in multiset(out);
    FindYearUnique(out, FinalYearRow(table, finalYear));
  }

  /** Without a retirement date, a ledger whose last year end is not 0 already holds the
      final year, so nothing is synthesised. */
  lemma NoDateUsesLastRow(years: seq<Row>, table: map<int, real>)
    requires Ascending(years) && years != [] && years[|years| - 1].yearEnd != 0
    ensures WithFinalRow(years, table, FinalYearEnd(None, years)) == years
  {
    assert years[|years| - 1] in years;
    MemberHasYear(years, years[|years| - 1]);
  }
}
