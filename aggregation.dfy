/** Daily aggregation of the raw SRAG case table (one row per notified case)
    into the daily table, with the vaccination label of recent cases. */
module Aggregation {
  import opened Wrappers
  import opened Calendar
  import opened Seqs
  import opened DailyTable

  /** A numeric survey code; `None` is a missing value (NaN). */
  type Code = Option<int>

  /** One row of the raw case table `df_srag`. The notification date is never
      null. `nuCasos` and `vacinado` are the two columns the pipeline adds:
      `nuCasos` is overwritten by `AddCaseCounts`, `vacinado` is `None` until
      `LabelVaccinationStatus` writes it. */
  datatype CaseRecord = CaseRecord(
    date: Date,              // DT_NOTIFIC
    notifId: Option<int>,    // NU_NOTIFIC
    evolucao: Code,          // EVOLUCAO: 2 = death
    uti: Code,               // UTI: 1 = admitted to an ICU
    vacina: Code,            // VACINA (influenza vaccine): 1 yes, 2 no, 9 ignored
    vacinaCov: Code,         // VACINA_COV (COVID-19 vaccine): 1 yes, 2 no, 9 ignored
    classiFin: Code,         // CLASSI_FIN: 1 influenza, 2 other virus, 3 other agent, 4 unspecified, 5 COVID-19
    nuCasos: nat,            // NU_CASOS
    vacinado: Option<int>)   // VACINADO

  /** Length in days of the trailing window in which cases are labelled. */
  const VaccinationWindowDays := 30

  // ---------------------------------------------------------------------
  // Vaccination label
  // ---------------------------------------------------------------------

  /** `classify_row`: 1 (vaccinated) or 0 (not vaccinated). Influenza cases
      look only at the influenza vaccine, COVID-19 cases only at the COVID-19
      vaccine, every other classification (missing included) needs both.
      An ignored or missing vaccine code counts as "no"; the rule never
      yields an "unknown" label. */
  function ClassifyRow(r: CaseRecord): (v: int)
    ensures v == 0 || v == 1
    ensures r.classiFin == Some(1) ==> (v == 1 <==> r.vacina == Some(1))
    ensures r.classiFin == Some(5) ==> (v == 1 <==> r.vacinaCov == Some(1))
    ensures r.classiFin != Some(1) && r.classiFin != Some(5) ==>
              (v == 1 <==> r.vacina == Some(1) && r.vacinaCov == Some(1))
  {
    if r.classiFin == Some(1) then
      (if r.vacina == Some(1) then 1 else 0)
    else if r.classiFin == Some(5) then
      (if r.vacinaCov == Some(1) then 1 else 0)
    else
      (if r.vacina == Some(1) && r.vacinaCov == Some(1) then 1 else 0)
  }

  /** The label reads only the three coded fields: two rows that agree on
      them get the same label, whatever else differs. */
  lemma ClassifyRowReadsOnlyCodes(a: CaseRecord, b: CaseRecord)
    requires a.classiFin == b.classiFin && a.vacina == b.vacina && a.vacinaCov == b.vacinaCov
    ensures ClassifyRow(a) == ClassifyRow(b)
  {
  }

  /** `label_vaccination_status`: a copy of the table with the `VACINADO`
      column set row by row; no row is added, dropped or reordered. */
  function LabelVaccinationStatus(rows: seq<CaseRecord>): (r: seq<CaseRecord>)
    ensures |r| == |rows|
    ensures forall i :: 0 <= i < |rows| ==>
              r[i].vacinado == Some(ClassifyRow(rows[i])) && r[i].(vacinado := rows[i].vacinado) == rows[i]
  {
    seq(|rows|, i requires 0 <= i < |rows| => rows[i].(vacinado := Some(ClassifyRow(rows[i]))))
  }

  function DatesOf(rows: seq<CaseRecord>): (ds: seq<Date>)
    ensures |ds| == |rows|
    ensures forall i :: 0 <= i < |rows| ==> ds[i] == rows[i].date
  {
    seq(|rows|, i requires 0 <= i < |rows| => rows[i].date)
  }

  /** `filter_df_srag_for_vacc_label`: the rows of the trailing 30-day window
      that ends, inclusively, at the latest notification date. An empty table
      stays empty (its maximum is NaT and no comparison with NaT holds). */
  function FilterForVaccLabel(rows: seq<CaseRecord>): (r: seq<CaseRecord>)
    ensures |rows| == 0 ==> r == []
    ensures |rows| > 0 ==> forall x :: x in r <==>
              x in rows && Ordinal(MaxDate(DatesOf(rows))) - Ordinal(x.date) < VaccinationWindowDays
  {
    if |rows| == 0 then []
    else Filter(rows, NotifiedFrom(VaccinationWindowStart(rows)))
  }

  /** First day of the labelling window: 29 days before the latest date. */
  function VaccinationWindowStart(rows: seq<CaseRecord>): int
    requires |rows| > 0
  {
    Ordinal(MaxDate(DatesOf(rows))) - (VaccinationWindowDays - 1)
  }

  /** The mask `df["DT_NOTIFIC"] >= start`. */
  function NotifiedFrom(start: int): CaseRecord -> bool {
    (x: CaseRecord) => Ordinal(x.date) >= start
  }

  /** The rows notified on the latest date are always labelled. */
  lemma LatestRowsAreLabelled(rows: seq<CaseRecord>, x: CaseRecord)
    requires x in rows
    requires forall y :: y in rows ==> Ordinal(y.date) <= Ordinal(x.date)
    ensures x in FilterForVaccLabel(rows)
  {
    var m := MaxDate(DatesOf(rows));
    var i :| 0 <= i < |rows| && rows[i] == x;
    assert DatesOf(rows)[i] == x.date;
    var j :| 0 <= j < |rows| && DatesOf(rows)[j] == m;
    assert rows[j] in rows;
  }

  // ---------------------------------------------------------------------
  // Group sizes
  // ---------------------------------------------------------------------

  /** Number of rows notified on date `d` (the size of that `groupby` group). */
  function RowsOn(rows: seq<CaseRecord>, d: Date): nat {
    if |rows| == 0 then 0
    else RowsOn(rows[..|rows| - 1], d) + (if rows[|rows| - 1].date == d then 1 else 0)
  }

  predicate HasId(r: CaseRecord) { r.notifId.Some? }
  predicate IsDeath(r: CaseRecord) { r.evolucao == Some(2) }
  predicate InIcu(r: CaseRecord) { r.uti == Some(1) }
  predicate IsLabelledVaccinated(r: CaseRecord) { r.vacinado == Some(1) }
  predicate IsVaccinatedCase(r: CaseRecord) { ClassifyRow(r) == 1 }

  /** `NU_CASOS` of date `d`: `groupby("DT_NOTIFIC")["NU_NOTIFIC"].count()`,
      which counts the rows of that date whose notification id is not null. */
  function CasesOn(rows: seq<CaseRecord>, d: Date): nat {
    RowsOn(Filter(rows, HasId), d)
  }

  lemma RowsOnSnoc(rows: seq<CaseRecord>, x: CaseRecord, d: Date)
    ensures RowsOn(rows + [x], d) == RowsOn(rows, d) + (if x.date == d then 1 else 0)
  {
    assert (rows + [x])[..|rows|] == rows;
  }

  /** A date has rows exactly when it occurs among the row dates. */
  lemma {:induction false} RowsOnPositive(rows: seq<CaseRecord>, d: Date)
    ensures RowsOn(rows, d) > 0 <==> d in DatesOf(rows)
  {
    if |rows| > 0 {
      var rows' := rows[..|rows| - 1];
      RowsOnPositive(rows', d);
      assert DatesOf(rows) == DatesOf(rows') + [rows[|rows| - 1].date];
    }
  }

  /** A selection never has more rows on a date than the table. */
  lemma {:induction false} RowsOnFilterAtMost(rows: seq<CaseRecord>, p: CaseRecord -> bool, d: Date)
    ensures RowsOn(Filter(rows, p), d) <= RowsOn(rows, d)
  {
    if |rows| > 0 {
      var rows' := rows[..|rows| - 1];
      var x := rows[|rows| - 1];
      assert rows == rows' + [x];
      RowsOnFilterAtMost(rows', p, d);
      FilterSnoc(rows', x, p);
      if p(x) {
        RowsOnSnoc(Filter(rows', p), x, d);
      } else {
        assert Filter(rows, p) == Filter(rows', p);
      }
    }
  }

  /** Group sizes of two row-by-row corresponding tables agree when the
      corresponding rows have the same date and the same mask value. */
  lemma {:induction false} RowsOnCorresponding(a: seq<CaseRecord>, b: seq<CaseRecord>,
                                               p: CaseRecord -> bool, q: CaseRecord -> bool, d: Date)
    requires |a| == |b|
    requires forall i :: 0 <= i < |a| ==> a[i].date == b[i].date && p(a[i]) == q(b[i])
    ensures RowsOn(Filter(a, p), d) == RowsOn(Filter(b, q), d)
  {
    if |a| > 0 {
      var n := |a| - 1;
      assert a == a[..n] + [a[n]];
      assert b == b[..n] + [b[n]];
      RowsOnCorresponding(a[..n], b[..n], p, q, d);
      FilterSnoc(a[..n], a[n], p);
      FilterSnoc(b[..n], b[n], q);
      if p(a[n]) {
        RowsOnSnoc(Filter(a[..n], p), a[n], d);
        RowsOnSnoc(Filter(b[..n], q), b[n], d);
      } else {
        assert Filter(a, p) == Filter(a[..n], p);
        assert Filter(b, q) == Filter(b[..n], q);
      }
    }
  }

  /** A first selection that keeps either all or none of the rows of date `d`
      leaves the group of `d` in a second selection either whole or empty. */
  lemma {:induction false} RowsOnDateMask(rows: seq<CaseRecord>, p: CaseRecord -> bool,
                                          q: CaseRecord -> bool, d: Date, keep: bool)
    requires forall x :: x in rows && x.date == d ==> p(x) == keep
    ensures RowsOn(Filter(Filter(rows, p), q), d) == if keep then RowsOn(Filter(rows, q), d) else 0
  {
    if |rows| > 0 {
      var rows' := rows[..|rows| - 1];
      var x := rows[|rows| - 1];
      assert rows == rows' + [x];
      assert x in rows;
      RowsOnDateMask(rows', p, q, d, keep);
      FilterSnoc(rows', x, p);
      FilterSnoc(rows', x, q);
      if p(x) {
        FilterSnoc(Filter(rows', p), x, q);
        if q(x) {
          RowsOnSnoc(Filter(Filter(rows', p), q), x, d);
          RowsOnSnoc(Filter(rows', q), x, d);
        } else {
          assert Filter(Filter(rows, p), q) == Filter(Filter(rows', p), q);
          assert Filter(rows, q) == Filter(rows', q);
        }
      } else {
        assert Filter(rows, p) == Filter(rows', p);
        if q(x) {
          RowsOnSnoc(Filter(rows', q), x, d);
        } else {
          assert Filter(rows, q) == Filter(rows', q);
        }
      }
    }
  }

  /** `df[mask].groupby("DT_NOTIFIC")[col].count()`: one entry per date that
      has at least one selected row, holding the number of such rows. */
  function GroupCount(rows: seq<CaseRecord>): (m: map<Date, nat>)
    ensures forall d :: d in m <==> RowsOn(rows, d) > 0
    ensures forall d :: d in m ==> m[d] == RowsOn(rows, d)
  {
    forall d ensures RowsOn(rows, d) > 0 <==> d in DatesOf(rows) {
      RowsOnPositive(rows, d);
    }
    map d | d in DatesOf(rows) :: RowsOn(rows, d)
  }

  // ---------------------------------------------------------------------
  // The NU_CASOS column, added in place
  // ---------------------------------------------------------------------

  /** The raw table after line `df_srag["NU_CASOS"] = ...transform(count)`:
      every row gets the case count of its own date. */
  function WithCaseCounts(rows: seq<CaseRecord>): (r: seq<CaseRecord>)
    ensures |r| == |rows|
    ensures forall i :: 0 <= i < |rows| ==>
              r[i].nuCasos == CasesOn(rows, rows[i].date) && r[i].(nuCasos := rows[i].nuCasos) == rows[i]
  {
    seq(|rows|, i requires 0 <= i < |rows| => rows[i].(nuCasos := CasesOn(rows, rows[i].date)))
  }

  lemma CasesOnSnoc(rows: seq<CaseRecord>, x: CaseRecord, d: Date)
    ensures CasesOn(rows + [x], d) == CasesOn(rows, d) + (if HasId(x) && x.date == d then 1 else 0)
  {
    FilterSnoc(rows, x, HasId);
    if HasId(x) {
      RowsOnSnoc(Filter(rows, HasId), x, d);
    } else {
      assert Filter(rows + [x], HasId) == Filter(rows, HasId);
    }
  }

  /** Counts the rows of date `d` with a notification id. */
  method CountCasesOn(rows: seq<CaseRecord>, d: Date) returns (n: nat)
    ensures n == CasesOn(rows, d)
  {
    n := 0;
    var k := 0;
    while k < |rows|
      invariant 0 <= k <= |rows|
      invariant n == CasesOn(rows[..k], d)
    {
      assert rows[..k + 1] == rows[..k] + [rows[k]];
      CasesOnSnoc(rows[..k], rows[k], d);
      if rows[k].notifId.Some? && rows[k].date == d {
        n := n + 1;
      }
      k := k + 1;
    }
    assert rows[..k] == rows;
  }

  /** Writes the `NU_CASOS` column into the caller's table, as the `transform`
      assignment does: every row gets the count of its date, computed on the
      table as it was before the assignment; nothing else changes. */
  method AddCaseCounts(srag: array<CaseRecord>)
    modifies srag
    ensures srag[..] == WithCaseCounts(old(srag[..]))
  {
    var before := srag[..];
    var i := 0;
    while i < srag.Length
      invariant 0 <= i <= srag.Length
      invariant forall j :: 0 <= j < i ==> srag[j] == before[j].(nuCasos := CasesOn(before, before[j].date))
      invariant forall j :: i <= j < srag.Length ==> srag[j] == before[j]
    {
      var n := CountCasesOn(before, before[i].date);
      srag[i] := before[i].(nuCasos := n);
      i := i + 1;
    }
  }

  // ---------------------------------------------------------------------
  // The daily table
  // ---------------------------------------------------------------------

  /** `df_srag[["DT_NOTIFIC", "NU_CASOS"]]`: the (date, count) pair of every row. */
  function CountPairs(t: seq<CaseRecord>): (r: seq<DailyRow>)
    ensures |r| == |t|
    ensures forall i :: 0 <= i < |t| ==> r[i] == DailyRow(t[i].date, t[i].nuCasos, None, None, None)
  {
    seq(|t|, i requires 0 <= i < |t| => DailyRow(t[i].date, t[i].nuCasos, None, None, None))
  }

  /** `.drop_duplicates()` of those pairs: each distinct pair once, in order of
      first appearance. */
  function BaseTable(t: seq<CaseRecord>): (r: seq<DailyRow>)
    ensures NoDuplicates(r)
    ensures forall x :: x in r <==> x in CountPairs(t)
  {
    Distinct(CountPairs(t))
  }

  /** The value a left merge puts in a row: NaN when the right side has no
      entry for the row's date. */
  function Lookup(m: map<Date, nat>, d: Date): Option<nat> {
    if d in m then Some(m[d]) else None
  }

  /** A count that pandas reports only when positive: groups exist only for
      dates that have a matching row. */
  function Present(n: nat): Option<nat> {
    if n > 0 then Some(n) else None
  }

  function SetColumn(r: DailyRow, c: Column, v: Option<nat>): DailyRow
    requires c != NuCasos
  {
    match c
    case NuObitos => r.(deaths := v)
    case NuUti => r.(icu := v)
    case NuVacinados => r.(vaccinated := v)
  }

  /** `df.merge(right, on="DT_NOTIFIC", how="left")` with a right side that
      has one entry per date: no row is added, dropped or moved; column `c`
      gets the right side's value for the row's date or NaN; every other
      column keeps its value. */
  function LeftMerge(table: seq<DailyRow>, m: map<Date, nat>, c: Column): (r: seq<DailyRow>)
    requires c != NuCasos
    ensures |r| == |table|
    ensures forall i :: 0 <= i < |table| ==>
              r[i].date == table[i].date
              && Cell(r[i], c) == Lookup(m, table[i].date)
              && forall c' :: c' != c ==> Cell(r[i], c') == Cell(table[i], c')
  {
    seq(|table|, i requires 0 <= i < |table| => SetColumn(table[i], c, Lookup(m, table[i].date)))
  }

  /** Lines 53-109 of `generate_df_daily_info`, on the table that already has
      its `NU_CASOS` column. */
  function DailyFrom(t: seq<CaseRecord>): seq<DailyRow> {
    var deaths := GroupCount(Filter(t, IsDeath));
    var icu := GroupCount(Filter(t, InIcu));
    var labelled := LabelVaccinationStatus(FilterForVaccLabel(t));
    var vaccinated := GroupCount(Filter(labelled, IsLabelledVaccinated));
    var table := LeftMerge(BaseTable(t), deaths, NuObitos);
    var table := LeftMerge(table, icu, NuUti);
    LeftMerge(table, vaccinated, NuVacinados)
  }

  /** `generate_df_daily_info` as a function of the raw table. */
  function DailyInfo(srag: seq<CaseRecord>): seq<DailyRow> {
    DailyFrom(WithCaseCounts(srag))
  }

  /** `generate_df_daily_info`: adds `NU_CASOS` to the caller's table in place
      and returns the daily table. */
  method GenerateDailyInfo(srag: array<CaseRecord>) returns (daily: seq<DailyRow>)
    modifies srag
    ensures srag[..] == WithCaseCounts(old(srag[..]))
    ensures daily == DailyInfo(old(srag[..]))
  {
    AddCaseCounts(srag);
    daily := DailyFrom(srag[..]);
  }

  // ---------------------------------------------------------------------
  // What the daily table holds
  // ---------------------------------------------------------------------

  /** Deaths notified on `d`. */
  function DeathsOn(srag: seq<CaseRecord>, d: Date): nat {
    RowsOn(Filter(srag, IsDeath), d)
  }

  /** ICU admissions notified on `d`. */
  function IcuOn(srag: seq<CaseRecord>, d: Date): nat {
    RowsOn(Filter(srag, InIcu), d)
  }

  /** Is `d` within the 30 days that end at the latest notification date? */
  predicate InVaccinationWindow(srag: seq<CaseRecord>, d: Date) {
    |srag| > 0 && Ordinal(MaxDate(DatesOf(srag))) - Ordinal(d) < VaccinationWindowDays
  }

  /** Vaccinated cases notified on `d`, counted only inside the window. */
  function VaccinatedOn(srag: seq<CaseRecord>, d: Date): nat {
    if InVaccinationWindow(srag, d) then RowsOn(Filter(srag, IsVaccinatedCase), d) else 0
  }

  // ---------------------------------------------------------------------
  // Properties of the daily table
  // ---------------------------------------------------------------------

  /** Recomputing `NU_CASOS` on a table that already has it changes
      nothing: the count reads only the dates and the ids. */
  lemma WithCaseCountsIdempotent(srag: seq<CaseRecord>)
    ensures WithCaseCounts(WithCaseCounts(srag)) == WithCaseCounts(srag)
  {
    var t := WithCaseCounts(srag);
    forall d
      ensures CasesOn(t, d) == CasesOn(srag, d)
    {
      RowsOnCorresponding(t, srag, HasId, HasId, d);
    }
  }

  /** Building the daily table twice from the same caller's table, once
      before and once after its `NU_CASOS` column was written, gives the
      same daily table. */
  lemma WithCaseCountsKeepsDailyInfo(srag: seq<CaseRecord>)
    ensures DailyInfo(WithCaseCounts(srag)) == DailyInfo(srag)
  {
    WithCaseCountsIdempotent(srag);
  }

  lemma DatesOfWithCaseCounts(srag: seq<CaseRecord>)
    ensures DatesOf(WithCaseCounts(srag)) == DatesOf(srag)
  {
  }

  /** The rows of `drop_duplicates` hold, for each date, the case count of
      that date; there is one row per distinct date of the raw table. */
  lemma BaseTableOfCounts(srag: seq<CaseRecord>)
    ensures forall x :: x in BaseTable(WithCaseCounts(srag)) ==>
              x == DailyRow(x.date, CasesOn(srag, x.date), None, None, None)
    ensures forall d :: d in TableDates(BaseTable(WithCaseCounts(srag))) <==> d in DatesOf(srag)
    ensures NoDuplicates(TableDates(BaseTable(WithCaseCounts(srag))))
  {
    var t := WithCaseCounts(srag);
    var pairs := CountPairs(t);
    var base := BaseTable(t);
    forall x | x in base
      ensures x == DailyRow(x.date, CasesOn(srag, x.date), None, None, None)
    {
      assert x in pairs;
      var j :| 0 <= j < |pairs| && pairs[j] == x;
    }
    forall d | d in DatesOf(srag)
      ensures d in TableDates(base)
    {
      var j :| 0 <= j < |srag| && DatesOf(srag)[j] == d;
      assert pairs[j] in pairs;
      var k :| 0 <= k < |base| && base[k] == pairs[j];
      assert TableDates(base)[k] == d;
    }
    forall d | d in TableDates(base)
      ensures d in DatesOf(srag)
    {
      var k :| 0 <= k < |base| && TableDates(base)[k] == d;
      assert base[k] in base;
      assert base[k] in pairs;
      var j :| 0 <= j < |pairs| && pairs[j] == base[k];
      assert DatesOf(srag)[j] == d;
    }
    forall i, j | 0 <= i < j < |base|
      ensures TableDates(base)[i] != TableDates(base)[j]
    {
      assert base[i] in base && base[j] in base;
      assert base[i] != base[j];
    }
  }

  /** The three left merges keep the base table's rows and dates, in order. */
  lemma MergesKeepRows(srag: seq<CaseRecord>)
    ensures TableDates(DailyInfo(srag)) == TableDates(BaseTable(WithCaseCounts(srag)))
    ensures forall i :: 0 <= i < |DailyInfo(srag)| ==>
              DailyInfo(srag)[i].cases == BaseTable(WithCaseCounts(srag))[i].cases
  {
    var t := WithCaseCounts(srag);
    var base := BaseTable(t);
    var t1 := LeftMerge(base, GroupCount(Filter(t, IsDeath)), NuObitos);
    var t2 := LeftMerge(t1, GroupCount(Filter(t, InIcu)), NuUti);
    var labelled := LabelVaccinationStatus(FilterForVaccLabel(t));
    var t3 := LeftMerge(t2, GroupCount(Filter(labelled, IsLabelledVaccinated)), NuVacinados);
    assert t3 == DailyInfo(srag);
    forall i | 0 <= i < |t3|
      ensures t3[i].cases == base[i].cases
    {
      assert Cell(t3[i], NuCasos) == Cell(t2[i], NuCasos) == Cell(t1[i], NuCasos) == Cell(base[i], NuCasos);
    }
  }

  /** `generate_df_daily_info` has exactly one row per distinct notification
      date of the raw table; an empty table gives an empty daily table. */
  lemma DailyInfoOneRowPerDate(srag: seq<CaseRecord>)
    ensures NoDuplicates(TableDates(DailyInfo(srag)))
    ensures forall d :: d in TableDates(DailyInfo(srag)) <==> d in DatesOf(srag)
    ensures |DailyInfo(srag)| <= |srag|
  {
    BaseTableOfCounts(srag);
    MergesKeepRows(srag);
  }

  /** The vaccinated group size of the labelled window, in terms of the raw
      table. */
  lemma VaccinatedGroup(srag: seq<CaseRecord>, d: Date)
    requires |srag| > 0
    ensures RowsOn(Filter(LabelVaccinationStatus(FilterForVaccLabel(WithCaseCounts(srag))), IsLabelledVaccinated), d)
            == VaccinatedOn(srag, d)
  {
    var t := WithCaseCounts(srag);
    var f := FilterForVaccLabel(t);
    var labelled := LabelVaccinationStatus(f);
    RowsOnCorresponding(labelled, f, IsLabelledVaccinated, IsVaccinatedCase, d);
    DatesOfWithCaseCounts(srag);
    var start := VaccinationWindowStart(t);
    assert start == VaccinationWindowStart(srag);
    RowsOnDateMask(t, NotifiedFrom(start), IsVaccinatedCase, d, Ordinal(d) >= start);
    RowsOnCorresponding(t, srag, IsVaccinatedCase, IsVaccinatedCase, d);
  }

  /** The columns of one merged row, as looked up in the group counts. */
  lemma MergedRow(srag: seq<CaseRecord>, i: int)
    requires 0 <= i < |DailyInfo(srag)|
    ensures var t := WithCaseCounts(srag);
            var x := DailyInfo(srag)[i];
            && x.date == BaseTable(t)[i].date
            && x.cases == BaseTable(t)[i].cases
            && x.deaths == Lookup(GroupCount(Filter(t, IsDeath)), x.date)
            && x.icu == Lookup(GroupCount(Filter(t, InIcu)), x.date)
            && x.vaccinated == Lookup(GroupCount(Filter(LabelVaccinationStatus(FilterForVaccLabel(t)), IsLabelledVaccinated)), x.date)
  {
    var t := WithCaseCounts(srag);
    var base := BaseTable(t);
    var t1 := LeftMerge(base, GroupCount(Filter(t, IsDeath)), NuObitos);
    var t2 := LeftMerge(t1, GroupCount(Filter(t, InIcu)), NuUti);
    var labelled := LabelVaccinationStatus(FilterForVaccLabel(t));
    var t3 := LeftMerge(t2, GroupCount(Filter(labelled, IsLabelledVaccinated)), NuVacinados);
    assert t3 == DailyInfo(srag);
    assert Cell(t3[i], NuCasos) == Cell(t2[i], NuCasos) == Cell(t1[i], NuCasos) == Cell(base[i], NuCasos);
    assert Cell(t3[i], NuObitos) == Cell(t2[i], NuObitos) == Cell(t1[i], NuObitos);
    assert Cell(t3[i], NuUti) == Cell(t2[i], NuUti);
  }

  /** The columns of a daily row, in terms of the raw table. */
  predicate Summarises(srag: seq<CaseRecord>, x: DailyRow) {
    && x.cases == CasesOn(srag, x.date)
    && x.deaths == Present(DeathsOn(srag, x.date))
    && x.icu == Present(IcuOn(srag, x.date))
    && x.vaccinated == Present(VaccinatedOn(srag, x.date))
  }

  /** The columns of one row of the daily table, in terms of the raw table. */
  lemma DailyRowColumns(srag: seq<CaseRecord>, i: int)
    requires 0 <= i < |DailyInfo(srag)|
    ensures Summarises(srag, DailyInfo(srag)[i])
  {
    var t := WithCaseCounts(srag);
    var x := DailyInfo(srag)[i];
    var d := x.date;
    MergedRow(srag, i);
    BaseRowCases(srag, i);
    GroupCountOf(t, srag, IsDeath, d);
    GroupCountOf(t, srag, InIcu, d);
    var labelled := LabelVaccinationStatus(FilterForVaccLabel(t));
    assert x.vaccinated == Present(RowsOn(Filter(labelled, IsLabelledVaccinated), d));
    VaccinatedGroup(srag, d);
  }

  /** A row of the base table holds the case count of its date. */
  lemma BaseRowCases(srag: seq<CaseRecord>, i: int)
    requires 0 <= i < |BaseTable(WithCaseCounts(srag))|
    ensures BaseTable(WithCaseCounts(srag))[i].cases == CasesOn(srag, BaseTable(WithCaseCounts(srag))[i].date)
  {
    BaseTableOfCounts(srag);
    assert BaseTable(WithCaseCounts(srag))[i] in BaseTable(WithCaseCounts(srag));
  }

  /** A group count over the table with case counts is the group count over the
      raw table. */
  lemma GroupCountOf(t: seq<CaseRecord>, srag: seq<CaseRecord>, p: CaseRecord -> bool, d: Date)
    requires t == WithCaseCounts(srag)
    requires p == IsDeath || p == InIcu
    ensures Lookup(GroupCount(Filter(t, p)), d) == Present(RowsOn(Filter(srag, p), d))
  {
    assert forall i :: 0 <= i < |t| ==> t[i].date == srag[i].date && p(t[i]) == p(srag[i]);
    RowsOnCorresponding(t, srag, p, p, d);
  }

  /** Every column of the daily table: `NU_CASOS` is the number of cases of the
      date with a notification id; `NU_OBITOS` and `NU_UTI` are the numbers of
      deaths and ICU admissions, absent when zero; `NU_VACINADOS` is the
      number of vaccinated cases when the date is inside the 30-day window,
      absent when zero or outside it. */
  lemma DailyInfoColumns(srag: seq<CaseRecord>)
    ensures forall x :: x in DailyInfo(srag) ==> Summarises(srag, x)
  {
    forall x | x in DailyInfo(srag)
      ensures Summarises(srag, x)
    {
      var i :| 0 <= i < |DailyInfo(srag)| && DailyInfo(srag)[i] == x;
      DailyRowColumns(srag, i);
    }
  }

  /** No vaccinated count is reported for a date more than 29 days before the
      latest notification date. */
  lemma VaccinatedOnlyInWindow(srag: seq<CaseRecord>)
    ensures forall x :: x in DailyInfo(srag) && !InVaccinationWindow(srag, x.date) ==> x.vaccinated == None
  {
    DailyInfoColumns(srag);
  }

  /** When every notification id is present, no joined count exceeds the case
      count of its date. (`NU_CASOS` counts notification ids, the joined counts
      count rows, so a null id could break this.) */
  lemma JoinedCountsAtMostCases(srag: seq<CaseRecord>)
    requires forall x :: x in srag ==> HasId(x)
    ensures forall x :: x in DailyInfo(srag) ==>
              Value(x, NuObitos) <= x.cases && Value(x, NuUti) <= x.cases && Value(x, NuVacinados) <= x.cases
  {
    DailyInfoColumns(srag);
    forall x | x in DailyInfo(srag)
      ensures Value(x, NuObitos) <= x.cases && Value(x, NuUti) <= x.cases && Value(x, NuVacinados) <= x.cases
    {
      SummaryBounded(srag, x);
    }
  }

  lemma SummaryBounded(srag: seq<CaseRecord>, x: DailyRow)
    requires forall x :: x in srag ==> HasId(x)
    requires Summarises(srag, x)
    ensures Value(x, NuObitos) <= x.cases && Value(x, NuUti) <= x.cases && Value(x, NuVacinados) <= x.cases
  {
    var d := x.date;
    var n := RowsOn(srag, d);
    FilterAll(srag, HasId);
    assert x.cases == n;
    RowsOnFilterAtMost(srag, IsDeath, d);
    assert DeathsOn(srag, d) <= n;
    RowsOnFilterAtMost(srag, InIcu, d);
    assert IcuOn(srag, d) <= n;
    RowsOnFilterAtMost(srag, IsVaccinatedCase, d);
    assert VaccinatedOn(srag, d) <= n;
  }

  /** Sum of the group sizes of the dates listed in `ds`. */
  function CasesOver(ds: seq<Date>, rows: seq<CaseRecord>): nat {
    if |ds| == 0 then 0 else CasesOver(ds[..|ds| - 1], rows) + RowsOn(rows, ds[|ds| - 1])
  }

  lemma {:induction false} CasesOverSnoc(ds: seq<Date>, rows: seq<CaseRecord>, x: CaseRecord)
    requires NoDuplicates(ds)
    ensures CasesOver(ds, rows + [x]) == CasesOver(ds, rows) + (if x.date in ds then 1 else 0)
  {
    if |ds| > 0 {
      var ds' := ds[..|ds| - 1];
      assert ds == ds' + [ds[|ds| - 1]];
      CasesOverSnoc(ds', rows, x);
      RowsOnSnoc(rows, x, ds[|ds| - 1]);
    }
  }

  /** Over a duplicate-free list of dates that contains every row's date, the
      group sizes add up to the number of rows. */
  lemma {:induction false} CasesOverAll(ds: seq<Date>, rows: seq<CaseRecord>)
    requires NoDuplicates(ds)
    requires forall x :: x in rows ==> x.date in ds
    ensures CasesOver(ds, rows) == |rows|
  {
    if |rows| == 0 {
      CasesOverNone(ds, rows);
    } else {
      var rows' := rows[..|rows| - 1];
      var x := rows[|rows| - 1];
      assert rows == rows' + [x];
      assert x in rows;
      CasesOverAll(ds, rows');
      CasesOverSnoc(ds, rows', x);
    }
  }

  lemma {:induction false} CasesOverNone(ds: seq<Date>, rows: seq<CaseRecord>)
    requires |rows| == 0
    ensures CasesOver(ds, rows) == 0
  {
    if |ds| > 0 {
      CasesOverNone(ds[..|ds| - 1], rows);
    }
  }

  /** The `NU_CASOS` total of a table whose case counts are group sizes. */
  lemma {:induction false} TotalCasesOver(table: seq<DailyRow>, rows: seq<CaseRecord>)
    requires forall i :: 0 <= i < |table| ==> table[i].cases == RowsOn(rows, table[i].date)
    ensures Total(table, NuCasos) == CasesOver(TableDates(table), rows)
  {
    if |table| > 0 {
      var table' := table[..|table| - 1];
      assert TableDates(table)[..|table| - 1] == TableDates(table');
      TotalCasesOver(table', rows);
    }
  }

  /** No case is lost or counted twice: the `NU_CASOS` column adds up to the
      number of raw rows with a notification id. */
  lemma DailyCasesTotal(srag: seq<CaseRecord>)
    ensures Total(DailyInfo(srag), NuCasos) == |Filter(srag, HasId)|
  {
    var daily := DailyInfo(srag);
    var withId := Filter(srag, HasId);
    DailyInfoColumns(srag);
    DailyInfoOneRowPerDate(srag);
    forall i | 0 <= i < |daily|
      ensures daily[i].cases == RowsOn(withId, daily[i].date)
    {
      assert daily[i] in daily;
    }
    TotalCasesOver(daily, withId);
    forall x | x in withId
      ensures x.date in TableDates(daily)
    {
      var j :| 0 <= j < |srag| && srag[j] == x;
      assert DatesOf(srag)[j] == x.date;
    }
    CasesOverAll(TableDates(daily), withId);
  }

  /** With every notification id present, the `NU_CASOS` total is the number of
      raw rows. */
  lemma DailyCasesTotalAllIds(srag: seq<CaseRecord>)
    requires forall x :: x in srag ==> HasId(x)
    ensures Total(DailyInfo(srag), NuCasos) == |srag|
  {
    DailyCasesTotal(srag);
    FilterAll(srag, HasId);
  }
}
