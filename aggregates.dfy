/** The aggregate tables built from the intersection records: area per (ring,
    year) and area per ring. Scripts 04 and 05 build them with
    `groupby(...)["area_ha"].sum().reset_index().sort_values(...)`; the DuckDB
    build derives the per-ring table from the per-(ring, year) one with GROUP BY. */
module Aggregates {
  import opened Text
  import opened GroupBy

  /** One record of the intersection after cleaning: ring, year, area in hectares. */
  datatype Rec = Rec(ringId: string, year: int, areaHa: real)

  /** A row of `by_ring_year`. */
  datatype YearRow = YearRow(ringId: string, year: int, areaHa: real)

  /** A row of `by_ring` (`by_ring_total`). */
  datatype RingRow = RingRow(ringId: string, areaHa: real)

  function RecRing(r: Rec): string { r.ringId }
  function RecRingYear(r: Rec): (string, int) { (r.ringId, r.year) }
  function RecArea(r: Rec): real { r.areaHa }
  function YearRowKey(y: YearRow): (string, int) { (y.ringId, y.year) }
  function YearRowRing(y: YearRow): string { y.ringId }
  function YearRowArea(y: YearRow): real { y.areaHa }
  function RingRowRing(r: RingRow): string { r.ringId }
  function RingRowArea(r: RingRow): real { r.areaHa }
  function MakeYearRow(k: (string, int), a: real): YearRow { YearRow(k.0, k.1, a) }
  function MakeRingRow(k: string, a: real): RingRow { RingRow(k, a) }
  function RingOfKey(k: (string, int)): string { k.0 }

  /** `sort_values([year, "ring_id"])`, SQL `ORDER BY year, ring_id`. */
  predicate YearThenRing(a: YearRow, b: YearRow)
  {
    a.year < b.year || (a.year == b.year && LexLe(a.ringId, b.ringId))
  }

  /** `sort_values("area_ha", ascending=False)`. */
  predicate AreaDescending(a: RingRow, b: RingRow)
  {
    a.areaHa >= b.areaHa
  }

  /** SQL `ORDER BY ring_id`. */
  predicate RingIdOrder(a: RingRow, b: RingRow)
  {
    LexLe(a.ringId, b.ringId)
  }

  lemma YearThenRingPreorder()
    ensures TotalPreorder(YearThenRing)
  {
    forall a: YearRow, b: YearRow
      ensures YearThenRing(a, b) || YearThenRing(b, a)
    {
      LexLeTotal(a.ringId, b.ringId);
    }
    forall a: YearRow, b: YearRow, c: YearRow | YearThenRing(a, b) && YearThenRing(b, c)
      ensures YearThenRing(a, c)
    {
      if a.year == b.year == c.year {
        LexLeTransitive(a.ringId, b.ringId, c.ringId);
      }
    }
  }

  lemma AreaDescendingPreorder()
    ensures TotalPreorder(AreaDescending)
  {
  }

  lemma RingIdOrderPreorder()
    ensures TotalPreorder(RingIdOrder)
  {
    forall a: RingRow, b: RingRow
      ensures RingIdOrder(a, b) || RingIdOrder(b, a)
    {
      LexLeTotal(a.ringId, b.ringId);
    }
    forall a: RingRow, b: RingRow, c: RingRow | RingIdOrder(a, b) && RingIdOrder(b, c)
      ensures RingIdOrder(a, c)
    {
      LexLeTransitive(a.ringId, b.ringId, c.ringId);
    }
  }

  /** Area per (ring, year), ordered by year and then ring. */
  function ByRingYear(recs: seq<Rec>): seq<YearRow>
  {
    Sort(GroupRows(recs, RecRingYear, RecArea, MakeYearRow), YearThenRing)
  }

  /** Area per ring, largest first. */
  function ByRingTotal(recs: seq<Rec>): seq<RingRow>
  {
    Sort(GroupRows(recs, RecRing, RecArea, MakeRingRow), AreaDescending)
  }

  /** Area per ring summed from the per-(ring, year) rows, ordered by ring id. */
  function ByRingFromYears(years: seq<YearRow>): seq<RingRow>
  {
    Sort(GroupRows(years, YearRowRing, YearRowArea, MakeRingRow), RingIdOrder)
  }

  /** `by_ring_year` has one row per (ring, year) pair present in the records,
      carrying the sum of their areas, strictly ordered by year and then ring. */
  lemma ByRingYearSpec(recs: seq<Rec>)
    ensures GroupTable(recs, RecRingYear, RecArea, ByRingYear(recs), YearRowKey, YearRowArea)
    ensures forall i, j :: 0 <= i < j < |ByRingYear(recs)| ==>
              ByRingYear(recs)[i].year < ByRingYear(recs)[j].year ||
              (ByRingYear(recs)[i].year == ByRingYear(recs)[j].year &&
               ByRingYear(recs)[i].ringId != ByRingYear(recs)[j].ringId &&
               LexLe(ByRingYear(recs)[i].ringId, ByRingYear(recs)[j].ringId))
  {
    var grouped := GroupRows(recs, RecRingYear, RecArea, MakeYearRow);
    var rows := ByRingYear(recs);
    GroupRowsTable(recs, RecRingYear, RecArea, MakeYearRow, YearRowKey, YearRowArea);
    GroupTablePermutation(recs, RecRingYear, RecArea, grouped, rows, YearRowKey, YearRowArea);
    YearThenRingPreorder();
    SortSorted(grouped, YearThenRing);
    forall i, j | 0 <= i < j < |rows|
      ensures rows[i].year < rows[j].year ||
              (rows[i].year == rows[j].year && rows[i].ringId != rows[j].ringId && LexLe(rows[i].ringId, rows[j].ringId))
    {
      assert YearThenRing(rows[i], rows[j]);
      assert KeysOf(rows, YearRowKey)[i] != KeysOf(rows, YearRowKey)[j];
    }
  }

  /** `by_ring` has one row per ring present in the records, carrying the sum of
      their areas, with the areas in non-increasing order. */
  lemma ByRingTotalSpec(recs: seq<Rec>)
    ensures GroupTable(recs, RecRing, RecArea, ByRingTotal(recs), RingRowRing, RingRowArea)
    ensures forall i, j :: 0 <= i < j < |ByRingTotal(recs)| ==> ByRingTotal(recs)[i].areaHa >= ByRingTotal(recs)[j].areaHa
  {
    var grouped := GroupRows(recs, RecRing, RecArea, MakeRingRow);
    GroupRowsTable(recs, RecRing, RecArea, MakeRingRow, RingRowRing, RingRowArea);
    GroupTablePermutation(recs, RecRing, RecArea, grouped, ByRingTotal(recs), RingRowRing, RingRowArea);
    AreaDescendingPreorder();
    SortSorted(grouped, AreaDescending);
  }

  /** The per-ring table derived from per-(ring, year) rows has one row per ring,
      carrying the sum of that ring's rows, strictly ordered by ring id. */
  lemma ByRingFromYearsSpec(years: seq<YearRow>)
    ensures GroupTable(years, YearRowRing, YearRowArea, ByRingFromYears(years), RingRowRing, RingRowArea)
    ensures forall i, j :: 0 <= i < j < |ByRingFromYears(years)| ==>
              ByRingFromYears(years)[i].ringId != ByRingFromYears(years)[j].ringId &&
              LexLe(ByRingFromYears(years)[i].ringId, ByRingFromYears(years)[j].ringId)
  {
    var grouped := GroupRows(years, YearRowRing, YearRowArea, MakeRingRow);
    var rows := ByRingFromYears(years);
    GroupRowsTable(years, YearRowRing, YearRowArea, MakeRingRow, RingRowRing, RingRowArea);
    GroupTablePermutation(years, YearRowRing, YearRowArea, grouped, rows, RingRowRing, RingRowArea);
    RingIdOrderPreorder();
    SortSorted(grouped, RingIdOrder);
    forall i, j | 0 <= i < j < |rows|
      ensures rows[i].ringId != rows[j].ringId && LexLe(rows[i].ringId, rows[j].ringId)
    {
      assert RingIdOrder(rows[i], rows[j]);
      assert KeysOf(rows, RingRowRing)[i] != KeysOf(rows, RingRowRing)[j];
    }
  }

  /** Summing a ring's per-year rows gives the ring's total over the records. */
  lemma YearRowsRollUp(recs: seq<Rec>, ring: string)
    ensures SumBy(ByRingYear(recs), YearRowRing, YearRowArea, ring) == SumBy(recs, RecRing, RecArea, ring)
  {
    ByRingYearSpec(recs);
    GroupTableRollup(recs, RecRingYear, RecArea, ByRingYear(recs), YearRowKey, YearRowArea,
                     RingOfKey, RecRing, YearRowRing, ring);
  }

  /** Each row of `by_ring` carries the total area of its ring's records. */
  lemma ByRingTotalSums(recs: seq<Rec>, k: int)
    requires 0 <= k < |ByRingTotal(recs)|
    ensures ByRingTotal(recs)[k].areaHa == SumBy(recs, RecRing, RecArea, ByRingTotal(recs)[k].ringId)
  {
    ByRingTotalSpec(recs);
    assert RowsSummed(recs, RecRing, RecArea, ByRingTotal(recs), RingRowRing, RingRowArea);
  }

  /** Each ring's total in `by_ring` equals the sum of that ring's `by_ring_year` rows. */
  lemma RingTotalsAgree(recs: seq<Rec>, j: int)
    requires 0 <= j < |ByRingTotal(recs)|
    ensures ByRingTotal(recs)[j].areaHa ==
            SumBy(ByRingYear(recs), YearRowRing, YearRowArea, ByRingTotal(recs)[j].ringId)
  {
    ByRingTotalSums(recs, j);
    YearRowsRollUp(recs, ByRingTotal(recs)[j].ringId);
  }

  /** Both tables add up to the total area of the records. */
  lemma GrandTotalsAgree(recs: seq<Rec>)
    ensures Total(ByRingYear(recs), YearRowArea) == Total(recs, RecArea)
    ensures Total(ByRingTotal(recs), RingRowArea) == Total(recs, RecArea)
  {
    ByRingYearSpec(recs);
    ByRingTotalSpec(recs);
    GroupTableTotal(recs, RecRingYear, RecArea, ByRingYear(recs), YearRowKey, YearRowArea);
    GroupTableTotal(recs, RecRing, RecArea, ByRingTotal(recs), RingRowRing, RingRowArea);
  }

  /** Deriving the per-ring table from the per-(ring, year) rows gives each ring
      the same total as grouping the records by ring directly. */
  lemma DerivedByRingAgrees(recs: seq<Rec>, j: int)
    requires 0 <= j < |ByRingFromYears(ByRingYear(recs))|
    ensures ByRingFromYears(ByRingYear(recs))[j].areaHa ==
            SumBy(recs, RecRing, RecArea, ByRingFromYears(ByRingYear(recs))[j].ringId)
  {
    var years := ByRingYear(recs);
    ByRingFromYearsSpec(years);
    assert RowsSummed(years, YearRowRing, YearRowArea, ByRingFromYears(years), RingRowRing, RingRowArea);
    YearRowsRollUp(recs, ByRingFromYears(years)[j].ringId);
  }
}
