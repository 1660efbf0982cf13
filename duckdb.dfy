/** scripts/06_build_duckdb.py: materialise the two aggregate tables in a DuckDB
    database from the intersection records. Only the meaning of the SQL text is
    modelled: `GROUP BY` is GroupRows, `SUM` is SumBy, `ORDER BY` is Sort. */
module DuckDb {
  import opened Common
  import opened Text
  import opened Columns
  import opened GroupBy
  import opened Aggregates

  /** The two materialised tables. */
  datatype Database = Database(byRingYear: seq<YearRow>, byRing: seq<RingRow>)

  const ParquetMissing := "FileNotFoundError: GeoParquet not found"
  const NoYearColumn := "IndexError: no column named 'year'"

  /** The script given whether the GeoParquet file exists, the columns of the
      `inter` view and its records (ring, year value, area in hectares).
      `by_ring_year` groups the records by (ring, year) ordered by year and ring;
      `by_ring` groups `by_ring_year` by ring ordered by ring id. */
  function Build(parquetExists: bool, cols: seq<string>, recs: seq<Rec>): Result<Database>
  {
    if !parquetExists then Err(ParquetMissing)
    else if YearColumn(cols).None? then Err(NoYearColumn)
    else
      var years := ByRingYear(recs);
      Ok(Database(years, ByRingFromYears(years)))
  }

  /** A missing file aborts before anything else; a view without a column named
      `year` (in any letter case) fails at `iloc[0]`; nothing else fails. */
  lemma BuildFails(parquetExists: bool, cols: seq<string>, recs: seq<Rec>)
    ensures !parquetExists ==> Build(parquetExists, cols, recs) == Err(ParquetMissing)
    ensures Build(parquetExists, cols, recs).Err? <==>
            !parquetExists || forall c :: c in cols ==> Lower(c) != "year"
  {
  }

  /** `by_ring_year` has one row per (ring, year) pair of the records with the sum
      of their areas, strictly ordered by year and then ring; `by_ring` has one row
      per ring of `by_ring_year` with the sum of that ring's rows, strictly ordered
      by ring id, and that sum is the ring's total over the records. */
  lemma BuildTables(parquetExists: bool, cols: seq<string>, recs: seq<Rec>)
    requires Build(parquetExists, cols, recs).Ok?
    ensures var db := Build(parquetExists, cols, recs).value;
            GroupTable(recs, RecRingYear, RecArea, db.byRingYear, YearRowKey, YearRowArea) &&
            (forall i, j :: 0 <= i < j < |db.byRingYear| ==>
               db.byRingYear[i].year < db.byRingYear[j].year ||
               (db.byRingYear[i].year == db.byRingYear[j].year && LexLe(db.byRingYear[i].ringId, db.byRingYear[j].ringId))) &&
            GroupTable(db.byRingYear, YearRowRing, YearRowArea, db.byRing, RingRowRing, RingRowArea) &&
            (forall i, j :: 0 <= i < j < |db.byRing| ==>
               db.byRing[i].ringId != db.byRing[j].ringId && LexLe(db.byRing[i].ringId, db.byRing[j].ringId)) &&
            (forall j :: 0 <= j < |db.byRing| ==> db.byRing[j].areaHa == SumBy(recs, RecRing, RecArea, db.byRing[j].ringId))
  {
    var years := ByRingYear(recs);
    assert Build(parquetExists, cols, recs).value == Database(years, ByRingFromYears(years));
    ByRingYearSpec(recs);
    ByRingFromYearsSpec(years);
    DerivedRingSums(recs);
  }

  /** Each row of the per-ring table derived from `by_ring_year` carries its
      ring's total over the records. */
  lemma DerivedRingSums(recs: seq<Rec>)
    ensures forall j :: 0 <= j < |ByRingFromYears(ByRingYear(recs))| ==>
              ByRingFromYears(ByRingYear(recs))[j].areaHa ==
              SumBy(recs, RecRing, RecArea, ByRingFromYears(ByRingYear(recs))[j].ringId)
  {
    forall j | 0 <= j < |ByRingFromYears(ByRingYear(recs))|
      ensures ByRingFromYears(ByRingYear(recs))[j].areaHa ==
              SumBy(recs, RecRing, RecArea, ByRingFromYears(ByRingYear(recs))[j].ringId)
    {
      DerivedByRingAgrees(recs, j);
    }
  }

  /** The database and the CSV tables of the precompute step agree: the same
      grand total, and each ring's DuckDB total equals the sum of the records of
      that ring, which is what `by_ring_total.csv` holds for it. */
  lemma AgreesWithCsv(parquetExists: bool, cols: seq<string>, recs: seq<Rec>, j: int)
    requires Build(parquetExists, cols, recs).Ok?
    requires 0 <= j < |Build(parquetExists, cols, recs).value.byRing|
    ensures var db := Build(parquetExists, cols, recs).value;
            db.byRingYear == ByRingYear(recs) &&
            Total(db.byRingYear, YearRowArea) == Total(ByRingTotal(recs), RingRowArea) &&
            forall k :: 0 <= k < |ByRingTotal(recs)| && ByRingTotal(recs)[k].ringId == db.byRing[j].ringId ==>
              ByRingTotal(recs)[k].areaHa == db.byRing[j].areaHa
  {
    GrandTotalsAgree(recs);
    DerivedByRingAgrees(recs, j);
    forall k | 0 <= k < |ByRingTotal(recs)|
      ensures ByRingTotal(recs)[k].areaHa == SumBy(recs, RecRing, RecArea, ByRingTotal(recs)[k].ringId)
    {
      ByRingTotalSums(recs, k);
    }
  }
}
