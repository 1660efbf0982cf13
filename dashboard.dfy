/** The data logic of the Streamlit dashboard (app.py): the default filters, the
    filters kept across reruns in the session, the two aggregate tables shown for
    the applied filters (from DuckDB, or re-aggregated from the municipal spatial
    join) and the threshold above which the intersection layer starts hidden.
    Widgets, the map and the charts are left out; the spatial join enters as a
    parameter. */
module Dashboard {
  import opened Common
  import opened Text
  import opened Columns
  import opened GroupBy
  import opened Aggregates

  // ---------------------------------------------------------------------------
  // Defaults
  // ---------------------------------------------------------------------------

  /** `default_years`: the last three years of the data, cut at its first year. */
  function DefaultYears(y0: int, y1: int): (w: (int, int))
    ensures w.1 == y1 && y0 <= w.0 && y1 - 2 <= w.0
    ensures w.0 == y0 || w.0 == y1 - 2
    ensures y0 <= y1 ==> w.0 <= w.1
  {
    (if y1 - 2 < y0 then y0 else y1 - 2, y1)
  }

  /** `rings_all`: the ring ids in ascending string order. */
  function RingsAll(ids: seq<string>): seq<string>
  {
    Sort(ids, LexLe)
  }

  lemma RingsAllSpec(ids: seq<string>)
    ensures multiset(RingsAll(ids)) == multiset(ids)
    ensures forall i, j :: 0 <= i < j < |RingsAll(ids)| ==> LexLe(RingsAll(ids)[i], RingsAll(ids)[j])
  {
    LexLeTotalPreorder();
    SortSorted(ids, LexLe);
  }

  lemma LexLeTotalPreorder()
    ensures TotalPreorder(LexLe)
  {
    forall a, b
      ensures LexLe(a, b) || LexLe(b, a)
    {
      LexLeTotal(a, b);
    }
    forall a, b, c | LexLe(a, b) && LexLe(b, c)
      ensures LexLe(a, c)
    {
      LexLeTransitive(a, b, c);
    }
  }

  predicate HasPrefix(s: string, p: string)
  {
    |p| <= |s| && s[..|p|] == p
  }

  /** Prefix of the ids of the innermost ring. */
  const InnermostPrefix := "0-5"

  /** `default_rings`: the rings whose id starts with `0-5`, in the order of
      `rings_all`, or the first ring when there is none. */
  function DefaultRings(all: seq<string>): seq<string>
  {
    var near := Where(all, HasPrefix, InnermostPrefix);
    if near != [] then near else Head(all, 1)
  }

  lemma DefaultRingsSpec(all: seq<string>)
    ensures forall x :: x in DefaultRings(all) ==> x in all
    ensures all != [] ==> DefaultRings(all) != []
    ensures (exists x :: x in all && HasPrefix(x, InnermostPrefix)) ==>
              (forall x :: x in DefaultRings(all) <==> x in all && HasPrefix(x, InnermostPrefix)) &&
              IsSubsequence(DefaultRings(all), all) &&
              forall x :: multiset(DefaultRings(all))[x] ==
                if HasPrefix(x, InnermostPrefix) then multiset(all)[x] else 0
    ensures (forall x :: x in all ==> !HasPrefix(x, InnermostPrefix)) ==>
              DefaultRings(all) <= all && |DefaultRings(all)| == (if all == [] then 0 else 1)
  {
    var near := Where(all, HasPrefix, InnermostPrefix);
    WhereSubsequence(all, HasPrefix, InnermostPrefix);
    WhereMultiset(all, HasPrefix, InnermostPrefix);
    if exists x :: x in all && HasPrefix(x, InnermostPrefix) {
      var x :| x in all && HasPrefix(x, InnermostPrefix);
      assert x in near;
    } else {
      WhereNone(all, HasPrefix, InnermostPrefix);
    }
  }

  // ---------------------------------------------------------------------------
  // Applied filters
  // ---------------------------------------------------------------------------

  /** `st.session_state.applied_filters`. */
  datatype Filters = Filters(years: (int, int), rings: seq<string>, munis: seq<string>)

  /** The session state of one user: the data's year range and ring list, fixed
      for the session, and the filters applied so far. */
  class Session {
    const y0: int
    const y1: int
    const ringsAll: seq<string>
    var applied: Option<Filters>

    /** Applied filters keep their years inside the data's range, choose rings of
        the ring list, and choose at least one ring whenever rings exist. */
    ghost predicate Valid()
      reads this
    {
      y0 <= y1 &&
      (applied.Some? ==>
         y0 <= applied.value.years.0 <= applied.value.years.1 <= y1 &&
         (forall r :: r in applied.value.rings ==> r in ringsAll) &&
         (ringsAll != [] ==> applied.value.rings != []))
    }

    /** A new session, before any filter is applied. The year range comes from
        `MIN(year)` and `MAX(year)` of a non-empty table. */
    constructor (y0: int, y1: int, ringIds: seq<string>)
      requires y0 <= y1
      ensures this.y0 == y0 && this.y1 == y1 && ringsAll == RingsAll(ringIds)
      ensures applied == None
      ensures Valid()
    {
      this.y0 := y0;
      this.y1 := y1;
      ringsAll := RingsAll(ringIds);
      applied := None;
    }

    /** The first run of the sidebar: apply the defaults unless filters exist. */
    method Start(munSel: seq<string>)
      requires Valid()
      modifies this
      ensures applied == if old(applied).None? then Some(Filters(DefaultYears(y0, y1), DefaultRings(ringsAll), munSel))
                         else old(applied)
      ensures Valid()
    {
      if applied.None? {
        DefaultRingsSpec(ringsAll);
        applied := Some(Filters(DefaultYears(y0, y1), DefaultRings(ringsAll), munSel));
      }
    }

    /** Submitting the form: the slider's years (inside the data's range) and the
        multiselect's rings (taken from the ring list), an empty ring choice
        standing for every ring. */
    method Submit(years: (int, int), ringsSel: seq<string>, munSel: seq<string>)
      requires Valid()
      requires y0 <= years.0 <= years.1 <= y1
      requires forall r :: r in ringsSel ==> r in ringsAll
      modifies this
      ensures applied == Some(Filters(years, if ringsSel != [] then ringsSel else ringsAll, munSel))
      ensures Valid()
    {
      applied := Some(Filters(years, if ringsSel != [] then ringsSel else ringsAll, munSel));
    }
  }

  // ---------------------------------------------------------------------------
  // Aggregate tables for the applied filters
  // ---------------------------------------------------------------------------

  /** A DuckDB row inside the years and rings of the filters. */
  predicate RowInView(r: YearRow, v: ((int, int), seq<string>))
  {
    v.0.0 <= r.year <= v.0.1 && r.ringId in v.1
  }

  /** An intersection record inside the years and rings of the filters. */
  predicate RecInView(r: Rec, v: ((int, int), seq<string>))
  {
    v.0.0 <= r.year <= v.0.1 && r.ringId in v.1
  }

  /** The first DuckDB query: rows of `by_ring_year` in the view, `ORDER BY year, ring_id`. */
  function DuckByRingYear(dbRows: seq<YearRow>, f: Filters): seq<YearRow>
  {
    Sort(Where(dbRows, RowInView, (f.years, f.rings)), YearThenRing)
  }

  /** The second DuckDB query: the same rows summed per ring, `ORDER BY ring_id`. */
  function DuckByRing(dbRows: seq<YearRow>, f: Filters): seq<RingRow>
  {
    ByRingFromYears(Where(dbRows, RowInView, (f.years, f.rings)))
  }

  /** Area per ring of the joined records, ordered by ring id. */
  function ByRingById(recs: seq<Rec>): seq<RingRow>
  {
    Sort(GroupRows(recs, RecRing, RecArea, MakeRingRow), RingIdOrder)
  }

  lemma ByRingByIdSpec(recs: seq<Rec>)
    ensures GroupTable(recs, RecRing, RecArea, ByRingById(recs), RingRowRing, RingRowArea)
    ensures forall i, j :: 0 <= i < j < |ByRingById(recs)| ==>
              ByRingById(recs)[i].ringId != ByRingById(recs)[j].ringId &&
              LexLe(ByRingById(recs)[i].ringId, ByRingById(recs)[j].ringId)
  {
    var grouped := GroupRows(recs, RecRing, RecArea, MakeRingRow);
    var rows := ByRingById(recs);
    GroupRowsTable(recs, RecRing, RecArea, MakeRingRow, RingRowRing, RingRowArea);
    GroupTablePermutation(recs, RecRing, RecArea, grouped, rows, RingRowRing, RingRowArea);
    RingIdOrderPreorder();
    SortSorted(grouped, RingIdOrder);
    forall i, j | 0 <= i < j < |rows|
      ensures rows[i].ringId != rows[j].ringId && LexLe(rows[i].ringId, rows[j].ringId)
    {
      assert RingIdOrder(rows[i], rows[j]);
      assert KeysOf(rows, RingRowRing)[i] != KeysOf(rows, RingRowRing)[j];
    }
  }

  /** `by_ring_year` and `by_ring` as displayed. */
  datatype Tables = Tables(byRingYear: seq<YearRow>, byRing: seq<RingRow>)

  const NoYearColumn := "StopIteration: no column named 'year'"

  /** The tables for the applied filters, given whether the municipality layer
      was loaded, the DuckDB rows, the columns and records of the intersection
      file, and the spatial join of records with the chosen municipalities. The
      joined records carry their year whatever the year column's spelling, as
      when the column is renamed to `year` the way doc.py does. */
  function DashboardTables(f: Filters, municipiosLoaded: bool, dbRows: seq<YearRow>,
                           cols: seq<string>, parquet: seq<Rec>,
                           sjoin: (seq<Rec>, seq<string>) -> seq<Rec>): Result<Tables>
  {
    if YearColumn(cols).None? then Err(NoYearColumn)
    else
      var interF := Where(parquet, RecInView, (f.years, f.rings));
      if municipiosLoaded && f.munis != [] && interF != [] then
        var joined := sjoin(interF, f.munis);
        if joined == [] then Ok(Tables([], []))
        else Ok(Tables(ByRingYear(joined), ByRingById(joined)))
      else Ok(Tables(DuckByRingYear(dbRows, f), DuckByRing(dbRows, f)))
  }

  const YearDropped := "KeyError: 'year'"

  /** The tables as app.py computes them. The map layer keeps only the columns
      `ring_id, year, area_ha, geometry` that exist under exactly those names
      (line 251), so a year column spelled otherwise is dropped, and regrouping
      the joined records by `["ring_id", "year"]` (lines 287-290) raises. */
  function DashboardTablesAsWritten(f: Filters, municipiosLoaded: bool, dbRows: seq<YearRow>,
                                    cols: seq<string>, parquet: seq<Rec>,
                                    sjoin: (seq<Rec>, seq<string>) -> seq<Rec>): Result<Tables>
  {
    if YearColumn(cols).None? then Err(NoYearColumn)
    else
      var interF := Where(parquet, RecInView, (f.years, f.rings));
      if municipiosLoaded && f.munis != [] && interF != [] then
        var joined := sjoin(interF, f.munis);
        if joined == [] then Ok(Tables([], []))
        else if "year" !in cols then Err(YearDropped)
        else Ok(Tables(ByRingYear(joined), ByRingById(joined)))
      else Ok(Tables(DuckByRingYear(dbRows, f), DuckByRing(dbRows, f)))
  }

  /** As written, the dashboard agrees with the intended tables except when a
      non-empty municipality join meets a year column not spelled exactly `year`:
      there it fails where the intended tables (which rename the column, as
      doc.py does) exist. */
  lemma AsWrittenDropsYear(f: Filters, municipiosLoaded: bool, dbRows: seq<YearRow>,
                           cols: seq<string>, parquet: seq<Rec>,
                           sjoin: (seq<Rec>, seq<string>) -> seq<Rec>)
    ensures var written := DashboardTablesAsWritten(f, municipiosLoaded, dbRows, cols, parquet, sjoin);
            var intended := DashboardTables(f, municipiosLoaded, dbRows, cols, parquet, sjoin);
            var interF := Where(parquet, RecInView, (f.years, f.rings));
            (written.Err? <==>
               intended.Err? ||
               (municipiosLoaded && f.munis != [] && interF != [] && sjoin(interF, f.munis) != [] && "year" !in cols)) &&
            (written.Ok? ==> written == intended)
  {
  }

  /** The input that shows it: the intersection file names its year column `YEAR`,
      one municipality is chosen and the join keeps the one record. */
  lemma UpperCaseYearFails()
    ensures var f := Filters((2020, 2022), ["0-5km"], ["Boa Vista"]);
            var cols := ["ring_id", "YEAR", "area_ha", "geometry"];
            var parquet := [Rec("0-5km", 2021, 3.5)];
            var join := (recs: seq<Rec>, munis: seq<string>) => recs;
            DashboardTablesAsWritten(f, true, [], cols, parquet, join).Err? &&
            DashboardTables(f, true, [], cols, parquet, join).Ok?
  {
    var cols := ["ring_id", "YEAR", "area_ha", "geometry"];
    var parquet := [Rec("0-5km", 2021, 3.5)];
    assert Lower("YEAR") == "year";
    assert cols[1] in cols;
    assert parquet[0] in Where(parquet, RecInView, ((2020, 2022), ["0-5km"]));
    assert "year" !in cols;
  }

  /** Without an active municipality filter (or with nothing to join) the tables
      are the DuckDB rows of the view, ordered by year and ring, and their sums
      per ring, ordered by ring id. */
  lemma DuckTablesSpec(dbRows: seq<YearRow>, f: Filters)
    ensures forall r :: r in DuckByRingYear(dbRows, f) <==>
              r in dbRows && f.years.0 <= r.year <= f.years.1 && r.ringId in f.rings
    ensures forall i, j :: 0 <= i < j < |DuckByRingYear(dbRows, f)| ==>
              YearThenRing(DuckByRingYear(dbRows, f)[i], DuckByRingYear(dbRows, f)[j])
    ensures GroupTable(Where(dbRows, RowInView, (f.years, f.rings)), YearRowRing, YearRowArea, DuckByRing(dbRows, f), RingRowRing, RingRowArea)
    ensures forall i, j :: 0 <= i < j < |DuckByRing(dbRows, f)| ==>
              LexLe(DuckByRing(dbRows, f)[i].ringId, DuckByRing(dbRows, f)[j].ringId)
    ensures Total(DuckByRing(dbRows, f), RingRowArea) == Total(DuckByRingYear(dbRows, f), YearRowArea)
  {
    var view := Where(dbRows, RowInView, (f.years, f.rings));
    var sorted := DuckByRingYear(dbRows, f);
    forall r
      ensures r in sorted <==> r in view
    {
      MembershipByMultiset(sorted, view, r);
    }
    YearThenRingPreorder();
    SortSorted(view, YearThenRing);
    ByRingFromYearsSpec(view);
    GroupTableTotal(view, YearRowRing, YearRowArea, DuckByRing(dbRows, f), RingRowRing, RingRowArea);
    TotalSort(view, YearThenRing, YearRowArea);
  }

  /** The dashboard's tables: a missing year column stops the app; an active
      municipality filter whose join is empty empties both tables; a non-empty
      join re-aggregates its records, ordered by year and ring and by ring id
      (whose meaning `ByRingYearSpec` and `ByRingByIdSpec` give); otherwise the DuckDB tables stand. In every
      case the per-ring table sums to the same total as the per-(ring, year)
      table, which is the area shown on the card. */
  lemma DashboardTablesSpec(f: Filters, municipiosLoaded: bool, dbRows: seq<YearRow>,
                            cols: seq<string>, parquet: seq<Rec>,
                            sjoin: (seq<Rec>, seq<string>) -> seq<Rec>)
    ensures var r := DashboardTables(f, municipiosLoaded, dbRows, cols, parquet, sjoin);
            var interF := Where(parquet, RecInView, (f.years, f.rings));
            var joining := municipiosLoaded && f.munis != [] && interF != [];
            (r.Err? <==> forall c :: c in cols ==> Lower(c) != "year") &&
            (r.Ok? && joining && sjoin(interF, f.munis) == [] ==> r.value == Tables([], [])) &&
            (r.Ok? && joining && sjoin(interF, f.munis) != [] ==>
               r.value == Tables(ByRingYear(sjoin(interF, f.munis)), ByRingById(sjoin(interF, f.munis))) &&
               GroupTable(sjoin(interF, f.munis), RecRingYear, RecArea, r.value.byRingYear, YearRowKey, YearRowArea) &&
               GroupTable(sjoin(interF, f.munis), RecRing, RecArea, r.value.byRing, RingRowRing, RingRowArea)) &&
            (r.Ok? && !joining ==> r.value == Tables(DuckByRingYear(dbRows, f), DuckByRing(dbRows, f))) &&
            (r.Ok? ==> Total(r.value.byRing, RingRowArea) == Total(r.value.byRingYear, YearRowArea))
  {
    var r := DashboardTables(f, municipiosLoaded, dbRows, cols, parquet, sjoin);
    var interF := Where(parquet, RecInView, (f.years, f.rings));
    if r.Ok? {
      if municipiosLoaded && f.munis != [] && interF != [] {
        var joined := sjoin(interF, f.munis);
        if joined != [] {
          ByRingYearSpec(joined);
          ByRingByIdSpec(joined);
          GrandTotalsAgree(joined);
          GroupTableTotal(joined, RecRing, RecArea, ByRingById(joined), RingRowRing, RingRowArea);
        }
      } else {
        DuckTablesSpec(dbRows, f);
      }
    }
  }

  // ---------------------------------------------------------------------------
  // Map layer
  // ---------------------------------------------------------------------------

  /** Largest number of polygons drawn without being asked. */
  const MaxFeaturesAutoShow := 6000

  /** Whether the intersection layer starts visible. */
  function AutoShow(n: nat, force: bool): bool
  {
    n <= MaxFeaturesAutoShow || force
  }

  /** Forcing always shows the layer; without forcing it is shown exactly up to
      6000 polygons, so fewer polygons never hide a layer that more would show. */
  lemma AutoShowSpec(n: nat, m: nat, force: bool)
    ensures force ==> AutoShow(n, force)
    ensures AutoShow(n, false) <==> n <= 6000
    ensures n <= m && AutoShow(m, force) ==> AutoShow(n, force)
  {
  }
}
