/** The data logic of the PDF report (doc.py, `build_pdf` and `build_pdf_bytes`,
    which compute the same data): the municipality name column, the year window,
    the period aggregates, the municipal rankings, the municipality list and its
    pagination into blocks of four. Reading the database and the GeoParquet file,
    the spatial join and the layout are left to parameters or out. */
module Report {
  import opened Common
  import opened Text
  import opened GroupBy
  import opened Aggregates

  // ---------------------------------------------------------------------------
  // Municipality names
  // ---------------------------------------------------------------------------

  /** Column names tried, in order, for the municipality name. */
  const NameCandidates: seq<string> := ["NM_MUN", "NM_MUNICIP", "NM_MUNICIPIO", "NOME_MUN", "NM_MUN_2024", "name"]

  /** Position of the first candidate that is a column (exact spelling). */
  function FirstPresent(cands: seq<string>, cols: seq<string>): (r: Option<nat>)
    ensures r.Some? ==> r.value < |cands| && cands[r.value] in cols
    ensures r.Some? ==> forall k :: 0 <= k < r.value ==> cands[k] !in cols
    ensures r.None? <==> forall k :: 0 <= k < |cands| ==> cands[k] !in cols
  {
    if cands == [] then None
    else if cands[0] in cols then Some(0)
    else match FirstPresent(cands[1..], cols)
      case None => None
      case Some(k) => Some(k + 1)
  }

  /** `next((c for c in candidates if c in gdf.columns), None)`. */
  function NameColumn(cols: seq<string>): Option<string>
  {
    match FirstPresent(NameCandidates, cols)
    case None => None
    case Some(k) => Some(NameCandidates[k])
  }

  /** A municipality row's attribute, `nan` when the row lacks it. */
  function Cell(row: map<string, string>, c: string): string
  {
    if c in row then row[c] else "nan"
  }

  /** `MUN_NAME` of every row: the value of the name column, or the row's index
      as a string when no candidate column exists. */
  function MunicipalityNames(cols: seq<string>, rows: seq<map<string, string>>): (names: seq<string>)
    ensures |names| == |rows|
  {
    match NameColumn(cols)
    case Some(c) => seq(|rows|, i requires 0 <= i < |rows| => Cell(rows[i], c))
    case None => seq(|rows|, i requires 0 <= i < |rows| => NatToString(i))
  }

  /** The name column is the first candidate present; without one every row is
      named by its index, so the names are then all different. */
  lemma MunicipalityNamesSpec(cols: seq<string>, rows: seq<map<string, string>>)
    ensures NameColumn(cols).Some? ==>
              NameColumn(cols).value in cols &&
              (exists k :: 0 <= k < |NameCandidates| && NameCandidates[k] == NameColumn(cols).value &&
                           forall k' :: 0 <= k' < k ==> NameCandidates[k'] !in cols) &&
              forall i :: 0 <= i < |rows| ==> MunicipalityNames(cols, rows)[i] == Cell(rows[i], NameColumn(cols).value)
    ensures NameColumn(cols).None? <==> forall c :: c in NameCandidates ==> c !in cols
    ensures NameColumn(cols).None? ==> Distinct(MunicipalityNames(cols, rows))
  {
    var names := MunicipalityNames(cols, rows);
    if NameColumn(cols).None? {
      forall i, j | 0 <= i < j < |names|
        ensures names[i] != names[j]
      {
        if names[i] == names[j] {
          NatToStringInjective(i, j);
        }
      }
    }
  }

  // ---------------------------------------------------------------------------
  // Year window and period aggregates
  // ---------------------------------------------------------------------------

  predicate Within(lo: int, hi: int, y: int) { lo <= y <= hi }

  /** `y_min, y_max`: the database's year range, narrowed to the requested years. */
  function YearWindow(y0: int, y1: int, years: Option<(int, int)>): (w: (int, int))
    ensures forall y :: Within(w.0, w.1, y) <==>
              Within(y0, y1, y) && (years.Some? ==> Within(years.value.0, years.value.1, y))
  {
    match years
    case None => (y0, y1)
    case Some((a, b)) => (Max(y0, a), Min(y1, b))
  }

  function Max(a: int, b: int): int { if a < b then b else a }

  /** A per-(ring, year) row inside the window (SQL `year BETWEEN ? AND ?`). */
  predicate InWindow(r: YearRow, w: (int, int)) { Within(w.0, w.1, r.year) }

  /** A row of the per-year totals. */
  datatype YearTotal = YearTotal(year: int, areaHa: real)

  function YearRowYear(r: YearRow): int { r.year }
  function MakeYearTotal(y: int, a: real): YearTotal { YearTotal(y, a) }
  function YearTotalYear(t: YearTotal): int { t.year }
  function YearTotalArea(t: YearTotal): real { t.areaHa }
  predicate YearTotalLe(a: YearTotal, b: YearTotal) { a.year <= b.year }

  /** `by_year`: the window's rows summed per year, by year. */
  function ByYear(rows: seq<YearRow>): seq<YearTotal>
  {
    Sort(GroupRows(rows, YearRowYear, YearRowArea, MakeYearTotal), YearTotalLe)
  }

  /** `by_year` has one row per year of the window's rows, ascending, with the sum
      of that year's areas. */
  lemma ByYearSpec(rows: seq<YearRow>)
    ensures GroupTable(rows, YearRowYear, YearRowArea, ByYear(rows), YearTotalYear, YearTotalArea)
    ensures forall i, j :: 0 <= i < j < |ByYear(rows)| ==> ByYear(rows)[i].year < ByYear(rows)[j].year
  {
    var grouped := GroupRows(rows, YearRowYear, YearRowArea, MakeYearTotal);
    var out := ByYear(rows);
    GroupRowsTable(rows, YearRowYear, YearRowArea, MakeYearTotal, YearTotalYear, YearTotalArea);
    GroupTablePermutation(rows, YearRowYear, YearRowArea, grouped, out, YearTotalYear, YearTotalArea);
    assert TotalPreorder(YearTotalLe);
    SortSorted(grouped, YearTotalLe);
    YearsAscending(out);
  }

  /** Rows ordered by year whose years are distinct are strictly ascending. */
  lemma YearsAscending(out: seq<YearTotal>)
    requires Sorted(out, YearTotalLe) && Distinct(KeysOf(out, YearTotalYear))
    ensures forall i, j :: 0 <= i < j < |out| ==> out[i].year < out[j].year
  {
    forall i, j | 0 <= i < j < |out|
      ensures out[i].year < out[j].year
    {
      assert YearTotalLe(out[i], out[j]);
      assert KeysOf(out, YearTotalYear)[i] != KeysOf(out, YearTotalYear)[j];
    }
  }

  /** The period's rows: the database rows in the window. */
  function PeriodRows(dbRows: seq<YearRow>, w: (int, int)): (rows: seq<YearRow>)
    ensures forall r :: r in rows <==> r in dbRows && w.0 <= r.year <= w.1
  {
    Where(dbRows, InWindow, w)
  }

  /** `total_area`, the sum of `by_year`, equals the sum of `by_ring` (grouped by
      ring, by ring id) and the total of the period's rows. */
  lemma PeriodTotalsAgree(dbRows: seq<YearRow>, w: (int, int))
    ensures var rows := PeriodRows(dbRows, w);
            Total(ByYear(rows), YearTotalArea) == Total(rows, YearRowArea) &&
            Total(ByRingFromYears(rows), RingRowArea) == Total(rows, YearRowArea)
  {
    var rows := PeriodRows(dbRows, w);
    ByYearSpec(rows);
    GroupTableTotal(rows, YearRowYear, YearRowArea, ByYear(rows), YearTotalYear, YearTotalArea);
    ByRingFromYearsSpec(rows);
    GroupTableTotal(rows, YearRowRing, YearRowArea, ByRingFromYears(rows), RingRowRing, RingRowArea);
  }

  // ---------------------------------------------------------------------------
  // Municipal aggregates and rankings
  // ---------------------------------------------------------------------------

  /** A record of the intersection joined to a municipality. */
  datatype MuniRec = MuniRec(name: string, ringId: string, year: int, areaHa: real)

  /** A row of `muni_total` or of a ranking. */
  datatype MuniTotal = MuniTotal(name: string, areaHa: real)

  /** A row of `muni_year_ring`. */
  datatype MuniYearRing = MuniYearRing(name: string, year: int, ringId: string, areaHa: real)

  function MRName(r: MuniRec): string { r.name }
  function MRArea(r: MuniRec): real { r.areaHa }
  function MRNameYear(r: MuniRec): (string, int) { (r.name, r.year) }
  function MRKey(r: MuniRec): (string, int, string) { (r.name, r.year, r.ringId) }
  function MTName(t: MuniTotal): string { t.name }
  function MTArea(t: MuniTotal): real { t.areaHa }
  function MakeMuniTotal(n: string, a: real): MuniTotal { MuniTotal(n, a) }
  function MYKey(r: MuniYearRing): (string, int, string) { (r.name, r.year, r.ringId) }
  function MYName(r: MuniYearRing): string { r.name }
  function MYNameYear(r: MuniYearRing): (string, int) { (r.name, r.year) }
  function MYArea(r: MuniYearRing): real { r.areaHa }
  function MakeMuniYearRing(k: (string, int, string), a: real): MuniYearRing { MuniYearRing(k.0, k.1, k.2, a) }
  function NameYearOf(k: (string, int, string)): (string, int) { (k.0, k.1) }

  predicate MuniAreaDescending(a: MuniTotal, b: MuniTotal) { a.areaHa >= b.areaHa }

  /** `sort_values(["MUN_NAME", "year", "ring_id"])`. */
  predicate NameYearRingOrder(a: MuniYearRing, b: MuniYearRing)
  {
    LexLe(a.name, b.name) && (a.name == b.name ==> (a.year < b.year || (a.year == b.year && LexLe(a.ringId, b.ringId))))
  }

  predicate NameListed(r: MuniRec, names: seq<string>) { r.name in names }
  predicate InYear(r: MuniYearRing, y: int) { r.year == y }

  /** `inter_muni[inter_muni["MUN_NAME"].isin(filtro)]` when a filter is given. */
  function MuniFiltered(recs: seq<MuniRec>, filter: seq<string>): (r: seq<MuniRec>)
    ensures forall x :: x in r <==> x in recs && (filter != [] ==> x.name in filter)
    ensures forall x :: multiset(r)[x] == if filter == [] || x.name in filter then multiset(recs)[x] else 0
  {
    WhereMultiset(recs, NameListed, filter);
    if filter != [] then Where(recs, NameListed, filter) else recs
  }

  /** `muni_total`: area per municipality, largest first. */
  function MuniTotals(recs: seq<MuniRec>): seq<MuniTotal>
  {
    Sort(GroupRows(recs, MRName, MRArea, MakeMuniTotal), MuniAreaDescending)
  }

  /** `muni_year_ring`: area per (municipality, year, ring). */
  function MuniYearRings(recs: seq<MuniRec>): seq<MuniYearRing>
  {
    Sort(GroupRows(recs, MRKey, MRArea, MakeMuniYearRing), NameYearRingOrder)
  }

  /** Number of rows in a ranking. */
  const TopN := 10

  /** `top_total = muni_total.head(10)`. */
  function TopTotal(recs: seq<MuniRec>): seq<MuniTotal>
  {
    Head(MuniTotals(recs), TopN)
  }

  /** `top_last_year`: the rows of `muni_year_ring` of year `y`, summed per
      municipality, largest first, first ten. */
  function TopLastYear(recs: seq<MuniRec>, y: int): seq<MuniTotal>
  {
    Head(RankedYear(recs, y), TopN)
  }

  lemma MuniTotalsSpec(recs: seq<MuniRec>)
    ensures GroupTable(recs, MRName, MRArea, MuniTotals(recs), MTName, MTArea)
    ensures forall i, j :: 0 <= i < j < |MuniTotals(recs)| ==> MuniTotals(recs)[i].areaHa >= MuniTotals(recs)[j].areaHa
  {
    var grouped := GroupRows(recs, MRName, MRArea, MakeMuniTotal);
    GroupRowsTable(recs, MRName, MRArea, MakeMuniTotal, MTName, MTArea);
    GroupTablePermutation(recs, MRName, MRArea, grouped, MuniTotals(recs), MTName, MTArea);
    assert TotalPreorder(MuniAreaDescending);
    SortSorted(grouped, MuniAreaDescending);
  }

  /** The top ten: the first `min(10, n)` rows of `muni_total`, each with its
      municipality's total area, no municipality outside it having more area than
      one inside. */
  lemma TopTotalSpec(recs: seq<MuniRec>)
    ensures var top, all := TopTotal(recs), MuniTotals(recs);
            top <= all &&
            |top| == (if |all| < TopN then |all| else TopN) &&
            (forall i :: 0 <= i < |top| ==> top[i].areaHa == SumBy(recs, MRName, MRArea, top[i].name)) &&
            (forall i, k :: 0 <= i < |top| <= k < |all| ==> top[i].areaHa >= all[k].areaHa)
  {
    var top, all := TopTotal(recs), MuniTotals(recs);
    MuniTotalsSpec(recs);
    assert RowsSummed(recs, MRName, MRArea, all, MTName, MTArea);
    forall i | 0 <= i < |top|
      ensures top[i] == all[i]
    {
    }
  }

  /** Summing the rows of one year per municipality is summing the rows keyed by
      (municipality, that year). */
  lemma {:induction false} YearSliceSum(rows: seq<MuniYearRing>, y: int, m: string)
    ensures SumBy(Where(rows, InYear, y), MYName, MYArea, m) == SumBy(rows, MYNameYear, MYArea, (m, y))
  {
    if rows != [] {
      var rest := Where(rows[1..], InYear, y);
      YearSliceSum(rows[1..], y, m);
      if InYear(rows[0], y) {
        assert Where(rows, InYear, y) == [rows[0]] + rest;
        assert ([rows[0]] + rest)[1..] == rest;
        assert (MYName(rows[0]) == m) == (MYNameYear(rows[0]) == (m, y));
      } else {
        assert Where(rows, InYear, y) == rest;
        assert MYNameYear(rows[0]) != (m, y);
      }
    }
  }

  /** Each municipality's area in year `y` according to `muni_year_ring` is its
      area over the records of that year. */
  lemma MuniYearSum(recs: seq<MuniRec>, y: int, m: string)
    ensures SumBy(YearSlice(recs, y), MYName, MYArea, m) == SumBy(recs, MRNameYear, MRArea, (m, y))
  {
    var grouped := GroupRows(recs, MRKey, MRArea, MakeMuniYearRing);
    var myr := MuniYearRings(recs);
    GroupRowsTable(recs, MRKey, MRArea, MakeMuniYearRing, MYKey, MYArea);
    GroupTablePermutation(recs, MRKey, MRArea, grouped, myr, MYKey, MYArea);
    YearSliceSum(myr, y, m);
    GroupTableRollup(recs, MRKey, MRArea, myr, MYKey, MYArea, NameYearOf, MRNameYear, MYNameYear, (m, y));
  }

  /** The rows of `muni_year_ring` of year `y`. */
  function YearSlice(recs: seq<MuniRec>, y: int): seq<MuniYearRing>
  {
    Where(MuniYearRings(recs), InYear, y)
  }

  /** The year's rows summed per municipality, largest first, before `head`. */
  function RankedYear(recs: seq<MuniRec>, y: int): seq<MuniTotal>
  {
    Sort(GroupRows(YearSlice(recs, y), MYName, MYArea, MakeMuniTotal), MuniAreaDescending)
  }

  lemma RankedYearSpec(recs: seq<MuniRec>, y: int)
    ensures GroupTable(YearSlice(recs, y), MYName, MYArea, RankedYear(recs, y), MTName, MTArea)
    ensures forall i, j :: 0 <= i < j < |RankedYear(recs, y)| ==> RankedYear(recs, y)[i].areaHa >= RankedYear(recs, y)[j].areaHa
  {
    var inYear := YearSlice(recs, y);
    var grouped := GroupRows(inYear, MYName, MYArea, MakeMuniTotal);
    GroupRowsTable(inYear, MYName, MYArea, MakeMuniTotal, MTName, MTArea);
    GroupTablePermutation(inYear, MYName, MYArea, grouped, RankedYear(recs, y), MTName, MTArea);
    assert TotalPreorder(MuniAreaDescending);
    SortSorted(grouped, MuniAreaDescending);
  }

  /** The ranking of year `y`: at most ten municipalities, each once, each with its
      area over the records of year `y`, largest first. */
  lemma TopLastYearSpec(recs: seq<MuniRec>, y: int)
    ensures var top, ranked := TopLastYear(recs, y), RankedYear(recs, y);
            top <= ranked &&
            |top| == (if |ranked| < TopN then |ranked| else TopN) &&
            (forall i, k :: 0 <= i < |top| <= k < |ranked| ==> top[i].areaHa >= ranked[k].areaHa) &&
            (forall i, j :: 0 <= i < j < |top| ==> top[i].name != top[j].name && top[i].areaHa >= top[j].areaHa) &&
            (forall i :: 0 <= i < |top| ==> top[i].areaHa == SumBy(recs, MRNameYear, MRArea, (top[i].name, y)))
  {
    var ranked := RankedYear(recs, y);
    var top := TopLastYear(recs, y);
    assert top == Head(ranked, TopN);
    RankedYearSpec(recs, y);
    assert RowsSummed(YearSlice(recs, y), MYName, MYArea, ranked, MTName, MTArea);
    forall i | 0 <= i < |top|
      ensures top[i] == ranked[i]
      ensures top[i].areaHa == SumBy(recs, MRNameYear, MRArea, (top[i].name, y))
    {
      MuniYearSum(recs, y, top[i].name);
    }
    forall i, j | 0 <= i < j < |top|
      ensures top[i].name != top[j].name
    {
      assert KeysOf(ranked, MTName)[i] != KeysOf(ranked, MTName)[j];
    }
    forall i, k | 0 <= i < |top| <= k < |ranked|
      ensures top[i].areaHa >= ranked[k].areaHa
    {
      assert top[i] == ranked[i];
    }
  }

  // ---------------------------------------------------------------------------
  // Municipality list and pagination
  // ---------------------------------------------------------------------------

  function TotalNames(totals: seq<MuniTotal>): (names: seq<string>)
    ensures |names| == |totals| && forall i :: 0 <= i < |totals| ==> names[i] == totals[i].name
  {
    seq(|totals|, i requires 0 <= i < |totals| => totals[i].name)
  }

  predicate Listed(m: string, names: seq<string>) { m in names }

  /** `muni_list`: the names of `muni_total` in its order or, with a filter, the
      filter's names that occur in `muni_total`, in the filter's order. */
  function MuniList(totals: seq<MuniTotal>, filter: seq<string>): seq<string>
  {
    if filter != [] then Where(filter, Listed, TotalNames(totals)) else TotalNames(totals)
  }

  lemma MuniListSpec(totals: seq<MuniTotal>, filter: seq<string>)
    ensures forall m :: m in MuniList(totals, filter) <==>
              m in TotalNames(totals) && (filter != [] ==> m in filter)
    ensures filter != [] ==> IsSubsequence(MuniList(totals, filter), filter)
    ensures filter != [] ==>
              forall m :: multiset(MuniList(totals, filter))[m] ==
                if m in TotalNames(totals) then multiset(filter)[m] else 0
    ensures filter == [] ==> MuniList(totals, filter) == TotalNames(totals)
  {
    if filter != [] {
      WhereSubsequence(filter, Listed, TotalNames(totals));
      WhereMultiset(filter, Listed, TotalNames(totals));
    }
  }

  /** Municipalities per page of time-series facets. */
  const ChunkSize := 4

  /** One block of facets: its section number, the 1-based range of its label and
      its municipalities. */
  datatype Page = Page(section: int, first: int, last: int, names: seq<string>)

  /** The `j`-th block of a list. */
  function PageAt(list: seq<string>, j: nat): Page
    requires ChunkSize * j < |list|
  {
    var lo := ChunkSize * j;
    var hi := Min(lo + ChunkSize, |list|);
    Page(j + 1, lo + 1, hi, list[lo..hi])
  }

  function PageNames(pages: seq<Page>): (r: seq<seq<string>>)
    ensures |r| == |pages| && forall j :: 0 <= j < |pages| ==> r[j] == pages[j].names
  {
    seq(|pages|, j requires 0 <= j < |pages| => pages[j].names)
  }

  /** Appending the block that starts at `ChunkSize * |pages|` extends the
      flattened names by that block's slice. */
  lemma PaginateStep(list: seq<string>, pages: seq<Page>, page: Page)
    requires ChunkSize * |pages| < |list|
    requires Flatten(PageNames(pages)) == list[..ChunkSize * |pages|]
    requires page == PageAt(list, |pages|)
    ensures Flatten(PageNames(pages + [page])) == list[..Min(ChunkSize * (|pages| + 1), |list|)]
  {
    var lo := ChunkSize * |pages|;
    var hi := Min(lo + ChunkSize, |list|);
    assert PageNames(pages + [page]) == PageNames(pages) + [list[lo..hi]];
    FlattenAppend(PageNames(pages), list[lo..hi]);
    assert list[..hi] == list[..lo] + list[lo..hi];
  }

  /** Every block so far is the one `PageAt` describes. */
  predicate PagesAt(list: seq<string>, pages: seq<Page>)
  {
    forall j :: 0 <= j < |pages| ==> ChunkSize * j < |list| && pages[j] == PageAt(list, j)
  }

  lemma PagesAtAppend(list: seq<string>, pages: seq<Page>, page: Page)
    requires PagesAt(list, pages) && ChunkSize * |pages| < |list| && page == PageAt(list, |pages|)
    ensures PagesAt(list, pages + [page])
  {
    var next := pages + [page];
    forall j | 0 <= j < |next|
      ensures ChunkSize * j < |list| && next[j] == PageAt(list, j)
    {
      if j < |pages| {
        assert next[j] == pages[j];
      }
    }
  }

  /** The number of blocks of a list of `n` names: the last one may be short. */
  lemma PageCount(n: nat, k: nat)
    requires ChunkSize * (k - 1) < n <= ChunkSize * k
    ensures k == (n + ChunkSize - 1) / ChunkSize
  {
  }

  /** `for i in range(0, len(muni_list), 4)`: one block per slice `[i:i+4]`,
      labelled `i+1 – i+len(chunk)` and numbered `i//4 + 1`. */
  method Paginate(list: seq<string>) returns (pages: seq<Page>)
    ensures |pages| == (|list| + ChunkSize - 1) / ChunkSize
    ensures forall j :: 0 <= j < |pages| ==> ChunkSize * j < |list| && pages[j] == PageAt(list, j)
    ensures Flatten(PageNames(pages)) == list
  {
    pages := [];
    var i := 0;
    while i < |list|
      invariant i == ChunkSize * |pages|
      invariant i < |list| ==> Flatten(PageNames(pages)) == list[..i]
      invariant i >= |list| ==> Flatten(PageNames(pages)) == list && |pages| == (|list| + ChunkSize - 1) / ChunkSize
      invariant PagesAt(list, pages)
    {
      var chunk := list[i..Min(i + ChunkSize, |list|)];
      var page := Page(i / ChunkSize + 1, i + 1, i + |chunk|, chunk);
      assert page == PageAt(list, |pages|);
      PaginateStep(list, pages, page);
      PagesAtAppend(list, pages, page);
      pages := pages + [page];
      i := i + ChunkSize;
      if i >= |list| {
        assert list[..|list|] == list;
        PageCount(|list|, |pages|);
      }
    }
    if |list| == 0 {
      assert Flatten(PageNames(pages)) == list;
    }
  }
}
