/** scripts/02_prepare_prodes_rr.py: clip the yearly deforestation polygons to
    Roraima, save them with a 100-feature preview, and summarise the number of
    features per year. The clip is a geopandas call and enters as a parameter. */
module PrepareProdes {
  import opened Common
  import opened Text
  import opened Columns
  import opened GroupBy
  import opened Overlay

  /** The year column names tried, in order of preference. */
  const YearCandidates: seq<string> := ["year", "ano"]

  /** Size of the preview file. */
  const PreviewSize := 100

  /** The year column in its original spelling: the first column whose lower-cased
      name is `year`, failing that the first whose lower-cased name is `ano`. */
  function YearOrAno(cols: seq<string>): (r: Option<string>)
    ensures r.Some? ==> r.value in cols && Lower(r.value) in YearCandidates
    ensures r.None? <==> forall c :: c in cols ==> Lower(c) != "year" && Lower(c) != "ano"
    ensures (exists c :: c in cols && Lower(c) == "year") ==> r.Some? && Lower(r.value) == "year"
    ensures r.Some? ==> exists i :: 0 <= i < |cols| && cols[i] == r.value &&
                          forall j :: 0 <= j < i ==> Lower(cols[j]) != Lower(r.value)
  {
    match FirstLowerIndex(cols, "year")
    case Some(i) => Some(cols[i])
    case None =>
      match FirstLowerIndex(cols, "ano")
      case Some(i) => Some(cols[i])
      case None => None
  }

  /** The search of lines 77-82: lower-case the column names once, then try each
      candidate and stop at the first that occurs, taking the column at the
      position `list.index` reports. */
  method FindYearColumn(cols: seq<string>) returns (yearCol: Option<string>)
    ensures yearCol == YearOrAno(cols)
  {
    var lowered := seq(|cols|, i requires 0 <= i < |cols| => Lower(cols[i]));
    yearCol := None;
    for k := 0 to |YearCandidates|
      invariant yearCol.None?
      invariant forall m :: 0 <= m < k ==> forall j :: 0 <= j < |cols| ==> Lower(cols[j]) != YearCandidates[m]
    {
      var c := YearCandidates[k];
      if c in lowered {
        var idx := FirstLowerIndex(cols, c);
        yearCol := Some(cols[idx.value]);
        break;
      }
      forall j | 0 <= j < |cols|
        ensures Lower(cols[j]) != c
      {
        assert lowered[j] == Lower(cols[j]);
      }
    }
  }

  /** A row of the per-year summary. Counts are carried as reals, the value type
      of the shared group-by. */
  datatype YearCount = YearCount(year: int, nFeatures: real)

  function FeatureYear(f: Feature): int { f.year }
  function One(f: Feature): real { 1.0 }
  function CountYear(y: YearCount): int { y.year }
  function CountValue(y: YearCount): real { y.nFeatures }
  function MakeYearCount(y: int, n: real): YearCount { YearCount(y, n) }
  predicate YearLe(a: YearCount, b: YearCount) { a.year <= b.year }
  predicate InYear(f: Feature, y: int) { f.year == y }

  /** `groupby(year_col).size().reset_index(name="n_features").sort_values(year_col)`. */
  function YearStats(feats: seq<Feature>): seq<YearCount>
  {
    Sort(GroupRows(feats, FeatureYear, One, MakeYearCount), YearLe)
  }

  /** Counting with `size()` is summing a one per feature. */
  lemma {:induction false} CountIsSize(feats: seq<Feature>, y: int)
    ensures SumBy(feats, FeatureYear, One, y) == |Where(feats, InYear, y)| as real
  {
    if feats != [] {
      CountIsSize(feats[1..], y);
    }
  }

  lemma {:induction false} TotalOnes(feats: seq<Feature>)
    ensures Total(feats, One) == |feats| as real
  {
    if feats != [] {
      TotalOnes(feats[1..]);
    }
  }

  /** The summary has one row per distinct year, strictly ascending by year; each
      row counts the features of its year, and the counts add up to the number of
      clipped features. */
  lemma YearStatsSpec(feats: seq<Feature>)
    ensures GroupTable(feats, FeatureYear, One, YearStats(feats), CountYear, CountValue)
    ensures forall i, j :: 0 <= i < j < |YearStats(feats)| ==> YearStats(feats)[i].year < YearStats(feats)[j].year
    ensures forall j :: 0 <= j < |YearStats(feats)| ==>
              YearStats(feats)[j].nFeatures == |Where(feats, InYear, YearStats(feats)[j].year)| as real
    ensures Total(YearStats(feats), CountValue) == |feats| as real
  {
    var grouped := GroupRows(feats, FeatureYear, One, MakeYearCount);
    var rows := YearStats(feats);
    GroupRowsTable(feats, FeatureYear, One, MakeYearCount, CountYear, CountValue);
    GroupTablePermutation(feats, FeatureYear, One, grouped, rows, CountYear, CountValue);
    assert TotalPreorder(YearLe);
    SortSorted(grouped, YearLe);
    forall i, j | 0 <= i < j < |rows|
      ensures rows[i].year < rows[j].year
    {
      assert YearLe(rows[i], rows[j]);
      assert KeysOf(rows, CountYear)[i] != KeysOf(rows, CountYear)[j];
    }
    assert RowsSummed(feats, FeatureYear, One, rows, CountYear, CountValue);
    forall j | 0 <= j < |rows|
      ensures rows[j].nFeatures == |Where(feats, InYear, rows[j].year)| as real
    {
      CountIsSize(feats, rows[j].year);
    }
    GroupTableTotal(feats, FeatureYear, One, rows, CountYear, CountValue);
    TotalOnes(feats);
  }

  /** The printed summary: per-year counts, or the column list when no year column
      exists. */
  datatype Summary = Stats(rows: seq<YearCount>) | ColumnList(cols: seq<string>)

  /** What the script saves and prints. */
  datatype Outputs = Outputs(saved: seq<Feature>, preview: seq<Feature>, summary: Summary)

  const AoiMissing := "AOI not found"
  const ProdesMissing := "PRODES not found"

  /** The run given which input files exist, the columns of the PRODES layer, its
      features (their `year` field holds the value of the resolved year column),
      the overlay (None when it raises) and the fallback clip. */
  function Run(aoiExists: bool, prodesExists: bool, cols: seq<string>, prodes: seq<Feature>,
               overlay: seq<Feature> -> Option<seq<Feature>>, clip: seq<Feature> -> seq<Feature>): Result<Outputs>
  {
    if !aoiExists then Err(AoiMissing)
    else if !prodesExists then Err(ProdesMissing)
    else
      var clipped := match overlay(prodes) case Some(fs) => fs case None => clip(prodes);
      var summary := if YearOrAno(cols).Some? then Stats(YearStats(clipped)) else ColumnList(cols);
      Ok(Outputs(clipped, Head(clipped, PreviewSize), summary))
  }

  /** A missing input file is fatal; otherwise the preview is the first
      `min(100, n)` clipped features, and the summary is the per-year table exactly
      when a `year` or `ano` column exists, the column list otherwise. */
  lemma RunSpec(aoiExists: bool, prodesExists: bool, cols: seq<string>, prodes: seq<Feature>,
                overlay: seq<Feature> -> Option<seq<Feature>>, clip: seq<Feature> -> seq<Feature>)
    ensures Run(aoiExists, prodesExists, cols, prodes, overlay, clip).Err? <==> !aoiExists || !prodesExists
    ensures var r := Run(aoiExists, prodesExists, cols, prodes, overlay, clip);
            r.Ok? ==>
              r.value.preview <= r.value.saved &&
              |r.value.preview| == (if |r.value.saved| < PreviewSize then |r.value.saved| else PreviewSize) &&
              (r.value.summary.Stats? <==> exists c :: c in cols && Lower(c) in YearCandidates) &&
              (r.value.summary.Stats? ==> r.value.summary.rows == YearStats(r.value.saved)) &&
              (r.value.summary.ColumnList? ==> r.value.summary.cols == cols)
  {
    var r := Run(aoiExists, prodesExists, cols, prodes, overlay, clip);
    if r.Ok? && (exists c :: c in cols && Lower(c) in YearCandidates) {
      var c :| c in cols && Lower(c) in YearCandidates;
      assert Lower(c) == "year" || Lower(c) == "ano";
    }
  }
}
