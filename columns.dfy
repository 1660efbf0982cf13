/** Case-insensitive column resolution: several scripts look for "the first column
    whose lower-cased name is `year`" (scripts/04_intersection.py, 04_analyze_deforestation.py,
    05_precompute_intersections.py, 06_build_duckdb.py, doc.py, app.py). */
module Columns {
  import opened Common
  import opened Text

  /** Position of the first column whose lower-cased name is `key`. */
  function FirstLowerIndex(cols: seq<string>, key: string): (r: Option<nat>)
    ensures r.Some? ==> r.value < |cols| && Lower(cols[r.value]) == key
    ensures r.Some? ==> forall j :: 0 <= j < r.value ==> Lower(cols[j]) != key
    ensures r.None? <==> forall j :: 0 <= j < |cols| ==> Lower(cols[j]) != key
  {
    if cols == [] then None
    else if Lower(cols[0]) == key then Some(0)
    else match FirstLowerIndex(cols[1..], key)
      case None => None
      case Some(i) => Some(i + 1)
  }

  /** The year column, in its original spelling: the first column, in column
      order, named `year` in any letter case, or None when there is none. */
  function YearColumn(cols: seq<string>): (r: Option<string>)
    ensures r.Some? ==> r.value in cols && Lower(r.value) == "year"
    ensures r.None? <==> forall c :: c in cols ==> Lower(c) != "year"
    ensures r.Some? ==> exists i :: 0 <= i < |cols| && cols[i] == r.value &&
                          forall j :: 0 <= j < i ==> Lower(cols[j]) != "year"
  {
    match FirstLowerIndex(cols, "year")
    case None => None
    case Some(i) => Some(cols[i])
  }

  /** `find_year_col`: scan the columns in order and return the first one whose
      lower-cased name is `year`. */
  method FindYearCol(columns: seq<string>) returns (col: Option<string>)
    ensures col == YearColumn(columns)
  {
    for i := 0 to |columns|
      invariant forall j :: 0 <= j < i ==> Lower(columns[j]) != "year"
    {
      if Lower(columns[i]) == "year" {
        return Some(columns[i]);
      }
    }
    return None;
  }
}
