/** scripts/04_intersection.py: intersect the deforestation polygons with the
    distance rings once, and save the records and the two aggregate tables. */
module Intersection {
  import opened Common
  import opened Geometry
  import opened Columns
  import opened Aggregates
  import opened Overlay

  /** What the script saves: the columns and records of the GeoParquet file and
      the two CSV tables. */
  datatype Outputs = Outputs(parquetCols: seq<string>, records: seq<Rec>,
                             byRingYear: seq<YearRow>, byRing: seq<RingRow>)

  const NoYearColumn := "column 'year' not found"
  const UnaryUnionUndefined := "NameError: name 'unary_union' is not defined"

  /** The coherent empty files written when the intersection is empty. */
  function EmptyOutputs(yearCol: string): Outputs
  {
    Outputs(OutputColumns(yearCol), [], [], [])
  }

  /** The records and tables of a non-empty intersection. */
  function Saved(t: InterTable, yearCol: string, area: Region -> real): Outputs
  {
    var recs := Records(area, t.pieces);
    Outputs(PruneColumns(WithColumn(t.cols, "area_ha"), yearCol), recs, ByRingYear(recs), ByRingTotal(recs))
  }

  /** The script with the bounding-box pre-clip (`preclip`) of line 86 working as
      evidently intended. */
  function Intersect(cols: seq<string>, prodes: seq<Feature>, rings: seq<RingShape>,
                     preclip: seq<Feature> -> seq<Feature>,
                     overlay: (seq<Feature>, seq<RingShape>) -> Option<InterTable>,
                     clip: (seq<Feature>, Region) -> seq<Feature>, area: Region -> real): Result<Outputs>
  {
    match YearColumn(cols)
    case None => Err(NoYearColumn)
    case Some(yearCol) =>
      match Overlaid(cols, preclip(prodes), rings, overlay, clip)
      case Err(msg) => Err(msg)
      case Ok(t) =>
        if t.pieces == [] then Ok(EmptyOutputs(yearCol)) else Ok(Saved(t, yearCol, area))
  }

  /** The script as written: `unary_union` is used on line 86 but never imported
      (lines 23-27), so every run that gets past the year-column check stops there. */
  function IntersectAsWritten(cols: seq<string>, prodes: seq<Feature>, rings: seq<RingShape>): Result<Outputs>
  {
    match YearColumn(cols)
    case None => Err(NoYearColumn)
    case Some(_) => Err(UnaryUnionUndefined)
  }

  /** As written, the script never produces its outputs, while the intended
      script does whenever the year column exists and the overlay succeeds. */
  lemma AsWrittenNeverSaves(cols: seq<string>, prodes: seq<Feature>, rings: seq<RingShape>,
                            preclip: seq<Feature> -> seq<Feature>,
                            overlay: (seq<Feature>, seq<RingShape>) -> Option<InterTable>,
                            clip: (seq<Feature>, Region) -> seq<Feature>, area: Region -> real)
    ensures IntersectAsWritten(cols, prodes, rings).Err?
    ensures YearColumn(cols).Some? ==> IntersectAsWritten(cols, prodes, rings) == Err(UnaryUnionUndefined)
    ensures YearColumn(cols).Some? && overlay(preclip(prodes), rings).Some? ==>
            Intersect(cols, prodes, rings, preclip, overlay, clip, area).Ok?
  {
  }

  /** When the script stops with an error: no year column, or the overlay raised
      and every per-ring clip came back empty. */
  lemma IntersectFails(cols: seq<string>, prodes: seq<Feature>, rings: seq<RingShape>,
                       preclip: seq<Feature> -> seq<Feature>,
                       overlay: (seq<Feature>, seq<RingShape>) -> Option<InterTable>,
                       clip: (seq<Feature>, Region) -> seq<Feature>, area: Region -> real)
    ensures Intersect(cols, prodes, rings, preclip, overlay, clip, area).Err? <==>
            YearColumn(cols).None? ||
            (overlay(preclip(prodes), rings).None? &&
             forall i :: 0 <= i < |rings| ==> clip(preclip(prodes), rings[i].geom) == [])
  {
    OverlaidOutcome(cols, preclip(prodes), rings, overlay, clip);
  }

  /** What is saved: an empty intersection gives the empty files with the fixed
      columns; otherwise the hectare record of every piece, only the four output columns, and
      the two tables grouped from those records. */
  lemma IntersectSaves(cols: seq<string>, prodes: seq<Feature>, rings: seq<RingShape>,
                       preclip: seq<Feature> -> seq<Feature>,
                       overlay: (seq<Feature>, seq<RingShape>) -> Option<InterTable>,
                       clip: (seq<Feature>, Region) -> seq<Feature>, area: Region -> real)
    requires Intersect(cols, prodes, rings, preclip, overlay, clip, area).Ok?
    ensures var out := Intersect(cols, prodes, rings, preclip, overlay, clip, area).value;
            var t := Overlaid(cols, preclip(prodes), rings, overlay, clip).value;
            YearColumn(cols).Some? &&
            (t.pieces == [] ==>
               out.parquetCols == ["ring_id", YearColumn(cols).value, "area_ha", "geometry"] &&
               out.records == [] && out.byRingYear == [] && out.byRing == []) &&
            (t.pieces != [] ==>
               out.records == Records(area, t.pieces) &&
               (forall c :: c in out.parquetCols ==> c in OutputColumns(YearColumn(cols).value)) &&
               "area_ha" in out.parquetCols &&
               out.byRingYear == ByRingYear(out.records) && out.byRing == ByRingTotal(out.records))
  {
  }
}
