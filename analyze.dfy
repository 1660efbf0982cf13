/** scripts/04_analyze_deforestation.py: filter the deforestation polygons by year
    window and class, intersect them with the rings, and tabulate the area per
    (ring, year) and per ring. Every empty result on the way is fatal. */
module Analyze {
  import opened Common
  import opened Text
  import opened Geometry
  import opened Columns
  import opened Aggregates
  import opened Overlay

  /** The command-line options that shape the result. */
  datatype Options = Options(yearMin: Option<int>, yearMax: Option<int>, classField: string,
                             classKeep: Option<seq<string>>, previewN: int)

  /** The saved tables and the preview rows. */
  datatype Report = Report(byRingYear: seq<YearRow>, byRing: seq<RingRow>, preview: seq<Piece>)

  const NoYearColumn := "column 'year' not found"
  const EmptyAfterFilters := "no polygon left after the year/class filters"

  /** `prodes_m[cf].astype(str)`: the attribute value, `nan` when missing. */
  function Cell(f: Feature, cf: string): string
  {
    if cf in f.attrs then f.attrs[cf] else "nan"
  }

  predicate AtLeast(f: Feature, y: int) { f.year >= y }
  predicate AtMost(f: Feature, y: int) { f.year <= y }

  /** `vals.isin(keep)` with both sides upper-cased. */
  predicate ClassIn(f: Feature, sel: (string, set<string>)) { Upper(Cell(f, sel.0)) in sel.1 }

  function UpperSet(ks: seq<string>): (s: set<string>)
    ensures forall k :: k in s <==> exists i :: 0 <= i < |ks| && Upper(ks[i]) == k
  {
    set i | 0 <= i < |ks| :: Upper(ks[i])
  }

  /** Whether the class filter applies: classes given (a non-empty list) and the
      class field present. */
  predicate ClassFilterOn(cols: seq<string>, opts: Options)
  {
    opts.classKeep.Some? && opts.classKeep.value != [] && opts.classField in cols
  }

  /** The filters of lines 90-105, applied one after the other. */
  method FilterProdes(cols: seq<string>, prodes: seq<Feature>, opts: Options) returns (rows: seq<Feature>)
    ensures forall f :: f in rows <==>
              f in prodes &&
              (opts.yearMin.Some? ==> f.year >= opts.yearMin.value) &&
              (opts.yearMax.Some? ==> f.year <= opts.yearMax.value) &&
              (ClassFilterOn(cols, opts) ==> Upper(Cell(f, opts.classField)) in UpperSet(opts.classKeep.value))
    ensures rows == Filtered(cols, prodes, opts)
  {
    rows := prodes;
    if opts.yearMin.Some? {
      rows := Where(rows, AtLeast, opts.yearMin.value);
    }
    if opts.yearMax.Some? {
      rows := Where(rows, AtMost, opts.yearMax.value);
    }
    if opts.classKeep.Some? && opts.classKeep.value != [] {
      if opts.classField in cols {
        rows := Where(rows, ClassIn, (opts.classField, UpperSet(opts.classKeep.value)));
      }
    }
  }

  function YearFloor(rows: seq<Feature>, opts: Options): seq<Feature>
  {
    if opts.yearMin.Some? then Where(rows, AtLeast, opts.yearMin.value) else rows
  }

  function YearCeiling(rows: seq<Feature>, opts: Options): seq<Feature>
  {
    if opts.yearMax.Some? then Where(rows, AtMost, opts.yearMax.value) else rows
  }

  function ClassSelection(cols: seq<string>, rows: seq<Feature>, opts: Options): seq<Feature>
  {
    if ClassFilterOn(cols, opts) then Where(rows, ClassIn, (opts.classField, UpperSet(opts.classKeep.value)))
    else rows
  }

  /** The rows left by the year and class filters. */
  function Filtered(cols: seq<string>, prodes: seq<Feature>, opts: Options): seq<Feature>
  {
    ClassSelection(cols, YearCeiling(YearFloor(prodes, opts), opts), opts)
  }

  /** The filters keep the row order: filtering a concatenation filters each part. */
  lemma FilteredConcat(cols: seq<string>, a: seq<Feature>, b: seq<Feature>, opts: Options)
    ensures Filtered(cols, a + b, opts) == Filtered(cols, a, opts) + Filtered(cols, b, opts)
  {
    if opts.yearMin.Some? {
      WhereConcat(a, b, AtLeast, opts.yearMin.value);
    }
    var a1, b1 := YearFloor(a, opts), YearFloor(b, opts);
    if opts.yearMax.Some? {
      WhereConcat(a1, b1, AtMost, opts.yearMax.value);
    }
    var a2, b2 := YearCeiling(a1, opts), YearCeiling(b1, opts);
    if ClassFilterOn(cols, opts) {
      WhereConcat(a2, b2, ClassIn, (opts.classField, UpperSet(opts.classKeep.value)));
    }
  }

  /** The script's tables, given the intersection. */
  function Tabulate(t: InterTable, area: Region -> real, previewN: int): Report
  {
    var recs := Records(area, t.pieces);
    Report(ByRingYear(recs), ByRingTotal(recs), Head(t.pieces, previewN))
  }

  /** The whole run. */
  function Run(cols: seq<string>, prodes: seq<Feature>, rings: seq<RingShape>, opts: Options,
               overlay: (seq<Feature>, seq<RingShape>) -> Option<InterTable>,
               clip: (seq<Feature>, Region) -> seq<Feature>, area: Region -> real): Result<Report>
  {
    if YearColumn(cols).None? then Err(NoYearColumn)
    else
      var rows := Filtered(cols, prodes, opts);
      if rows == [] then Err(EmptyAfterFilters)
      else
        match Overlaid(cols, rows, rings, overlay, clip)
        case Err(msg) => Err(msg)
        case Ok(t) => if t.pieces == [] then Err(EmptyIntersection) else Ok(Tabulate(t, area, opts.previewN))
  }

  /** Every way the run is fatal: no year column, nothing left after the filters,
      or an empty intersection, whether from the overlay or from the clip loop. */
  lemma RunFails(cols: seq<string>, prodes: seq<Feature>, rings: seq<RingShape>, opts: Options,
                 overlay: (seq<Feature>, seq<RingShape>) -> Option<InterTable>,
                 clip: (seq<Feature>, Region) -> seq<Feature>, area: Region -> real)
    ensures var rows := Filtered(cols, prodes, opts);
            Run(cols, prodes, rings, opts, overlay, clip, area).Err? <==>
            YearColumn(cols).None? || rows == [] ||
            (overlay(rows, rings).Some? && overlay(rows, rings).value.pieces == []) ||
            (overlay(rows, rings).None? && forall i :: 0 <= i < |rings| ==> clip(rows, rings[i].geom) == [])
  {
    OverlaidOutcome(cols, Filtered(cols, prodes, opts), rings, overlay, clip);
  }

  /** A successful run tabulates a non-empty intersection of the filtered rows;
      the preview is its first `preview_n` rows in order. */
  lemma RunSucceeds(cols: seq<string>, prodes: seq<Feature>, rings: seq<RingShape>, opts: Options,
                    overlay: (seq<Feature>, seq<RingShape>) -> Option<InterTable>,
                    clip: (seq<Feature>, Region) -> seq<Feature>, area: Region -> real)
    requires Run(cols, prodes, rings, opts, overlay, clip, area).Ok?
    ensures var t := Overlaid(cols, Filtered(cols, prodes, opts), rings, overlay, clip).value;
            var out := Run(cols, prodes, rings, opts, overlay, clip, area).value;
            var recs := Records(area, t.pieces);
            t.pieces != [] && out.byRingYear == ByRingYear(recs) && out.byRing == ByRingTotal(recs) &&
            out.preview <= t.pieces &&
            (opts.previewN >= 0 ==> |out.preview| == if opts.previewN < |t.pieces| then opts.previewN else |t.pieces|)
  {
  }
}
