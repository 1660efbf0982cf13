/** scripts/05_precompute_intersections.py: repair and explode the geometries of
    both layers, keep only polygons, intersect, and save the records and the two
    aggregate tables. */
module Precompute {
  import opened Common
  import opened Geometry
  import opened Columns
  import opened Aggregates
  import Overlay

  /** A shapely geometry, as far as the sanitising step tells them apart. */
  datatype Geom =
    | Null
    | Polygon(region: Region)
    | MultiPolygon(parts: seq<Region>)
    | Collection(items: seq<Geom>)
    | Other(kind: string)   // points, lines and the rest

  /** A row of a GeoDataFrame: its attribute values and its geometry. */
  datatype GeoRow = GeoRow(attrs: map<string, string>, geom: Geom)

  /** Step 1: `make_valid` on every non-null geometry. */
  function Repaired(rows: seq<GeoRow>, makeValid: Geom -> Geom): (r: seq<GeoRow>)
    ensures |r| == |rows|
    ensures forall i :: 0 <= i < |rows| ==>
              r[i].attrs == rows[i].attrs &&
              r[i].geom == (if rows[i].geom.Null? then Null else makeValid(rows[i].geom))
  {
    seq(|rows|, i requires 0 <= i < |rows| =>
      GeoRow(rows[i].attrs, if rows[i].geom.Null? then Null else makeValid(rows[i].geom)))
  }

  function WithGeoms(attrs: map<string, string>, gs: seq<Geom>): (r: seq<GeoRow>)
    ensures |r| == |gs| && forall j :: 0 <= j < |gs| ==> r[j] == GeoRow(attrs, gs[j])
  {
    seq(|gs|, j requires 0 <= j < |gs| => GeoRow(attrs, gs[j]))
  }

  function Polygons(ps: seq<Region>): (gs: seq<Geom>)
    ensures |gs| == |ps| && forall j :: 0 <= j < |ps| ==> gs[j] == Polygon(ps[j])
  {
    seq(|ps|, j requires 0 <= j < |ps| => Polygon(ps[j]))
  }

  /** `explode` of one row: one row per part of a multi-part geometry, one level
      deep, each with the row's attributes. */
  function ExplodeRow(row: GeoRow): seq<GeoRow>
  {
    match row.geom
    case MultiPolygon(ps) => WithGeoms(row.attrs, Polygons(ps))
    case Collection(items) => WithGeoms(row.attrs, items)
    case _ => [row]
  }

  /** `explode(index_parts=False, ignore_index=True)`. */
  function Explode(rows: seq<GeoRow>): seq<GeoRow>
  {
    if rows == [] then [] else ExplodeRow(rows[0]) + Explode(rows[1..])
  }

  lemma {:induction false} ExplodeConcat(a: seq<GeoRow>, b: seq<GeoRow>)
    ensures Explode(a + b) == Explode(a) + Explode(b)
  {
    if a == [] {
      assert a + b == b;
    } else {
      assert (a + b)[1..] == a[1..] + b;
      ExplodeConcat(a[1..], b);
    }
  }

  predicate Polygonal(row: GeoRow) { row.geom.Polygon? || row.geom.MultiPolygon? }
  predicate IsPolygon(row: GeoRow) { row.geom.Polygon? }

  predicate HasMultiPolygon(rows: seq<GeoRow>)
  {
    exists i :: 0 <= i < |rows| && rows[i].geom.MultiPolygon?
  }

  /** `_fix_geoms`: repair, explode, keep non-null Polygon/MultiPolygon rows and,
      if a MultiPolygon is still there, explode once more and keep only Polygons.
      The positions of the result are the reset index. */
  function FixGeoms(rows: seq<GeoRow>, makeValid: Geom -> Geom): seq<GeoRow>
  {
    var kept := Filter(Explode(Repaired(rows, makeValid)), Polygonal);
    if HasMultiPolygon(kept) then Filter(Explode(kept), IsPolygon) else kept
  }

  // ---------------------------------------------------------------------------
  // What `_fix_geoms` keeps, stated independently
  // ---------------------------------------------------------------------------

  /** The polygons a geometry contributes once it is a row of its own. */
  function DirectParts(g: Geom): seq<Region>
  {
    match g
    case Polygon(p) => [p]
    case MultiPolygon(ps) => ps
    case _ => []
  }

  function ItemParts(items: seq<Geom>): seq<Region>
  {
    if items == [] then [] else DirectParts(items[0]) + ItemParts(items[1..])
  }

  /** The polygons of a geometry that survive: the polygon itself, the parts of a
      multipolygon, and the polygons and multipolygon parts directly inside a
      collection. A collection nested in a collection is not looked into. */
  function PolygonParts(g: Geom): seq<Region>
  {
    if g.Collection? then ItemParts(g.items) else DirectParts(g)
  }

  /** One polygon row per surviving part of each row, in order, with the row's
      attributes. */
  function PolygonRows(rows: seq<GeoRow>): (r: seq<GeoRow>)
    ensures forall j :: 0 <= j < |r| ==> r[j].geom.Polygon?
  {
    if rows == [] then []
    else WithGeoms(rows[0].attrs, Polygons(PolygonParts(rows[0].geom))) + PolygonRows(rows[1..])
  }

  /** What follows the first explode: keep Polygon/MultiPolygon, explode, keep Polygon. */
  function Tail(rows: seq<GeoRow>): seq<GeoRow>
  {
    Filter(Explode(Filter(rows, Polygonal)), IsPolygon)
  }

  lemma TailConcat(a: seq<GeoRow>, b: seq<GeoRow>)
    ensures Tail(a + b) == Tail(a) + Tail(b)
  {
    FilterConcat(a, b, Polygonal);
    ExplodeConcat(Filter(a, Polygonal), Filter(b, Polygonal));
    FilterConcat(Explode(Filter(a, Polygonal)), Explode(Filter(b, Polygonal)), IsPolygon);
  }

  lemma {:induction false} WithGeomsConcat(attrs: map<string, string>, a: seq<Geom>, b: seq<Geom>)
    ensures WithGeoms(attrs, a + b) == WithGeoms(attrs, a) + WithGeoms(attrs, b)
  {
  }

  lemma {:induction false} PolygonsConcat(a: seq<Region>, b: seq<Region>)
    ensures Polygons(a + b) == Polygons(a) + Polygons(b)
  {
  }

  lemma ExplodeSingle(row: GeoRow)
    ensures Explode([row]) == ExplodeRow(row)
  {
    assert [row][1..] == [];
  }

  lemma FilterSingle(row: GeoRow, p: GeoRow -> bool)
    ensures Filter([row], p) == if p(row) then [row] else []
  {
    assert [row][1..] == [];
  }

  /** Polygon rows pass the filters unchanged. */
  lemma {:induction false} PolygonRowsKept(attrs: map<string, string>, ps: seq<Region>, p: GeoRow -> bool)
    requires forall r: GeoRow :: r.geom.Polygon? ==> p(r)
    ensures Filter(WithGeoms(attrs, Polygons(ps)), p) == WithGeoms(attrs, Polygons(ps))
  {
    if ps != [] {
      var rs := WithGeoms(attrs, Polygons(ps));
      PolygonRowsKept(attrs, ps[1..], p);
      assert rs[1..] == WithGeoms(attrs, Polygons(ps[1..]));
    }
  }

  /** Polygon rows are not split by explode. */
  lemma {:induction false} PolygonRowsWhole(attrs: map<string, string>, ps: seq<Region>)
    ensures Explode(WithGeoms(attrs, Polygons(ps))) == WithGeoms(attrs, Polygons(ps))
  {
    if ps != [] {
      var rs := WithGeoms(attrs, Polygons(ps));
      PolygonRowsWhole(attrs, ps[1..]);
      assert rs[1..] == WithGeoms(attrs, Polygons(ps[1..]));
      assert ExplodeRow(rs[0]) == [rs[0]];
    }
  }

  /** The stages after the first explode leave polygon rows as they are. */
  lemma PolygonRowsTail(attrs: map<string, string>, ps: seq<Region>)
    ensures Tail(WithGeoms(attrs, Polygons(ps))) == WithGeoms(attrs, Polygons(ps))
  {
    PolygonRowsKept(attrs, ps, Polygonal);
    PolygonRowsWhole(attrs, ps);
    PolygonRowsKept(attrs, ps, IsPolygon);
  }

  /** The stages after the first explode, on a single row. */
  lemma TailSingle(attrs: map<string, string>, g: Geom)
    ensures Tail([GeoRow(attrs, g)]) == WithGeoms(attrs, Polygons(DirectParts(g)))
  {
    var row := GeoRow(attrs, g);
    FilterSingle(row, Polygonal);
    if g.Polygon? {
      PolygonRowsTail(attrs, [g.region]);
      assert [row] == WithGeoms(attrs, Polygons([g.region]));
    } else if g.MultiPolygon? {
      ExplodeSingle(row);
      PolygonRowsKept(attrs, g.parts, IsPolygon);
    } else {
      assert Explode([]) == [];
    }
  }

  /** The stages after the first explode, on the rows a collection explodes into. */
  lemma {:induction false} TailItems(attrs: map<string, string>, items: seq<Geom>)
    ensures Tail(WithGeoms(attrs, items)) == WithGeoms(attrs, Polygons(ItemParts(items)))
  {
    if items != [] {
      assert WithGeoms(attrs, items) == [GeoRow(attrs, items[0])] + WithGeoms(attrs, items[1..]);
      TailConcat([GeoRow(attrs, items[0])], WithGeoms(attrs, items[1..]));
      TailSingle(attrs, items[0]);
      TailItems(attrs, items[1..]);
      PolygonsConcat(DirectParts(items[0]), ItemParts(items[1..]));
      WithGeomsConcat(attrs, Polygons(DirectParts(items[0])), Polygons(ItemParts(items[1..])));
    }
  }

  /** Both stages on one row keep exactly its surviving polygon parts. */
  lemma RowStages(row: GeoRow)
    ensures Tail(Explode([row])) == WithGeoms(row.attrs, Polygons(PolygonParts(row.geom)))
  {
    ExplodeSingle(row);
    match row.geom {
      case MultiPolygon(ps) =>
        PolygonRowsTail(row.attrs, ps);
      case Collection(items) =>
        TailItems(row.attrs, items);
      case _ =>
        TailSingle(row.attrs, row.geom);
    }
  }

  lemma {:induction false} StagesPolygonRows(rows: seq<GeoRow>)
    ensures Tail(Explode(rows)) == PolygonRows(rows)
  {
    if rows == [] {
      assert Filter([], Polygonal) == [];
      assert Filter(Explode([]), IsPolygon) == [];
    } else {
      assert rows == [rows[0]] + rows[1..];
      ExplodeConcat([rows[0]], rows[1..]);
      TailConcat(Explode([rows[0]]), Explode(rows[1..]));
      RowStages(rows[0]);
      StagesPolygonRows(rows[1..]);
    }
  }

  /** When the kept rows hold no MultiPolygon they are all Polygons, so the second
      explode/filter would change nothing: skipping it is harmless. */
  lemma {:induction false} AllPolygonsFixed(rows: seq<GeoRow>)
    requires forall i :: 0 <= i < |rows| ==> rows[i].geom.Polygon?
    ensures Filter(Explode(rows), IsPolygon) == rows
  {
    if rows != [] {
      AllPolygonsFixed(rows[1..]);
      assert Explode(rows) == [rows[0]] + Explode(rows[1..]);
      assert rows == [rows[0]] + rows[1..];
      FilterConcat([rows[0]], Explode(rows[1..]), IsPolygon);
      assert Filter([rows[0]], IsPolygon) == [rows[0]] + Filter([rows[0]][1..], IsPolygon);
    }
  }

  /** `_fix_geoms` turns each row into one Polygon row per polygon part of its
      repaired geometry, keeping the row's attributes and the row order; points,
      lines, null geometries and multi-part geometries or collections without
      polygon parts yield nothing (an empty Polygon is kept, as in the script). */
  lemma FixGeomsSpec(rows: seq<GeoRow>, makeValid: Geom -> Geom)
    ensures FixGeoms(rows, makeValid) == PolygonRows(Repaired(rows, makeValid))
    ensures forall j :: 0 <= j < |FixGeoms(rows, makeValid)| ==> FixGeoms(rows, makeValid)[j].geom.Polygon?
  {
    var rep := Repaired(rows, makeValid);
    var kept := Filter(Explode(rep), Polygonal);
    StagesPolygonRows(rep);
    if !HasMultiPolygon(kept) {
      forall i | 0 <= i < |kept|
        ensures kept[i].geom.Polygon?
      {
        assert kept[i] in kept;
      }
      AllPolygonsFixed(kept);
    }
  }

  // ---------------------------------------------------------------------------
  // The script
  // ---------------------------------------------------------------------------

  /** A row of the intersection: ring id, year value and polygon. */
  datatype InterRow = InterRow(ringId: string, year: int, geom: Region)

  /** The intersection as a table: column names and rows. */
  datatype InterTable = InterTable(cols: seq<string>, rows: seq<InterRow>)

  /** What the script saves: parquet columns and records, and the two CSV tables. */
  datatype Outputs = Outputs(parquetCols: seq<string>, records: seq<Rec>,
                             byRingYear: seq<YearRow>, byRing: seq<RingRow>)

  const NoYearColumn := "column 'year' not found in the clipped PRODES"
  const MissingColumn := "KeyError: an output column is missing"

  /** The empty files: the column names are fixed, with the literal `year`. */
  const EmptyOutputs := Outputs(["ring_id", "year", "area_ha", "geometry"], [], [], [])

  /** An intersection row seen as a tagged piece of deforestation. */
  function AsPieces(rows: seq<InterRow>): (ps: seq<Overlay.Piece>)
    ensures |ps| == |rows|
    ensures forall j :: 0 <= j < |rows| ==>
              ps[j].ringId == rows[j].ringId && ps[j].feature.year == rows[j].year &&
              ps[j].feature.geom == rows[j].geom
  {
    seq(|rows|, j requires 0 <= j < |rows| =>
      Overlay.Piece(rows[j].ringId, Overlay.Feature(rows[j].year, map[], rows[j].geom)))
  }

  /** One record per intersection row (line 76): its ring, its year and its area
      in hectares, converted as in scripts/04_intersection.py. */
  function Recs(rows: seq<InterRow>, area: Region -> real): (recs: seq<Rec>)
    ensures |recs| == |rows|
    ensures forall j :: 0 <= j < |rows| ==>
              recs[j].ringId == rows[j].ringId && recs[j].year == rows[j].year &&
              recs[j].areaHa * 10000.0 == area(rows[j].geom)
  {
    Overlay.Records(area, AsPieces(rows))
  }

  /** The run after loading: sanitise both layers, pre-clip by the rings' bounding
      box (`preclip`), intersect (`overlay`), and save. */
  function Run(rings: seq<GeoRow>, prodes: seq<GeoRow>, makeValid: Geom -> Geom,
               preclip: (seq<GeoRow>, seq<GeoRow>) -> seq<GeoRow>,
               overlay: (seq<GeoRow>, seq<GeoRow>) -> InterTable, area: Region -> real): Result<Outputs>
  {
    var rs := FixGeoms(rings, makeValid);
    var ps := preclip(FixGeoms(prodes, makeValid), rs);
    var inter := overlay(ps, rs);
    if inter.rows == [] then Ok(EmptyOutputs)
    else
      match YearColumn(inter.cols)
      case None => Err(NoYearColumn)
      case Some(yearCol) =>
        var cols := if "area_ha" in inter.cols then inter.cols else inter.cols + ["area_ha"];
        if "ring_id" !in cols || "geometry" !in cols then Err(MissingColumn)
        else
          var recs := Recs(inter.rows, area);
          Ok(Outputs(["ring_id", yearCol, "area_ha", "geometry"], recs, ByRingYear(recs), ByRingTotal(recs)))
  }

  /** The outcomes of a run: empty files for an empty intersection, an error
      exactly when a non-empty intersection lacks the year, `ring_id` or
      `geometry` column, otherwise exactly the four output columns, the hectare
      record of every intersection row, and the two tables grouped from them. */
  lemma RunOutcome(rings: seq<GeoRow>, prodes: seq<GeoRow>, makeValid: Geom -> Geom,
                   preclip: (seq<GeoRow>, seq<GeoRow>) -> seq<GeoRow>,
                   overlay: (seq<GeoRow>, seq<GeoRow>) -> InterTable, area: Region -> real)
    ensures var inter := overlay(preclip(FixGeoms(prodes, makeValid), FixGeoms(rings, makeValid)),
                                 FixGeoms(rings, makeValid));
            var out := Run(rings, prodes, makeValid, preclip, overlay, area);
            (inter.rows == [] ==> out == Ok(EmptyOutputs)) &&
            (out.Err? <==> inter.rows != [] &&
                           (YearColumn(inter.cols).None? || "ring_id" !in inter.cols || "geometry" !in inter.cols)) &&
            (out.Ok? && inter.rows != [] ==>
               YearColumn(inter.cols).Some? &&
               out.value.parquetCols == ["ring_id", YearColumn(inter.cols).value, "area_ha", "geometry"] &&
               out.value.records == Recs(inter.rows, area) &&
               out.value.byRingYear == ByRingYear(out.value.records) &&
               out.value.byRing == ByRingTotal(out.value.records))
  {
    var rs := FixGeoms(rings, makeValid);
    var inter := overlay(preclip(FixGeoms(prodes, makeValid), rs), rs);
    if inter.rows != [] && YearColumn(inter.cols).Some? {
      var cols := if "area_ha" in inter.cols then inter.cols else inter.cols + ["area_ha"];
      assert "ring_id" in cols <==> "ring_id" in inter.cols;
      assert "geometry" in cols <==> "geometry" in inter.cols;
    }
  }
}
