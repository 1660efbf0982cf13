/** The intersection of the deforestation polygons with the distance rings, as
    scripts/04_intersection.py and scripts/04_analyze_deforestation.py compute it:
    `gpd.overlay` first and, when it raises, a loop that clips the polygons by one
    ring at a time and tags the clipped rows with that ring's id. Clipping, overlay
    and area are geopandas/shapely calls and enter as parameters. */
module Overlay {
  import opened Common
  import opened Geometry
  import opened Aggregates

  /** A deforestation polygon: the value of its year column, its other attribute
      values by column name, and its area. */
  datatype Feature = Feature(year: int, attrs: map<string, string>, geom: Region)

  /** A row of the ring layer restricted to `ring_id` and geometry. */
  datatype RingShape = RingShape(ringId: string, geom: Region)

  /** A row of the intersection: a clipped polygon tagged with its ring. */
  datatype Piece = Piece(ringId: string, feature: Feature)

  /** The intersection as a table: its column names and its rows. */
  datatype InterTable = InterTable(cols: seq<string>, pieces: seq<Piece>)

  const EmptyIntersection := "empty intersection"

  /** `sub["ring_id"] = ring["ring_id"]` on a clipped block. */
  function Tag(id: string, sub: seq<Feature>): (ps: seq<Piece>)
    ensures |ps| == |sub|
    ensures forall j :: 0 <= j < |ps| ==> ps[j].ringId == id && ps[j].feature == sub[j]
  {
    seq(|sub|, j requires 0 <= j < |sub| => Piece(id, sub[j]))
  }

  /** The pieces that the clip loop has gathered after the first `n` rings: each
      ring's clipped block, tagged, in ring order. */
  function ClippedUpTo(prodes: seq<Feature>, rings: seq<RingShape>,
                       clip: (seq<Feature>, Region) -> seq<Feature>, n: nat): seq<Piece>
    requires n <= |rings|
  {
    if n == 0 then []
    else ClippedUpTo(prodes, rings, clip, n - 1) + Tag(rings[n - 1].ringId, clip(prodes, rings[n - 1].geom))
  }

  function Clipped(prodes: seq<Feature>, rings: seq<RingShape>, clip: (seq<Feature>, Region) -> seq<Feature>): seq<Piece>
  {
    ClippedUpTo(prodes, rings, clip, |rings|)
  }

  /** Every gathered piece is a polygon clipped by one of the rings, and carries
      that ring's id. */
  lemma {:induction false} ClippedProvenance(prodes: seq<Feature>, rings: seq<RingShape>,
                                             clip: (seq<Feature>, Region) -> seq<Feature>, n: nat, j: int)
    requires n <= |rings| && 0 <= j < |ClippedUpTo(prodes, rings, clip, n)|
    ensures exists i :: 0 <= i < n && ClippedUpTo(prodes, rings, clip, n)[j].ringId == rings[i].ringId &&
                        ClippedUpTo(prodes, rings, clip, n)[j].feature in clip(prodes, rings[i].geom)
  {
    var front := ClippedUpTo(prodes, rings, clip, n - 1);
    var sub := clip(prodes, rings[n - 1].geom);
    if j < |front| {
      ClippedProvenance(prodes, rings, clip, n - 1, j);
    } else {
      assert ClippedUpTo(prodes, rings, clip, n)[j] == Tag(rings[n - 1].ringId, sub)[j - |front|];
    }
  }

  /** Nothing is gathered exactly when every ring's clip is empty. */
  lemma {:induction false} ClippedEmpty(prodes: seq<Feature>, rings: seq<RingShape>,
                                        clip: (seq<Feature>, Region) -> seq<Feature>, n: nat)
    requires n <= |rings|
    ensures ClippedUpTo(prodes, rings, clip, n) == [] <==> forall i :: 0 <= i < n ==> clip(prodes, rings[i].geom) == []
  {
    if n > 0 {
      ClippedEmpty(prodes, rings, clip, n - 1);
    }
  }

  /** Column `c` added to a table (or overwritten when it is already there). */
  function WithColumn(cols: seq<string>, c: string): (r: seq<string>)
    ensures c in r && forall x :: x in cols ==> x in r
    ensures forall x :: x in r ==> x in cols || x == c
  {
    if c in cols then cols else cols + [c]
  }

  /** The outcome of the clip loop when the overlay raised. */
  function Fallback(cols: seq<string>, prodes: seq<Feature>, rings: seq<RingShape>,
                    clip: (seq<Feature>, Region) -> seq<Feature>): Result<InterTable>
  {
    var ps := Clipped(prodes, rings, clip);
    if ps == [] then Err(EmptyIntersection) else Ok(InterTable(WithColumn(cols, "ring_id"), ps))
  }

  /** The fallback loop: clip by each ring, tag non-empty clips with the ring's id,
      collect them in `parts` and concatenate; no part at all is fatal. */
  method ClipLoop(cols: seq<string>, prodes: seq<Feature>, rings: seq<RingShape>,
                  clip: (seq<Feature>, Region) -> seq<Feature>) returns (r: Result<InterTable>)
    ensures r.Err? <==> forall i :: 0 <= i < |rings| ==> clip(prodes, rings[i].geom) == []
    ensures r.Ok? ==> r.value.cols == WithColumn(cols, "ring_id") && r.value.pieces == Clipped(prodes, rings, clip)
  {
    var parts: seq<seq<Piece>> := [];
    for k := 0 to |rings|
      invariant Flatten(parts) == ClippedUpTo(prodes, rings, clip, k)
      invariant parts == [] <==> forall i :: 0 <= i < k ==> clip(prodes, rings[i].geom) == []
    {
      var sub := clip(prodes, rings[k].geom);
      if sub != [] {
        FlattenAppend(parts, Tag(rings[k].ringId, sub));
        parts := parts + [Tag(rings[k].ringId, sub)];
      } else {
        assert Tag(rings[k].ringId, sub) == [];
        assert ClippedUpTo(prodes, rings, clip, k + 1) == ClippedUpTo(prodes, rings, clip, k) + [];
      }
    }
    if parts == [] {
      return Err(EmptyIntersection);
    }
    return Ok(InterTable(WithColumn(cols, "ring_id"), Flatten(parts)));
  }

  /** `try: gpd.overlay(...) except: <clip loop>`; `overlay` answers None when it raises. */
  function Overlaid(cols: seq<string>, prodes: seq<Feature>, rings: seq<RingShape>,
                    overlay: (seq<Feature>, seq<RingShape>) -> Option<InterTable>,
                    clip: (seq<Feature>, Region) -> seq<Feature>): Result<InterTable>
  {
    match overlay(prodes, rings)
    case Some(t) => Ok(t)
    case None => Fallback(cols, prodes, rings, clip)
  }

  /** The intersection step fails only when the overlay raised and no ring's clip
      kept anything; a fallback result is the tagged clips in ring order. */
  lemma OverlaidOutcome(cols: seq<string>, prodes: seq<Feature>, rings: seq<RingShape>,
                        overlay: (seq<Feature>, seq<RingShape>) -> Option<InterTable>,
                        clip: (seq<Feature>, Region) -> seq<Feature>)
    ensures Overlaid(cols, prodes, rings, overlay, clip).Err? <==>
            overlay(prodes, rings).None? && forall i :: 0 <= i < |rings| ==> clip(prodes, rings[i].geom) == []
    ensures overlay(prodes, rings).None? && Overlaid(cols, prodes, rings, overlay, clip).Ok? ==>
            Overlaid(cols, prodes, rings, overlay, clip).value.pieces == Clipped(prodes, rings, clip) != [] &&
            "ring_id" in Overlaid(cols, prodes, rings, overlay, clip).value.cols
  {
    ClippedEmpty(prodes, rings, clip, |rings|);
  }

  /** One record per piece: ring, year and `area / 10_000` hectares. */
  function Records(area: Region -> real, ps: seq<Piece>): (recs: seq<Rec>)
    ensures |recs| == |ps|
    ensures forall j :: 0 <= j < |ps| ==>
              recs[j].ringId == ps[j].ringId && recs[j].year == ps[j].feature.year &&
              recs[j].areaHa * 10000.0 == area(ps[j].feature.geom)
  {
    seq(|ps|, j requires 0 <= j < |ps| => Rec(ps[j].ringId, ps[j].feature.year, area(ps[j].feature.geom) / 10000.0))
  }

  /** The columns kept for the output file, in this order, when present. */
  function OutputColumns(yearCol: string): seq<string>
  {
    ["ring_id", yearCol, "area_ha", "geometry"]
  }

  predicate Present(c: string, cols: seq<string>) { c in cols }

  /** `[c for c in ["ring_id", year_col, "area_ha", "geometry"] if c in inter.columns]`. */
  function PruneColumns(cols: seq<string>, yearCol: string): (r: seq<string>)
    ensures forall c :: c in r <==> c in cols && c in OutputColumns(yearCol)
    ensures |r| <= 4
  {
    Where(OutputColumns(yearCol), Present, cols)
  }
}
