/** Distance rings around the road network (scripts/03_create_buffers.py): the
    optional road-class filter, the chunked buffer of every distance clipped to
    the area of interest, and the ring list `0-d1km, d1-d2km, …, >dmaxkm` built
    from consecutive buffers. */
module Buffers {
  import opened Common
  import opened Text
  import opened GroupBy
  import opened Geometry

  /** A road segment: its OSM class and its line geometry. */
  datatype Road = Road(fclass: string, line: Region)

  /** The road layer; `hasFclass` says whether the attribute table has an `fclass` column. */
  datatype RoadTable = RoadTable(hasFclass: bool, rows: seq<Road>)

  /** A distance ring: its label, its inner and outer bounds in km (`None` for the
      outermost ring) and its region. */
  datatype Ring = Ring(id: string, minKm: int, maxKm: Option<int>, geom: Region)

  // ---------------------------------------------------------------------------
  // Road-class filter
  // ---------------------------------------------------------------------------

  /** The keep list lower-cased, as a set. */
  function LowerSet(keep: seq<string>): set<string>
  {
    set k | k in keep :: Lower(k)
  }

  /** The mask `fclass.astype(str).str.lower().isin(kk)`. */
  predicate ClassKept(x: Road, kk: set<string>)
  {
    Lower(x.fclass) in kk
  }

  /** `filter_by_fclass`: without an `fclass` column the layer is returned as is;
      otherwise exactly the rows whose class matches a kept class case-insensitively
      are kept, in order. */
  function FilterByFclass(roads: RoadTable, keep: seq<string>): (r: RoadTable)
    ensures !roads.hasFclass ==> r == roads
    ensures r.hasFclass == roads.hasFclass
    ensures roads.hasFclass ==>
      forall x :: x in r.rows <==> x in roads.rows && exists k :: k in keep && Lower(k) == Lower(x.fclass)
    ensures roads.hasFclass ==>
      forall x :: multiset(r.rows)[x] ==
        if exists k :: k in keep && Lower(k) == Lower(x.fclass) then multiset(roads.rows)[x] else 0
    ensures IsSubsequence(r.rows, roads.rows)
  {
    WhereSubsequence(roads.rows, ClassKept, LowerSet(keep));
    WhereMultiset(roads.rows, ClassKept, LowerSet(keep));
    if !roads.hasFclass then
      IsSubsequenceRefl(roads.rows);
      roads
    else RoadTable(true, Where(roads.rows, ClassKept, LowerSet(keep)))
  }

  // ---------------------------------------------------------------------------
  // Distances
  // ---------------------------------------------------------------------------

  function IntId(x: int): int { x }
  predicate IntLe(a: int, b: int) { a <= b }

  /** `sorted(set(dists))`. */
  function SortedDistinct(ds: seq<int>): (r: seq<int>)
    ensures forall i, j :: 0 <= i < j < |r| ==> r[i] < r[j]
    ensures forall x :: x in r <==> x in ds
  {
    var ks := Keys(ds, IntId);
    var s := Sort(ks, IntLe);
    SortSorted(ks, IntLe);
    DistinctByMultiset(ks, s);
    forall x
      ensures x in s <==> x in ds
    {
      MembershipByMultiset(ks, s, x);
      if x in ds {
        var i :| 0 <= i < |ds| && ds[i] == x;
        assert IntId(ds[i]) in ks;
      }
    }
    s
  }

  // ---------------------------------------------------------------------------
  // Chunked buffer
  // ---------------------------------------------------------------------------


  /** Union of the buffers of roads `lo .. hi-1` at distance `d`. */
  function BufUnion(roads: seq<Road>, d: int, lo: int, hi: int, buffer: (Region, int) -> Region): Region
    requires 0 <= lo <= hi <= |roads|
    decreases hi - lo
  {
    if lo == hi then {} else buffer(roads[lo].line, d) + BufUnion(roads, d, lo + 1, hi, buffer)
  }

  lemma {:induction false} BufUnionSplit(roads: seq<Road>, d: int, lo: int, mid: int, hi: int,
                                          buffer: (Region, int) -> Region)
    requires 0 <= lo <= mid <= hi <= |roads|
    ensures BufUnion(roads, d, lo, hi, buffer) == BufUnion(roads, d, lo, mid, buffer) + BufUnion(roads, d, mid, hi, buffer)
    decreases mid - lo
  {
    if lo < mid {
      BufUnionSplit(roads, d, lo + 1, mid, hi, buffer);
    }
  }

  /** The overlay of one lot with the area of interest, of which only the first
      row is kept: the first non-empty intersection with an AOI row. */
  function LotClip(lot: Region, aoi: seq<Region>): (r: Option<Region>)
    ensures r.Some? ==> r.value != {} && r.value <= lot
  {
    if aoi == [] then None
    else if lot * aoi[0] != {} then Some(lot * aoi[0])
    else LotClip(lot, aoi[1..])
  }

  /** The clip is empty exactly when the lot misses every AOI row; otherwise it is
      the intersection with the first row the lot meets. */
  lemma {:induction false} LotClipSpec(lot: Region, aoi: seq<Region>)
    ensures LotClip(lot, aoi).None? <==> forall k :: 0 <= k < |aoi| ==> lot * aoi[k] == {}
    ensures LotClip(lot, aoi).Some? ==>
      exists k :: 0 <= k < |aoi| && LotClip(lot, aoi).value == lot * aoi[k] &&
                  forall k' :: 0 <= k' < k ==> lot * aoi[k'] == {}
  {
    if aoi != [] && lot * aoi[0] == {} {
      LotClipSpec(lot, aoi[1..]);
      assert forall k :: 1 <= k < |aoi| ==> aoi[k] == aoi[1..][k - 1];
      var r := LotClip(lot, aoi[1..]);
      if r.Some? {
        var k :| 0 <= k < |aoi[1..]| && r.value == lot * aoi[1..][k] &&
                 forall k' :: 0 <= k' < k ==> lot * aoi[1..][k'] == {};
        assert r.value == lot * aoi[k + 1];
      }
    }
  }

  /** A clip lies inside the area of interest. */
  lemma LotClipInside(lot: Region, aoi: seq<Region>)
    ensures LotClip(lot, aoi).Some? ==> LotClip(lot, aoi).value <= UnionAll(aoi)
  {
    LotClipSpec(lot, aoi);
    if LotClip(lot, aoi).Some? {
      var k :| 0 <= k < |aoi| && LotClip(lot, aoi).value == lot * aoi[k] &&
               forall k' :: 0 <= k' < k ==> lot * aoi[k'] == {};
      assert aoi[k] <= UnionAll(aoi);
    }
  }

  /** The non-empty clipped lots, one per window, in window order. */
  function ClipParts(roads: seq<Road>, aoi: seq<Region>, d: int, ws: seq<(int, int)>,
                     buffer: (Region, int) -> Region): (parts: seq<Region>)
    requires forall k :: 0 <= k < |ws| ==> 0 <= ws[k].0 <= ws[k].1 <= |roads|
    ensures |parts| <= |ws|
  {
    if ws == [] then []
    else
      var clip := LotClip(BufUnion(roads, d, ws[0].0, ws[0].1, buffer), aoi);
      (if clip.Some? then [clip.value] else []) + ClipParts(roads, aoi, d, ws[1..], buffer)
  }

  /** Every clipped lot is non-empty and inside the area of interest. */
  lemma {:induction false} ClipPartsInside(roads: seq<Road>, aoi: seq<Region>, d: int, ws: seq<(int, int)>,
                                           buffer: (Region, int) -> Region)
    requires forall k :: 0 <= k < |ws| ==> 0 <= ws[k].0 <= ws[k].1 <= |roads|
    ensures UnionAll(ClipParts(roads, aoi, d, ws, buffer)) <= UnionAll(aoi)
  {
    if ws != [] {
      ClipPartsInside(roads, aoi, d, ws[1..], buffer);
      var lot := BufUnion(roads, d, ws[0].0, ws[0].1, buffer);
      LotClipInside(lot, aoi);
      var clip := LotClip(lot, aoi);
      var head: seq<Region> := if clip.Some? then [clip.value] else [];
      UnionAllConcat(head, ClipParts(roads, aoi, d, ws[1..], buffer));
    }
  }

  /** The clipped lots are empty only when their union is. */
  lemma {:induction false} ClipPartsNonEmpty(roads: seq<Road>, aoi: seq<Region>, d: int, ws: seq<(int, int)>,
                                             buffer: (Region, int) -> Region)
    requires forall k :: 0 <= k < |ws| ==> 0 <= ws[k].0 <= ws[k].1 <= |roads|
    ensures ClipParts(roads, aoi, d, ws, buffer) == [] <==> UnionAll(ClipParts(roads, aoi, d, ws, buffer)) == {}
  {
    var parts := ClipParts(roads, aoi, d, ws, buffer);
    if ws != [] {
      ClipPartsNonEmpty(roads, aoi, d, ws[1..], buffer);
      if parts != [] {
        assert parts[0] <= UnionAll(parts);
        var lot := BufUnion(roads, d, ws[0].0, ws[0].1, buffer);
        if LotClip(lot, aoi).None? {
          assert parts == ClipParts(roads, aoi, d, ws[1..], buffer);
        }
      }
    }
  }

  /** What `buffer_in_chunks` returns for a positive chunk size: nothing when no
      lot reached the area of interest, otherwise the union of the clipped lots. */
  function ChunkedBuffer(roads: seq<Road>, aoi: seq<Region>, d: int, c: int,
                         buffer: (Region, int) -> Region): (r: Option<Region>)
    requires c > 0
    ensures r.Some? ==> r.value <= UnionAll(aoi)
  {
    var parts := PartsFrom(roads, aoi, d, 0, c, buffer);
    if parts == [] then None
    else
      ClipPartsInside(roads, aoi, d, Windows(0, |roads|, c), buffer);
      Some(UnionAll(parts))
  }

  /** One step of the window walk: the clip of the first window, then the rest. */
  lemma ClipPartsStep(roads: seq<Road>, aoi: seq<Region>, d: int, i: int, c: int,
                      buffer: (Region, int) -> Region)
    requires c > 0 && 0 <= i < |roads|
    ensures var clip := LotClip(BufUnion(roads, d, i, Min(i + c, |roads|), buffer), aoi);
      ClipParts(roads, aoi, d, Windows(i, |roads|, c), buffer) ==
      (if clip.Some? then [clip.value] else []) + ClipParts(roads, aoi, d, Windows(i + c, |roads|, c), buffer)
  {
    var ws := Windows(i, |roads|, c);
    assert ws[0] == (i, Min(i + c, |roads|));
    assert ws[1..] == Windows(i + c, |roads|, c);
  }

  /** Against a single AOI row, the clip is that row's intersection with the lot. */
  lemma LotClipSingle(lot: Region, a: Region)
    ensures LotClip(lot, [a]) == if lot * a == {} then None else Some(lot * a)
  {
    assert [a][1..] == [];
  }

  /** The clip of one lot against a single AOI row, as a list of zero or one part. */
  function SinglePart(lot: Region, a: Region): (p: seq<Region>)
    ensures UnionAll(p) == lot * a
  {
    if lot * a == {} then [] else [lot * a]
  }

  /** The clipped lots from window `start` on, against a single AOI row `a`. */
  function SingleParts(roads: seq<Road>, a: Region, d: int, start: int, c: int,
                       buffer: (Region, int) -> Region): seq<Region>
    requires c > 0 && 0 <= start
  {
    ClipParts(roads, [a], d, Windows(start, |roads|, c), buffer)
  }

  lemma SingleStep(roads: seq<Road>, a: Region, d: int, start: int, c: int, buffer: (Region, int) -> Region)
    requires c > 0 && 0 <= start < |roads|
    ensures SingleParts(roads, a, d, start, c, buffer) ==
            SinglePart(BufUnion(roads, d, start, Min(start + c, |roads|), buffer), a) +
            SingleParts(roads, a, d, start + c, c, buffer)
  {
    ClipPartsStep(roads, [a], d, start, c, buffer);
    LotClipSingle(BufUnion(roads, d, start, Min(start + c, |roads|), buffer), a);
  }

  lemma LastStep(roads: seq<Road>, a: Region, d: int, start: int, c: int, buffer: (Region, int) -> Region)
    requires c > 0 && 0 <= start < |roads| <= start + c
    ensures UnionAll(SingleParts(roads, a, d, start + c, c, buffer)) ==
            BufUnion(roads, d, |roads|, |roads|, buffer) * a
  {
    assert Windows(start + c, |roads|, c) == [];
  }

  /** The union of the clipped lots from window `start` on, against a single
      AOI row `a`. */
  lemma {:induction false} ClipPartsSingleAoi(roads: seq<Road>, a: Region, d: int, start: int, c: int,
                                              buffer: (Region, int) -> Region)
    requires c > 0 && 0 <= start < |roads|
    ensures UnionAll(SingleParts(roads, a, d, start, c, buffer)) == BufUnion(roads, d, start, |roads|, buffer) * a
    decreases |roads| - start
  {
    var n := |roads|;
    var j := Min(start + c, n);
    var lot := BufUnion(roads, d, start, j, buffer);
    SingleStep(roads, a, d, start, c, buffer);
    if start + c < n {
      ClipPartsSingleAoi(roads, a, d, start + c, c, buffer);
    } else {
      LastStep(roads, a, d, start, c, buffer);
    }
    BufUnionSplit(roads, d, start, j, n, buffer);
    Reassemble(SingleParts(roads, a, d, start, c, buffer), SinglePart(lot, a),
               SingleParts(roads, a, d, start + c, c, buffer), lot, BufUnion(roads, d, j, n, buffer), a,
               BufUnion(roads, d, start, n, buffer));
  }

  lemma Reassemble(parts: seq<Region>, head: seq<Region>, rest: seq<Region>, lot: Region, later: Region,
                   a: Region, whole: Region)
    requires parts == head + rest && whole == lot + later
    requires UnionAll(head) == lot * a && UnionAll(rest) == later * a
    ensures UnionAll(parts) == whole * a
  {
    UnionAllConcat(head, rest);
  }

  /** With a single-row area of interest the chunk size does not matter: the
      result is the union of all road buffers clipped to the area, or nothing when
      that clip is empty. */
  lemma ChunkSizeIrrelevant(roads: seq<Road>, a: Region, d: int, c: int, buffer: (Region, int) -> Region)
    requires c > 0
    ensures ChunkedBuffer(roads, [a], d, c, buffer) ==
            (var u := BufUnion(roads, d, 0, |roads|, buffer) * a; if u == {} then None else Some(u))
  {
    var parts := ClipParts(roads, [a], d, Windows(0, |roads|, c), buffer);
    ClipPartsNonEmpty(roads, [a], d, Windows(0, |roads|, c), buffer);
    if |roads| == 0 {
      assert Windows(0, 0, c) == [];
    } else {
      ClipPartsSingleAoi(roads, a, d, 0, c, buffer);
      assert parts == SingleParts(roads, a, d, 0, c, buffer);
    }
  }

  /** The clipped lots of the windows from index `i` on. */
  function PartsFrom(roads: seq<Road>, aoi: seq<Region>, d: int, i: int, c: int,
                     buffer: (Region, int) -> Region): seq<Region>
    requires c > 0 && 0 <= i
  {
    ClipParts(roads, aoi, d, Windows(i, |roads|, c), buffer)
  }

  lemma PartsFromStep(roads: seq<Road>, aoi: seq<Region>, d: int, i: int, c: int,
                      buffer: (Region, int) -> Region)
    requires c > 0 && 0 <= i < |roads|
    ensures var clip := LotClip(BufUnion(roads, d, i, Min(i + c, |roads|), buffer), aoi);
      PartsFrom(roads, aoi, d, i, c, buffer) ==
      (if clip.Some? then [clip.value] else []) + PartsFrom(roads, aoi, d, i + c, c, buffer)
  {
    ClipPartsStep(roads, aoi, d, i, c, buffer);
  }

  lemma PartsFromEnd(roads: seq<Road>, aoi: seq<Region>, d: int, i: int, c: int,
                     buffer: (Region, int) -> Region)
    requires c > 0 && |roads| <= i
    ensures PartsFrom(roads, aoi, d, i, c, buffer) == []
  {
    assert Windows(i, |roads|, c) == [];
  }

  lemma ChunkedBufferParts(roads: seq<Road>, aoi: seq<Region>, d: int, c: int,
                           buffer: (Region, int) -> Region)
    requires c > 0
    ensures var parts := PartsFrom(roads, aoi, d, 0, c, buffer);
            ChunkedBuffer(roads, aoi, d, c, buffer) == if parts == [] then None else Some(UnionAll(parts))
  {
  }

  /** `buffer_in_chunks`. A zero chunk size makes `range` raise; a negative one
      gives an empty range and hence no buffer. */
  method BufferInChunks(roads: seq<Road>, aoi: seq<Region>, d: int, chunk: int,
                        buffer: (Region, int) -> Region) returns (r: Result<Option<Region>>)
    ensures chunk == 0 <==> r.Err?
    ensures chunk < 0 ==> r == Ok(None)
    ensures chunk > 0 ==> r == Ok(ChunkedBuffer(roads, aoi, d, chunk, buffer))
  {
    if chunk == 0 {
      return Err("range() arg 3 must not be zero");
    }
    if chunk < 0 {
      return Ok(None);
    }
    var total := |roads|;
    var parts: seq<Region> := [];
    var i := 0;
    while i < total
      invariant 0 <= i
      invariant parts + PartsFrom(roads, aoi, d, i, chunk, buffer) == PartsFrom(roads, aoi, d, 0, chunk, buffer)
      decreases total - i
    {
      var j := Min(i + chunk, total);
      var lot := BufUnion(roads, d, i, j, buffer);
      var clip := LotClip(lot, aoi);
      PartsFromStep(roads, aoi, d, i, chunk, buffer);
      ghost var rest := PartsFrom(roads, aoi, d, i + chunk, chunk, buffer);
      if clip.Some? {
        assert (parts + [clip.value]) + rest == parts + ([clip.value] + rest);
        parts := parts + [clip.value];
      } else {
        assert [] + rest == rest;
      }
      i := i + chunk;
    }
    PartsFromEnd(roads, aoi, d, i, chunk, buffer);
    assert parts + [] == parts;
    ChunkedBufferParts(roads, aoi, d, chunk, buffer);
    if parts == [] {
      return Ok(None);
    }
    return Ok(Some(UnionAll(parts)));
  }

  // ---------------------------------------------------------------------------
  // Rings
  // ---------------------------------------------------------------------------

  /** The ring at position `j` of the list built from the surviving buffers
      `bs` (distance, buffer) and the whole area of interest `a`. */
  function RingAt(bs: seq<(int, Region)>, a: Region, j: nat): Ring
    requires 0 < |bs| && j <= |bs|
  {
    if j == 0 then Ring("0-" + IntToString(bs[0].0) + "km", 0, Some(bs[0].0), bs[0].1)
    else if j < |bs| then
      Ring(IntToString(bs[j - 1].0) + "-" + IntToString(bs[j].0) + "km", bs[j - 1].0, Some(bs[j].0),
           bs[j].1 - bs[j - 1].1)
    else Ring(">" + IntToString(bs[j - 1].0) + "km", bs[j - 1].0, None, a - bs[j - 1].1)
  }

  /** The ring list: `0-d1km`, `d(j-1)-d(j)km` for each further buffer, `>dmaxkm`. */
  function Rings(bs: seq<(int, Region)>, a: Region): (rs: seq<Ring>)
    requires 0 < |bs|
  {
    seq(|bs| + 1, j requires 0 <= j <= |bs| => RingAt(bs, a, j))
  }

  function Geoms(rs: seq<Ring>): (gs: seq<Region>)
    ensures |gs| == |rs| && forall j :: 0 <= j < |rs| ==> gs[j] == rs[j].geom
  {
    seq(|rs|, j requires 0 <= j < |rs| => rs[j].geom)
  }

  function BufGeoms(bs: seq<(int, Region)>): (gs: seq<Region>)
    ensures |gs| == |bs| && forall j :: 0 <= j < |bs| ==> gs[j] == bs[j].1
  {
    seq(|bs|, j requires 0 <= j < |bs| => bs[j].1)
  }

  /** Shape of the ring list: one more ring than buffers, the documented labels,
      and bounds taken from consecutive distances. */
  lemma RingsShape(bs: seq<(int, Region)>, a: Region)
    requires 0 < |bs|
    ensures var rs := Rings(bs, a);
      |rs| == |bs| + 1 &&
      rs[0].id == "0-" + IntToString(bs[0].0) + "km" && rs[0].minKm == 0 && rs[0].maxKm == Some(bs[0].0) &&
      (forall j :: 0 < j < |bs| ==>
         rs[j].id == IntToString(bs[j - 1].0) + "-" + IntToString(bs[j].0) + "km" &&
         rs[j].minKm == bs[j - 1].0 && rs[j].maxKm == Some(bs[j].0)) &&
      rs[|bs|].id == ">" + IntToString(bs[|bs| - 1].0) + "km" &&
      rs[|bs|].minKm == bs[|bs| - 1].0 && rs[|bs|].maxKm.None?
  {
    var rs := Rings(bs, a);
    assert rs[0] == RingAt(bs, a, 0);
    assert rs[|bs|] == RingAt(bs, a, |bs|);
    forall j | 0 < j < |bs|
      ensures rs[j].id == IntToString(bs[j - 1].0) + "-" + IntToString(bs[j].0) + "km"
      ensures rs[j].minKm == bs[j - 1].0 && rs[j].maxKm == Some(bs[j].0)
    {
      assert rs[j] == RingAt(bs, a, j);
    }
  }

  /** The ring areas: the first buffer, the difference of each buffer with the
      previous one, and the area of interest minus the last buffer. */
  lemma RingsGeoms(bs: seq<(int, Region)>, a: Region)
    requires 0 < |bs|
    ensures var gs := Geoms(Rings(bs, a));
      |gs| == |bs| + 1 && gs[0] == bs[0].1 &&
      (forall i :: 0 < i < |bs| ==> gs[i] == bs[i].1 - bs[i - 1].1) &&
      gs[|bs|] == a - bs[|bs| - 1].1
  {
  }

  /** Cover: when every buffer lies inside the area of interest, the rings
      together are exactly the area of interest. */
  lemma RingsCover(bs: seq<(int, Region)>, a: Region)
    requires 0 < |bs|
    requires forall j :: 0 <= j < |bs| ==> bs[j].1 <= a
    ensures UnionAll(Geoms(Rings(bs, a))) == a
  {
    RingsGeoms(bs, a);
    TelescopeCover(Geoms(Rings(bs, a)), BufGeoms(bs), a);
  }

  /** Regions shaped like the rings (first buffer, successive differences, the
      area minus the last buffer) cover exactly the area when the buffers lie
      inside it. */
  lemma TelescopeCover(gs: seq<Region>, hs: seq<Region>, a: Region)
    requires 0 < |hs| && |gs| == |hs| + 1
    requires gs[0] == hs[0]
    requires forall i :: 0 < i < |hs| ==> gs[i] == hs[i] - hs[i - 1]
    requires gs[|hs|] == a - hs[|hs| - 1]
    requires forall j :: 0 <= j < |hs| ==> hs[j] <= a
    ensures UnionAll(gs) == a
  {
    var k := |hs|;
    var front := gs[..k];
    Telescope(hs, front, k - 1);
    assert front[..k] == front && hs[..k] == hs;
    assert gs == front + [a - hs[k - 1]];
    UnionAllAppend(front, a - hs[k - 1]);
    UnionAllBounded(hs, a);
    assert hs[k - 1] <= UnionAll(hs);
  }

  /** Nested buffers (each contained in every later one). */
  ghost predicate Nested(bs: seq<(int, Region)>)
  {
    forall i, j :: 0 <= i <= j < |bs| ==> bs[i].1 <= bs[j].1
  }

  /** No two regions of the list overlap. */
  ghost predicate PairwiseDisjoint(gs: seq<Region>)
  {
    forall i, j :: 0 <= i < j < |gs| ==> gs[i] * gs[j] == {}
  }

  lemma RingsDisjoint(bs: seq<(int, Region)>, a: Region)
    requires 0 < |bs| && Nested(bs)
    ensures PairwiseDisjoint(Geoms(Rings(bs, a)))
  {
    var gs := Geoms(Rings(bs, a));
    forall i, j | 0 <= i < j < |gs|
      ensures gs[i] * gs[j] == {}
    {
      assert gs[i] <= bs[i].1;
      assert bs[i].1 <= bs[j - 1].1;
    }
  }

  lemma RingsFirst(bs: seq<(int, Region)>, a: Region)
    requires 0 < |bs|
    ensures Rings(bs, a)[..1] == [Ring("0-" + IntToString(bs[0].0) + "km", 0, Some(bs[0].0), bs[0].1)]
  {
  }

  lemma RingsStep(bs: seq<(int, Region)>, a: Region, j: nat)
    requires 0 < j < |bs|
    ensures Rings(bs, a)[..j + 1] ==
            Rings(bs, a)[..j] + [Ring(IntToString(bs[j - 1].0) + "-" + IntToString(bs[j].0) + "km",
                                      bs[j - 1].0, Some(bs[j].0), bs[j].1 - bs[j - 1].1)]
  {
    PrefixStep(Rings(bs, a), j);
    RingsIndex(bs, a, j);
    RingAtMiddle(bs, a, j);
  }

  lemma RingsIndex(bs: seq<(int, Region)>, a: Region, j: nat)
    requires 0 < |bs| && j <= |bs|
    ensures Rings(bs, a)[j] == RingAt(bs, a, j)
  {
  }

  lemma RingAtMiddle(bs: seq<(int, Region)>, a: Region, j: nat)
    requires 0 < j < |bs|
    ensures RingAt(bs, a, j) == Ring(IntToString(bs[j - 1].0) + "-" + IntToString(bs[j].0) + "km",
                                     bs[j - 1].0, Some(bs[j].0), bs[j].1 - bs[j - 1].1)
  {
  }

  lemma RingsLast(bs: seq<(int, Region)>, a: Region)
    requires 0 < |bs|
    ensures Rings(bs, a) ==
            Rings(bs, a)[..|bs|] + [Ring(">" + IntToString(bs[|bs| - 1].0) + "km", bs[|bs| - 1].0, None,
                                         a - bs[|bs| - 1].1)]
  {
    PrefixStep(Rings(bs, a), |bs|);
    RingsIndex(bs, a, |bs|);
    assert Rings(bs, a)[..|bs| + 1] == Rings(bs, a);
  }

  /** Builds the ring list as the script does: the first ring, then one ring per
      further buffer while remembering the previous one, then the outside ring. */
  method BuildRings(bs: seq<(int, Region)>, a: Region) returns (rings: seq<Ring>)
    requires 0 < |bs|
    ensures rings == Rings(bs, a)
  {
    var d0 := bs[0].0;
    var g0 := bs[0].1;
    rings := [Ring("0-" + IntToString(d0) + "km", 0, Some(d0), g0)];
    RingsFirst(bs, a);
    var prevD, prevG := d0, g0;
    for j := 1 to |bs|
      invariant prevD == bs[j - 1].0 && prevG == bs[j - 1].1
      invariant rings == Rings(bs, a)[..j]
    {
      var d := bs[j].0;
      var g := bs[j].1;
      RingsStep(bs, a, j);
      rings := rings + [Ring(IntToString(prevD) + "-" + IntToString(d) + "km", prevD, Some(d), g - prevG)];
      prevD, prevG := d, g;
    }
    var dmax := bs[|bs| - 1].0;
    var gmax := bs[|bs| - 1].1;
    RingsLast(bs, a);
    rings := rings + [Ring(">" + IntToString(dmax) + "km", dmax, None, a - gmax)];
  }

  // ---------------------------------------------------------------------------
  // The script
  // ---------------------------------------------------------------------------

  /** The chunked buffer of every distance, in order. */
  function Outcomes(roads: seq<Road>, aoi: seq<Region>, ds: seq<int>, c: int,
                    buffer: (Region, int) -> Region): (os: seq<Option<Region>>)
    requires c > 0
    ensures |os| == |ds|
    ensures forall k :: 0 <= k < |ds| ==> os[k] == ChunkedBuffer(roads, aoi, ds[k], c, buffer)
  {
    seq(|ds|, k requires 0 <= k < |ds| => ChunkedBuffer(roads, aoi, ds[k], c, buffer))
  }

  /** The first `n` distances whose outcome is a buffer, paired with it, in order. */
  function Keep(ds: seq<int>, os: seq<Option<Region>>, n: nat): (bs: seq<(int, Region)>)
    requires |ds| == |os| && n <= |ds|
    ensures |bs| <= n
  {
    if n == 0 then []
    else Keep(ds, os, n - 1) + (if os[n - 1].Some? then [(ds[n - 1], os[n - 1].value)] else [])
  }

  /** Every kept pair is a distance with its buffer, taken from some position. */
  lemma {:induction false} KeepFrom(ds: seq<int>, os: seq<Option<Region>>, n: nat, j: int)
    requires |ds| == |os| && n <= |ds| && 0 <= j < |Keep(ds, os, n)|
    ensures exists k :: 0 <= k < n && Keep(ds, os, n)[j].0 == ds[k] && os[k] == Some(Keep(ds, os, n)[j].1)
  {
    var front := Keep(ds, os, n - 1);
    if j < |front| {
      KeepFrom(ds, os, n - 1, j);
    } else {
      assert Keep(ds, os, n)[j] == (ds[n - 1], os[n - 1].value);
    }
  }

  /** Keeping preserves a strictly ascending order of the distances. */
  lemma {:induction false} KeepAscending(ds: seq<int>, os: seq<Option<Region>>, n: nat)
    requires |ds| == |os| && n <= |ds|
    requires forall i, j :: 0 <= i < j < |ds| ==> ds[i] < ds[j]
    ensures Ascending(Keep(ds, os, n))
    ensures forall j :: 0 <= j < |Keep(ds, os, n)| ==> 0 < n && Keep(ds, os, n)[j].0 <= ds[n - 1]
  {
    if n > 0 {
      KeepAscending(ds, os, n - 1);
      var front := Keep(ds, os, n - 1);
      var bs := Keep(ds, os, n);
      assert forall j :: 0 <= j < |front| ==> bs[j] == front[j];
    }
  }

  /** Distances strictly increase along the list. */
  predicate Ascending(bs: seq<(int, Region)>)
  {
    forall i, j :: 0 <= i < j < |bs| ==> bs[i].0 < bs[j].0
  }

  /** The distances whose chunked buffer is non-empty, with their buffers, in order. */
  function Survivors(roads: seq<Road>, aoi: seq<Region>, ds: seq<int>, c: int,
                     buffer: (Region, int) -> Region): (bs: seq<(int, Region)>)
    requires c > 0
  {
    Keep(ds, Outcomes(roads, aoi, ds, c, buffer), |ds|)
  }

  /** Each listed buffer is the chunked buffer of its distance. */
  ghost predicate BuffersOf(roads: seq<Road>, aoi: seq<Region>, c: int, buffer: (Region, int) -> Region,
                            bs: seq<(int, Region)>)
    requires c > 0
  {
    forall j :: 0 <= j < |bs| ==> ChunkedBuffer(roads, aoi, bs[j].0, c, buffer) == Some(bs[j].1)
  }

  lemma SurvivorsBuffers(roads: seq<Road>, aoi: seq<Region>, ds: seq<int>, c: int,
                         buffer: (Region, int) -> Region)
    requires c > 0
    ensures BuffersOf(roads, aoi, c, buffer, Survivors(roads, aoi, ds, c, buffer))
  {
    var os := Outcomes(roads, aoi, ds, c, buffer);
    var bs := Keep(ds, os, |ds|);
    forall j | 0 <= j < |bs|
      ensures ChunkedBuffer(roads, aoi, bs[j].0, c, buffer) == Some(bs[j].1)
    {
      KeepFrom(ds, os, |ds|, j);
    }
  }

  /** Roads that remain after the optional class filter. */
  function SelectedRoads(roads: RoadTable, classes: seq<string>): seq<Road>
  {
    if |classes| > 0 then FilterByFclass(roads, classes).rows else roads.rows
  }

  /** A buffer function that grows with the distance. */
  ghost predicate Monotone(buffer: (Region, int) -> Region)
  {
    forall g: Region, d1: int, d2: int :: d1 <= d2 ==> buffer(g, d1) <= buffer(g, d2)
  }

  lemma {:induction false} BufUnionMonotone(roads: seq<Road>, d1: int, d2: int, lo: int, hi: int,
                                            buffer: (Region, int) -> Region)
    requires 0 <= lo <= hi <= |roads| && d1 <= d2 && Monotone(buffer)
    ensures BufUnion(roads, d1, lo, hi, buffer) <= BufUnion(roads, d2, lo, hi, buffer)
    decreases hi - lo
  {
    if lo < hi {
      BufUnionMonotone(roads, d1, d2, lo + 1, hi, buffer);
    }
  }

  /** With one AOI row and a buffer that grows with the distance, the surviving
      buffers are nested, so the rings they produce are disjoint. */
  lemma SurvivorsNested(roads: seq<Road>, a: Region, ds: seq<int>, c: int, buffer: (Region, int) -> Region)
    requires c > 0 && Monotone(buffer)
    requires forall i, j :: 0 <= i < j < |ds| ==> ds[i] < ds[j]
    ensures Nested(Survivors(roads, [a], ds, c, buffer))
  {
    var bs := Survivors(roads, [a], ds, c, buffer);
    KeepAscending(ds, Outcomes(roads, [a], ds, c, buffer), |ds|);
    SurvivorsBuffers(roads, [a], ds, c, buffer);
    forall i, j | 0 <= i <= j < |bs|
      ensures bs[i].1 <= bs[j].1
    {
      assert bs[i].0 <= bs[j].0;
      ChunkSizeIrrelevant(roads, a, bs[i].0, c, buffer);
      ChunkSizeIrrelevant(roads, a, bs[j].0, c, buffer);
      BufUnionMonotone(roads, bs[i].0, bs[j].0, 0, |roads|, buffer);
    }
  }

  /** Every surviving buffer lies inside the area of interest. */
  lemma SurvivorsInside(roads: seq<Road>, aoi: seq<Region>, ds: seq<int>, c: int, buffer: (Region, int) -> Region)
    requires c > 0
    ensures forall j :: 0 <= j < |Survivors(roads, aoi, ds, c, buffer)| ==>
              Survivors(roads, aoi, ds, c, buffer)[j].1 <= UnionAll(aoi)
  {
    var bs := Survivors(roads, aoi, ds, c, buffer);
    SurvivorsBuffers(roads, aoi, ds, c, buffer);
    forall j | 0 <= j < |bs|
      ensures bs[j].1 <= UnionAll(aoi)
    {
      assert ChunkedBuffer(roads, aoi, bs[j].0, c, buffer) == Some(bs[j].1);
    }
  }

  /** The rings built from the surviving buffers cover the area of interest. */
  lemma SurvivorRingsCover(roads: seq<Road>, aoi: seq<Region>, ds: seq<int>, c: int, buffer: (Region, int) -> Region)
    requires c > 0 && Survivors(roads, aoi, ds, c, buffer) != []
    ensures UnionAll(Geoms(Rings(Survivors(roads, aoi, ds, c, buffer), UnionAll(aoi)))) == UnionAll(aoi)
  {
    SurvivorsInside(roads, aoi, ds, c, buffer);
    RingsCover(Survivors(roads, aoi, ds, c, buffer), UnionAll(aoi));
  }

  /** With one AOI row and a buffer that grows with the distance, the rings built
      from the surviving buffers do not overlap. */
  lemma SurvivorRingsDisjoint(roads: seq<Road>, a: Region, ds: seq<int>, c: int, buffer: (Region, int) -> Region)
    requires c > 0 && Survivors(roads, [a], ds, c, buffer) != [] && Monotone(buffer)
    requires forall i, j :: 0 <= i < j < |ds| ==> ds[i] < ds[j]
    ensures PairwiseDisjoint(Geoms(Rings(Survivors(roads, [a], ds, c, buffer), a)))
  {
    SurvivorsNested(roads, a, ds, c, buffer);
    RingsDisjoint(Survivors(roads, [a], ds, c, buffer), a);
  }

  /** The same, for an area of interest given as a one-row table. */
  lemma SurvivorRingsDisjointOneRow(roads: seq<Road>, aoi: seq<Region>, ds: seq<int>, c: int,
                                    buffer: (Region, int) -> Region)
    requires c > 0 && |aoi| == 1 && Survivors(roads, aoi, ds, c, buffer) != [] && Monotone(buffer)
    requires forall i, j :: 0 <= i < j < |ds| ==> ds[i] < ds[j]
    ensures PairwiseDisjoint(Geoms(Rings(Survivors(roads, aoi, ds, c, buffer), UnionAll(aoi))))
  {
    assert aoi == [aoi[0]];
    assert UnionAll(aoi) == aoi[0] by {
      assert aoi[1..] == [];
    }
    SurvivorRingsDisjoint(roads, aoi[0], ds, c, buffer);
  }

  /** The loop over the sorted distances: a distance whose buffer is empty is
      skipped; a zero chunk size stops the run. */
  method BuildBuffers(rows: seq<Road>, aoi: seq<Region>, ds: seq<int>, chunk: int,
                      buffer: (Region, int) -> Region) returns (r: Result<seq<(int, Region)>>)
    ensures r.Err? <==> chunk == 0 && ds != []
    ensures chunk <= 0 && r.Ok? ==> r.value == []
    ensures chunk > 0 ==> r == Ok(Survivors(rows, aoi, ds, chunk, buffer))
  {
    var bs: seq<(int, Region)> := [];
    ghost var os := if chunk > 0 then Outcomes(rows, aoi, ds, chunk, buffer) else [];
    for k := 0 to |ds|
      invariant chunk > 0 ==> |os| == |ds| && bs == Keep(ds, os, k)
      invariant chunk <= 0 ==> bs == []
      invariant chunk == 0 ==> k == 0
    {
      var res := BufferInChunks(rows, aoi, ds[k], chunk, buffer);
      if res.Err? {
        return Err(res.msg);
      }
      assert chunk > 0 ==> res.value == os[k];
      if res.value.None? {
        continue;
      }
      bs := bs + [(ds[k], res.value.value)];
    }
    return Ok(bs);
  }

  /** The script's `main` from the class filter to the ring list. It stops when the
      class filter leaves no road, when no distance yields a buffer, and (raised
      by `range`) on a zero chunk size. On success the rings cover the area of
      interest exactly, and with one AOI row and a growing buffer they are also
      pairwise disjoint. */
  method CreateRings(roads: RoadTable, classes: seq<string>, aoi: seq<Region>, dists: seq<int>, chunk: int,
                     buffer: (Region, int) -> Region) returns (r: Result<seq<Ring>>)
    ensures |classes| > 0 && FilterByFclass(roads, classes).rows == [] ==> r.Err?
    ensures chunk <= 0 ==> r.Err?
    ensures r.Err? ==> (|classes| > 0 && FilterByFclass(roads, classes).rows == []) || chunk <= 0 ||
                       Survivors(SelectedRoads(roads, classes), aoi, SortedDistinct(dists), chunk, buffer) == []
    ensures r.Ok? ==> (chunk > 0 &&
      var bs := Survivors(SelectedRoads(roads, classes), aoi, SortedDistinct(dists), chunk, buffer);
      bs != [] && r.value == Rings(bs, UnionAll(aoi)))
    ensures r.Ok? ==> UnionAll(Geoms(r.value)) == UnionAll(aoi)
    ensures r.Ok? && |aoi| == 1 && Monotone(buffer) ==> PairwiseDisjoint(Geoms(r.value))
  {
    var rows := roads.rows;
    if |classes| > 0 {
      rows := FilterByFclass(roads, classes).rows;
      if rows == [] {
        return Err("fclass filter left no roads");
      }
    }
    assert rows == SelectedRoads(roads, classes);
    var ds := SortedDistinct(dists);
    var built := BuildBuffers(rows, aoi, ds, chunk, buffer);
    if built.Err? {
      return Err(built.msg);
    }
    var bs := built.value;
    if bs == [] {
      return Err("no buffer could be built");
    }
    var rings := BuildRings(bs, UnionAll(aoi));
    SurvivorRingsCover(rows, aoi, ds, chunk, buffer);
    if |aoi| == 1 && Monotone(buffer) {
      SurvivorRingsDisjointOneRow(rows, aoi, ds, chunk, buffer);
    }
    return Ok(rings);
  }
}
