/** Geometry as point sets. Shapely's polygons are replaced by finite sets of
    lattice points: union, intersection and difference are the set operations,
    and every geometric primitive the scripts call (buffer, make_valid, area) is
    passed in as a function. */
module Geometry {

  type Point = (int, int)
  type Region = set<Point>

  /** `unary_union` of a list of geometries. */
  function UnionAll(rs: seq<Region>): (u: Region)
    ensures forall i :: 0 <= i < |rs| ==> rs[i] <= u
  {
    if rs == [] then {} else rs[0] + UnionAll(rs[1..])
  }

  /** Every point of the union comes from one of the regions. */
  lemma {:induction false} UnionAllWitness(rs: seq<Region>, p: Point)
    requires p in UnionAll(rs)
    ensures exists i :: 0 <= i < |rs| && p in rs[i]
  {
    if p !in rs[0] {
      UnionAllWitness(rs[1..], p);
      var i :| 0 <= i < |rs[1..]| && p in rs[1..][i];
      assert p in rs[i + 1];
    }
  }

  /** The union lies inside any region that contains every member. */
  lemma {:induction false} UnionAllBounded(rs: seq<Region>, a: Region)
    requires forall i :: 0 <= i < |rs| ==> rs[i] <= a
    ensures UnionAll(rs) <= a
  {
    if rs != [] {
      UnionAllBounded(rs[1..], a);
    }
  }

  lemma {:induction false} UnionAllAppend(rs: seq<Region>, r: Region)
    ensures UnionAll(rs + [r]) == UnionAll(rs) + r
  {
    if rs == [] {
      assert rs + [r] == [r];
    } else {
      assert (rs + [r])[1..] == rs[1..] + [r];
      UnionAllAppend(rs[1..], r);
    }
  }

  lemma {:induction false} UnionAllConcat(a: seq<Region>, b: seq<Region>)
    ensures UnionAll(a + b) == UnionAll(a) + UnionAll(b)
  {
    if a == [] {
      assert a + b == b;
    } else {
      assert (a + b)[1..] == a[1..] + b;
      UnionAllConcat(a[1..], b);
    }
  }

  /** Telescoping differences: if `gs` starts like `hs` and continues with the
      differences of consecutive members of `hs`, every prefix of `gs` has the same
      union as the matching prefix of `hs`. */
  lemma {:induction false} Telescope(hs: seq<Region>, gs: seq<Region>, j: nat)
    requires |gs| == |hs| && j < |hs|
    requires gs[0] == hs[0]
    requires forall i :: 0 < i < |hs| ==> gs[i] == hs[i] - hs[i - 1]
    ensures UnionAll(gs[..j + 1]) == UnionAll(hs[..j + 1])
  {
    if j == 0 {
      assert gs[..1] == [gs[0]] && hs[..1] == [hs[0]];
    } else {
      Telescope(hs, gs, j - 1);
      assert gs[..j + 1] == gs[..j] + [gs[j]];
      assert hs[..j + 1] == hs[..j] + [hs[j]];
      UnionAllAppend(gs[..j], gs[j]);
      UnionAllAppend(hs[..j], hs[j]);
      assert hs[..j][j - 1] == hs[j - 1];
    }
  }
}
