/**
 * The discrete side of turning a Voronoi diagram into one finite polygon per seed. The diagram
 * itself (`scipy.spatial.Voronoi`) is an input: for each seed the index of its region, each
 * region as a list of vertex indices (`-1` standing for the vertex at infinity), and each ridge
 * as the two seeds it separates and its two vertex indices. Vertex coordinates, the ray
 * arithmetic and the convex hull are not modelled; a cell records which vertices and which
 * far points make it up.
 */
module Voronoi {
  import opened Common

  /** One ridge: `vor.ridge_points[i]` and `vor.ridge_vertices[i]`. */
  datatype Ridge = Ridge(p1: nat, p2: nat, v1: int, v2: int)

  /** The parts of a `Voronoi` result the script reads. */
  datatype Diagram = Diagram(pointRegion: seq<nat>, regions: seq<seq<int>>, ridges: seq<Ridge>)

  /** An entry of `all_ridges[p]`: the seed on the other side and the ridge's vertex pair. */
  datatype Neighbor = Neighbor(other: nat, v1: int, v2: int)

  type Adjacency = map<nat, seq<Neighbor>>

  /** `m.setdefault(key, []).append(nb)`. */
  function Append(m: Adjacency, key: nat, nb: Neighbor): Adjacency
  {
    m[key := (if key in m then m[key] else []) + [nb]]
  }

  /** The map `all_ridges` after the first `|ridges|` ridges. */
  function RidgeMap(ridges: seq<Ridge>): Adjacency
  {
    if ridges == [] then map[]
    else
      var r := ridges[|ridges| - 1];
      Append(Append(RidgeMap(ridges[..|ridges| - 1]), r.p1, Neighbor(r.p2, r.v1, r.v2)), r.p2, Neighbor(r.p1, r.v1, r.v2))
  }

  /** The loop that fills `all_ridges`, two appends per ridge. */
  method BuildRidgeMap(ridges: seq<Ridge>) returns (m: Adjacency)
    ensures m == RidgeMap(ridges)
  {
    m := map[];
    for i := 0 to |ridges|
      invariant m == RidgeMap(ridges[..i])
    {
      assert ridges[..i + 1][..i] == ridges[..i];
      var r := ridges[i];
      var first := if r.p1 in m then m[r.p1] else [];
      m := m[r.p1 := first + [Neighbor(r.p2, r.v1, r.v2)]];
      var second := if r.p2 in m then m[r.p2] else [];
      m := m[r.p2 := second + [Neighbor(r.p1, r.v1, r.v2)]];
    }
    assert ridges[..|ridges|] == ridges;
  }

  /** The ridge `r`, seen from seed `p`: the entries it contributes to `p`'s list. */
  function Sides(r: Ridge, p: nat): seq<Neighbor>
  {
    (if r.p1 == p then [Neighbor(r.p2, r.v1, r.v2)] else [])
      + (if r.p2 == p then [Neighbor(r.p1, r.v1, r.v2)] else [])
  }

  /** Reference definition: the entries for seed `p`, ridge by ridge in ridge order. */
  function NeighborsOf(ridges: seq<Ridge>, p: nat): seq<Neighbor>
  {
    if ridges == [] then [] else NeighborsOf(ridges[..|ridges| - 1], p) + Sides(ridges[|ridges| - 1], p)
  }

  predicate Touches(r: Ridge, p: nat)
  {
    r.p1 == p || r.p2 == p
  }

  /** `all_ridges.get(p, [])`. */
  function Lookup(m: Adjacency, p: nat): seq<Neighbor>
  {
    if p in m then m[p] else []
  }

  /** The list under `p` is the entries of the ridges that touch `p`, in ridge order. */
  lemma {:induction false} RidgeMapIsNeighbors(ridges: seq<Ridge>, p: nat)
    ensures Lookup(RidgeMap(ridges), p) == NeighborsOf(ridges, p)
    ensures p in RidgeMap(ridges) <==> NeighborsOf(ridges, p) != []
    decreases |ridges|
  {
    if ridges != [] {
      RidgeMapIsNeighbors(ridges[..|ridges| - 1], p);
    }
  }

  /** Where an entry under `p` comes from: a ridge that touches `p`. */
  lemma {:induction false} NeighborOrigin(ridges: seq<Ridge>, p: nat, nb: Neighbor) returns (i: nat)
    requires nb in NeighborsOf(ridges, p)
    ensures i < |ridges| && nb in Sides(ridges[i], p)
    decreases |ridges|
  {
    var n := |ridges| - 1;
    if nb in NeighborsOf(ridges[..n], p) {
      i := NeighborOrigin(ridges[..n], p, nb);
      assert ridges[..n][i] == ridges[i];
    } else {
      i := n;
    }
  }

  /** Every entry a ridge gives `p` is under `p`. */
  lemma {:induction false} NeighborComplete(ridges: seq<Ridge>, p: nat, nb: Neighbor, i: nat)
    requires i < |ridges| && nb in Sides(ridges[i], p)
    ensures nb in NeighborsOf(ridges, p)
    decreases |ridges|
  {
    var n := |ridges| - 1;
    if i < n {
      assert ridges[..n][i] == ridges[i];
      NeighborComplete(ridges[..n], p, nb, i);
    }
  }

  /** `p` is a key of `all_ridges` exactly when some ridge touches it. */
  lemma RidgeMapKeys(ridges: seq<Ridge>, p: nat)
    ensures p in RidgeMap(ridges) <==> exists i :: 0 <= i < |ridges| && Touches(ridges[i], p)
  {
    RidgeMapIsNeighbors(ridges, p);
    if p in RidgeMap(ridges) {
      var i := NeighborOrigin(ridges, p, NeighborsOf(ridges, p)[0]);
    }
    if i :| 0 <= i < |ridges| && Touches(ridges[i], p) {
      NeighborComplete(ridges, p, Sides(ridges[i], p)[0], i);
    }
  }

  /** The indices of the ridges that touch `p`. */
  ghost function TouchIndices(ridges: seq<Ridge>, p: nat): set<nat>
  {
    set i: nat | i < |ridges| && Touches(ridges[i], p)
  }

  /**
   * When no ridge joins a seed to itself (Voronoi ridges separate two distinct seeds), the
   * length of `all_ridges[p]` is the number of ridges that touch `p`.
   */
  lemma {:induction false} NeighborCount(ridges: seq<Ridge>, p: nat)
    requires forall i :: 0 <= i < |ridges| ==> ridges[i].p1 != ridges[i].p2
    ensures |NeighborsOf(ridges, p)| == |TouchIndices(ridges, p)|
    decreases |ridges|
  {
    if ridges != [] {
      var n := |ridges| - 1;
      var pre := ridges[..n];
      assert forall i :: 0 <= i < n ==> pre[i] == ridges[i];
      NeighborCount(pre, p);
      TouchIndicesSnoc(ridges, p);
      assert |Sides(ridges[n], p)| == if Touches(ridges[n], p) then 1 else 0;
    }
  }

  lemma TouchIndicesSnoc(ridges: seq<Ridge>, p: nat)
    requires ridges != []
    ensures var n := |ridges| - 1;
      TouchIndices(ridges, p) == TouchIndices(ridges[..n], p) + (if Touches(ridges[n], p) then {n} else {})
  {
    var n := |ridges| - 1;
    forall i: nat | i < n ensures ridges[..n][i] == ridges[i] { }
  }

  /** Every ridge leaves one entry under each of its two seeds. */
  lemma RidgeMapHasBothSides(ridges: seq<Ridge>, i: nat)
    requires i < |ridges|
    ensures var r := ridges[i];
      && r.p1 in RidgeMap(ridges) && Neighbor(r.p2, r.v1, r.v2) in RidgeMap(ridges)[r.p1]
      && r.p2 in RidgeMap(ridges) && Neighbor(r.p1, r.v1, r.v2) in RidgeMap(ridges)[r.p2]
  {
    var r := ridges[i];
    NeighborComplete(ridges, r.p1, Neighbor(r.p2, r.v1, r.v2), i);
    NeighborComplete(ridges, r.p2, Neighbor(r.p1, r.v1, r.v2), i);
    RidgeMapIsNeighbors(ridges, r.p1);
    RidgeMapIsNeighbors(ridges, r.p2);
  }

  /**
   * A point of the hull input of an unbounded cell: a finite Voronoi vertex, or the far point
   * placed `radius` away from vertex `v` along the outward normal of the ridge between seeds
   * `p1` and `p2`.
   */
  datatype HullPoint = Vertex(v: int) | Far(v: int, p1: nat, p2: nat)

  /**
   * A finite cell: the region's own vertices when it has no vertex at infinity, or otherwise
   * the convex hull of the listed points.
   */
  datatype Cell = Bounded(vertices: seq<int>) | Hull(points: seq<HullPoint>)

  /** `all(v >= 0 for v in vertices)`. */
  predicate AllFinite(vertices: seq<int>)
  {
    forall k :: 0 <= k < |vertices| ==> vertices[k] >= 0
  }

  /** The two points one ridge adds to `pts`. */
  function RidgePoints(p1: nat, nb: Neighbor): seq<HullPoint>
  {
    if nb.v1 < 0 || nb.v2 < 0 then
      var v := if nb.v1 >= 0 then nb.v1 else nb.v2;
      [Vertex(v), Far(v, p1, nb.other)]
    else [Vertex(nb.v1), Vertex(nb.v2)]
  }

  /** `pts` after the loop over the entries of `all_ridges[p1]`. */
  function HullInput(p1: nat, nbs: seq<Neighbor>): seq<HullPoint>
  {
    if nbs == [] then [] else HullInput(p1, nbs[..|nbs| - 1]) + RidgePoints(p1, nbs[|nbs| - 1])
  }

  /** The loop that fills `pts` for one unbounded cell. */
  method CollectHullPoints(p1: nat, nbs: seq<Neighbor>) returns (pts: seq<HullPoint>)
    ensures pts == HullInput(p1, nbs)
  {
    pts := [];
    for k := 0 to |nbs|
      invariant pts == HullInput(p1, nbs[..k])
    {
      assert nbs[..k + 1][..k] == nbs[..k];
      var nb := nbs[k];
      if nb.v1 < 0 || nb.v2 < 0 {
        var v := if nb.v1 >= 0 then nb.v1 else nb.v2;
        pts := pts + [Vertex(v), Far(v, p1, nb.other)];
      } else {
        pts := pts + [Vertex(nb.v1), Vertex(nb.v2)];
      }
    }
    assert nbs[..|nbs|] == nbs;
  }

  /** Each ridge adds exactly two points. */
  lemma {:induction false} HullInputLength(p1: nat, nbs: seq<Neighbor>)
    ensures |HullInput(p1, nbs)| == 2 * |nbs|
    decreases |nbs|
  {
    if nbs != [] {
      HullInputLength(p1, nbs[..|nbs| - 1]);
    }
  }

  /**
   * The points of ridge `k` sit at positions `2k` and `2k + 1`: its two vertices when both are
   * finite; otherwise its finite vertex (the non-negative index when only one is negative) and
   * the far point built from that vertex and the two seeds.
   */
  lemma {:induction false} HullInputAt(p1: nat, nbs: seq<Neighbor>, k: nat)
    requires k < |nbs|
    ensures 2 * k + 1 < |HullInput(p1, nbs)|
    ensures var nb, h := nbs[k], HullInput(p1, nbs);
      if nb.v1 >= 0 && nb.v2 >= 0 then h[2 * k] == Vertex(nb.v1) && h[2 * k + 1] == Vertex(nb.v2)
      else
        var v := if nb.v1 >= 0 then nb.v1 else nb.v2;
        h[2 * k] == Vertex(v) && h[2 * k + 1] == Far(v, p1, nb.other)
    decreases |nbs|
  {
    var n := |nbs| - 1;
    HullInputLength(p1, nbs[..n]);
    if k < n {
      HullInputAt(p1, nbs[..n], k);
      assert nbs[..n][k] == nbs[k];
    }
  }

  /** A ridge with exactly one vertex at infinity contributes its other, finite vertex. */
  lemma OneInfiniteVertexUsesFinite(p1: nat, nb: Neighbor)
    requires (nb.v1 < 0) != (nb.v2 < 0)
    ensures RidgePoints(p1, nb)[0].v >= 0
    ensures RidgePoints(p1, nb)[0].v == nb.v1 || RidgePoints(p1, nb)[0].v == nb.v2
  {
  }

  /**
   * The cell of seed `p`: the region's vertices when none is at infinity, else the hull input
   * from `all_ridges[p]`. A region index past `vor.regions` and a seed missing from
   * `all_ridges` are the script's `IndexError` and `KeyError`.
   */
  function CellOf(d: Diagram, m: Adjacency, p: nat): Result<Cell, Failure>
    requires p < |d.pointRegion|
  {
    var ri := d.pointRegion[p];
    if ri >= |d.regions| then Err(RegionIndexOutOfRange(p))
    else if AllFinite(d.regions[ri]) then Ok(Bounded(d.regions[ri]))
    else if p !in m then Err(MissingRidges(p))
    else Ok(Hull(HullInput(p, m[p])))
  }

  /** `new_regions` for the first `n` seeds, or the error of the first seed that fails. */
  function CellsUpTo(d: Diagram, m: Adjacency, n: nat): Result<seq<Cell>, Failure>
    requires n <= |d.pointRegion|
  {
    if n == 0 then Ok([])
    else
      match CellsUpTo(d, m, n - 1)
      case Err(e) => Err(e)
      case Ok(cs) =>
        match CellOf(d, m, n - 1)
        case Err(e) => Err(e)
        case Ok(c) => Ok(cs + [c])
  }

  function Cells(d: Diagram, m: Adjacency): Result<seq<Cell>, Failure>
  {
    CellsUpTo(d, m, |d.pointRegion|)
  }

  /** The loop over `enumerate(vor.point_region)` that fills `new_regions`. */
  method BuildCells(d: Diagram, m: Adjacency) returns (r: Result<seq<Cell>, Failure>)
    ensures r == Cells(d, m)
  {
    var cells: seq<Cell> := [];
    for p := 0 to |d.pointRegion|
      invariant CellsUpTo(d, m, p) == Ok(cells)
    {
      var ri := d.pointRegion[p];
      if ri >= |d.regions| {
        CellsFailAfter(d, m, p + 1, |d.pointRegion|);
        return Err(RegionIndexOutOfRange(p));
      }
      var vertices := d.regions[ri];
      var finite := true;
      for k := 0 to |vertices|
        invariant finite <==> AllFinite(vertices[..k])
      {
        if vertices[k] < 0 {
          finite := false;
        }
      }
      assert vertices[..|vertices|] == vertices;
      if finite {
        cells := cells + [Bounded(vertices)];
        continue;
      }
      if p !in m {
        CellsFailAfter(d, m, p + 1, |d.pointRegion|);
        return Err(MissingRidges(p));
      }
      var pts := CollectHullPoints(p, m[p]);
      cells := cells + [Hull(pts)];
    }
    r := Ok(cells);
  }

  /** Once a seed fails, the first error stays the result. */
  lemma {:induction false} CellsFailAfter(d: Diagram, m: Adjacency, n: nat, total: nat)
    requires n <= total <= |d.pointRegion|
    requires CellsUpTo(d, m, n).Err?
    ensures CellsUpTo(d, m, total) == CellsUpTo(d, m, n)
    decreases total - n
  {
    if n < total {
      CellsFailAfter(d, m, n, total - 1);
    }
  }

  /** Seed `p` has no cell and every earlier seed has one. */
  predicate FirstFailure(d: Diagram, m: Adjacency, p: nat)
    requires p < |d.pointRegion|
  {
    CellOf(d, m, p).Err? && forall q :: 0 <= q < p ==> CellOf(d, m, q).Ok?
  }

  /**
   * When every seed has a cell, `new_regions` has exactly one cell per seed, in seed order;
   * otherwise the error is that of the first seed that has none.
   */
  lemma {:induction false} CellsUpToSpec(d: Diagram, m: Adjacency, n: nat)
    requires n <= |d.pointRegion|
    ensures CellsUpTo(d, m, n).Ok? <==> forall p :: 0 <= p < n ==> CellOf(d, m, p).Ok?
    ensures CellsUpTo(d, m, n).Ok? ==>
      var cs := CellsUpTo(d, m, n).value;
      |cs| == n && forall p :: 0 <= p < n ==> cs[p] == CellOf(d, m, p).value
    ensures CellsUpTo(d, m, n).Err? ==>
      exists p :: 0 <= p < n && FirstFailure(d, m, p) && CellsUpTo(d, m, n).error == CellOf(d, m, p).error
    decreases n
  {
    if n > 0 {
      CellsUpToSpec(d, m, n - 1);
    }
  }

  /**
   * A seed's cell is copied from its region exactly when no vertex index of the region is
   * negative; otherwise it is the hull of two points per ridge around the seed.
   */
  lemma CellOfSpec(d: Diagram, m: Adjacency, p: nat)
    requires p < |d.pointRegion| && d.pointRegion[p] < |d.regions|
    ensures var vs := d.regions[d.pointRegion[p]];
      && (CellOf(d, m, p) == Ok(Bounded(vs)) <==> forall v :: v in vs ==> v >= 0)
      && (CellOf(d, m, p).Ok? && CellOf(d, m, p).value.Hull? ==>
            exists v :: v in vs && v < 0)
      && (CellOf(d, m, p).Ok? && CellOf(d, m, p).value.Hull? ==>
            p in m && |CellOf(d, m, p).value.points| == 2 * |m[p]|)
  {
    var vs := d.regions[d.pointRegion[p]];
    assert AllFinite(vs) <==> forall v :: v in vs ==> v >= 0 by {
      if AllFinite(vs) {
        forall v | v in vs ensures v >= 0 {
          var k :| 0 <= k < |vs| && vs[k] == v;
        }
      }
      if forall v :: v in vs ==> v >= 0 {
        forall k | 0 <= k < |vs| ensures vs[k] >= 0 {
          assert vs[k] in vs;
        }
      }
    }
    if CellOf(d, m, p).Ok? && CellOf(d, m, p).value.Hull? {
      HullInputLength(p, m[p]);
    }
  }

  /**
   * What `scipy.spatial.Voronoi` documents of its result for `n` input points: one region index
   * per point, in point order, each an index into `regions`; every ridge separating two distinct
   * input points; and every point whose region reaches infinity lying on the convex hull, hence
   * on at least one ridge.
   */
  predicate WellShaped(d: Diagram, n: nat)
  {
    && |d.pointRegion| == n
    && (forall p :: 0 <= p < n ==> d.pointRegion[p] < |d.regions|)
    && (forall i :: 0 <= i < |d.ridges| ==>
          d.ridges[i].p1 < n && d.ridges[i].p2 < n && d.ridges[i].p1 != d.ridges[i].p2)
    && (forall p :: 0 <= p < n && !AllFinite(d.regions[d.pointRegion[p]]) ==>
          exists i :: 0 <= i < |d.ridges| && Touches(d.ridges[i], p))
  }

  /**
   * For a diagram of that shape the loop never fails: `new_regions` has exactly one cell per
   * input point, in point order, and the unbounded cell of a point is built from the list of
   * every ridge around it.
   */
  lemma WellShapedCells(d: Diagram, n: nat)
    requires WellShaped(d, n)
    ensures Cells(d, RidgeMap(d.ridges)).Ok?
    ensures |Cells(d, RidgeMap(d.ridges)).value| == n
    ensures forall p :: 0 <= p < n ==>
      && CellOf(d, RidgeMap(d.ridges), p).Ok?
      && Cells(d, RidgeMap(d.ridges)).value[p] == CellOf(d, RidgeMap(d.ridges), p).value
    ensures forall p :: 0 <= p < n && Cells(d, RidgeMap(d.ridges)).value[p].Hull? ==>
      |Cells(d, RidgeMap(d.ridges)).value[p].points| == 2 * |TouchIndices(d.ridges, p)| > 0
  {
    var m := RidgeMap(d.ridges);
    forall p | 0 <= p < n
      ensures CellOf(d, m, p).Ok?
      ensures CellOf(d, m, p).value.Hull? ==> |CellOf(d, m, p).value.points| == 2 * |TouchIndices(d.ridges, p)| > 0
    {
      WellShapedCellOf(d, n, p);
    }
    CellsUpToSpec(d, m, n);
  }

  /** One point of a well-shaped diagram: it has a cell, and an unbounded one has a ridge. */
  lemma WellShapedCellOf(d: Diagram, n: nat, p: nat)
    requires WellShaped(d, n) && p < n
    ensures CellOf(d, RidgeMap(d.ridges), p).Ok?
    ensures var c := CellOf(d, RidgeMap(d.ridges), p).value;
      c.Hull? ==> |c.points| == 2 * |TouchIndices(d.ridges, p)| > 0
  {
    var m := RidgeMap(d.ridges);
    if !AllFinite(d.regions[d.pointRegion[p]]) {
      var i :| 0 <= i < |d.ridges| && Touches(d.ridges[i], p);
      RidgeMapKeys(d.ridges, p);
      RidgeMapIsNeighbors(d.ridges, p);
      NeighborCount(d.ridges, p);
      HullInputLength(p, m[p]);
      assert i in TouchIndices(d.ridges, p);
    }
  }
}
