/**
 * Seed collection: every exterior vertex of every part of every land polygon that meets the
 * buffered EEZ envelope becomes a seed, labelled with the polygon's `parent_name`. The script
 * builds two parallel lists, `seed_pts` and `seed_labels`.
 */
module Seeds {
  import opened Shapes

  datatype Seed = Seed(point: Point, name: string)

  /** The two parallel lists the script carries from here on. */
  datatype SeedLists = SeedLists(points: seq<Point>, labels: seq<string>)

  function VertexSeeds(ring: seq<Point>, name: string): seq<Seed>
  {
    seq(|ring|, i requires 0 <= i < |ring| => Seed(ring[i], name))
  }

  /** The seeds of some parts of one polygon, part after part. */
  function PartSeeds(parts: seq<Part>, name: string): seq<Seed>
  {
    if parts == [] then []
    else PartSeeds(parts[..|parts| - 1], name) + VertexSeeds(parts[|parts| - 1].exterior, name)
  }

  function RowSeeds(row: Row): seq<Seed>
  {
    PartSeeds(Parts(row.geometry), row.parentName)
  }

  /** The seeds of the land rows, in row order; rows that are not `near` contribute nothing. */
  function SeedsOf(land: seq<Row>, near: Geometry -> bool): seq<Seed>
  {
    if land == [] then []
    else
      var row := land[|land| - 1];
      SeedsOf(land[..|land| - 1], near) + (if near(row.geometry) then RowSeeds(row) else [])
  }

  /** Splits a list of seeds into the parallel point and label lists. */
  function Unzip(seeds: seq<Seed>): (lists: SeedLists)
  {
    SeedLists(
      seq(|seeds|, i requires 0 <= i < |seeds| => seeds[i].point),
      seq(|seeds|, i requires 0 <= i < |seeds| => seeds[i].name))
  }

  /** `lists` pairs up, index by index, into `seeds`. */
  predicate Pairs(lists: SeedLists, seeds: seq<Seed>)
  {
    && |lists.points| == |lists.labels| == |seeds|
    && forall i :: 0 <= i < |seeds| ==> seeds[i] == Seed(lists.points[i], lists.labels[i])
  }

  /** The loop at the top of the seed stage: appends each vertex and its label in lockstep. */
  method CollectSeeds(land: seq<Row>, near: Geometry -> bool) returns (pts: seq<Point>, labels: seq<string>)
    ensures Pairs(SeedLists(pts, labels), SeedsOf(land, near))
  {
    pts, labels := [], [];
    for r := 0 to |land|
      invariant SeedLists(pts, labels) == Unzip(SeedsOf(land[..r], near))
    {
      var row := land[r];
      SeedsOfSnoc(land, near, r);
      if !near(row.geometry) {
        continue;
      }
      UnzipAppend(SeedsOf(land[..r], near), RowSeeds(row));
      pts, labels := AppendParts(pts, labels, Parts(row.geometry), row.parentName);
    }
    assert land[..|land|] == land;
    UnzipPairs(SeedsOf(land, near));
  }

  /** The loop over the parts of one polygon. */
  method AppendParts(pts0: seq<Point>, labels0: seq<string>, parts: seq<Part>, name: string)
    returns (pts: seq<Point>, labels: seq<string>)
    ensures pts == pts0 + Unzip(PartSeeds(parts, name)).points
    ensures labels == labels0 + Unzip(PartSeeds(parts, name)).labels
  {
    pts, labels := pts0, labels0;
    for k := 0 to |parts|
      invariant pts == pts0 + Unzip(PartSeeds(parts[..k], name)).points
      invariant labels == labels0 + Unzip(PartSeeds(parts[..k], name)).labels
    {
      assert parts[..k + 1][..k] == parts[..k];
      var ring := parts[k].exterior;
      UnzipAppend(PartSeeds(parts[..k], name), VertexSeeds(ring, name));
      UnzipVertexSeeds(ring, name);
      pts, labels := AppendRing(pts, labels, ring, name);
    }
    assert parts[..|parts|] == parts;
  }

  /** `name` repeated `n` times. */
  function Repeat(name: string, n: nat): seq<string>
  {
    seq(n, _ => name)
  }

  /** The loop over the exterior vertices of one part. */
  method AppendRing(pts0: seq<Point>, labels0: seq<string>, ring: seq<Point>, name: string)
    returns (pts: seq<Point>, labels: seq<string>)
    ensures pts == pts0 + ring
    ensures labels == labels0 + Repeat(name, |ring|)
  {
    pts, labels := pts0, labels0;
    for m := 0 to |ring|
      invariant pts == pts0 + ring[..m]
      invariant labels == labels0 + Repeat(name, m)
    {
      assert ring[..m + 1] == ring[..m] + [ring[m]];
      assert Repeat(name, m + 1) == Repeat(name, m) + [name];
      pts := pts + [ring[m]];
      labels := labels + [name];
    }
    assert ring[..|ring|] == ring;
  }

  lemma SeedsOfSnoc(land: seq<Row>, near: Geometry -> bool, r: nat)
    requires r < |land|
    ensures SeedsOf(land[..r + 1], near)
      == SeedsOf(land[..r], near) + (if near(land[r].geometry) then RowSeeds(land[r]) else [])
  {
    assert land[..r + 1][..r] == land[..r];
  }

  /** Unzipping distributes over concatenation. */
  lemma UnzipAppend(a: seq<Seed>, b: seq<Seed>)
    ensures Unzip(a + b) == SeedLists(Unzip(a).points + Unzip(b).points, Unzip(a).labels + Unzip(b).labels)
  {
  }

  /** The seeds of one ring unzip into the ring and its name repeated. */
  lemma UnzipVertexSeeds(ring: seq<Point>, name: string)
    ensures Unzip(VertexSeeds(ring, name)) == SeedLists(ring, Repeat(name, |ring|))
  {
  }

  lemma UnzipPairs(seeds: seq<Seed>)
    ensures Pairs(Unzip(seeds), seeds)
  {
  }

  lemma PairsIsUnzip(lists: SeedLists, seeds: seq<Seed>)
    requires Pairs(lists, seeds)
    ensures lists == Unzip(seeds)
  {
  }

  /** Where a seed of some parts comes from: a vertex of one part's exterior ring. */
  lemma {:induction false} PartSeedOrigin(parts: seq<Part>, name: string, j: nat) returns (k: nat, m: nat)
    requires j < |PartSeeds(parts, name)|
    ensures k < |parts| && m < |parts[k].exterior|
    ensures PartSeeds(parts, name)[j] == Seed(parts[k].exterior[m], name)
    decreases |parts|
  {
    var n := |parts| - 1;
    var prev := PartSeeds(parts[..n], name);
    if j < |prev| {
      k, m := PartSeedOrigin(parts[..n], name, j);
      assert parts[..n][k] == parts[k];
    } else {
      k, m := n, j - |prev|;
    }
  }

  /**
   * Where a seed comes from: exterior vertex `m` of part `k` of land row `r`, a row that meets
   * the envelope; the seed carries that row's `parent_name`.
   */
  lemma {:induction false} SeedOrigin(land: seq<Row>, near: Geometry -> bool, j: nat) returns (r: nat, k: nat, m: nat)
    requires j < |SeedsOf(land, near)|
    ensures r < |land| && near(land[r].geometry)
    ensures k < |Parts(land[r].geometry)| && m < |Parts(land[r].geometry)[k].exterior|
    ensures SeedsOf(land, near)[j] == Seed(Parts(land[r].geometry)[k].exterior[m], land[r].parentName)
    decreases |land|
  {
    var n := |land| - 1;
    var prev := SeedsOf(land[..n], near);
    if j < |prev| {
      r, k, m := SeedOrigin(land[..n], near, j);
      assert land[..n][r] == land[r];
    } else {
      r := n;
      k, m := PartSeedOrigin(Parts(land[n].geometry), land[n].parentName, j - |prev|);
    }
  }

  lemma {:induction false} PartSeedComplete(parts: seq<Part>, name: string, k: nat, m: nat)
    requires k < |parts| && m < |parts[k].exterior|
    ensures Seed(parts[k].exterior[m], name) in PartSeeds(parts, name)
    decreases |parts|
  {
    var n := |parts| - 1;
    if k < n {
      assert parts[..n][k] == parts[k];
      PartSeedComplete(parts[..n], name, k, m);
    } else {
      assert VertexSeeds(parts[n].exterior, name)[m] == Seed(parts[k].exterior[m], name);
    }
  }

  /** Every exterior vertex of every part of every row that meets the envelope is a seed. */
  lemma {:induction false} SeedComplete(land: seq<Row>, near: Geometry -> bool, r: nat, k: nat, m: nat)
    requires r < |land| && near(land[r].geometry)
    requires k < |Parts(land[r].geometry)| && m < |Parts(land[r].geometry)[k].exterior|
    ensures Seed(Parts(land[r].geometry)[k].exterior[m], land[r].parentName) in SeedsOf(land, near)
    decreases |land|
  {
    var n := |land| - 1;
    if r < n {
      assert land[..n][r] == land[r];
      SeedComplete(land[..n], near, r, k, m);
    } else {
      PartSeedComplete(Parts(land[r].geometry), land[r].parentName, k, m);
    }
  }

  /** A row that meets the envelope and has at least one exterior vertex. */
  ghost predicate Contributes(row: Row, near: Geometry -> bool)
  {
    near(row.geometry) && exists k :: 0 <= k < |Parts(row.geometry)| && Parts(row.geometry)[k].exterior != []
  }

  /**
   * The script stops with "No seed points generated" exactly when no land row both meets the
   * envelope and has an exterior vertex.
   */
  lemma NoSeedsIff(land: seq<Row>, near: Geometry -> bool)
    ensures SeedsOf(land, near) == [] <==> forall row :: row in land ==> !Contributes(row, near)
  {
    if SeedsOf(land, near) != [] {
      var r, k, m := SeedOrigin(land, near, 0);
      assert land[r] in land && Contributes(land[r], near);
    }
    if row :| row in land && Contributes(row, near) {
      var r :| 0 <= r < |land| && land[r] == row;
      var k :| 0 <= k < |Parts(row.geometry)| && Parts(row.geometry)[k].exterior != [];
      SeedComplete(land, near, r, k, 0);
    }
  }

  /** Every seed label is the `parent_name` of a land row that meets the envelope. */
  lemma SeedLabelsFromNearRows(land: seq<Row>, near: Geometry -> bool, l: string)
    requires l in Unzip(SeedsOf(land, near)).labels
    ensures exists row :: row in land && near(row.geometry) && row.parentName == l
  {
    var lists := Unzip(SeedsOf(land, near));
    var j :| 0 <= j < |lists.labels| && lists.labels[j] == l;
    var r, k, m := SeedOrigin(land, near, j);
    assert land[r] in land;
  }
}
