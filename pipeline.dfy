/**
 * The whole allocation: filter the rows, find the EEZ, seed a tessellation with the coastline
 * vertices of the land near the EEZ, clip the finite cells to the EEZ, merge them per state and
 * emit the land records followed by one maritime record per state. The geometry library calls
 * are the fields of `GeometryOps`; everything else is the model's own code.
 */
module Pipeline {
  import opened Common
  import opened Text
  import opened Shapes
  import opened ShortCodes
  import opened Filters
  import opened SortedUnique
  import opened Seeds
  import opened SeedPrep
  import opened Voronoi
  import opened Maritime

  /** The buffer around the EEZ envelope, in metres of the projected system: 300 km. */
  const EnvelopeBuffer: nat := 300000

  /** The geometry library, over an abstract type `S` of planar shapes. */
  datatype GeometryOps<!S> = GeometryOps(
    union: seq<Geometry> -> S,               // `unary_union` of the EEZ geometries
    near: (S, nat, Geometry) -> bool,        // `geom.intersects(union.envelope.buffer(d))`
    voronoi: seq<Point> -> Option<Diagram>,  // `Voronoi(points)`; `None` when it raises
    clip: (Cell, S) -> S,                    // the finite cell as a polygon, intersected with the union
    isEmpty: S -> bool,
    merge: seq<S> -> S)                      // the per-group union of `dissolve`

  function Geometries(rows: seq<Row>): seq<Geometry>
  {
    seq(|rows|, i requires 0 <= i < |rows| => rows[i].geometry)
  }

  /** `geom.intersects(eez_bbox)`. */
  function NearEnvelope<S>(ops: GeometryOps<S>, union: S): Geometry -> bool
  {
    g => ops.near(union, EnvelopeBuffer, g)
  }

  /** `Polygon(region).intersection(eez_union)`. */
  function ClipTo<S>(ops: GeometryOps<S>, union: S): Cell -> S
  {
    c => ops.clip(c, union)
  }

  /** The seeds after deduplication and the cap. */
  function Prepared(seeds: SeedLists): SeedLists
    requires |seeds.points| == |seeds.labels|
  {
    Cap(Dedup(seeds), SeedCap)
  }

  /**
   * From the land rows and the EEZ union to `polys`: seeds, deduplication and cap, the
   * tessellation, its finite cells and their clips; or the first error on the way.
   */
  function Tessellate<S>(land: seq<Row>, union: S, ops: GeometryOps<S>): Result<seq<Fragment<S>>, Failure>
  {
    var seeds := Unzip(SeedsOf(land, NearEnvelope(ops, union)));
    if |seeds.points| == 0 then Err(NoSeedPoints)
    else
      var prepared := Prepared(seeds);
      match ops.voronoi(prepared.points)
      case None => Err(VoronoiFailed)
      case Some(d) =>
        match Cells(d, RidgeMap(d.ridges))
        case Err(e) => Err(e)
        case Ok(cells) => Fragments(cells, prepared.labels, ClipTo(ops, union), ops.isEmpty)
  }

  /**
   * `vor_by_state` after `dissolve`; an empty `polys` builds a frame without a `parent_name`
   * column, and the script fails at lines 128-129.
   */
  function Groups<S>(land: seq<Row>, union: S, ops: GeometryOps<S>): Result<seq<Group<S>>, Failure>
  {
    match Tessellate(land, union, ops)
    case Err(e) => Err(e)
    case Ok(fs) => if |fs| == 0 then Err(NoMaritimeFragments) else Ok(Dissolve(fs, ops.merge))
  }

  /** The maritime records, or the first error of the maritime stages. */
  function Sea<S>(land: seq<Row>, union: S, nums: map<string, string>, ops: GeometryOps<S>): Result<seq<Record<S>>, Failure>
  {
    match Groups(land, union, ops)
    case Err(e) => Err(e)
    case Ok(groups) => MaritimeRecords(groups, nums)
  }

  /** `eez_union`. */
  function Union<S>(rows: seq<Row>, ops: GeometryOps<S>): S
    requires EezRows(DropListed(rows)).Ok?
  {
    ops.union(Geometries(EezRows(DropListed(rows)).value))
  }

  /** The output table `final_gdf`, or the exception the script stops with. */
  function Allocate<S>(rows: seq<Row>, ops: GeometryOps<S>): Result<seq<Record<S>>, Failure>
  {
    var g := DropListed(rows);
    var land := LandRows(g);
    match EezRows(g)
    case Err(e) => Err(e)
    case Ok(eez) =>
      match NumMap(land)
      case Err(e) => Err(e)
      case Ok(nums) =>
        match Sea(land, Union(rows, ops), nums, ops)
        case Err(e) => Err(e)
        case Ok(sea) => Ok(LandRecords(land) + sea)
  }

  /** The script from the filters to `final_gdf`, calling the loops of each stage in turn. */
  method Run<S>(rows: seq<Row>, ops: GeometryOps<S>) returns (r: Result<seq<Record<S>>, Failure>)
    ensures r == Allocate(rows, ops)
  {
    var g := DropListed(rows);
    var land := LandRows(g);
    var eez := EezRows(g);
    if eez.Err? {
      return Err(eez.error);
    }
    var union := Union(rows, ops);
    var nums := NumMap(land);
    if nums.Err? {
      return Err(nums.error);
    }
    var pts, labels := CollectSeeds(land, NearEnvelope(ops, union));
    PairsIsUnzip(SeedLists(pts, labels), SeedsOf(land, NearEnvelope(ops, union)));
    if |pts| == 0 {
      return Err(NoSeedPoints);
    }
    var prepared := Prepared(SeedLists(pts, labels));
    var diagram := ops.voronoi(prepared.points);
    if diagram.None? {
      return Err(VoronoiFailed);
    }
    var d := diagram.value;
    var ridgeMap := BuildRidgeMap(d.ridges);
    var cells := BuildCells(d, ridgeMap);
    if cells.Err? {
      return Err(cells.error);
    }
    var polys := ClipCells(cells.value, prepared.labels, ClipTo(ops, union), ops.isEmpty);
    if polys.Err? {
      return Err(polys.error);
    }
    if |polys.value| == 0 {
      return Err(NoMaritimeFragments);
    }
    var groups := Dissolve(polys.value, ops.merge);
    var sea := MaritimeRecords(groups, nums.value);
    if sea.Err? {
      return Err(sea.error);
    }
    r := Ok(LandRecords(land) + sea.value);
  }

  /** A land row: not drop-listed, of class `land`. */
  predicate IsKeptLand(r: Row, rows: seq<Row>)
  {
    r in rows && r.parentName !in DropLandNames && r.shapeClass == "land"
  }

  lemma KeptLandRows(rows: seq<Row>)
    ensures forall r :: r in LandRows(DropListed(rows)) <==> IsKeptLand(r, rows)
  {
  }

  /** What a successful run is made of: every stage passed, land records first, then the sea. */
  lemma AllocateOk<S>(rows: seq<Row>, ops: GeometryOps<S>)
    requires Allocate(rows, ops).Ok?
    ensures var land := LandRows(DropListed(rows));
      && EezRows(DropListed(rows)).Ok?
      && NumMap(land).Ok?
      && Sea(land, Union(rows, ops), NumMap(land).value, ops).Ok?
      && Allocate(rows, ops).value == LandRecords(land) + Sea(land, Union(rows, ops), NumMap(land).value, ops).value
  {
  }

  /** What the maritime stages are made of when they succeed. */
  lemma SeaOk<S>(land: seq<Row>, union: S, nums: map<string, string>, ops: GeometryOps<S>)
    requires Sea(land, union, nums, ops).Ok?
    ensures Tessellate(land, union, ops).Ok?
    ensures |Tessellate(land, union, ops).value| > 0
    ensures Groups(land, union, ops) == Ok(Dissolve(Tessellate(land, union, ops).value, ops.merge))
    ensures Sea(land, union, nums, ops) == MaritimeRecords(Groups(land, union, ops).value, nums)
  {
  }

  /** Every label of `polys` is the name of a land row that meets the buffered envelope. */
  lemma TessellateLabels<S>(land: seq<Row>, union: S, ops: GeometryOps<S>, f: Fragment<S>)
    requires Tessellate(land, union, ops).Ok?
    requires f in Tessellate(land, union, ops).value
    ensures exists r :: r in land && NearEnvelope(ops, union)(r.geometry) && r.parentName == f.name
  {
    var near := NearEnvelope(ops, union);
    var seeds := Unzip(SeedsOf(land, near));
    var prepared := Prepared(seeds);
    var d := ops.voronoi(prepared.points).value;
    var cells := Cells(d, RidgeMap(d.ridges)).value;
    FragmentLabelsAreSeedLabels(cells, prepared.labels, ClipTo(ops, union), ops.isEmpty, f);
    CapLabelsKept(Dedup(seeds), SeedCap, f.name);
    DedupSpec(seeds);
    DedupLabelsKept(seeds, f.name);
    SeedLabelsFromNearRows(land, near, f.name);
  }

  /**
   * Every merged maritime region is named after a land row, outside the drop list, that meets
   * the buffered EEZ envelope: no maritime region is created for a name without such a row.
   */
  lemma GroupNamesFromNearLand<S>(land: seq<Row>, union: S, ops: GeometryOps<S>, k: nat)
    requires Groups(land, union, ops).Ok?
    requires k < |Groups(land, union, ops).value|
    ensures exists r :: r in land && NearEnvelope(ops, union)(r.geometry) && r.parentName == Groups(land, union, ops).value[k].name
  {
    var fs := Tessellate(land, union, ops).value;
    var groups := Dissolve(fs, ops.merge);
    var name := groups[k].name;
    DissolveNames(fs, ops.merge);
    assert GroupNames(groups)[k] == name;
    assert name in GroupNames(groups);
    var f :| f in fs && f.name == name;
    TessellateLabels(land, union, ops, f);
  }

  /** Every group's name is a key of `num_map`. */
  lemma AllGroupsNumbered<S>(land: seq<Row>, union: S, ops: GeometryOps<S>)
    requires NumMap(land).Ok?
    requires Groups(land, union, ops).Ok?
    ensures var groups := Groups(land, union, ops).value;
      forall k :: 0 <= k < |groups| ==> groups[k].name in NumMap(land).value
  {
    var groups := Groups(land, union, ops).value;
    forall k | 0 <= k < |groups| ensures groups[k].name in NumMap(land).value {
      GroupNamesFromNearLand(land, union, ops, k);
      var r :| r in land && NearEnvelope(ops, union)(r.geometry) && r.parentName == groups[k].name;
      var i :| 0 <= i < |land| && land[i] == r;
      NumMapKeys(land, groups[k].name);
    }
  }

  /** The errors the tessellation stages can stop with. */
  lemma TessellateError<S>(land: seq<Row>, union: S, ops: GeometryOps<S>)
    requires Tessellate(land, union, ops).Err?
    ensures Tessellate(land, union, ops).error != NoEezRows
    ensures !Tessellate(land, union, ops).error.MissingNumericKey?
    ensures !Tessellate(land, union, ops).error.ShapeIdWithoutDot?
    ensures |Unzip(SeedsOf(land, NearEnvelope(ops, union))).points| > 0 ==>
      Tessellate(land, union, ops).error != NoSeedPoints
  {
    var seeds := Unzip(SeedsOf(land, NearEnvelope(ops, union)));
    if |seeds.points| > 0 {
      var prepared := Prepared(seeds);
      if ops.voronoi(prepared.points).Some? {
        var d := ops.voronoi(prepared.points).value;
        var m := RidgeMap(d.ridges);
        CellsUpToSpec(d, m, |d.pointRegion|);
        if Cells(d, m).Ok? {
          var cells := Cells(d, m).value;
          FragmentsErrorIsLabel(cells, prepared.labels, ClipTo(ops, union), ops.isEmpty, |cells|);
        }
      }
    }
  }

  /** The tessellation library returns a diagram of its documented shape whenever it succeeds. */
  ghost predicate VoronoiWellShaped<S>(ops: GeometryOps<S>)
  {
    forall pts :: ops.voronoi(pts).Some? ==> WellShaped(ops.voronoi(pts).value, |pts|)
  }

  /**
   * With a diagram of the documented shape, the tessellation has exactly one cell per prepared
   * seed, in seed order, and so exactly one label per cell.
   */
  lemma OneCellPerSeed<S>(land: seq<Row>, union: S, ops: GeometryOps<S>)
    requires VoronoiWellShaped(ops)
    requires |Unzip(SeedsOf(land, NearEnvelope(ops, union))).points| > 0
    requires ops.voronoi(Prepared(Unzip(SeedsOf(land, NearEnvelope(ops, union)))).points).Some?
    ensures var prepared := Prepared(Unzip(SeedsOf(land, NearEnvelope(ops, union))));
      var d := ops.voronoi(prepared.points).value;
      && Cells(d, RidgeMap(d.ridges)).Ok?
      && |Cells(d, RidgeMap(d.ridges)).value| == |prepared.points| == |prepared.labels|
  {
    var seeds := Unzip(SeedsOf(land, NearEnvelope(ops, union)));
    var prepared := Prepared(seeds);
    DedupSpec(seeds);
    CapSpec(Dedup(seeds), SeedCap);
    WellShapedCells(ops.voronoi(prepared.points).value, |prepared.points|);
  }

  /**
   * With the library's documented output, the tessellation stops only with "No seed points
   * generated" or with the library rejecting the seeds: no region, ridge or label lookup fails.
   */
  lemma TessellateWellShaped<S>(land: seq<Row>, union: S, ops: GeometryOps<S>)
    requires VoronoiWellShaped(ops)
    requires Tessellate(land, union, ops).Err?
    ensures Tessellate(land, union, ops).error in {NoSeedPoints, VoronoiFailed}
  {
    var seeds := Unzip(SeedsOf(land, NearEnvelope(ops, union)));
    if |seeds.points| > 0 {
      var prepared := Prepared(seeds);
      if ops.voronoi(prepared.points).Some? {
        var d := ops.voronoi(prepared.points).value;
        OneCellPerSeed(land, union, ops);
        var cells := Cells(d, RidgeMap(d.ridges)).value;
        FragmentsSpec(cells, prepared.labels, ClipTo(ops, union), ops.isEmpty);
      }
    }
  }

  /**
   * With the library's documented output, the maritime stages stop only with "No seed points
   * generated", the library rejecting the seeds, or an empty `polys`.
   */
  lemma SeaWellShaped<S>(land: seq<Row>, union: S, ops: GeometryOps<S>)
    requires VoronoiWellShaped(ops)
    requires NumMap(land).Ok?
    requires Sea(land, union, NumMap(land).value, ops).Err?
    ensures Sea(land, union, NumMap(land).value, ops).error in {NoSeedPoints, VoronoiFailed, NoMaritimeFragments}
  {
    SeaError(land, union, ops);
    if Tessellate(land, union, ops).Err? {
      TessellateWellShaped(land, union, ops);
    } else if Groups(land, union, ops).Ok? {
      var groups := Groups(land, union, ops).value;
      var k := MaritimeRecordsUpToErr(groups, NumMap(land).value, |groups|);
    }
  }

  /**
   * With the library's documented output, the run stops only with the script's own exceptions
   * ("EEZ rows not found", "No seed points generated"), a land `shape_id` without a dot, the
   * library rejecting the seeds, or no fragment to dissolve: none of the lookups into the
   * diagram, `seed_labels` or `num_map` fails.
   */
  lemma AllocateErrors<S>(rows: seq<Row>, ops: GeometryOps<S>)
    requires VoronoiWellShaped(ops)
    requires Allocate(rows, ops).Err?
    ensures Allocate(rows, ops).error.NoEezRows? || Allocate(rows, ops).error.ShapeIdWithoutDot?
      || Allocate(rows, ops).error in {NoSeedPoints, VoronoiFailed, NoMaritimeFragments}
  {
    var g := DropListed(rows);
    var land := LandRows(g);
    if EezRows(g).Ok? {
      if NumMap(land).Ok? {
        SeaWellShaped(land, Union(rows, ops), ops);
      } else {
        var i := NumMapErr(land);
      }
    }
  }

  /** `polys` can only fail on a missing label. */
  lemma {:induction false} FragmentsErrorIsLabel<S>(cells: seq<Cell>, labels: seq<string>, clip: Cell -> S, isEmpty: S -> bool, n: nat)
    requires n <= |cells|
    ensures FragmentsUpTo(cells, labels, clip, isEmpty, n).Err? ==>
      FragmentsUpTo(cells, labels, clip, isEmpty, n).error.LabelIndexOutOfRange?
    decreases n
  {
    if n > 0 {
      FragmentsErrorIsLabel(cells, labels, clip, isEmpty, n - 1);
    }
  }

  /** The maritime stages never report a missing EEZ, a missing numeric key or a bad land id. */
  lemma SeaError<S>(land: seq<Row>, union: S, ops: GeometryOps<S>)
    requires NumMap(land).Ok?
    requires Sea(land, union, NumMap(land).value, ops).Err?
    ensures Sea(land, union, NumMap(land).value, ops).error != NoEezRows
    ensures !Sea(land, union, NumMap(land).value, ops).error.MissingNumericKey?
    ensures !Sea(land, union, NumMap(land).value, ops).error.ShapeIdWithoutDot?
  {
    if Tessellate(land, union, ops).Err? {
      TessellateError(land, union, ops);
    } else if Groups(land, union, ops).Ok? {
      var groups := Groups(land, union, ops).value;
      AllGroupsNumbered(land, union, ops);
      MaritimeRecordsSpec(groups, NumMap(land).value);
    }
  }

  /**
   * The script stops with "EEZ rows not found" exactly when no row outside the drop list has
   * `eez` (lower case) in its `parent_subtype`.
   */
  lemma NoEezIff<S>(rows: seq<Row>, ops: GeometryOps<S>)
    ensures Allocate(rows, ops) == Err(NoEezRows) <==>
      forall r :: r in rows && r.parentName !in DropLandNames ==> !IsEez(r)
  {
    var g := DropListed(rows);
    var land := LandRows(g);
    if EezRows(g).Ok? {
      if NumMap(land).Ok? {
        if Sea(land, Union(rows, ops), NumMap(land).value, ops).Err? {
          SeaError(land, Union(rows, ops), ops);
        }
      } else {
        var i := NumMapErr(land);
      }
    }
  }

  /**
   * The lookup `num_map[n]` at the end never fails: every maritime name is the name of a land
   * row, and `num_map` has a key for each.
   */
  lemma NeverMissingNumericKey<S>(rows: seq<Row>, ops: GeometryOps<S>)
    ensures !(Allocate(rows, ops).Err? && Allocate(rows, ops).error.MissingNumericKey?)
  {
    var g := DropListed(rows);
    var land := LandRows(g);
    if EezRows(g).Ok? {
      if NumMap(land).Ok? {
        if Sea(land, Union(rows, ops), NumMap(land).value, ops).Err? {
          SeaError(land, Union(rows, ops), ops);
        }
      } else {
        var i := NumMapErr(land);
      }
    }
  }

  /**
   * A successful run, stage by stage: the kept land rows, `num_map`, the groups of `dissolve`
   * (at least one, with strictly increasing labels, each a key of `num_map`), one maritime
   * record per group, and the output table, land records first.
   */
  lemma OutputParts<S>(rows: seq<Row>, ops: GeometryOps<S>)
    returns (land: seq<Row>, nums: map<string, string>, groups: seq<Group<S>>, sea: seq<Record<S>>)
    requires Allocate(rows, ops).Ok?
    ensures land == LandRows(DropListed(rows))
    ensures EezRows(DropListed(rows)).Ok? && NumMap(land) == Ok(nums)
    ensures Groups(land, Union(rows, ops), ops) == Ok(groups)
    ensures |groups| > 0 && StrictlySorted(GroupNames(groups), StrLess)
    ensures MaritimeRecords(groups, nums) == Ok(sea)
    ensures |sea| == |groups|
    ensures forall q :: 0 <= q < |groups| ==> sea[q].stateName == groups[q].name
    ensures |LandRecords<S>(land)| == |land|
    ensures Allocate(rows, ops) == Ok(LandRecords(land) + sea)
  {
    AllocateOk(rows, ops);
    land := LandRows(DropListed(rows));
    nums := NumMap(land).value;
    var union := Union(rows, ops);
    SeaOk(land, union, nums, ops);
    groups := Groups(land, union, ops).value;
    GroupsNonEmpty(land, union, ops);
    MaritimeRecordsUpToValue(groups, nums, |groups|);
    sea := MaritimeRecords(groups, nums).value;
    forall q | 0 <= q < |groups| ensures sea[q].stateName == groups[q].name {
      MaritimeRecordAt(groups, nums, sea, q);
    }
  }

  /**
   * The shape of a successful run: the land rows' records, in row order, then at least one
   * maritime record, each of class `maritime` in country `AUS`.
   */
  lemma OutputShape<S>(rows: seq<Row>, ops: GeometryOps<S>)
    requires Allocate(rows, ops).Ok?
    ensures var land := LandRows(DropListed(rows));
      var out := Allocate(rows, ops).value;
      && |out| > |land|
      && out[..|land|] == LandRecords(land)
      && forall k :: |land| <= k < |out| ==> out[k].shapeClass == "maritime" && out[k].countryId == "AUS"
  {
    var land, nums, groups, sea := OutputParts(rows, ops);
    SeaClassAndCountry(groups, nums, sea);
    var out := LandRecords<S>(land) + sea;
    assert out[..|land|] == LandRecords(land);
    forall k | |land| <= k < |out| ensures out[k].shapeClass == "maritime" && out[k].countryId == "AUS" {
      assert out[k] == sea[k - |land|];
    }
  }

  /** An empty `polys` stops the script, so a merged region always exists. */
  lemma GroupsNonEmpty<S>(land: seq<Row>, union: S, ops: GeometryOps<S>)
    requires Groups(land, union, ops).Ok?
    ensures |Groups(land, union, ops).value| > 0
    ensures StrictlySorted(GroupNames(Groups(land, union, ops).value), StrLess)
  {
    var fs := Tessellate(land, union, ops).value;
    var groups := Dissolve(fs, ops.merge);
    DissolveNames(fs, ops.merge);
    assert fs[0] in fs && fs[0].name in GroupNames(groups);
  }

  /** The maritime records follow the sorted labels: their names strictly increase. */
  lemma MaritimeNamesIncrease<S>(rows: seq<Row>, ops: GeometryOps<S>, j: nat, k: nat)
    requires Allocate(rows, ops).Ok?
    requires |LandRows(DropListed(rows))| <= j < k < |Allocate(rows, ops).value|
    ensures StrLess(Allocate(rows, ops).value[j].stateName, Allocate(rows, ops).value[k].stateName)
  {
    var land, nums, groups, sea := OutputParts(rows, ops);
    OutputNamesIncrease(land, groups, sea, j, k);
  }

  /** Past the land records, the output follows the strictly increasing group labels. */
  lemma OutputNamesIncrease<S>(land: seq<Row>, groups: seq<Group<S>>, sea: seq<Record<S>>, j: nat, k: nat)
    requires StrictlySorted(GroupNames(groups), StrLess)
    requires |sea| == |groups| && forall q :: 0 <= q < |groups| ==> sea[q].stateName == groups[q].name
    requires |LandRecords<S>(land)| == |land|
    requires |land| <= j < k < |land| + |sea|
    ensures StrLess((LandRecords<S>(land) + sea)[j].stateName, (LandRecords<S>(land) + sea)[k].stateName)
  {
    MaritimeNamesSorted(groups, sea, j - |land|, k - |land|);
    assert (LandRecords<S>(land) + sea)[j] == sea[j - |land|];
    assert (LandRecords<S>(land) + sea)[k] == sea[k - |land|];
  }

  /** The record past the land records at index `k` is the one made for group `k - |land|`. */
  lemma OutputRecordAt<S>(land: seq<Row>, groups: seq<Group<S>>, nums: map<string, string>, sea: seq<Record<S>>, k: nat)
    requires MaritimeRecords(groups, nums) == Ok(sea)
    requires |LandRecords<S>(land)| == |land| && |sea| == |groups|
    requires |land| <= k < |land| + |sea|
    ensures var rec := (LandRecords<S>(land) + sea)[k];
      && rec.stateName == groups[k - |land|].name
      && rec.stateId == ShortCode(rec.stateName)
      && rec.stateName in nums
      && rec.shapeId == MaritimeShapeId(nums[rec.stateName])
  {
    var q := k - |land|;
    MaritimeRecordAt(groups, nums, sea, q);
    assert (LandRecords<S>(land) + sea)[k] == sea[q];
  }

  /**
   * Every output record's `state_id` is the short code of its `state_name`, so a land record
   * and a maritime record for the same state always agree on it.
   */
  lemma StateIdsAgree<S>(rows: seq<Row>, ops: GeometryOps<S>)
    requires Allocate(rows, ops).Ok?
    ensures forall rec :: rec in Allocate(rows, ops).value ==> rec.stateId == ShortCode(rec.stateName)
    ensures forall a, b ::
      (a in Allocate(rows, ops).value && b in Allocate(rows, ops).value && a.stateName == b.stateName) ==> a.stateId == b.stateId
  {
    var land, nums, groups, sea := OutputParts(rows, ops);
    RecordsStateIds(land, groups, nums, sea);
  }

  /** Land records and the maritime records both take `state_id` from the name's short code. */
  lemma RecordsStateIds<S>(land: seq<Row>, groups: seq<Group<S>>, nums: map<string, string>, sea: seq<Record<S>>)
    requires MaritimeRecords(groups, nums) == Ok(sea)
    ensures forall rec :: rec in LandRecords<S>(land) + sea ==> rec.stateId == ShortCode(rec.stateName)
  {
    forall rec | rec in LandRecords<S>(land) ensures rec.stateId == ShortCode(rec.stateName) {
      var i :| 0 <= i < |land| && LandRecords<S>(land)[i] == rec;
    }
    forall rec | rec in sea ensures rec.stateId == ShortCode(rec.stateName) {
      var q :| 0 <= q < |sea| && sea[q] == rec;
      MaritimeRecordsUpToValue(groups, nums, |groups|);
      MaritimeRecordAt(groups, nums, sea, q);
    }
  }

  /** No record of the output bears a drop-listed name. */
  lemma NoDropListedOutput<S>(rows: seq<Row>, ops: GeometryOps<S>)
    requires Allocate(rows, ops).Ok?
    ensures forall rec :: rec in Allocate(rows, ops).value ==> rec.stateName !in DropLandNames
  {
    var land, nums, groups, sea := OutputParts(rows, ops);
    SeaNamedAfterLand(land, Union(rows, ops), ops, groups, sea);
    NoDropListedRecords(rows, sea);
  }

  /** Each maritime record is named after a land row. */
  lemma SeaNamedAfterLand<S>(land: seq<Row>, union: S, ops: GeometryOps<S>, groups: seq<Group<S>>, sea: seq<Record<S>>)
    requires Groups(land, union, ops) == Ok(groups)
    requires |sea| == |groups|
    requires forall q :: 0 <= q < |groups| ==> sea[q].stateName == groups[q].name
    ensures forall q :: 0 <= q < |sea| ==> exists r :: r in land && r.parentName == sea[q].stateName
  {
    forall q | 0 <= q < |sea| ensures exists r :: r in land && r.parentName == sea[q].stateName {
      GroupNamesFromNearLand(land, union, ops, q);
    }
  }

  /** Land records, and records named after land rows, bear no drop-listed name. */
  lemma NoDropListedRecords<S>(rows: seq<Row>, sea: seq<Record<S>>)
    requires forall q :: 0 <= q < |sea| ==> exists r :: r in LandRows(DropListed(rows)) && r.parentName == sea[q].stateName
    ensures forall rec :: rec in LandRecords<S>(LandRows(DropListed(rows))) + sea ==> rec.stateName !in DropLandNames
  {
    var land := LandRows(DropListed(rows));
    KeptLandRows(rows);
    forall rec | rec in LandRecords<S>(land) ensures rec.stateName !in DropLandNames {
      var i :| 0 <= i < |land| && LandRecords<S>(land)[i] == rec;
      assert land[i] in land;
    }
    forall rec | rec in sea ensures rec.stateName !in DropLandNames {
      var q :| 0 <= q < |sea| && sea[q] == rec;
      var r :| r in land && r.parentName == rec.stateName;
    }
  }

  /** The last of the rows that bear `name`. */
  lemma LastRowOfName(land: seq<Row>, name: string, i: nat) returns (last: nat)
    requires i < |land| && land[i].parentName == name
    ensures i <= last < |land| && land[last].parentName == name && LastOfName(land, last)
    decreases |land| - i
  {
    if j :| i < j < |land| && land[j].parentName == name {
      last := LastRowOfName(land, name, j);
    } else {
      last := i;
    }
  }

  /**
   * Each maritime record's `shape_id` is aligned with the land: split on dots it is
   * `AUS_marineregions` and the second dot-field of the last land row bearing the same name,
   * followed by `_1`.
   */
  lemma ShapeIdAligned<S>(rows: seq<Row>, ops: GeometryOps<S>, k: nat)
    requires Allocate(rows, ops).Ok?
    requires |LandRows(DropListed(rows))| <= k < |Allocate(rows, ops).value|
    ensures var land := LandRows(DropListed(rows));
      var rec := Allocate(rows, ops).value[k];
      exists i :: 0 <= i < |land| && land[i].parentName == rec.stateName && LastOfName(land, i) &&
        '.' in land[i].shapeId && Split(rec.shapeId, '.') == ["AUS_marineregions", SecondField(land[i].shapeId) + "_1"]
  {
    var land, nums, groups, sea := OutputParts(rows, ops);
    OutputRecordAt(land, groups, nums, sea, k);
    var rec := (LandRecords<S>(land) + sea)[k];
    NumMapKeys(land, rec.stateName);
    var i0 :| 0 <= i0 < |land| && land[i0].parentName == rec.stateName;
    var i := LastRowOfName(land, rec.stateName, i0);
    NumMapLastRowWins(land, i);
    SecondFieldHasNoDot(land[i].shapeId);
    MaritimeShapeIdFields(SecondField(land[i].shapeId));
  }

  /** Past `num_map`, the run fails exactly as the maritime stages do. */
  lemma AllocateAfterNumMap<S>(rows: seq<Row>, ops: GeometryOps<S>)
    requires EezRows(DropListed(rows)).Ok? && NumMap(LandRows(DropListed(rows))).Ok?
    ensures var land := LandRows(DropListed(rows));
      var sea := Sea(land, Union(rows, ops), NumMap(land).value, ops);
      && (Allocate(rows, ops).Err? <==> sea.Err?)
      && (sea.Err? ==> Allocate(rows, ops).error == sea.error)
  {
  }

  /** The maritime stages stop with "No seed points generated" exactly when there is no seed. */
  lemma SeaNoSeeds<S>(land: seq<Row>, union: S, nums: map<string, string>, ops: GeometryOps<S>)
    ensures Sea(land, union, nums, ops) == Err(NoSeedPoints) <==> SeedsOf(land, NearEnvelope(ops, union)) == []
  {
    var near := NearEnvelope(ops, union);
    var tess := Tessellate(land, union, ops);
    assert |Unzip(SeedsOf(land, near)).points| == |SeedsOf(land, near)|;
    if SeedsOf(land, near) != [] {
      if tess.Err? {
        TessellateError(land, union, ops);
      } else if Groups(land, union, ops).Ok? {
        var groups := Groups(land, union, ops).value;
        if MaritimeRecords(groups, nums).Err? {
          var k := MaritimeRecordsUpToErr(groups, nums, |groups|);
        }
      }
    }
  }

  /**
   * "No seed points generated" is raised exactly when the EEZ and `num_map` stages pass and no
   * land row outside the drop list both meets the buffered envelope and has an exterior vertex.
   */
  lemma NoSeedsIff<S>(rows: seq<Row>, ops: GeometryOps<S>)
    requires EezRows(DropListed(rows)).Ok? && NumMap(LandRows(DropListed(rows))).Ok?
    ensures Allocate(rows, ops) == Err(NoSeedPoints) <==>
      forall r :: IsKeptLand(r, rows) ==> !Contributes(r, NearEnvelope(ops, Union(rows, ops)))
  {
    var land := LandRows(DropListed(rows));
    var union := Union(rows, ops);
    Seeds.NoSeedsIff(land, NearEnvelope(ops, union));
    KeptLandRows(rows);
    AllocateAfterNumMap(rows, ops);
    SeaNoSeeds(land, union, NumMap(land).value, ops);
  }
}
