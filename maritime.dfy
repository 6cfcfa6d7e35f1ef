/**
 * From finite cells to maritime records: each cell is clipped to the EEZ union and kept with its
 * seed's label when the clip is not empty; the kept fragments are merged per label
 * (`dissolve(by="parent_name")`); and each merged region becomes a record whose `state_id`
 * comes from the same short-code function as the land records and whose `shape_id` reuses the
 * numeric part of the land `shape_id` for the same name. The clipped shapes are of an abstract
 * type `S`; clipping, the emptiness test and the union are parameters.
 */
module Maritime {
  import opened Common
  import opened Text
  import opened Shapes
  import opened ShortCodes
  import opened SortedUnique
  import opened Voronoi

  /** One row of `polys`: a non-empty clipped cell and its seed's label. */
  datatype Fragment<S> = Fragment(shape: S, name: string)

  /** The indices of the cells whose clip is not empty, in increasing order. */
  function Kept<S>(cells: seq<Cell>, clip: Cell -> S, isEmpty: S -> bool): seq<nat>
  {
    if cells == [] then []
    else
      var n := |cells| - 1;
      Kept(cells[..n], clip, isEmpty) + (if isEmpty(clip(cells[n])) then [] else [n])
  }

  /**
   * `Kept` lists, in strictly increasing order, exactly the indices of the cells whose clip is
   * not empty.
   */
  lemma {:induction false} KeptSpec<S>(cells: seq<Cell>, clip: Cell -> S, isEmpty: S -> bool)
    ensures forall j :: 0 <= j < |Kept(cells, clip, isEmpty)| ==> Kept(cells, clip, isEmpty)[j] < |cells|
    ensures forall j, k :: 0 <= j < k < |Kept(cells, clip, isEmpty)| ==>
      Kept(cells, clip, isEmpty)[j] < Kept(cells, clip, isEmpty)[k]
    ensures forall i :: i in Kept(cells, clip, isEmpty) <==> 0 <= i < |cells| && !isEmpty(clip(cells[i]))
    decreases |cells|
  {
    if cells != [] {
      var n := |cells| - 1;
      KeptSpec(cells[..n], clip, isEmpty);
      assert forall i :: 0 <= i < n ==> cells[..n][i] == cells[i];
    }
  }

  /** `polys` after the first `n` cells, or the error of the first kept cell without a label. */
  function FragmentsUpTo<S>(cells: seq<Cell>, labels: seq<string>, clip: Cell -> S, isEmpty: S -> bool, n: nat)
    : Result<seq<Fragment<S>>, Failure>
    requires n <= |cells|
  {
    if n == 0 then Ok([])
    else
      match FragmentsUpTo(cells, labels, clip, isEmpty, n - 1)
      case Err(e) => Err(e)
      case Ok(fs) =>
        var shape := clip(cells[n - 1]);
        if isEmpty(shape) then Ok(fs)
        else if n - 1 >= |labels| then Err(LabelIndexOutOfRange(n - 1))
        else Ok(fs + [Fragment(shape, labels[n - 1])])
  }

  function Fragments<S>(cells: seq<Cell>, labels: seq<string>, clip: Cell -> S, isEmpty: S -> bool)
    : Result<seq<Fragment<S>>, Failure>
  {
    FragmentsUpTo(cells, labels, clip, isEmpty, |cells|)
  }

  /** The loop over `enumerate(new_regions)` that fills `polys`. */
  method ClipCells<S>(cells: seq<Cell>, labels: seq<string>, clip: Cell -> S, isEmpty: S -> bool)
    returns (r: Result<seq<Fragment<S>>, Failure>)
    ensures r == Fragments(cells, labels, clip, isEmpty)
  {
    var polys: seq<Fragment<S>> := [];
    for i := 0 to |cells|
      invariant FragmentsUpTo(cells, labels, clip, isEmpty, i) == Ok(polys)
    {
      var clipped := clip(cells[i]);
      if !isEmpty(clipped) {
        if i >= |labels| {
          FragmentsFailAfter(cells, labels, clip, isEmpty, i + 1, |cells|);
          return Err(LabelIndexOutOfRange(i));
        }
        polys := polys + [Fragment(clipped, labels[i])];
      }
    }
    r := Ok(polys);
  }

  lemma {:induction false} FragmentsFailAfter<S>(cells: seq<Cell>, labels: seq<string>, clip: Cell -> S, isEmpty: S -> bool, n: nat, total: nat)
    requires n <= total <= |cells|
    requires FragmentsUpTo(cells, labels, clip, isEmpty, n).Err?
    ensures FragmentsUpTo(cells, labels, clip, isEmpty, total) == FragmentsUpTo(cells, labels, clip, isEmpty, n)
    decreases total - n
  {
    if n < total {
      FragmentsFailAfter(cells, labels, clip, isEmpty, n, total - 1);
    }
  }

  /** Every kept index has a label. */
  predicate AllLabelled(kept: seq<nat>, labels: seq<string>)
  {
    forall j :: 0 <= j < |kept| ==> kept[j] < |labels|
  }

  /**
   * `polys` is, in cell order, one fragment per cell whose clip is not empty, carrying the clip
   * and the label of the cell's seed; it fails exactly when such a cell has no label.
   */
  lemma {:induction false} FragmentsUpToSpec<S>(cells: seq<Cell>, labels: seq<string>, clip: Cell -> S, isEmpty: S -> bool, n: nat)
    requires n <= |cells|
    ensures FragmentsUpTo(cells, labels, clip, isEmpty, n).Ok? <==> AllLabelled(Kept(cells[..n], clip, isEmpty), labels)
    ensures var kept := Kept(cells[..n], clip, isEmpty);
      (FragmentsUpTo(cells, labels, clip, isEmpty, n).Ok? ==>
            var fs := FragmentsUpTo(cells, labels, clip, isEmpty, n).value;
            && |fs| == |kept|
            && forall j :: 0 <= j < |kept| ==>
                 kept[j] < |cells| && kept[j] < |labels| && fs[j] == Fragment(clip(cells[kept[j]]), labels[kept[j]]))
    decreases n
  {
    KeptSpec(cells[..n], clip, isEmpty);
    if n > 0 {
      FragmentsUpToSpec(cells, labels, clip, isEmpty, n - 1);
      assert cells[..n][..n - 1] == cells[..n - 1];
      assert cells[..n][n - 1] == cells[n - 1];
      assert forall i :: 0 <= i < n - 1 ==> cells[..n - 1][i] == cells[i];
      var kp := Kept(cells[..n - 1], clip, isEmpty);
      var kept := Kept(cells[..n], clip, isEmpty);
      assert kept == kp + (if isEmpty(clip(cells[n - 1])) then [] else [n - 1]);
      if FragmentsUpTo(cells, labels, clip, isEmpty, n - 1).Err? {
        var j :| 0 <= j < |kp| && kp[j] >= |labels|;
        assert kept[j] == kp[j];
      } else if !isEmpty(clip(cells[n - 1])) && n - 1 >= |labels| {
        assert kept[|kp|] == n - 1;
      }
    }
  }

  /**
   * The whole of `polys`: a fragment per cell with a non-empty clip, in cell order. With at
   * least one label per cell no lookup can fail; `Pipeline.OneCellPerSeed` shows the
   * tessellation gives exactly that.
   */
  lemma FragmentsSpec<S>(cells: seq<Cell>, labels: seq<string>, clip: Cell -> S, isEmpty: S -> bool)
    ensures var kept := Kept(cells, clip, isEmpty);
      && (Fragments(cells, labels, clip, isEmpty).Ok? <==> AllLabelled(kept, labels))
      && (|labels| >= |cells| ==> Fragments(cells, labels, clip, isEmpty).Ok?)
      && (Fragments(cells, labels, clip, isEmpty).Ok? ==>
            var fs := Fragments(cells, labels, clip, isEmpty).value;
            && |fs| == |kept|
            && forall j :: 0 <= j < |kept| ==>
                 kept[j] < |cells| && kept[j] < |labels| && fs[j] == Fragment(clip(cells[kept[j]]), labels[kept[j]]))
  {
    assert cells[..|cells|] == cells;
    FragmentsUpToSpec(cells, labels, clip, isEmpty, |cells|);
    KeptSpec(cells, clip, isEmpty);
  }

  /** Every fragment's label is one of the seed labels. */
  lemma FragmentLabelsAreSeedLabels<S>(cells: seq<Cell>, labels: seq<string>, clip: Cell -> S, isEmpty: S -> bool, f: Fragment<S>)
    requires Fragments(cells, labels, clip, isEmpty).Ok?
    requires f in Fragments(cells, labels, clip, isEmpty).value
    ensures f.name in labels
  {
    FragmentsSpec(cells, labels, clip, isEmpty);
    var fs := Fragments(cells, labels, clip, isEmpty).value;
    var j :| 0 <= j < |fs| && fs[j] == f;
    var kept := Kept(cells, clip, isEmpty);
    assert fs[j].name == labels[kept[j]];
  }

  /** `vor_by_state` after `dissolve(by="parent_name", as_index=False)`: a label and its union. */
  datatype Group<S> = Group(name: string, shape: S)

  function Names<S>(fs: seq<Fragment<S>>): (names: seq<string>)
  {
    seq(|fs|, j requires 0 <= j < |fs| => fs[j].name)
  }

  /** The shapes of the fragments labelled `name`, in fragment order. */
  function ShapesNamed<S>(fs: seq<Fragment<S>>, name: string): seq<S>
  {
    if fs == [] then []
    else
      var n := |fs| - 1;
      ShapesNamed(fs[..n], name) + (if fs[n].name == name then [fs[n].shape] else [])
  }

  lemma StrLessIsStrictTotalOrder()
    ensures IsStrictTotalOrder(StrLess)
  {
    forall a ensures !StrLess(a, a) {
      StrLessIrreflexive(a);
    }
    forall a, b, c | StrLess(a, b) && StrLess(b, c) ensures StrLess(a, c) {
      StrLessTransitive(a, b, c);
    }
    forall a, b | a != b ensures StrLess(a, b) || StrLess(b, a) {
      StrLessTotal(a, b);
    }
  }

  /**
   * `dissolve`: one group per distinct label, in sorted label order (pandas groups with
   * `sort=True`), its shape the union (`merge`) of the shapes with that label.
   */
  function Dissolve<S>(fs: seq<Fragment<S>>, merge: seq<S> -> S): seq<Group<S>>
  {
    var names := Keys(Unique(Names(fs), StrLess));
    seq(|names|, k requires 0 <= k < |names| => Group(names[k], merge(ShapesNamed(fs, names[k]))))
  }

  function GroupNames<S>(groups: seq<Group<S>>): seq<string>
  {
    seq(|groups|, k requires 0 <= k < |groups| => groups[k].name)
  }

  /** The shapes labelled `name` are exactly the shapes of the fragments with that label. */
  lemma {:induction false} ShapesNamedSpec<S>(fs: seq<Fragment<S>>, name: string)
    ensures forall s :: s in ShapesNamed(fs, name) <==> Fragment(s, name) in fs
    decreases |fs|
  {
    if fs != [] {
      var n := |fs| - 1;
      ShapesNamedSpec(fs[..n], name);
      assert fs == fs[..n] + [fs[n]];
    }
  }

  /**
   * After `dissolve`, the labels strictly increase (so each label has exactly one record), they
   * are exactly the fragment labels, and each record's shape is the union of the non-empty list
   * of shapes bearing its label.
   */
  lemma DissolveSpec<S>(fs: seq<Fragment<S>>, merge: seq<S> -> S)
    ensures var groups := Dissolve(fs, merge);
      && StrictlySorted(GroupNames(groups), StrLess)
      && (forall name :: name in GroupNames(groups) <==> exists f :: f in fs && f.name == name)
      && forall k :: 0 <= k < |groups| ==>
           && ShapesNamed(fs, groups[k].name) != []
           && groups[k].shape == merge(ShapesNamed(fs, groups[k].name))
           && forall s :: s in ShapesNamed(fs, groups[k].name) <==> Fragment(s, groups[k].name) in fs
  {
    DissolveNames(fs, merge);
    var groups := Dissolve(fs, merge);
    forall k | 0 <= k < |groups|
      ensures ShapesNamed(fs, groups[k].name) != []
      ensures forall s :: s in ShapesNamed(fs, groups[k].name) <==> Fragment(s, groups[k].name) in fs
    {
      DissolveShapes(fs, merge, k);
    }
  }

  /** The group labels strictly increase and are exactly the fragment labels. */
  lemma DissolveNames<S>(fs: seq<Fragment<S>>, merge: seq<S> -> S)
    ensures StrictlySorted(GroupNames(Dissolve(fs, merge)), StrLess)
    ensures forall name :: name in GroupNames(Dissolve(fs, merge)) <==> exists f :: f in fs && f.name == name
  {
    StrLessIsStrictTotalOrder();
    UniqueKeysSorted(Names(fs), StrLess);
    var names := Keys(Unique(Names(fs), StrLess));
    assert GroupNames(Dissolve(fs, merge)) == names;
    forall name ensures name in names <==> exists f :: f in fs && f.name == name {
      if name in Names(fs) {
        var j :| 0 <= j < |fs| && Names(fs)[j] == name;
        assert fs[j] in fs;
      }
      if f :| f in fs && f.name == name {
        var j :| 0 <= j < |fs| && fs[j] == f;
        assert Names(fs)[j] == name;
      }
    }
  }

  /** Group `k` merges the non-empty list of exactly the shapes that bear its label. */
  lemma DissolveShapes<S>(fs: seq<Fragment<S>>, merge: seq<S> -> S, k: nat)
    requires k < |Dissolve(fs, merge)|
    ensures var g := Dissolve(fs, merge)[k];
      && ShapesNamed(fs, g.name) != []
      && g.shape == merge(ShapesNamed(fs, g.name))
      && forall s :: s in ShapesNamed(fs, g.name) <==> Fragment(s, g.name) in fs
  {
    var names := Keys(Unique(Names(fs), StrLess));
    var name := names[k];
    ShapesNamedSpec(fs, name);
    StrLessIsStrictTotalOrder();
    UniqueKeysSorted(Names(fs), StrLess);
    assert name in names;
    var j :| 0 <= j < |fs| && Names(fs)[j] == name;
    assert Fragment(fs[j].shape, name) == fs[j];
  }

  /** `shape_id.split(".")[1]`, for a `shape_id` that has a dot. */
  function SecondField(shapeId: string): string
    requires '.' in shapeId
  {
    SplitHasSecondField(shapeId, '.');
    Split(shapeId, '.')[1]
  }

  /**
   * `num_map`: `parent_name` to the second dot-field of `shape_id`, row by row so that a later
   * row with the same name overwrites an earlier one; the first land `shape_id` without a dot is
   * the script's `IndexError`.
   */
  function NumMap(land: seq<Row>): Result<map<string, string>, Failure>
  {
    if land == [] then Ok(map[])
    else
      var row := land[|land| - 1];
      match NumMap(land[..|land| - 1])
      case Err(e) => Err(e)
      case Ok(m) =>
        if '.' in row.shapeId then Ok(m[row.parentName := SecondField(row.shapeId)])
        else Err(ShapeIdWithoutDot(row.shapeId))
  }

  /** Row `i` is the last row that bears its name. */
  predicate LastOfName(land: seq<Row>, i: nat)
    requires i < |land|
  {
    forall j :: i < j < |land| ==> land[j].parentName != land[i].parentName
  }

  /** `num_map` is built exactly when every land `shape_id` has a dot. */
  lemma {:induction false} NumMapOk(land: seq<Row>)
    ensures NumMap(land).Ok? <==> forall i :: 0 <= i < |land| ==> '.' in land[i].shapeId
    decreases |land|
  {
    if land != [] {
      var n := |land| - 1;
      NumMapOk(land[..n]);
      assert forall i :: 0 <= i < n ==> land[..n][i] == land[i];
    }
  }

  /** When it is not built, the error names a land `shape_id` without a dot. */
  lemma {:induction false} NumMapErr(land: seq<Row>) returns (i: nat)
    requires NumMap(land).Err?
    ensures i < |land| && '.' !in land[i].shapeId
    ensures NumMap(land).error == ShapeIdWithoutDot(land[i].shapeId)
    decreases |land|
  {
    var n := |land| - 1;
    if NumMap(land[..n]).Err? {
      i := NumMapErr(land[..n]);
      assert land[..n][i] == land[i];
    } else {
      i := n;
    }
  }

  /** The keys of `num_map` are the land names. */
  lemma {:induction false} NumMapKeys(land: seq<Row>, name: string)
    requires NumMap(land).Ok?
    ensures name in NumMap(land).value <==> exists i :: 0 <= i < |land| && land[i].parentName == name
    decreases |land|
  {
    if land != [] {
      var n := |land| - 1;
      var pre := land[..n];
      NumMapKeys(pre, name);
      if i :| 0 <= i < n && pre[i].parentName == name {
        assert land[i].parentName == name;
      }
      if i :| 0 <= i < |land| && land[i].parentName == name {
        if i < n {
          assert pre[i].parentName == name;
        }
      }
    }
  }

  /** Each land name maps to the second dot-field of the last row bearing it. */
  lemma {:induction false} NumMapLastRowWins(land: seq<Row>, i: nat)
    requires NumMap(land).Ok?
    requires i < |land| && LastOfName(land, i)
    ensures '.' in land[i].shapeId
    ensures land[i].parentName in NumMap(land).value
    ensures NumMap(land).value[land[i].parentName] == SecondField(land[i].shapeId)
    decreases |land|
  {
    var n := |land| - 1;
    if i < n {
      var pre := land[..n];
      assert pre[i] == land[i];
      assert LastOfName(pre, i) by {
        forall j | i < j < n ensures pre[j].parentName != pre[i].parentName {
          assert pre[j] == land[j];
        }
      }
      NumMapLastRowWins(pre, i);
      assert land[n].parentName != land[i].parentName;
    }
  }

  /** The land `shape_id`'s numeric part never holds a dot. */
  lemma SecondFieldHasNoDot(shapeId: string)
    requires '.' in shapeId
    ensures '.' !in SecondField(shapeId)
  {
    SplitHasSecondField(shapeId, '.');
  }

  /** `f"AUS_marineregions.{num}_1"`. */
  function MaritimeShapeId(num: string): string
  {
    "AUS_marineregions." + num + "_1"
  }

  /**
   * A maritime `shape_id` splits on dots into `AUS_marineregions` and `num + "_1"`, so its second
   * field gives the land row's numeric part back, followed by `_1`.
   */
  lemma MaritimeShapeIdFields(num: string)
    requires '.' !in num
    ensures Split(MaritimeShapeId(num), '.') == ["AUS_marineregions", num + "_1"]
  {
    var fields := ["AUS_marineregions", num + "_1"];
    assert Join(fields[1..], '.') == num + "_1";
    assert Join(fields, '.') == MaritimeShapeId(num);
    assert '.' !in num + "_1" by {
      forall k | 0 <= k < |num + "_1"| ensures (num + "_1")[k] != '.' {
        if k < |num| {
          assert (num + "_1")[k] == num[k];
        }
      }
    }
    forall k | 0 <= k < |fields| ensures '.' !in fields[k] {
    }
    SplitJoin(fields, '.');
  }

  /** The geometry of an output record: a land polygon, or a merged maritime shape. */
  datatype Footprint<S> = LandArea(geometry: Geometry) | SeaArea(shape: S)

  /** One row of `final_gdf`. */
  datatype Record<S> = Record(
    shapeId: string,
    countryId: string,
    stateId: string,
    stateName: string,
    shapeClass: string,
    footprint: Footprint<S>)

  /** A land row with its `state_name` and `state_id` columns added. */
  function LandRecord<S>(row: Row): Record<S>
  {
    Record(row.shapeId, row.countryId, ShortCode(row.parentName), row.parentName, row.shapeClass, LandArea(row.geometry))
  }

  function LandRecords<S>(land: seq<Row>): seq<Record<S>>
  {
    seq(|land|, i requires 0 <= i < |land| => LandRecord(land[i]))
  }

  /** The columns set on `vor_by_state` for one group, given the group's numeric part. */
  function MaritimeRecord<S>(g: Group<S>, num: string): Record<S>
  {
    Record(MaritimeShapeId(num), "AUS", ShortCode(g.name), g.name, "maritime", SeaArea(g.shape))
  }

  /** The maritime records for the first `n` groups, or the first name missing from `num_map`. */
  function MaritimeRecordsUpTo<S>(groups: seq<Group<S>>, nums: map<string, string>, n: nat)
    : Result<seq<Record<S>>, Failure>
    requires n <= |groups|
  {
    if n == 0 then Ok([])
    else
      match MaritimeRecordsUpTo(groups, nums, n - 1)
      case Err(e) => Err(e)
      case Ok(rs) =>
        var g := groups[n - 1];
        if g.name in nums then Ok(rs + [MaritimeRecord(g, nums[g.name])])
        else Err(MissingNumericKey(g.name))
  }

  function MaritimeRecords<S>(groups: seq<Group<S>>, nums: map<string, string>): Result<seq<Record<S>>, Failure>
  {
    MaritimeRecordsUpTo(groups, nums, |groups|)
  }

  /** The lookups `num_map[n]` for the first `n` groups all succeed exactly when each label is a key. */
  lemma {:induction false} MaritimeRecordsUpToOk<S>(groups: seq<Group<S>>, nums: map<string, string>, n: nat)
    requires n <= |groups|
    ensures MaritimeRecordsUpTo(groups, nums, n).Ok? <==> forall k :: 0 <= k < n ==> groups[k].name in nums
    decreases n
  {
    if n > 0 {
      MaritimeRecordsUpToOk(groups, nums, n - 1);
    }
  }

  /** When the lookups succeed there is one record per group, in group order. */
  lemma {:induction false} MaritimeRecordsUpToValue<S>(groups: seq<Group<S>>, nums: map<string, string>, n: nat)
    requires n <= |groups|
    requires MaritimeRecordsUpTo(groups, nums, n).Ok?
    ensures forall k :: 0 <= k < n ==> groups[k].name in nums
    ensures var rs := MaritimeRecordsUpTo(groups, nums, n).value;
      |rs| == n && forall k :: 0 <= k < n ==> rs[k] == MaritimeRecord(groups[k], nums[groups[k].name])
    decreases n
  {
    if n > 0 {
      MaritimeRecordsUpToValue(groups, nums, n - 1);
      var prev, g := MaritimeRecordsUpTo(groups, nums, n - 1).value, groups[n - 1];
      var rs := prev + [MaritimeRecord(g, nums[g.name])];
      assert MaritimeRecordsUpTo(groups, nums, n) == Ok(rs);
      forall k | 0 <= k < n - 1 ensures rs[k] == MaritimeRecord(groups[k], nums[groups[k].name]) {
        assert rs[k] == prev[k];
      }
      assert rs[n - 1] == MaritimeRecord(g, nums[g.name]);
    }
  }

  /** A failed lookup reports the first group, in group order, whose label is not a key. */
  lemma {:induction false} MaritimeRecordsUpToErr<S>(groups: seq<Group<S>>, nums: map<string, string>, n: nat)
    returns (k: nat)
    requires n <= |groups|
    requires MaritimeRecordsUpTo(groups, nums, n).Err?
    ensures k < n && groups[k].name !in nums
    ensures forall j :: 0 <= j < k ==> groups[j].name in nums
    ensures MaritimeRecordsUpTo(groups, nums, n).error == MissingNumericKey(groups[k].name)
    decreases n
  {
    assert n > 0;
    if MaritimeRecordsUpTo(groups, nums, n - 1).Err? {
      k := MaritimeRecordsUpToErr(groups, nums, n - 1);
    } else {
      MaritimeRecordsUpToOk(groups, nums, n - 1);
      k := n - 1;
    }
  }

  /**
   * One maritime record per group, in group order, of class `maritime` in country `AUS`, named
   * after the group, with the group's merged shape, exactly when every label is in `num_map`.
   */
  lemma MaritimeRecordsSpec<S>(groups: seq<Group<S>>, nums: map<string, string>)
    ensures MaritimeRecords(groups, nums).Ok? <==> forall k :: 0 <= k < |groups| ==> groups[k].name in nums
    ensures MaritimeRecords(groups, nums).Ok? ==>
      var rs := MaritimeRecords(groups, nums).value;
      && |rs| == |groups|
      && forall k :: 0 <= k < |groups| ==>
           && rs[k].stateName == groups[k].name
           && rs[k].stateId == ShortCode(groups[k].name)
           && rs[k].shapeId == MaritimeShapeId(nums[groups[k].name])
           && rs[k].countryId == "AUS" && rs[k].shapeClass == "maritime"
           && rs[k].footprint == SeaArea(groups[k].shape)
  {
    MaritimeRecordsUpToOk(groups, nums, |groups|);
    if MaritimeRecords(groups, nums).Ok? {
      MaritimeRecordsUpToValue(groups, nums, |groups|);
    }
  }

  /** Records that carry the groups' labels, in group order, have strictly increasing names. */
  lemma MaritimeNamesSorted<S>(groups: seq<Group<S>>, sea: seq<Record<S>>, a: nat, b: nat)
    requires StrictlySorted(GroupNames(groups), StrLess)
    requires |sea| == |groups| && forall q :: 0 <= q < |groups| ==> sea[q].stateName == groups[q].name
    requires a < b < |groups|
    ensures StrLess(sea[a].stateName, sea[b].stateName)
  {
    assert GroupNames(groups)[a] == groups[a].name && GroupNames(groups)[b] == groups[b].name;
  }

  /** The record made for group `q`. */
  lemma MaritimeRecordAt<S>(groups: seq<Group<S>>, nums: map<string, string>, sea: seq<Record<S>>, q: nat)
    requires MaritimeRecords(groups, nums) == Ok(sea)
    requires q < |groups|
    ensures q < |sea| && groups[q].name in nums
    ensures sea[q] == MaritimeRecord(groups[q], nums[groups[q].name])
  {
    MaritimeRecordsUpToValue(groups, nums, |groups|);
  }

  /** Every maritime record is of class `maritime` in country `AUS`. */
  lemma SeaClassAndCountry<S>(groups: seq<Group<S>>, nums: map<string, string>, sea: seq<Record<S>>)
    requires MaritimeRecords(groups, nums) == Ok(sea)
    ensures forall rec :: rec in sea ==> rec.shapeClass == "maritime" && rec.countryId == "AUS"
  {
    forall rec | rec in sea ensures rec.shapeClass == "maritime" && rec.countryId == "AUS" {
      var q :| 0 <= q < |sea| && sea[q] == rec;
      MaritimeRecordsUpToValue(groups, nums, |groups|);
      MaritimeRecordAt(groups, nums, sea, q);
    }
  }
}
