# Maritime EEZ allocation: a verified model of its bookkeeping

`scripts/filter_shapes.py` gives each Australian state and territory a share of the country's
Exclusive Economic Zone. The steps are:

- Read the administrative boundary rows.
- Drop three small territories.
- Derive a short `state_id` for every land row.
- Find the EEZ rows and take their union.
- Seed a Voronoi tessellation with the coastline vertices of the land near the EEZ.
- Close the unbounded cells.
- Clip every cell to the EEZ.
- Merge the clipped cells per state.
- Write the land records followed by one `maritime` record per state.

This project models everything in that pipeline except the floating-point geometry, and proves
what each step promises.

The geometry library calls become fields of `Pipeline.GeometryOps`: the union, "intersects the
buffered envelope", the Voronoi construction, clipping, the emptiness test and the per-group
union. They work over an abstract shape type. Points are integer pairs, ordered as `np.unique`
orders rows.

The loops of the script become methods, each proved equal to a specification function:

- `Seeds.CollectSeeds`, `Seeds.AppendParts` and `Seeds.AppendRing` — the three nested seed loops.
- `Voronoi.BuildRidgeMap` — the `all_ridges` dictionary.
- `Voronoi.BuildCells` and `Voronoi.CollectHullPoints` — `new_regions` and `pts`.
- `Maritime.ClipCells` — `polys`.
- `Pipeline.Run` — the whole script.

The computations without loops are functions with lemmas about them: the short code, the row
filters, `np.unique`, the stride cap, `dissolve`, `num_map` and the `shape_id` format.

Every exception the script raises outside the geometry library and outside the coordinate
lookups `vor.vertices[v]` and `vor.points[p2]` is a `Common.Failure` value. `Pipeline.Allocate`
returns the first one in the script's own order. The Voronoi construction is a parameter, so the
model also reaches the region, ridge and label lookup errors for diagrams scipy never returns.
`Pipeline.VoronoiWellShaped` states the output shape scipy documents, and `Pipeline.AllocateErrors`
shows that under it none of the lookups fails.

The EEZ rows are selected by the lower-case substring `eez` in `parent_subtype`. One might expect
a case-insensitive match, but the code uses `str.contains`, which is case-sensitive by default:
`Filters.UpperCaseEezNotMatched` shows that a subtype written `EEZ` is not selected.

A short code derived from initials can equal a table code. `ShortCodes.DerivedCodeCanCollide`
shows that the name `N S W` gets the code of New South Wales. Nothing in the script detects this.

## Model

| member | source | states |
|---|---|---|
| `Text.RunLength` | scripts/filter_shapes.py:46 | the length of the first word of a string: positive, no whitespace inside, ending at whitespace or at the end |
| `Text.Words` | scripts/filter_shapes.py:46 | `str.split()` yields only non-empty words that contain no whitespace |
| `Text.WordsKeepNonSpace` | scripts/filter_shapes.py:46 | the words, concatenated, are exactly the non-whitespace characters of the string, in order |
| `Text.InitialsAreStartChars` | scripts/filter_shapes.py:46 | the first characters of the words are exactly the characters that begin a whitespace-free run |
| `Text.Split` | scripts/filter_shapes.py:57 | `str.split(sep)` always has at least one field, and no field contains the separator |
| `Text.JoinSplit` | scripts/filter_shapes.py:57 | joining the fields of a split with the separator gives the string back |
| `Text.SplitJoin` | scripts/filter_shapes.py:136 | splitting a join of separator-free fields gives the fields back |
| `Text.SplitHasSecondField` | scripts/filter_shapes.py:57 | `split(".")[1]` exists exactly when the string contains a dot |
| `Text.ContainsSound` | scripts/filter_shapes.py:49 | a positive substring test has a leftmost occurrence |
| `Text.ContainsComplete` | scripts/filter_shapes.py:49 | any occurrence makes the substring test succeed |
| `Text.TooShortNotContained` | scripts/filter_shapes.py:49 | a string shorter than the pattern never contains it |
| `Text.StrLessIrreflexive` | scripts/filter_shapes.py:129 | Python string order is irreflexive |
| `Text.StrLessTransitive` | scripts/filter_shapes.py:129 | Python string order is transitive |
| `Text.StrLessTotal` | scripts/filter_shapes.py:129 | any two distinct strings are ordered one way or the other |
| `ShortCodes.ShortCodeSpec` | scripts/filter_shapes.py:24-46 | a name in `ABBR` gets its table code; any other name gets the upper-cased first characters of its words, cut to three |
| `ShortCodes.ShortCodeAtMostThree` | scripts/filter_shapes.py:46 | every `state_id`, from the table or derived, has at most three characters, under ASCII upper-casing |
| `ShortCodes.DerivedCodeCanCollide` | scripts/filter_shapes.py:134 | example, not an all-inputs property: a name outside the table can receive a table code, as `N S W` gets `NSW` |
| `Filters.Select` | scripts/filter_shapes.py:38 | a boolean-mask selection keeps exactly the rows that pass, and no more rows than it was given |
| `Filters.SelectAppend` | scripts/filter_shapes.py:38 | masking a concatenation masks each part, and one row is kept exactly when it passes; so the kept rows keep their input order |
| `Filters.DropListed` | scripts/filter_shapes.py:38 | the rows after the drop list are exactly the input rows whose `parent_name` is not drop-listed |
| `Filters.LandRows` | scripts/filter_shapes.py:42 | the land rows are exactly the rows of class `land` |
| `Filters.EezRows` | scripts/filter_shapes.py:49-51 | fails with "EEZ rows not found" exactly when no row matches; otherwise returns a non-empty list of exactly the matching rows |
| `Filters.IsEezIff` | scripts/filter_shapes.py:49 | a row is an EEZ row exactly when `eez` occurs somewhere in its `parent_subtype` |
| `Filters.UpperCaseEezNotMatched` | scripts/filter_shapes.py:49 | example, not an all-inputs property: the match is case-sensitive, so a subtype `EEZ` is not an EEZ row |
| `SortedUnique.UniqueSpec` | scripts/filter_shapes.py:77 | `np.unique` entries strictly increase, their values are exactly the input values, and each index is the value's first occurrence |
| `SortedUnique.UniqueSorted` | scripts/filter_shapes.py:77 | the entries of `np.unique` strictly increase by value |
| `SortedUnique.UniqueKeySet` | scripts/filter_shapes.py:77 | the values of `np.unique` are exactly the values of its input |
| `SortedUnique.UniqueFirst` | scripts/filter_shapes.py:77 | each index `np.unique` returns is the first occurrence of its value |
| `SortedUnique.InsertPresentAt` | scripts/filter_shapes.py:77 | a value seen again keeps the index of its earlier occurrence |
| `SortedUnique.UniqueKeysSorted` | scripts/filter_shapes.py:77 | the unique values strictly increase and are exactly the values of the input |
| `SortedUnique.SortedIsDeterminedByElements` | scripts/filter_shapes.py:77 | two strictly sorted sequences with the same elements are equal, so the sorted distinct values are determined by the input |
| `Seeds.CollectSeeds` | scripts/filter_shapes.py:60-70 | the loop builds equal-length point and label lists that pair up, index by index, with the row-by-row seed specification |
| `Seeds.AppendParts` | scripts/filter_shapes.py:66-70 | the loop over the parts of a polygon appends, in order, the seeds of each part's exterior ring |
| `Seeds.AppendRing` | scripts/filter_shapes.py:68-70 | the loop over an exterior ring appends its vertices to the points and the row's name once per vertex to the labels |
| `Seeds.PartSeedOrigin` | scripts/filter_shapes.py:66-70 | every seed of a polygon is an exterior vertex of one of its parts, labelled with the row's name |
| `Seeds.SeedOrigin` | scripts/filter_shapes.py:62-70 | every seed is an exterior vertex of a part of a land row that meets the envelope, and carries that row's `parent_name` |
| `Seeds.PartSeedComplete` | scripts/filter_shapes.py:66-70 | every exterior vertex of every part of a polygon is one of its seeds |
| `Seeds.SeedComplete` | scripts/filter_shapes.py:62-70 | every exterior vertex of every part of every land row that meets the envelope is a seed |
| `Seeds.NoSeedsIff` | scripts/filter_shapes.py:62-74 | there are no seeds exactly when no land row both meets the envelope and has an exterior vertex |
| `Seeds.SeedLabelsFromNearRows` | scripts/filter_shapes.py:70 | every seed label is the `parent_name` of a land row that meets the envelope |
| `SeedPrep.FirstIndex` | scripts/filter_shapes.py:79 | the index found holds the value, and no earlier index does |
| `SeedPrep.DedupSpec` | scripts/filter_shapes.py:77-79 | after dedup the points strictly increase, so none repeats; they are exactly the input points; each keeps the label of its first occurrence |
| `SeedPrep.DedupLabelsKept` | scripts/filter_shapes.py:79 | every label that survives dedup was a seed label |
| `SeedPrep.CeilDivBounds` | scripts/filter_shapes.py:81 | `ceil(n / d)` times `d` is at least `n` and less than `n + d` |
| `SeedPrep.CeilDivUnique` | scripts/filter_shapes.py:81 | `ceil(n / d)` is the only `x` with `n <= d * x < n + d` |
| `SeedPrep.StrideLength` | scripts/filter_shapes.py:82-83 | `s[::step]` has `ceil(len(s) / step)` elements |
| `SeedPrep.StrideAt` | scripts/filter_shapes.py:82-83 | element `k` of `s[::step]` is `s[k * step]` |
| `SeedPrep.StrideSpec` | scripts/filter_shapes.py:82-83 | `s[::step]` keeps exactly the indices `0, step, 2·step, …` below `len(s)` |
| `SeedPrep.StrideFitsCap` | scripts/filter_shapes.py:80-83 | with more than `cap` points and `step = ceil(n / cap)`, between one and `cap` points remain |
| `SeedPrep.CapSpec` | scripts/filter_shapes.py:80-83 | at most 3000 points are left unchanged; above that, points and labels keep the same indices `0, step, 2·step, …`, stay paired, and number between one and 3000 |
| `SeedPrep.CapLabelsKept` | scripts/filter_shapes.py:83 | every label that survives the cap was a label before it |
| `Voronoi.BuildRidgeMap` | scripts/filter_shapes.py:93-96 | the loop builds `all_ridges` as the ridge-by-ridge specification says |
| `Voronoi.RidgeMapIsNeighbors` | scripts/filter_shapes.py:93-96 | the list under a seed is the entries of the ridges that touch it, in ridge order, and a seed is a key exactly when that list is non-empty |
| `Voronoi.NeighborOrigin` | scripts/filter_shapes.py:94-96 | every entry under a seed comes from a ridge that touches it, naming the other seed and the ridge's vertex pair |
| `Voronoi.NeighborComplete` | scripts/filter_shapes.py:94-96 | every ridge that touches a seed leaves its entry under that seed |
| `Voronoi.RidgeMapKeys` | scripts/filter_shapes.py:93-96 | a seed is a key of `all_ridges` exactly when some ridge touches it |
| `Voronoi.NeighborCount` | scripts/filter_shapes.py:93-96 | a seed's list is as long as the number of ridges that touch it |
| `Voronoi.RidgeMapHasBothSides` | scripts/filter_shapes.py:94-96 | every ridge has one entry under each of its two seeds, each naming the other seed and the same vertex pair |
| `Voronoi.CollectHullPoints` | scripts/filter_shapes.py:104-116 | the loop builds `pts` as the ridge-by-ridge specification says |
| `Voronoi.HullInputLength` | scripts/filter_shapes.py:104-116 | `pts` holds exactly two points per ridge of the seed |
| `Voronoi.HullInputAt` | scripts/filter_shapes.py:105-116 | ridge `k` puts its points at `2k` and `2k+1`: its two finite vertices, or its finite vertex and the far point built from that vertex |
| `Voronoi.OneInfiniteVertexUsesFinite` | scripts/filter_shapes.py:106-107 | a ridge with exactly one vertex at infinity contributes its finite vertex |
| `Voronoi.BuildCells` | scripts/filter_shapes.py:98-118 | the loop over `point_region` builds `new_regions`, or stops with the first `IndexError`/`KeyError`, as specified |
| `Voronoi.CellsUpToSpec` | scripts/filter_shapes.py:98-118 | with no error there is exactly one cell per `point_region` entry, in that order; otherwise the error is that of the first entry without a cell |
| `Voronoi.WellShapedCells` | scripts/filter_shapes.py:86-118 | for a diagram of the shape scipy documents for `n` points, the loop never fails and gives exactly `n` cells, in point order; an unbounded cell has two hull points per ridge around its point, and at least two |
| `Voronoi.WellShapedCellOf` | scripts/filter_shapes.py:98-104 | in such a diagram the region lookup and the `all_ridges[p1]` lookup of each point succeed |
| `Voronoi.CellOfSpec` | scripts/filter_shapes.py:99-103 | a cell is copied from its region exactly when no vertex index is negative; otherwise it has a negative index and is the hull of two points per ridge |
| `Maritime.KeptSpec` | scripts/filter_shapes.py:122-125 | the kept cell indices strictly increase and are exactly the cells whose clip is not empty |
| `Maritime.ClipCells` | scripts/filter_shapes.py:121-126 | the loop builds `polys`, or stops at the first kept cell without a label, as specified |
| `Maritime.FragmentsUpToSpec` | scripts/filter_shapes.py:122-126 | after any prefix of cells, `polys` holds one fragment per kept cell, in order, with its clip and its seed's label; it fails exactly when a kept cell has no label |
| `Maritime.FragmentsSpec` | scripts/filter_shapes.py:121-126 | `polys` is one fragment per cell with a non-empty clip, in cell order, tagged `seed_labels[i]`; with a label per cell it never fails |
| `Maritime.FragmentLabelsAreSeedLabels` | scripts/filter_shapes.py:126 | every fragment's label is a seed label |
| `Maritime.StrLessIsStrictTotalOrder` | scripts/filter_shapes.py:129 | Python string order is a strict total order, so `dissolve` can sort its group keys |
| `Maritime.ShapesNamedSpec` | scripts/filter_shapes.py:129 | the shapes gathered for a label are exactly those of the fragments with that label |
| `Maritime.DissolveSpec` | scripts/filter_shapes.py:129 | `dissolve` yields one group per distinct label, in strictly increasing label order; its labels are exactly the fragment labels; each group merges a non-empty list made exactly of that label's shapes |
| `Maritime.DissolveNames` | scripts/filter_shapes.py:129 | the group labels strictly increase and are exactly the fragment labels |
| `Maritime.DissolveShapes` | scripts/filter_shapes.py:129 | each group merges a non-empty list made of exactly the shapes bearing its label |
| `Maritime.NumMapOk` | scripts/filter_shapes.py:57 | `num_map` is built exactly when every land `shape_id` contains a dot |
| `Maritime.NumMapErr` | scripts/filter_shapes.py:57 | when it is not built, the error names a land `shape_id` without a dot |
| `Maritime.NumMapKeys` | scripts/filter_shapes.py:57 | the keys of `num_map` are exactly the land names |
| `Maritime.NumMapLastRowWins` | scripts/filter_shapes.py:57 | each name maps to the second dot-field of the last land row bearing it |
| `Maritime.SecondFieldHasNoDot` | scripts/filter_shapes.py:57 | the numeric part taken from a land `shape_id` contains no dot |
| `Maritime.MaritimeShapeIdFields` | scripts/filter_shapes.py:136 | a maritime `shape_id` splits on dots into `AUS_marineregions` and the numeric part followed by `_1` |
| `Maritime.MaritimeRecordsUpToOk` | scripts/filter_shapes.py:136 | the `num_map[n]` lookups for the first groups all succeed exactly when each of their labels is a key |
| `Maritime.MaritimeRecordsUpToValue` | scripts/filter_shapes.py:130-137 | when the lookups succeed there is one record per group, in group order, made from that group and its `num_map` entry |
| `Maritime.MaritimeRecordsUpToErr` | scripts/filter_shapes.py:136 | a failed lookup reports the first group, in group order, whose label is not a key |
| `Maritime.MaritimeRecordsSpec` | scripts/filter_shapes.py:130-137 | one maritime record per group, in group order, with the columns the script sets, exactly when every group's label is in `num_map` |
| `Maritime.MaritimeRecordAt` | scripts/filter_shapes.py:130-137 | the record for group `q` carries that group's label, its short code, the `shape_id` from its `num_map` entry, `AUS`, `maritime` and the merged shape |
| `Maritime.SeaClassAndCountry` | scripts/filter_shapes.py:130-137 | every maritime record is of class `maritime` in country `AUS` |
| `Maritime.MaritimeNamesSorted` | scripts/filter_shapes.py:129-132 | records that carry the group labels in group order have strictly increasing names |
| `Pipeline.Run` | scripts/filter_shapes.py:38-144 | the script, run stage by stage through the loops above, produces exactly the specified output table or the first error |
| `Pipeline.KeptLandRows` | scripts/filter_shapes.py:38-42 | the land rows are exactly the input rows of class `land` whose name is not drop-listed |
| `Pipeline.OutputParts` | scripts/filter_shapes.py:57-144 | a successful output is the land records followed by one record per group of `dissolve`; there is at least one group, the labels strictly increase and each record carries its group's label |
| `Pipeline.TessellateLabels` | scripts/filter_shapes.py:60-126 | every label in `polys` is the name of a land row that meets the buffered envelope |
| `Pipeline.GroupNamesFromNearLand` | scripts/filter_shapes.py:62-129 | every merged maritime region is named after a land row that meets the buffered envelope |
| `Pipeline.AllGroupsNumbered` | scripts/filter_shapes.py:136 | every group's label is a key of `num_map` |
| `Pipeline.OneCellPerSeed` | scripts/filter_shapes.py:79-118 | when Voronoi returns its documented shape, the tessellation has exactly one cell per prepared seed, and as many cells as `seed_labels` |
| `Pipeline.TessellateWellShaped` | scripts/filter_shapes.py:72-126 | when Voronoi returns its documented shape, the tessellation stops only with "No seed points generated" or a rejected Voronoi call; the region, ridge and `seed_labels[i]` lookups never fail |
| `Pipeline.SeaWellShaped` | scripts/filter_shapes.py:60-137 | past `num_map`, and when Voronoi returns its documented shape, the maritime stages fail only with no seeds, a rejected Voronoi call or an empty `polys` |
| `Pipeline.AllocateErrors` | scripts/filter_shapes.py:38-144 | when Voronoi returns its documented shape, the run can stop only with: no EEZ rows, a land `shape_id` without a dot, no seeds, a rejected Voronoi call or an empty `polys` |
| `Pipeline.TessellateError` | scripts/filter_shapes.py:72-126 | the tessellation stages never report a missing EEZ, a bad land `shape_id` or a missing key, and with seeds never report "no seeds" |
| `Pipeline.FragmentsErrorIsLabel` | scripts/filter_shapes.py:126 | `polys` can only fail on a missing seed label |
| `Pipeline.SeaError` | scripts/filter_shapes.py:60-137 | the maritime stages never report a missing EEZ, a bad land `shape_id` or a missing key |
| `Pipeline.NoEezIff` | scripts/filter_shapes.py:49-51 | the run stops with "EEZ rows not found" exactly when no row outside the drop list has `eez` in its subtype |
| `Pipeline.NeverMissingNumericKey` | scripts/filter_shapes.py:136 | the `num_map[n]` lookup never fails |
| `Pipeline.OutputShape` | scripts/filter_shapes.py:141-144 | a successful output is the records of the kept land rows, in their input order (`Filters.SelectAppend`), followed by at least one record, each `maritime` in `AUS` |
| `Pipeline.GroupsNonEmpty` | scripts/filter_shapes.py:121-129 | there is at least one merged region, and the region names strictly increase |
| `Pipeline.MaritimeNamesIncrease` | scripts/filter_shapes.py:129 | the maritime records' names strictly increase, so each state has exactly one maritime record |
| `Pipeline.OutputNamesIncrease` | scripts/filter_shapes.py:129-144 | past the land records, the output names follow the strictly increasing group labels |
| `Pipeline.OutputRecordAt` | scripts/filter_shapes.py:130-144 | the output record at index `k` past the land records carries group `k - len(land)`'s label, its short code and the `shape_id` built from its `num_map` entry |
| `Pipeline.StateIdsAgree` | scripts/filter_shapes.py:134 | every record's `state_id` is the short code of its `state_name`, so land and maritime records of one state agree |
| `Pipeline.RecordsStateIds` | scripts/filter_shapes.py:134 | land and maritime records both take `state_id` from the short code of their name |
| `Pipeline.NoDropListedOutput` | scripts/filter_shapes.py:38 | no output record bears a drop-listed name |
| `Pipeline.SeaNamedAfterLand` | scripts/filter_shapes.py:62-132 | every maritime record is named after a land row |
| `Pipeline.NoDropListedRecords` | scripts/filter_shapes.py:38-42 | land records, and records named after land rows, bear no drop-listed name |
| `Pipeline.LastRowOfName` | scripts/filter_shapes.py:57 | helper for `ShapeIdAligned`: any row with a name has a last row bearing that name, so "the last row wins" is well defined |
| `Pipeline.ShapeIdAligned` | scripts/filter_shapes.py:136 | a maritime `shape_id` splits into `AUS_marineregions` and the second dot-field of the last land row of that name followed by `_1` |
| `Pipeline.SeaNoSeeds` | scripts/filter_shapes.py:72-74 | the maritime stages stop with "No seed points generated" exactly when there is no seed |
| `Pipeline.NoSeedsIff` | scripts/filter_shapes.py:60-74 | past the EEZ and `num_map` stages, "No seed points generated" is raised exactly when no kept land row both meets the envelope and has an exterior vertex |

## Left out

- That `scipy.spatial.Voronoi` returns the shape it documents (`Voronoi.WellShaped`: one region per point, region indices in range, ridges between two distinct points, a ridge around every unbounded region) is a hypothesis of the lemmas that use it, not proved: it is the library's promise, not the script's.
- The floating-point geometry is a set of parameters. This covers the Voronoi construction (`scipy.spatial.Voronoi`), `unary_union`, `envelope.buffer`, `intersects`, `intersection`, `convex_hull` and the per-group union of `dissolve`. These are foreign calls on floats; the model states only how their results are used.
- The far-point arithmetic of lines 90-91 and 108-113 is left out: the mean centre, `ptp` radius, normalisation and sign of the dot product. A far point is recorded as the vertex and the two seeds it is built from.
- The coordinate lookups `vor.vertices[v]` (lines 101 and 113-116) and `vor.points[p2]` (lines 107 and 110) have no failure in the model. `Voronoi.CellOf` keeps the indices, so a vertex index past `vor.vertices` or a ridge point `p2` past the input points gives a cell instead of an `IndexError`. `Voronoi.WellShaped` rules out the second, and scipy's promise that vertex indices are in range would rule out the first; that promise is not stated.
- Vertex coordinates are left out. Cells keep vertex indices. A ridge with both vertex indices negative would read `vor.vertices[-1]` through numpy's negative indexing; the model records the negative index.
- Exceptions raised inside the geometry library are left out, apart from the Voronoi construction. One example is a `Polygon` built from too few points. The clip is total in the model.
- Line 81 computes `np.ceil(len / cap)` on floats. The model uses exact integer ceiling division, which agrees for point counts below 2^53.
- `ShortCodes.ShortCodeAtMostThree` holds only for the ASCII upper-casing of the model. Python's `upper()` can lengthen a string: the name `ßa ßb ßc` has the initials `ßßß` and gets the six-character code `SSSSSS`.
- `str.upper()` is modelled on ASCII letters only. Other characters are left unchanged; Python's full Unicode case mapping is not modelled.
- Coordinates with a third (z) component are not modelled. Points are pairs.
- `state_map` (line 56) and `g_noeez` (line 53) are computed but never used, so they are left out.
- These are I/O, configuration or presentation and are left out: reading the parquet input (line 36), renaming columns (line 37), the CRS reprojection (line 39), the Snakemake output paths (lines 19-21), writing the output (line 146) and the plot (lines 148-166).
- `scripts/build_nodes.py` is not part of this model. It does float centroids, rounding and YAML output.
