/** Shared result types and the error taxonomy of the maritime allocation script. */
module Common {

  datatype Option<+T> = None | Some(value: T)

  datatype Result<+T, +E> = Ok(value: T) | Err(error: E)

  /**
   * The exceptions the modelled script can stop with. The three diagram lookups cannot fail
   * when the tessellation library returns the shape it documents (`Pipeline.AllocateErrors`).
   */
  datatype Failure =
    | NoEezRows                          // RuntimeError: no row has "eez" in its parent_subtype
    | ShapeIdWithoutDot(shapeId: string) // IndexError: shape_id.split(".")[1] on a land row
    | NoSeedPoints                       // RuntimeError: no coastline vertex near the EEZ
    | VoronoiFailed                      // the tessellation library rejected the seed points
    | RegionIndexOutOfRange(point: nat)  // IndexError: vor.regions[region_idx]
    | MissingRidges(point: nat)          // KeyError: all_ridges[p1] for an unbounded cell
    | LabelIndexOutOfRange(cell: nat)    // IndexError: seed_labels[i] for a kept cell
    | NoMaritimeFragments                // empty polys: the frame built and dissolved at lines 128-129 has no parent_name column
    | MissingNumericKey(name: string)    // KeyError: num_map[n]
}
