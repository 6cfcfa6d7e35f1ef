/**
 * The row selections at the top of the script: the drop-list of small territories, the land
 * rows, and the rows that make up the exclusive economic zone.
 */
module Filters {
  import opened Common
  import opened Text
  import opened Shapes

  /** `DROP_LAND_NAMES`: territories removed before anything else happens. */
  const DropLandNames: set<string> :=
    {"Ashmore and Cartier Islands", "Coral Sea Islands Territory", "Jervis Bay Territory"}

  /** A boolean mask applied to a frame: the rows it selects, in their original order. */
  function Select(rows: seq<Row>, keep: Row -> bool): (kept: seq<Row>)
    ensures |kept| <= |rows|
    ensures forall r :: r in kept <==> r in rows && keep(r)
  {
    if rows == [] then []
    else (if keep(rows[0]) then [rows[0]] else []) + Select(rows[1..], keep)
  }

  /**
   * Masking splits over concatenation, and a single row is kept exactly when the mask holds for
   * it: together these pin `Select` down, so the kept rows keep their relative order.
   */
  lemma {:induction false} SelectAppend(a: seq<Row>, b: seq<Row>, keep: Row -> bool)
    ensures Select(a + b, keep) == Select(a, keep) + Select(b, keep)
    ensures |a| == 1 ==> Select(a, keep) == if keep(a[0]) then a else []
    decreases |a|
  {
    if a == [] {
      assert a + b == b;
    } else {
      var head := if keep(a[0]) then [a[0]] else [];
      assert (a + b)[0] == a[0] && (a + b)[1..] == a[1..] + b;
      assert Select(a + b, keep) == head + Select(a[1..] + b, keep);
      assert Select(a, keep) == head + Select(a[1..], keep);
      SelectAppend(a[1..], b, keep);
      assert head + (Select(a[1..], keep) + Select(b, keep)) == (head + Select(a[1..], keep)) + Select(b, keep);
    }
  }

  predicate NotDropListed(r: Row)
  {
    r.parentName !in DropLandNames
  }

  /** `g[~g["parent_name"].isin(DROP_LAND_NAMES)]`. */
  function DropListed(rows: seq<Row>): (kept: seq<Row>)
    ensures forall r :: r in kept ==> r in rows && r.parentName !in DropLandNames
    ensures forall r :: r in rows && r.parentName !in DropLandNames ==> r in kept
  {
    Select(rows, NotDropListed)
  }

  predicate IsLand(r: Row)
  {
    r.shapeClass == "land"
  }

  /** `g[g["shape_class"] == "land"]`. */
  function LandRows(rows: seq<Row>): (land: seq<Row>)
    ensures forall r :: r in land <==> r in rows && r.shapeClass == "land"
  {
    Select(rows, IsLand)
  }

  /** `str.contains("eez")` on `parent_subtype`: a case-sensitive substring test. */
  predicate IsEez(r: Row)
  {
    Contains(r.parentSubtype, "eez")
  }

  /** The EEZ rows; the script stops when there are none. */
  function EezRows(rows: seq<Row>): (r: Result<seq<Row>, Failure>)
    ensures r.Err? <==> forall row :: row in rows ==> !IsEez(row)
    ensures r.Err? ==> r.error == NoEezRows
    ensures r.Ok? ==> r.value != [] && forall row :: row in r.value <==> row in rows && IsEez(row)
  {
    var eez := Select(rows, IsEez);
    if |eez| == 0 then Err(NoEezRows)
    else
      assert eez[0] in eez;
      Ok(eez)
  }

  /** A row is an EEZ row exactly when "eez" appears in its subtype at some position. */
  lemma IsEezIff(r: Row)
    ensures IsEez(r) <==> exists i :: OccursAt(r.parentSubtype, "eez", i)
  {
    if IsEez(r) {
      var i := ContainsSound(r.parentSubtype, "eez");
    }
    if i :| OccursAt(r.parentSubtype, "eez", i) {
      ContainsComplete(r.parentSubtype, "eez", i);
    }
  }

  /** The match is case-sensitive: a subtype spelled "EEZ" does not select the row. */
  lemma UpperCaseEezNotMatched(r: Row)
    requires r.parentSubtype == "EEZ"
    ensures !IsEez(r)
  {
    var s := r.parentSubtype;
    assert s[0] == 'E' && s[..3] != "eez";
    TooShortNotContained(s[1..], "eez");
  }
}
