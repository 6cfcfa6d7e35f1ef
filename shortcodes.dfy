/**
 * The `state_id` of a region: a fixed table for the eight states and territories, and for any
 * other name the upper-cased first letters of its words, at most three of them. Land rows and
 * maritime rows both get their code from this one function.
 */
module ShortCodes {
  import opened Text

  /** `ABBR`: full state name to the code used in `state_id`. */
  const Abbr: map<string, string> := map[
    "Australian Capital Territory" := "ACT",
    "New South Wales" := "NSW",
    "Northern Territory" := "NT",
    "Queensland" := "QLD",
    "South Australia" := "SA",
    "Tasmania" := "TAS",
    "Victoria" := "VIC",
    "Western Australia" := "WA"
  ]

  function Min(a: nat, b: nat): nat
  {
    if a <= b then a else b
  }

  /** `ABBR.get(n, "".join(w[0] for w in str(n).split())[:3].upper())`. */
  function ShortCode(name: string): string
  {
    if name in Abbr then Abbr[name]
    else
      var initials := Initials(name);
      Upper(initials[..Min(3, |initials|)])
  }

  /**
   * A name in the table gets the table's code. Any other name gets the upper-cased characters
   * that start its words, in order, cut to the first three.
   */
  lemma ShortCodeSpec(name: string)
    ensures name in Abbr ==> ShortCode(name) == Abbr[name]
    ensures name !in Abbr ==>
      var starts := StartChars(name, true);
      && |ShortCode(name)| == Min(3, |starts|)
      && forall k :: 0 <= k < |ShortCode(name)| ==> ShortCode(name)[k] == UpperChar(starts[k])
  {
    InitialsAreStartChars(name);
  }

  /** Every code, from the table or derived, has at most three characters. */
  lemma ShortCodeAtMostThree(name: string)
    ensures |ShortCode(name)| <= 3
  {
    if name in Abbr {
      assert || name == "Australian Capital Territory" || name == "New South Wales"
             || name == "Northern Territory" || name == "Queensland" || name == "South Australia"
             || name == "Tasmania" || name == "Victoria" || name == "Western Australia";
    }
  }

  /**
   * Derived codes may coincide with a table code: the name "N S W" is not in the table, its
   * words start with N, S and W, and it is silently given the code of New South Wales.
   */
  lemma DerivedCodeCanCollide(name: string)
    requires name == "N S W"
    ensures name !in Abbr
    ensures ShortCode(name) == ShortCode("New South Wales") == "NSW"
  {
    assert StartChars(name[4..], true) == "W";
    assert StartChars(name[3..], false) == "W";
    assert StartChars(name[2..], true) == "SW";
    assert StartChars(name[1..], false) == "SW";
    ShortCodeSpec(name);
  }
}
