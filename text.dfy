/**
 * The handful of Python string operations the script relies on: `str.split()` with and without a
 * separator, `sep.join`, substring search (`in` / `str.contains`), `str.upper()` and the
 * code-point order pandas uses when it sorts group keys.
 */
module Text {

  /** Python's `str.isspace` on one character: the characters `str.split()` breaks words on. */
  predicate IsSpace(c: char)
  {
    || c == ' '
    || ('\t' <= c <= '\r')
    || ('\U{1C}' <= c <= '\U{1F}')
    || c == '\U{85}' || c == '\U{A0}' || c == '\U{1680}'
    || ('\U{2000}' <= c <= '\U{200A}')
    || c == '\U{2028}' || c == '\U{2029}' || c == '\U{202F}' || c == '\U{205F}' || c == '\U{3000}'
  }

  /** Length of the run of non-space characters that opens `s`. */
  function RunLength(s: string): (n: nat)
    requires s != [] && !IsSpace(s[0])
    ensures 0 < n <= |s|
    ensures forall i :: 0 <= i < n ==> !IsSpace(s[i])
    ensures n == |s| || IsSpace(s[n])
  {
    if |s| == 1 || IsSpace(s[1]) then 1 else 1 + RunLength(s[1..])
  }

  /** Python's `str.split()` with no argument: the maximal runs of non-space characters, in order. */
  function Words(s: string): (ws: seq<string>)
    ensures forall k :: 0 <= k < |ws| ==> ws[k] != []
    ensures forall k, i :: 0 <= k < |ws| && 0 <= i < |ws[k]| ==> !IsSpace(ws[k][i])
    decreases |s|
  {
    if s == [] then []
    else if IsSpace(s[0]) then Words(s[1..])
    else
      var n := RunLength(s);
      [s[..n]] + Words(s[n..])
  }

  /** `"".join(w[0] for w in s.split())`: the first character of every word. */
  function Initials(s: string): string
  {
    var ws := Words(s);
    seq(|ws|, k requires 0 <= k < |ws| => ws[k][0])
  }

  /**
   * Reference definition of the same characters, read straight off `s`: a non-space character
   * is a word's first character when it opens `s` or follows a space.
   */
  function StartChars(s: string, afterSpace: bool): string
    decreases |s|
  {
    if s == [] then []
    else if IsSpace(s[0]) then StartChars(s[1..], true)
    else (if afterSpace then [s[0]] else []) + StartChars(s[1..], false)
  }

  /** The non-space characters of `s`, in order. */
  function NonSpace(s: string): string
    decreases |s|
  {
    if s == [] then [] else (if IsSpace(s[0]) then [] else [s[0]]) + NonSpace(s[1..])
  }

  function Concat(ws: seq<string>): string
  {
    if ws == [] then [] else ws[0] + Concat(ws[1..])
  }

  /** Skipping a run of non-space characters lands on a position where a new word may start. */
  lemma {:induction false} SkipRun(t: string, m: nat)
    requires m <= |t|
    requires forall i :: 0 <= i < m ==> !IsSpace(t[i])
    requires m == |t| || IsSpace(t[m])
    ensures StartChars(t, false) == StartChars(t[m..], true)
  {
    if m == 0 {
      assert t[m..] == t;
    } else {
      assert t[1..][m - 1..] == t[m..];
      SkipRun(t[1..], m - 1);
    }
  }

  /** The initials the script joins are exactly the word-start characters of the name. */
  lemma {:induction false} InitialsAreStartChars(s: string)
    ensures Initials(s) == StartChars(s, true)
    decreases |s|
  {
    if s == [] {
    } else if IsSpace(s[0]) {
      InitialsAreStartChars(s[1..]);
    } else {
      var n := RunLength(s);
      InitialsAreStartChars(s[n..]);
      SkipRun(s[1..], n - 1);
      assert s[1..][n - 1..] == s[n..];
      InitialsOfWord(s, n);
    }
  }

  lemma InitialsOfWord(s: string, n: nat)
    requires s != [] && !IsSpace(s[0]) && n == RunLength(s)
    ensures Initials(s) == [s[0]] + Initials(s[n..])
  {
    var ws, rest := Words(s), Words(s[n..]);
    assert ws == [s[..n]] + rest;
    var a, b := Initials(s), [s[0]] + Initials(s[n..]);
    assert |a| == |b|;
    forall k | 0 <= k < |a| ensures a[k] == b[k] {
      if k > 0 {
        assert ws[k] == rest[k - 1];
      }
    }
  }

  /** Splitting into words loses nothing but the white space. */
  lemma {:induction false} WordsKeepNonSpace(s: string)
    ensures Concat(Words(s)) == NonSpace(s)
    decreases |s|
  {
    if s == [] {
    } else if IsSpace(s[0]) {
      WordsKeepNonSpace(s[1..]);
    } else {
      var n := RunLength(s);
      WordsKeepNonSpace(s[n..]);
      NonSpaceOfRun(s, n);
      assert Words(s)[1..] == Words(s[n..]);
    }
  }

  lemma {:induction false} NonSpaceOfRun(s: string, n: nat)
    requires n <= |s|
    requires forall i :: 0 <= i < n ==> !IsSpace(s[i])
    ensures NonSpace(s) == s[..n] + NonSpace(s[n..])
    decreases n
  {
    if n > 0 {
      NonSpaceOfRun(s[1..], n - 1);
      assert s[1..][n - 1..] == s[n..];
      assert s[..n] == [s[0]] + s[1..][..n - 1];
    }
  }

  /** Python's `str.upper()` on one character, for the ASCII letters. */
  function UpperChar(c: char): char
  {
    if 'a' <= c <= 'z' then (c as int - 32) as char else c
  }

  function Upper(s: string): string
  {
    seq(|s|, i requires 0 <= i < |s| => UpperChar(s[i]))
  }

  /** `s.split(sep)`: the pieces between separators; never an empty list. */
  function Split(s: string, sep: char): (fields: seq<string>)
    ensures |fields| >= 1
    ensures forall k :: 0 <= k < |fields| ==> sep !in fields[k]
    decreases |s|
  {
    if s == [] then [[]]
    else
      var rest := Split(s[1..], sep);
      if s[0] == sep then [[]] + rest else [[s[0]] + rest[0]] + rest[1..]
  }

  /** `sep.join(fields)`. */
  function Join(fields: seq<string>, sep: char): string
    requires |fields| >= 1
  {
    if |fields| == 1 then fields[0] else fields[0] + [sep] + Join(fields[1..], sep)
  }

  /** Joining the pieces of a split gives the original string back. */
  lemma {:induction false} JoinSplit(s: string, sep: char)
    ensures Join(Split(s, sep), sep) == s
    decreases |s|
  {
    if s != [] {
      JoinSplit(s[1..], sep);
      var rest := Split(s[1..], sep);
      if s[0] != sep {
        if |rest| > 1 {
          assert ([[s[0]] + rest[0]] + rest[1..])[1..] == rest[1..];
        }
      }
    }
  }

  /** Splitting a join of separator-free pieces gives the pieces back. */
  lemma {:induction false} SplitJoin(fields: seq<string>, sep: char)
    requires |fields| >= 1
    requires forall k :: 0 <= k < |fields| ==> sep !in fields[k]
    ensures Split(Join(fields, sep), sep) == fields
    decreases |fields|, |fields[0]|
  {
    var f := fields[0];
    if f == [] {
      if |fields| > 1 {
        var rest := fields[1..];
        assert forall k :: 0 <= k < |rest| ==> rest[k] == fields[k + 1];
        SplitJoin(rest, sep);
        SplitAfterSep(Join(rest, sep), sep);
        assert [[]] + rest == fields;
      }
    } else {
      var tail := JoinTail(fields, sep);
      SplitJoin(tail, sep);
      SplitAfterChar(f[0], Join(tail, sep), sep);
      assert [f[0]] + tail[0] == f;
      assert tail[1..] == fields[1..];
      assert [[f[0]] + tail[0]] + tail[1..] == fields;
    }
  }

  /** A leading separator closes an empty first field. */
  lemma SplitAfterSep(s: string, sep: char)
    ensures Split([sep] + s, sep) == [[]] + Split(s, sep)
  {
    assert ([sep] + s)[1..] == s;
  }

  /** Any other leading character starts the first field. */
  lemma SplitAfterChar(c: char, s: string, sep: char)
    requires c != sep
    ensures Split([c] + s, sep) == [[c] + Split(s, sep)[0]] + Split(s, sep)[1..]
  {
    assert ([c] + s)[1..] == s;
  }

  /** The join with the first character of the first field taken off, when that field is not empty. */
  lemma JoinTail(fields: seq<string>, sep: char) returns (tail: seq<string>)
    requires |fields| >= 1 && fields[0] != []
    requires forall k :: 0 <= k < |fields| ==> sep !in fields[k]
    ensures tail == [fields[0][1..]] + fields[1..]
    ensures forall k :: 0 <= k < |tail| ==> sep !in tail[k]
    ensures fields[0][0] != sep
    ensures Join(fields, sep) == [fields[0][0]] + Join(tail, sep)
  {
    var f := fields[0];
    tail := [f[1..]] + fields[1..];
    forall k | 0 <= k < |tail| ensures sep !in tail[k] {
      if k == 0 {
        assert forall c :: c in f[1..] ==> c in f;
      } else {
        assert tail[k] == fields[k];
      }
    }
    assert f[0] in f;
    assert [f[0]] + f[1..] == f;
    if |fields| > 1 {
      assert tail[1..] == fields[1..];
    }
  }

  /** A split has a second field exactly when the separator occurs. */
  lemma {:induction false} SplitHasSecondField(s: string, sep: char)
    ensures |Split(s, sep)| >= 2 <==> sep in s
    decreases |s|
  {
    if s != [] {
      SplitHasSecondField(s[1..], sep);
      assert sep in s <==> s[0] == sep || sep in s[1..];
    }
  }

  predicate StartsWith(s: string, prefix: string)
  {
    |prefix| <= |s| && s[..|prefix|] == prefix
  }

  /** `sub in s`: does `sub` occur in `s` at some position? Scans left to right. */
  predicate Contains(s: string, sub: string)
    decreases |s|
  {
    StartsWith(s, sub) || (s != [] && Contains(s[1..], sub))
  }

  /** `sub` occurs in `s` starting at position `i`. */
  predicate OccursAt(s: string, sub: string, i: int)
  {
    0 <= i <= |s| - |sub| && s[i..i + |sub|] == sub
  }

  /** An occurrence after the first position is an occurrence in the tail, one position earlier. */
  lemma OccursAtShift(s: string, sub: string, j: nat)
    requires s != [] && j > 0
    ensures OccursAt(s, sub, j) <==> OccursAt(s[1..], sub, j - 1)
  {
    if j <= |s| - |sub| {
      assert s[j..j + |sub|] == s[1..][j - 1..j - 1 + |sub|];
    }
  }

  /** What the scan finds is an occurrence: it returns the leftmost position. */
  lemma {:induction false} ContainsSound(s: string, sub: string) returns (i: nat)
    requires Contains(s, sub)
    ensures OccursAt(s, sub, i)
    ensures forall j :: 0 <= j < i ==> !OccursAt(s, sub, j)
    decreases |s|
  {
    if StartsWith(s, sub) {
      i := 0;
    } else {
      var k := ContainsSound(s[1..], sub);
      i := k + 1;
      OccursAtShift(s, sub, i);
      forall j | 0 <= j < i ensures !OccursAt(s, sub, j) {
        if j > 0 {
          OccursAtShift(s, sub, j);
        }
      }
    }
  }

  /** Every occurrence is found by the scan. */
  lemma {:induction false} ContainsComplete(s: string, sub: string, i: nat)
    requires OccursAt(s, sub, i)
    ensures Contains(s, sub)
    decreases i
  {
    if i == 0 {
      assert StartsWith(s, sub);
    } else {
      OccursAtShift(s, sub, i);
      ContainsComplete(s[1..], sub, i - 1);
    }
  }

  /** A string shorter than `sub` cannot contain it. */
  lemma {:induction false} TooShortNotContained(s: string, sub: string)
    requires |s| < |sub|
    ensures !Contains(s, sub)
    decreases |s|
  {
    if s != [] {
      TooShortNotContained(s[1..], sub);
    }
  }

  /** Python's `<` on `str`: code-point lexicographic order, a proper prefix first. */
  predicate StrLess(a: string, b: string)
    decreases |a|
  {
    if a == [] then b != []
    else if b == [] then false
    else if a[0] == b[0] then StrLess(a[1..], b[1..])
    else a[0] < b[0]
  }

  lemma {:induction false} StrLessIrreflexive(a: string)
    ensures !StrLess(a, a)
    decreases |a|
  {
    if a != [] {
      StrLessIrreflexive(a[1..]);
    }
  }

  lemma {:induction false} StrLessTransitive(a: string, b: string, c: string)
    requires StrLess(a, b) && StrLess(b, c)
    ensures StrLess(a, c)
    decreases |a|
  {
    if a != [] && b != [] && c != [] && a[0] == b[0] && b[0] == c[0] {
      StrLessTransitive(a[1..], b[1..], c[1..]);
    }
  }

  lemma {:induction false} StrLessTotal(a: string, b: string)
    requires a != b
    ensures StrLess(a, b) || StrLess(b, a)
    decreases |a|
  {
    if a != [] && b != [] && a[0] == b[0] {
      assert a == [a[0]] + a[1..] && b == [b[0]] + b[1..];
      StrLessTotal(a[1..], b[1..]);
    }
  }
}
