/** The PHP string primitives the loader relies on: `strpos`, `strrpos` and
    `trim` with its default character list. PHP strings are byte strings; here
    they are sequences of characters and indices are unbounded naturals. */
module PhpStrings {
  import opened Wrappers

  /** `needle` occurs in `haystack` starting at index `i`. */
  predicate OccursAt(haystack: string, needle: string, i: nat) {
    i + |needle| <= |haystack| && haystack[i..i + |needle|] == needle
  }

  /** The first occurrence of `needle` at or after index `from`. */
  function FindFrom(haystack: string, needle: string, from: nat): (r: Option<nat>)
    requires from <= |haystack|
    ensures r.Some? ==> from <= r.value && OccursAt(haystack, needle, r.value)
    ensures r.Some? ==> forall j: nat :: from <= j < r.value ==> !OccursAt(haystack, needle, j)
    ensures r.None? ==> forall j: nat :: from <= j ==> !OccursAt(haystack, needle, j)
    decreases |haystack| - from
  {
    if OccursAt(haystack, needle, from) then Some(from)
    else if from == |haystack| then None
    else FindFrom(haystack, needle, from + 1)
  }

  /** The last occurrence of `needle` at or before index `upto`. */
  function FindBackFrom(haystack: string, needle: string, upto: nat): (r: Option<nat>)
    ensures r.Some? ==> r.value <= upto && OccursAt(haystack, needle, r.value)
    ensures r.Some? ==> forall j: nat :: r.value < j <= upto ==> !OccursAt(haystack, needle, j)
    ensures r.None? ==> forall j: nat :: j <= upto ==> !OccursAt(haystack, needle, j)
  {
    if OccursAt(haystack, needle, upto) then Some(upto)
    else if upto == 0 then None
    else FindBackFrom(haystack, needle, upto - 1)
  }

  /** `strpos($haystack, $needle)`: the index of the first occurrence, or
      `None` for PHP's `false`. */
  function StrPos(haystack: string, needle: string): (r: Option<nat>)
    ensures r.Some? ==> OccursAt(haystack, needle, r.value)
    ensures r.Some? ==> forall j: nat :: j < r.value ==> !OccursAt(haystack, needle, j)
    ensures r.None? <==> forall j: nat :: !OccursAt(haystack, needle, j)
  {
    FindFrom(haystack, needle, 0)
  }

  /** `strrpos($haystack, $needle)`: the index of the last occurrence, or
      `None` for PHP's `false`. */
  function StrRPos(haystack: string, needle: string): (r: Option<nat>)
    ensures r.Some? ==> OccursAt(haystack, needle, r.value)
    ensures r.Some? ==> forall j: nat :: r.value < j ==> !OccursAt(haystack, needle, j)
    ensures r.None? <==> forall j: nat :: !OccursAt(haystack, needle, j)
  {
    FindBackFrom(haystack, needle, |haystack|)
  }

  /** The characters PHP's `trim` strips by default: " \t\n\r\0\x0B". */
  predicate IsTrimSpace(c: char) {
    c == ' ' || c == '\t' || c == '\n' || c == '\r' || c == 0 as char || c == 11 as char
  }

  /** Every character of `s` is one `trim` strips. */
  predicate AllTrimSpace(s: string) {
    forall i :: 0 <= i < |s| ==> IsTrimSpace(s[i])
  }

  /** `ltrim($s)`: the longest suffix of `s` that does not start with a
      strippable character. */
  function TrimLeft(s: string): (r: string)
    ensures |r| <= |s| && r == s[|s| - |r|..]
    ensures AllTrimSpace(s[..|s| - |r|])
    ensures r != [] ==> !IsTrimSpace(r[0])
  {
    if s == [] || !IsTrimSpace(s[0]) then s else TrimLeft(s[1..])
  }

  /** `rtrim($s)`: the longest prefix of `s` that does not end with a
      strippable character. */
  function TrimRight(s: string): (r: string)
    ensures |r| <= |s| && r == s[..|r|]
    ensures AllTrimSpace(s[|r|..])
    ensures r != [] ==> !IsTrimSpace(r[|r| - 1])
  {
    if s == [] || !IsTrimSpace(s[|s| - 1]) then s else TrimRight(s[..|s| - 1])
  }

  /** `trim($s)` with the default character list. */
  function Trim(s: string): string {
    TrimRight(TrimLeft(s))
  }

  /** `trim($s) != ''` holds exactly when `s` has a character `trim` keeps. */
  lemma TrimEmptyIff(s: string)
    ensures Trim(s) == [] <==> AllTrimSpace(s)
  {
  }

  /** A prefix keeps every occurrence that lies within it. */
  lemma OccursInExtension(s: string, t: string, needle: string, i: nat)
    requires OccursAt(s, needle, i)
    ensures OccursAt(s + t, needle, i)
  {
    assert (s + t)[i..i + |needle|] == s[i..i + |needle|];
  }
}
