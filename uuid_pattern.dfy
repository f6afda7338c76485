/**
 * The regular expression `[0-9a-f]{8}-[0-9a-f]{4}-[0-9a-f]{4}-[0-9a-f]{4}-[0-9a-f]{12}`
 * that both scripts search identifiers with, written as a character-level predicate.
 * `ignoreCase` stands for the `re.IGNORECASE` flag, under which the class also
 * admits `A-F`; a search returns the leftmost match, as `re.search` does.
 */
module UuidPattern {
  import opened Wrappers

  /** The length of a match: 32 hex digits and 4 hyphens. */
  const UuidLength: nat := 36

  /** Offsets of the hyphens within a match. */
  predicate IsHyphenOffset(k: int)
  {
    k == 8 || k == 13 || k == 18 || k == 23
  }

  predicate IsLowerHex(c: char)
  {
    '0' <= c <= '9' || 'a' <= c <= 'f'
  }

  predicate IsHex(c: char, ignoreCase: bool)
  {
    IsLowerHex(c) || (ignoreCase && 'A' <= c <= 'F')
  }

  /** `u` is exactly one match of the pattern. */
  predicate IsUuid(u: string, ignoreCase: bool)
  {
    |u| == UuidLength &&
    forall k :: 0 <= k < UuidLength ==>
      if IsHyphenOffset(k) then u[k] == '-' else IsHex(u[k], ignoreCase)
  }

  /** The pattern matches `s` at index `i`. */
  predicate MatchesAt(s: string, i: nat, ignoreCase: bool)
  {
    i + UuidLength <= |s| && IsUuid(s[i..i + UuidLength], ignoreCase)
  }

  /** The leftmost match at or after `from`. */
  function SearchFrom(s: string, from: nat, ignoreCase: bool): (r: Option<nat>)
    decreases |s| - from
    ensures r.Some? ==> from <= r.value && MatchesAt(s, r.value, ignoreCase)
    ensures r.Some? ==> forall j: nat :: from <= j < r.value ==> !MatchesAt(s, j, ignoreCase)
    ensures r.None? ==> forall j: nat :: from <= j ==> !MatchesAt(s, j, ignoreCase)
  {
    if from + UuidLength > |s| then None
    else if MatchesAt(s, from, ignoreCase) then Some(from)
    else SearchFrom(s, from + 1, ignoreCase)
  }

  /** `re.search`: the leftmost match, if any. */
  function Search(s: string, ignoreCase: bool): (r: Option<nat>)
    ensures r.Some? ==> MatchesAt(s, r.value, ignoreCase)
    ensures r.Some? ==> forall j: nat :: j < r.value ==> !MatchesAt(s, j, ignoreCase)
    ensures r.None? ==> forall j: nat :: !MatchesAt(s, j, ignoreCase)
  {
    SearchFrom(s, 0, ignoreCase)
  }

  /** A match with no match before it is what `Search` returns. */
  lemma SearchIsFirst(s: string, i: nat, ignoreCase: bool)
    requires MatchesAt(s, i, ignoreCase)
    requires forall j: nat :: j < i ==> !MatchesAt(s, j, ignoreCase)
    ensures Search(s, ignoreCase) == Some(i)
  {
  }

  /** Every match of the case-sensitive pattern is a match of the case-insensitive one. */
  lemma LowerMatchIsMatch(s: string, i: nat)
    requires MatchesAt(s, i, false)
    ensures MatchesAt(s, i, true)
  {
  }
}
