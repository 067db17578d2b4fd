/** Character runs in strings, the building block of the regular
    expressions the client uses (`[^&=]+`, `[^&]*`, `[^;]*`). */
module Text {

  /** No character of `t` is one of `stops`. */
  predicate Free(t: string, stops: set<char>)
  {
    forall k :: 0 <= k < |t| ==> t[k] !in stops
  }

  /** End of the longest run starting at `i` whose characters are not in
      `stops`: the first index at or after `i` that holds a stop
      character, or `|s|` when there is none. */
  function RunEnd(s: string, i: nat, stops: set<char>): (j: nat)
    requires i <= |s|
    ensures i <= j <= |s|
    ensures forall k :: i <= k < j ==> s[k] !in stops
    ensures j < |s| ==> s[j] in stops
    decreases |s| - i
  {
    if i == |s| || s[i] in stops then i else RunEnd(s, i + 1, stops)
  }

  /** The run end is determined by the characters: any `j` with the two
      properties above is the run end. */
  lemma RunEndUnique(s: string, i: nat, stops: set<char>, j: nat)
    requires i <= j <= |s|
    requires forall k :: i <= k < j ==> s[k] !in stops
    requires j == |s| || s[j] in stops
    ensures RunEnd(s, i, stops) == j
  {
  }
}
