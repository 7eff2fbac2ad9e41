/**
 * The character classes of JavaScript regular expressions that the template
 * engine's patterns use, and maximal runs of them.
 */
module Lexical {

  /** JavaScript's `\s`: the ASCII blanks and the Unicode space separators. */
  predicate IsSpace(c: char)
  {
    var n := c as int;
    (9 <= n <= 13) || n == 32 || n == 0xA0 || n == 0x1680 || (0x2000 <= n <= 0x200A)
    || n == 0x2028 || n == 0x2029 || n == 0x202F || n == 0x205F || n == 0x3000 || n == 0xFEFF
  }

  /** JavaScript's `\w` (and `[_\w\d]`): ASCII letters, digits and underscore. */
  predicate IsWord(c: char)
  {
    ('a' <= c <= 'z') || ('A' <= c <= 'Z') || ('0' <= c <= '9') || c == '_'
  }

  ghost predicate SpacesIn(s: string, i: nat, j: nat)
    requires i <= j <= |s|
  {
    forall k :: i <= k < j ==> IsSpace(s[k])
  }

  ghost predicate NonSpacesIn(s: string, i: nat, j: nat)
    requires i <= j <= |s|
  {
    forall k :: i <= k < j ==> !IsSpace(s[k])
  }

  ghost predicate WordsIn(s: string, i: nat, j: nat)
    requires i <= j <= |s|
  {
    forall k :: i <= k < j ==> IsWord(s[k])
  }

  /** End of the longest run of `\s` starting at `i`. */
  function SpaceEnd(s: string, i: nat): (j: nat)
    requires i <= |s|
    ensures i <= j <= |s| && SpacesIn(s, i, j)
    ensures j < |s| ==> !IsSpace(s[j])
    decreases |s| - i
  {
    if i < |s| && IsSpace(s[i]) then SpaceEnd(s, i + 1) else i
  }

  /** End of the longest run of `[^\s]` starting at `i`. */
  function NonSpaceEnd(s: string, i: nat): (j: nat)
    requires i <= |s|
    ensures i <= j <= |s| && NonSpacesIn(s, i, j)
    ensures j < |s| ==> IsSpace(s[j])
    decreases |s| - i
  {
    if i < |s| && !IsSpace(s[i]) then NonSpaceEnd(s, i + 1) else i
  }

  /** End of the longest run of `\w` starting at `i`. */
  function WordEnd(s: string, i: nat): (j: nat)
    requires i <= |s|
    ensures i <= j <= |s| && WordsIn(s, i, j)
    ensures j < |s| ==> !IsWord(s[j])
    decreases |s| - i
  {
    if i < |s| && IsWord(s[i]) then WordEnd(s, i + 1) else i
  }

  /** A run ending at a character outside its class is the longest one. */
  lemma SpaceEndAt(s: string, i: nat, j: nat)
    requires i <= j <= |s| && SpacesIn(s, i, j) && (j < |s| ==> !IsSpace(s[j]))
    ensures SpaceEnd(s, i) == j
  {
  }

  lemma NonSpaceEndAt(s: string, i: nat, j: nat)
    requires i <= j <= |s| && NonSpacesIn(s, i, j) && (j < |s| ==> IsSpace(s[j]))
    ensures NonSpaceEnd(s, i) == j
  {
  }

  lemma WordEndAt(s: string, i: nat, j: nat)
    requires i <= j <= |s| && WordsIn(s, i, j) && (j < |s| ==> !IsWord(s[j]))
    ensures WordEnd(s, i) == j
  {
  }
}
