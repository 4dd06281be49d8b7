/**
 * `String.prototype.replace` called with a string (not a regular expression) as its
 * pattern, as ECMA-262 (2022 edition) section 22.1.3.18 defines it: the leftmost
 * occurrence found by StringIndexOf (section 6.1.4.1 of the same edition)
 * is replaced by the result of GetSubstitution (section 22.1.3.18.1),
 * and a text without an occurrence is returned as it is.
 */
module EcmaReplace {
  import opened Wrappers

  /** `pat` occurs in `s` starting at index `i`. */
  predicate OccursAt(s: string, pat: string, i: nat) {
    i + |pat| <= |s| && s[i..i + |pat|] == pat
  }

  /** `i` is the leftmost index at which `pat` occurs in `s`. */
  predicate IsLeftmost(s: string, pat: string, i: nat) {
    OccursAt(s, pat, i) && forall j: nat :: j < i ==> !OccursAt(s, pat, j)
  }

  /** StringIndexOf(s, pat, from): the least index at or after `from` where `pat` occurs. */
  function IndexOfFrom(s: string, pat: string, from: nat): (r: Option<nat>)
    decreases |s| - from
    ensures r.Some? ==> from <= r.value && OccursAt(s, pat, r.value)
    ensures r.Some? ==> forall j: nat :: from <= j < r.value ==> !OccursAt(s, pat, j)
    ensures r.None? <==> forall j: nat :: from <= j ==> !OccursAt(s, pat, j)
  {
    if from + |pat| > |s| then None
    else if s[from..from + |pat|] == pat then assert OccursAt(s, pat, from); Some(from)
    else IndexOfFrom(s, pat, from + 1)
  }

  /** StringIndexOf(s, pat, 0), with `None` for the result -1. */
  function IndexOf(s: string, pat: string): (r: Option<nat>)
    ensures r.Some? <==> exists i: nat :: OccursAt(s, pat, i)
    ensures r.Some? ==> IsLeftmost(s, pat, r.value)
    ensures forall i: nat :: IsLeftmost(s, pat, i) ==> r == Some(i)
  {
    IndexOfFrom(s, pat, 0)
  }

  /** The text of `str` before `position` (the `$`` pattern). */
  function Preceding(str: string, position: nat): string {
    if position <= |str| then str[..position] else str
  }

  /** The text of `str` after the match that ends at `tailPos` (the `$'` pattern). */
  function Following(str: string, tailPos: nat): string {
    if tailPos >= |str| then "" else str[tailPos..]
  }

  /**
   * GetSubstitution(matched, str, position, [], undefined, replacement): the
   * replacement text with its `$` patterns expanded. A string pattern has no
   * captures and no named groups, so `$1`..`$99` and `$<` stay literal.
   */
  function Substitute(matched: string, str: string, position: nat, rep: string): (r: string)
    decreases |rep|
  {
    if |rep| == 0 then ""
    else if rep[0] == '$' && |rep| >= 2 && rep[1] == '$' then
      "$" + Substitute(matched, str, position, rep[2..])
    else if rep[0] == '$' && |rep| >= 2 && rep[1] == '&' then
      matched + Substitute(matched, str, position, rep[2..])
    else if rep[0] == '$' && |rep| >= 2 && rep[1] == '`' then
      Preceding(str, position) + Substitute(matched, str, position, rep[2..])
    else if rep[0] == '$' && |rep| >= 2 && rep[1] == '\'' then
      Following(str, position + |matched|) + Substitute(matched, str, position, rep[2..])
    else
      [rep[0]] + Substitute(matched, str, position, rep[1..])
  }

  /** A replacement text without `$` is inserted verbatim. */
  lemma {:induction false} SubstituteVerbatim(matched: string, str: string, position: nat, rep: string)
    requires '$' !in rep
    ensures Substitute(matched, str, position, rep) == rep
    decreases |rep|
  {
    if |rep| > 0 {
      assert '$' !in rep[1..];
      SubstituteVerbatim(matched, str, position, rep[1..]);
      assert rep == [rep[0]] + rep[1..];
    }
  }

  /**
   * The four two-character patterns a string search can use: `$$` gives one `$`,
   * `$&` the matched text, `$`` the text before the match and `$'` the text after it.
   */
  lemma SubstituteEscapes(matched: string, str: string, position: nat, rep: string)
    ensures Substitute(matched, str, position, "$$" + rep) == "$" + Substitute(matched, str, position, rep)
    ensures Substitute(matched, str, position, "$&" + rep) == matched + Substitute(matched, str, position, rep)
    ensures Substitute(matched, str, position, "$`" + rep) ==
      Preceding(str, position) + Substitute(matched, str, position, rep)
    ensures Substitute(matched, str, position, "$'" + rep) ==
      Following(str, position + |matched|) + Substitute(matched, str, position, rep)
  {
    assert ("$$" + rep)[2..] == rep;
    assert ("$&" + rep)[2..] == rep;
    assert ("$`" + rep)[2..] == rep;
    assert ("$'" + rep)[2..] == rep;
  }

  /** `s.replace(pat, rep)` with a string `pat`. */
  function ReplaceFirst(s: string, pat: string, rep: string): (r: string)
    ensures (forall i: nat :: !OccursAt(s, pat, i)) ==> r == s
    ensures forall i: nat :: IsLeftmost(s, pat, i) ==>
      r == s[..i] + Substitute(pat, s, i, rep) + s[i + |pat|..]
  {
    match IndexOf(s, pat)
    case None => s
    case Some(i) => s[..i] + Substitute(pat, s, i, rep) + s[i + |pat|..]
  }

  /**
   * With a `$`-free replacement the leftmost occurrence is replaced by `rep` itself:
   * the text before it and the text after it are kept.
   */
  lemma ReplaceLeftmost(s: string, pat: string, rep: string, i: nat)
    requires IsLeftmost(s, pat, i)
    requires '$' !in rep
    ensures ReplaceFirst(s, pat, rep) == s[..i] + rep + s[i + |pat|..]
    ensures ReplaceFirst(s, pat, rep)[..i] == s[..i]
    ensures ReplaceFirst(s, pat, rep)[i..i + |rep|] == rep
    ensures ReplaceFirst(s, pat, rep)[i + |rep|..] == s[i + |pat|..]
  {
    SubstituteVerbatim(pat, s, i, rep);
  }

  /** The length grows by |rep| - |pat| when the pattern occurs and is kept otherwise. */
  lemma ReplaceFirstLength(s: string, pat: string, rep: string)
    requires '$' !in rep
    ensures |ReplaceFirst(s, pat, rep)| ==
      if exists i: nat :: OccursAt(s, pat, i) then |s| - |pat| + |rep| else |s|
  {
    match IndexOf(s, pat)
    case None =>
    case Some(i) => ReplaceLeftmost(s, pat, rep, i);
  }

  /** The text before the leftmost occurrence holds no occurrence of a non-empty pattern. */
  lemma PrefixHasNoOccurrence(s: string, pat: string, i: nat)
    requires |pat| > 0
    requires IsLeftmost(s, pat, i)
    ensures forall j: nat :: !OccursAt(s[..i], pat, j)
  {
    forall j: nat | OccursAt(s[..i], pat, j)
      ensures false
    {
      assert s[..i][j..j + |pat|] == s[j..j + |pat|];
      assert OccursAt(s, pat, j);
    }
  }

  /** An occurrence in `t` is an occurrence in `u + t`, shifted by |u|, and conversely. */
  lemma OccursAfterPrefix(u: string, t: string, pat: string, d: nat)
    ensures OccursAt(u + t, pat, |u| + d) <==> OccursAt(t, pat, d)
  {
    if |u| + d + |pat| <= |u + t| {
      assert (u + t)[|u| + d..|u| + d + |pat|] == t[d..d + |pat|];
    }
  }

  /** An occurrence in `s` at or after `m` is an occurrence in the suffix `s[m..]`, and conversely. */
  lemma OccursInSuffix(s: string, pat: string, m: nat, d: nat)
    requires m <= |s|
    ensures OccursAt(s, pat, m + d) <==> OccursAt(s[m..], pat, d)
  {
    assert s[..m] + s[m..] == s;
    OccursAfterPrefix(s[..m], s[m..], pat, d);
  }

  /**
   * With a `$`-free replacement, every occurrence starting at or after the end of the
   * replaced one survives, shifted by |rep| - |pat|. Overlapping occurrences need not.
   */
  lemma LaterOccurrencesKept(s: string, pat: string, rep: string, i: nat, j: nat)
    requires IsLeftmost(s, pat, i)
    requires '$' !in rep
    requires i + |pat| <= j && OccursAt(s, pat, j)
    ensures OccursAt(ReplaceFirst(s, pat, rep), pat, j - |pat| + |rep|)
  {
    var d: nat := j - i - |pat|;
    OccursInSuffix(s, pat, i + |pat|, d);
    ReplaceLeftmost(s, pat, rep, i);
    OccursAfterPrefix(s[..i] + rep, s[i + |pat|..], pat, d);
  }
}
