/** Optional values: `null`/`undefined` in the JavaScript source. */
module Wrappers {
  datatype Option<+T> = None | Some(value: T)
}

/**
 * The few `String.prototype` operations the rewrite relies on, on strings
 * as sequences of Unicode scalar values (`char`). JavaScript counts UTF-16
 * code units instead; only the positions of characters outside the Basic
 * Multilingual Plane differ, and no result of the rewrite depends on them.
 */
module JsString {
  import opened Wrappers

  /** `s.startsWith(prefix)`. */
  predicate StartsWith(s: string, prefix: string) {
    |prefix| <= |s| && s[..|prefix|] == prefix
  }

  /** `pat` occurs in `s` starting at index `i`. */
  predicate OccursAt(s: string, pat: string, i: nat) {
    i + |pat| <= |s| && s[i..i + |pat|] == pat
  }

  /** `s.includes(pat)`. */
  ghost predicate Contains(s: string, pat: string) {
    exists i: nat :: OccursAt(s, pat, i)
  }

  /** `s.indexOf(pat, from)`: the first occurrence at or after `from`. */
  function IndexOf(s: string, pat: string, from: nat): (r: Option<nat>)
    decreases |s| - from
    ensures r.Some? ==> from <= r.value && OccursAt(s, pat, r.value)
    ensures r.Some? ==> forall j :: from <= j < r.value ==> !OccursAt(s, pat, j)
    ensures r.None? ==> forall j :: from <= j ==> !OccursAt(s, pat, j)
  {
    if from + |pat| > |s| then None
    else if OccursAt(s, pat, from) then Some(from)
    else IndexOf(s, pat, from + 1)
  }

  /**
   * `s.replace(pat, rep)` with a string pattern: only the first occurrence
   * of `pat` is replaced, and nothing happens when there is none. The
   * special `$` sequences of a replacement string are not interpreted.
   */
  function ReplaceFirst(s: string, pat: string, rep: string): (r: string)
    ensures !Contains(s, pat) ==> r == s
  {
    match IndexOf(s, pat, 0)
    case None => s
    case Some(i) => s[..i] + rep + s[i + |pat|..]
  }

  /** `s.replace(pat, rep)` rewrites exactly the leftmost occurrence of `pat`. */
  lemma ReplaceFirstAt(s: string, pat: string, rep: string, i: nat)
    requires OccursAt(s, pat, i)
    requires forall j :: 0 <= j < i ==> !OccursAt(s, pat, j)
    ensures ReplaceFirst(s, pat, rep) == s[..i] + rep + s[i + |pat|..]
  {
    var k := IndexOf(s, pat, 0);
    assert k.Some?;
    assert k.value == i;
  }

  lemma StartsWithAppend(p: string, t: string)
    ensures StartsWith(p + t, p)
  {
    assert (p + t)[..|p|] == p;
  }

  lemma SliceSplit(s: string, a: nat, b: nat)
    requires a <= b <= |s|
    ensures s[a..] == s[a..b] + s[b..]
  {
  }

  lemma TakeDrop(s: string, L: nat)
    requires L <= |s|
    ensures s == s[..L] + s[L..]
  {
  }

  lemma RegroupTail(a: string, b: string, c: string, d: string)
    ensures a + b + (c + d) == (a + b + c) + d
  {
  }

  /** Every character an occurrence covers is the pattern's. */
  lemma OccursAtCovers(s: string, pat: string, i: nat)
    requires OccursAt(s, pat, i)
    ensures forall k :: i <= k < i + |pat| ==> s[k] == pat[k - i]
  {
    forall k | i <= k < i + |pat|
      ensures s[k] == pat[k - i]
    {
      assert s[i..i + |pat|][k - i] == s[k];
    }
  }

  /**
   * A pattern free of some character `c` cannot occur across a `c`: when
   * `x + y` has a `c` at the last index of `x` or the first index of `y`, an
   * occurrence in `x + y` lies wholly inside `x` or wholly inside `y`.
   */
  lemma OccurrenceSplitsAt(x: string, y: string, pat: string, c: char, k: nat)
    requires c !in pat
    requires k == |x| - 1 || k == |x|
    requires k < |x + y| && (x + y)[k] == c
    requires Contains(x + y, pat)
    ensures Contains(x, pat) || Contains(y, pat)
  {
    var i: nat :| OccursAt(x + y, pat, i);
    var xy := x + y;
    if i + |pat| <= |x| {
      assert x[i..i + |pat|] == xy[i..i + |pat|];
      assert OccursAt(x, pat, i);
    } else if i >= |x| {
      assert y[i - |x|..i - |x| + |pat|] == xy[i..i + |pat|];
      assert OccursAt(y, pat, i - |x|);
    } else {
      // the occurrence would have to cover the `c` at index k
      OccursAtCovers(xy, pat, i);
      assert false;
    }
  }
}
