/**
 * The string operations of Python's `str` type that the downloader relies on:
 * substring search (`in`, `find`), `strip`, and the pieces picked out of
 * `split` by `[0]` and `[-1]`.
 */
module Text {
  import opened Wrappers

  /** `sub` occurs in `s` starting at index `i`. */
  predicate OccursAt(s: string, sub: string, i: nat)
  {
    i + |sub| <= |s| && s[i..i + |sub|] == sub
  }

  /** Index of the leftmost occurrence of `sub` in `s` at or after `from`. */
  function FindFrom(s: string, sub: string, from: nat): (r: Option<nat>)
    decreases |s| - from
    ensures r.Some? ==> from <= r.value && OccursAt(s, sub, r.value)
    ensures r.Some? ==> forall k :: from <= k < r.value ==> !OccursAt(s, sub, k)
    ensures r.None? ==> forall k :: from <= k ==> !OccursAt(s, sub, k)
  {
    if from + |sub| > |s| then None
    else if s[from..from + |sub|] == sub then Some(from)
    else FindFrom(s, sub, from + 1)
  }

  /** Python's `s.find(sub)`, with `None` for -1. */
  function Find(s: string, sub: string): (r: Option<nat>)
    ensures r.Some? ==> OccursAt(s, sub, r.value)
    ensures r.Some? ==> forall k :: 0 <= k < r.value ==> !OccursAt(s, sub, k)
    ensures r.None? ==> forall k :: !OccursAt(s, sub, k)
  {
    FindFrom(s, sub, 0)
  }

  /** Python's `sub in s`: the empty string is in every string, and nothing longer than `s` is. */
  predicate Contains(s: string, sub: string): (b: bool)
    ensures sub == [] ==> b
    ensures b ==> |sub| <= |s|
  {
    Find(s, sub).Some?
  }

  /** `sub in s` holds exactly when `sub` occurs at some position of `s`. */
  lemma ContainsIff(s: string, sub: string)
    ensures Contains(s, sub) <==> exists k :: OccursAt(s, sub, k)
  {
  }

  /** A string inside a string inside `s` is inside `s`. */
  lemma ContainsTransitive(s: string, mid: string, sub: string)
    requires Contains(s, mid) && Contains(mid, sub)
    ensures Contains(s, sub)
  {
    var i := Find(s, mid).value;
    var j := Find(mid, sub).value;
    assert s[i..i + |mid|] == mid;
    assert s[i + j..i + j + |sub|] == s[i..i + |mid|][j..j + |sub|];
    assert OccursAt(s, sub, i + j);
  }

  /** Number of leading characters of `s` satisfying `p`. */
  function LeadingCount(s: string, p: char -> bool): (n: nat)
    ensures n <= |s|
    ensures forall k :: 0 <= k < n ==> p(s[k])
    ensures n < |s| ==> !p(s[n])
  {
    if s == [] || !p(s[0]) then 0 else 1 + LeadingCount(s[1..], p)
  }

  /** Number of trailing characters of `s` satisfying `p`. */
  function TrailingCount(s: string, p: char -> bool): (n: nat)
    ensures n <= |s|
    ensures forall k :: |s| - n <= k < |s| ==> p(s[k])
    ensures n < |s| ==> !p(s[|s| - 1 - n])
  {
    if s == [] || !p(s[|s| - 1]) then 0 else 1 + TrailingCount(s[..|s| - 1], p)
  }

  /**
   * Python's `s.strip(chars)` (and `s.strip()` with `p` the whitespace test):
   * the longest middle part of `s` that neither starts nor ends with a
   * character satisfying `p`; everything cut away satisfies `p`.
   */
  function Strip(s: string, p: char -> bool): (r: string)
    ensures LeadingCount(s, p) + |r| <= |s|
    ensures s[LeadingCount(s, p)..LeadingCount(s, p) + |r|] == r
    ensures r == [] || (!p(r[0]) && !p(r[|r| - 1]))
    ensures forall k :: 0 <= k < |s| && !(LeadingCount(s, p) <= k < LeadingCount(s, p) + |r|) ==> p(s[k])
  {
    var t := s[LeadingCount(s, p)..];
    t[..|t| - TrailingCount(t, p)]
  }

  /**
   * Strip is determined by its contract: whenever `s` is a padding `x` and `y`
   * of characters satisfying `p` around a core `r` that does not start or end
   * with one, stripping `s` gives exactly `r`.
   */
  lemma StripUnique(s: string, p: char -> bool, x: string, r: string, y: string)
    requires s == x + r + y
    requires forall k :: 0 <= k < |x| ==> p(x[k])
    requires forall k :: 0 <= k < |y| ==> p(y[k])
    requires r == [] || (!p(r[0]) && !p(r[|r| - 1]))
    ensures Strip(s, p) == r
  {
    var n := LeadingCount(s, p);
    var st := Strip(s, p);
    if r == [] {
      assert forall k :: 0 <= k < |s| ==> p(s[k]) by {
        forall k | 0 <= k < |s| ensures p(s[k]) {
          if k < |x| { assert s[k] == x[k]; } else { assert s[k] == y[k - |x|]; }
        }
      }
    } else {
      LeadingPadding(s, p, x, r, y);
      var t := s[|x|..];
      assert t == r + y;
      TrailingPadding(t, p, r, y);
      assert t[..|t| - |y|] == r;
    }
  }

  /** The trailing padding of `r + y` is exactly `y` when `r` does not end with a padding character. */
  lemma TrailingPadding(t: string, p: char -> bool, r: string, y: string)
    requires t == r + y && r != [] && !p(r[|r| - 1])
    requires forall k :: 0 <= k < |y| ==> p(y[k])
    ensures TrailingCount(t, p) == |y|
  {
    var n := TrailingCount(t, p);
    assert t[|r| - 1] == r[|r| - 1];
    assert forall k :: 0 <= k < |y| ==> t[|r| + k] == y[k];
  }

  /** The leading padding of `x + r + y` is exactly `x` when `r` does not start with a padding character. */
  lemma LeadingPadding(s: string, p: char -> bool, x: string, r: string, y: string)
    requires s == x + r + y && r != [] && !p(r[0])
    requires forall k :: 0 <= k < |x| ==> p(x[k])
    ensures LeadingCount(s, p) == |x|
  {
    var n := LeadingCount(s, p);
    assert s[|x|] == r[0];
    assert forall k :: 0 <= k < |x| ==> s[k] == x[k];
  }

  /** Python's `s.split(sep)[-1]` for a one-character separator: the text after the last `sep`. */
  function AfterLast(s: string, sep: char): (r: string)
    ensures |r| <= |s| && r == s[|s| - |r|..]
    ensures sep !in r
    ensures |r| < |s| ==> s[|s| - |r| - 1] == sep
  {
    if s == [] || s[|s| - 1] == sep then []
    else AfterLast(s[..|s| - 1], sep) + [s[|s| - 1]]
  }

  /** Python's `s.split(sep)[0]` for a one-character separator: the text before the first `sep`. */
  function BeforeFirst(s: string, sep: char): (r: string)
    ensures |r| <= |s| && r == s[..|r|]
    ensures sep !in r
    ensures |r| < |s| ==> s[|r|] == sep
  {
    if s == [] || s[0] == sep then [] else [s[0]] + BeforeFirst(s[1..], sep)
  }

  /** Without `sep`, `s.split(sep)[0]` is the whole of `s`. */
  lemma BeforeFirstNone(s: string, sep: char)
    requires sep !in s
    ensures BeforeFirst(s, sep) == s
  {
  }

  /** From `a` on, the occurrences in `s` are those in `s[a..]`, shifted by `a`. */
  lemma ShiftOccurrence(s: string, sub: string, a: nat)
    requires a <= |s|
    ensures forall k: nat :: a <= k ==> (OccursAt(s, sub, k) <==> OccursAt(s[a..], sub, k - a))
  {
    forall k: nat | a <= k && k + |sub| <= |s| && OccursAt(s, sub, k) ensures OccursAt(s[a..], sub, k - a) {
      assert s[a..][k - a..k - a + |sub|] == s[k..k + |sub|];
    }
    forall k: nat | a <= k && OccursAt(s[a..], sub, k - a) ensures OccursAt(s, sub, k) {
      assert s[a..][k - a..k - a + |sub|] == s[k..k + |sub|];
    }
  }

  /** An occurrence inside a slice is an occurrence in the whole string. */
  lemma OccursInSlice(s: string, a: nat, b: nat, sub: string, k: nat)
    requires a <= b <= |s| && OccursAt(s[a..b], sub, k)
    ensures OccursAt(s, sub, a + k)
  {
    var t := s[a..b];
    var u := t[k..k + |sub|];
    var v := s[a + k..a + k + |sub|];
    forall j | 0 <= j < |sub| ensures u[j] == v[j] {
      assert u[j] == t[k + j] == s[a + k + j];
    }
    assert u == v;
  }
}
