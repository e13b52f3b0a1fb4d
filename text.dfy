/**
 * Whitespace trimming as done by Go's `strings.TrimSpace`: strip every leading and trailing
 * character for which `unicode.IsSpace` holds. Like the Go code, it scans forward for the
 * first non-space and then backward, no further than that, for the last one.
 */
module Text {

  /** Go's `unicode.IsSpace`: the ASCII spaces, NEL, NBSP and the Unicode White_Space characters. */
  predicate IsSpace(c: char) {
    var x := c as int;
    || (9 <= x <= 13) || x == 0x20 || x == 0x85 || x == 0xA0 || x == 0x1680
    || (0x2000 <= x <= 0x200A) || x == 0x2028 || x == 0x2029 || x == 0x202F
    || x == 0x205F || x == 0x3000
  }

  /** Every character of `p` is a space. */
  predicate AllSpace(p: string) {
    forall k :: 0 <= k < |p| ==> IsSpace(p[k])
  }

  /** `s` neither starts nor ends with a space. */
  predicate Trimmed(s: string) {
    s == [] || (!IsSpace(s[0]) && !IsSpace(s[|s| - 1]))
  }

  /** The first index at or after `i` that does not hold a space (`|s|` if there is none). */
  function Start(s: string, i: nat): (j: nat)
    requires i <= |s|
    ensures i <= j <= |s| && (j < |s| ==> !IsSpace(s[j]))
    ensures forall k :: i <= k < j ==> IsSpace(s[k])
    decreases |s| - i
  {
    if i < |s| && IsSpace(s[i]) then Start(s, i + 1) else i
  }

  /** The end of the last non-space in `s[lo..j]` (`lo` if there is none). */
  function Stop(s: string, lo: nat, j: nat): (e: nat)
    requires lo <= j <= |s|
    ensures lo <= e <= j && (e > lo ==> !IsSpace(s[e - 1]))
    ensures forall k :: e <= k < j ==> IsSpace(s[k])
  {
    if j > lo && IsSpace(s[j - 1]) then Stop(s, lo, j - 1) else j
  }

  /** `strings.TrimSpace`: `s` without its leading and trailing whitespace. */
  function TrimSpace(s: string): (r: string)
    ensures |r| <= |s|
    ensures r == [] <==> AllSpace(s)
  {
    var a := Start(s, 0);
    s[a..Stop(s, a, |s|)]
  }

  /** `s` is the trimmed string with an all-space prefix before it and an all-space suffix after. */
  lemma TrimSpaceSlice(s: string)
    ensures exists p, q :: AllSpace(p) && AllSpace(q) && s == p + TrimSpace(s) + q
  {
    var a := Start(s, 0);
    var b := Stop(s, a, |s|);
    var p, q := s[..a], s[b..];
    SplitThree(s, a, b);
    forall k | 0 <= k < |p| ensures IsSpace(p[k]) {
      assert p[k] == s[k];
    }
    forall k | 0 <= k < |q| ensures IsSpace(q[k]) {
      assert q[k] == s[b + k];
    }
    assert AllSpace(p) && AllSpace(q);
  }

  /** Cutting a sequence at `a` and `b` and joining the three pieces gives it back. */
  lemma SplitThree(s: string, a: nat, b: nat)
    requires a <= b <= |s|
    ensures s == s[..a] + s[a..b] + s[b..]
  {
    assert s[..a] + s[a..b] == s[..b];
  }

  /** The trimmed string neither starts nor ends with a space. */
  lemma TrimSpaceTrimmed(s: string)
    ensures Trimmed(TrimSpace(s))
  {
    var a := Start(s, 0);
    var b := Stop(s, a, |s|);
    if a < b {
      assert s[a..b][0] == s[a] && s[a..b][b - a - 1] == s[b - 1];
    }
  }

  /** A string with no space at either end is its own trim. */
  lemma TrimSpaceOfTrimmed(s: string)
    requires Trimmed(s)
    ensures TrimSpace(s) == s
  {
    if s != [] {
      assert Start(s, 0) == 0;
      assert Stop(s, 0, |s|) == |s|;
    }
  }

  /** Trimming twice is trimming once. */
  lemma TrimSpaceIdempotent(s: string)
    ensures TrimSpace(TrimSpace(s)) == TrimSpace(s)
  {
    TrimSpaceTrimmed(s);
    TrimSpaceOfTrimmed(TrimSpace(s));
  }
}
