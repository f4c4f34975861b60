/**
 * Python's whitespace test and `str.strip()` with no argument, as load_dataset
 * uses them on a transcript.
 */
module Text {

  /** The code points for which Python's `str.isspace()` holds. */
  const SpaceCodePoints: set<int> :=
    {0x09, 0x0A, 0x0B, 0x0C, 0x0D, 0x1C, 0x1D, 0x1E, 0x1F, 0x20, 0x85, 0xA0, 0x1680,
     0x2000, 0x2001, 0x2002, 0x2003, 0x2004, 0x2005, 0x2006, 0x2007, 0x2008, 0x2009, 0x200A,
     0x2028, 0x2029, 0x202F, 0x205F, 0x3000}

  predicate IsSpace(c: char) {
    c as int in SpaceCodePoints
  }

  predicate AllSpace(s: string) {
    forall k :: 0 <= k < |s| ==> IsSpace(s[k])
  }

  /** The first index at or after `i` that does not hold whitespace, or `|s|`. */
  function SkipSpace(s: string, i: nat): (n: nat)
    requires i <= |s|
    ensures i <= n <= |s|
    ensures forall k :: i <= k < n ==> IsSpace(s[k])
    ensures n < |s| ==> !IsSpace(s[n])
    decreases |s| - i
  {
    if i < |s| && IsSpace(s[i]) then SkipSpace(s, i + 1) else i
  }

  /**
   * Scanning back from `j` towards `lo`: the end of `s[lo..j]` once its
   * trailing whitespace is dropped.
   */
  function SkipSpaceBack(s: string, lo: nat, j: nat): (n: nat)
    requires lo <= j <= |s|
    ensures lo <= n <= j
    ensures forall k :: n <= k < j ==> IsSpace(s[k])
    ensures lo < n ==> !IsSpace(s[n - 1])
    decreases j
  {
    if lo < j && IsSpace(s[j - 1]) then SkipSpaceBack(s, lo, j - 1) else j
  }

  /**
   * `r` is `s` with its leading and trailing whitespace removed: the slice of
   * `s` that starts after the leading whitespace and is followed only by
   * whitespace, and that neither starts nor ends with whitespace. It is empty
   * exactly when `s` is all whitespace.
   */
  predicate IsStripped(s: string, r: string) {
    var i := SkipSpace(s, 0);
    && (r == [] <==> AllSpace(s))
    && (r != [] ==> !IsSpace(r[0]) && !IsSpace(r[|r| - 1]))
    && i + |r| <= |s| && r == s[i..i + |r|]
    && (forall k :: i + |r| <= k < |s| ==> IsSpace(s[k]))
  }

  /** `str.strip()` with no argument. */
  function Strip(s: string): (r: string)
    ensures IsStripped(s, r)
  {
    var i := SkipSpace(s, 0);
    var e := SkipSpaceBack(s, i, |s|);
    StripSlice(s, i, e);
    s[i..e]
  }

  lemma StripSlice(s: string, i: nat, e: nat)
    requires i == SkipSpace(s, 0) && e == SkipSpaceBack(s, i, |s|)
    ensures IsStripped(s, s[i..e])
  {
    var r := s[i..e];
    if i < |s| {
      assert e > i;
      assert r[0] == s[i] && r[|r| - 1] == s[e - 1];
      assert !AllSpace(s);
    }
  }
}
