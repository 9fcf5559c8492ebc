/** `Strip` (general_utils.cpp:14-22): drop leading, then trailing,
    whitespace of the C locale. */
module StringUtils {
  /** `isspace` in the C locale: space, and tab, line feed, vertical tab,
      form feed and carriage return, which are the code points 9 to 13. */
  predicate IsSpace(c: char) {
    c == ' ' || '\t' <= c <= '\r'
  }

  /** Every character of `s` from position `lo` up to `hi` is whitespace. */
  predicate SpacesBetween(s: string, lo: nat, hi: nat)
    requires lo <= hi <= |s|
  {
    forall m :: lo <= m < hi ==> IsSpace(s[m])
  }

  /** The first loop (general_utils.cpp:15-17), scanning from `from`: the
      position of the first character it keeps. */
  function SkipFront(s: string, from: nat): (a: nat)
    requires from <= |s|
    ensures from <= a <= |s|
    ensures SpacesBetween(s, from, a)
    ensures a == |s| || !IsSpace(s[a])
    decreases |s| - from
  {
    if from < |s| && IsSpace(s[from]) then SkipFront(s, from + 1) else from
  }

  /** The second loop (general_utils.cpp:18-20) on what lies between `lo`
      and `hi`: the end of the part it keeps. */
  function SkipBack(s: string, lo: nat, hi: nat): (b: nat)
    requires lo <= hi <= |s|
    ensures lo <= b <= hi
    ensures SpacesBetween(s, b, hi)
    ensures b == lo || !IsSpace(s[b - 1])
    decreases hi
  {
    if lo < hi && IsSpace(s[hi - 1]) then SkipBack(s, lo, hi - 1) else hi
  }

  /** `Strip`: the slice of `s` between its leading and its trailing
      whitespace, which itself starts and ends with a non-space. */
  function Strip(s: string): (r: string)
    ensures var a := SkipFront(s, 0);
      && a + |r| <= |s|
      && r == s[a..a + |r|]
      && SpacesBetween(s, 0, a) && SpacesBetween(s, a + |r|, |s|)
    ensures r == [] || (!IsSpace(r[0]) && !IsSpace(r[|r| - 1]))
  {
    var a := SkipFront(s, 0);
    s[a..SkipBack(s, a, |s|)]
  }

  /** Input with nothing to strip is returned unchanged, so stripping twice
      is stripping once; input of nothing but whitespace strips to nothing. */
  lemma StripFixedPoints(s: string)
    ensures s == [] || (!IsSpace(s[0]) && !IsSpace(s[|s| - 1])) ==> Strip(s) == s
    ensures Strip(Strip(s)) == Strip(s)
    ensures Strip(s) == [] <==> SpacesBetween(s, 0, |s|)
  {
    var r := Strip(s);
    var a := SkipFront(s, 0);
    if r == [] {
      assert SpacesBetween(s, a, |s|);
    } else {
      assert !IsSpace(s[a]);
    }
  }
}
