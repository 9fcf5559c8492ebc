/** Small sequence helpers shared by the router and the parser. */
module SeqUtils {
  /** `std::reverse` on a sequence. */
  function Reverse<T>(s: seq<T>): (r: seq<T>)
    ensures |r| == |s| && forall m :: 0 <= m < |s| ==> r[m] == s[|s| - 1 - m]
  {
    if |s| == 0 then [] else [s[|s| - 1]] + Reverse(s[..|s| - 1])
  }

  /** Reversing after appending puts the appended element first. */
  lemma ReverseSnoc<T>(s: seq<T>, x: T)
    ensures Reverse(s + [x]) == [x] + Reverse(s)
  {
    assert (s + [x])[..|s|] == s;
  }

  /** The sequence reads the same backwards. */
  predicate IsPalindrome<T(==)>(s: seq<T>) {
    forall m :: 0 <= m < |s| ==> s[m] == s[|s| - 1 - m]
  }

  /** The positions `a < b` of a sequence hold different values. */
  predicate Distinct<T(==)>(s: seq<T>) {
    forall a, b :: 0 <= a < b < |s| ==> s[a] != s[b]
  }

  lemma PrefixSnoc<T>(s: seq<T>, m: nat)
    requires m < |s|
    ensures s[..m + 1] == s[..m] + [s[m]]
  {
  }

  lemma AppendAssoc<T>(a: seq<T>, b: seq<T>, c: seq<T>)
    ensures (a + b) + c == a + (b + c)
  {
  }

  /** Growing `done` by `x` at the end, once the result already extends
      `base` by `done`, extends `base` by the grown `done`. */
  lemma SnocStep<T>(base: seq<T>, before: seq<T>, after: seq<T>, done: seq<T>, x: T, grown: seq<T>)
    requires before == base + done && after == before + [x] && grown == done + [x]
    ensures after == base + grown
  {
    AppendAssoc(base, done, [x]);
  }
}
