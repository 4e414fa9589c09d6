/**
  Scans over sequences: the first element meeting a test (the particle
  catalog search) and the null-free prefix a Java for-each loop gets through
  before `Objects.requireNonNull` stops it.
 */
module Sequences {
  import opened JavaLang

  /** Index of the first element of `s` satisfying `p`, scanning from the front. */
  function FirstIndexOf<T>(s: seq<T>, p: T -> bool): (r: Option<nat>)
    ensures r.Some? ==> r.value < |s| && p(s[r.value])
    ensures r.Some? ==> forall j :: 0 <= j < r.value ==> !p(s[j])
    ensures r.None? <==> forall j :: 0 <= j < |s| ==> !p(s[j])
  {
    if |s| == 0 then None
    else if p(s[0]) then Some(0)
    else
      match FirstIndexOf(s[1..], p)
      case None =>
        assert forall j :: 1 <= j < |s| ==> s[j] == s[1..][j - 1];
        None
      case Some(k) =>
        assert forall j :: 1 <= j < k + 1 ==> s[j] == s[1..][j - 1];
        Some(k + 1)
  }

  /** How many leading elements a loop that rejects `null` processes. */
  function NullFreePrefix<T>(xs: seq<Option<T>>): (n: nat)
    ensures n <= |xs|
    ensures forall i :: 0 <= i < n ==> xs[i].Some?
    ensures n < |xs| ==> xs[n].None?
  {
    if |xs| == 0 || xs[0].None? then 0 else 1 + NullFreePrefix(xs[1..])
  }

  /** The null-free prefix of a sequence starting with a value is that value
      followed by the null-free prefix of the rest. */
  lemma NullFreePrefixSplits<T>(xs: seq<Option<T>>)
    requires |xs| > 0 && xs[0].Some?
    ensures xs[..NullFreePrefix(xs)] == [xs[0]] + xs[1..][..NullFreePrefix(xs[1..])]
  {
  }
}
