/** Linear searches over a list for the first or the last element with a property. */
module Searches {
  import opened Wrappers

  /** The first element at or after position from that satisfies p, if any. */
  function FirstFrom<T>(s: seq<T>, p: T -> bool, from: nat): (r: Option<T>)
    requires from <= |s|
    ensures r.None? <==> forall i :: from <= i < |s| ==> !p(s[i])
    ensures r.Some? ==> exists i :: from <= i < |s| && s[i] == r.value && p(r.value)
                          && forall j :: from <= j < i ==> !p(s[j])
    decreases |s| - from
  {
    if from == |s| then None
    else if p(s[from]) then Some(s[from])
    else FirstFrom(s, p, from + 1)
  }

  /** The last element among the first n that satisfies p, if any. */
  function LastBefore<T>(s: seq<T>, p: T -> bool, n: nat): (r: Option<T>)
    requires n <= |s|
    ensures r.None? <==> forall i :: 0 <= i < n ==> !p(s[i])
    ensures r.Some? ==> exists i :: 0 <= i < n && s[i] == r.value && p(r.value)
                          && forall j :: i < j < n ==> !p(s[j])
  {
    if n == 0 then None
    else if p(s[n - 1]) then Some(s[n - 1])
    else LastBefore(s, p, n - 1)
  }

  /** The first and the last match exist together. */
  lemma FirstAndLastAgreeOnExistence<T>(s: seq<T>, p: T -> bool)
    ensures FirstFrom(s, p, 0).None? <==> LastBefore(s, p, |s|).None?
  {
  }

  /** With a single match the first and the last are the same element. */
  lemma SingleMatch<T>(s: seq<T>, p: T -> bool, k: nat)
    requires k < |s| && p(s[k])
    requires forall i :: 0 <= i < |s| && i != k ==> !p(s[i])
    ensures FirstFrom(s, p, 0) == LastBefore(s, p, |s|) == Some(s[k])
  {
  }
}
