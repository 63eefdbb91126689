/** Linear search over a sequence, as `Array.prototype.findIndex` and
    `Array.prototype.find` perform it: the FIRST element satisfying the
    predicate wins. */
module Seqs {
  import opened Wrappers

  /** Index of the first element of `s` satisfying `f`, or None. */
  function FindIndex<T>(s: seq<T>, f: T -> bool): (r: Option<nat>)
    ensures r.None? <==> forall i :: 0 <= i < |s| ==> !f(s[i])
    ensures r.Some? ==> r.value < |s| && f(s[r.value])
    ensures r.Some? ==> forall j :: 0 <= j < r.value ==> !f(s[j])
  {
    if s == [] then None
    else if f(s[0]) then Some(0)
    else
      match FindIndex(s[1..], f)
      case None => None
      case Some(k) => Some(k + 1)
  }

  /** The first element of `s` satisfying `f`, or None. */
  function Find<T>(s: seq<T>, f: T -> bool): (r: Option<T>)
    ensures r.None? <==> forall i :: 0 <= i < |s| ==> !f(s[i])
    ensures r.Some? ==>
      exists i :: 0 <= i < |s| && s[i] == r.value && f(s[i]) &&
        forall j :: 0 <= j < i ==> !f(s[j])
  {
    match FindIndex(s, f)
    case None => None
    case Some(i) => Some(s[i])
  }
}
