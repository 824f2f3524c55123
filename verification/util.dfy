/** Small helpers shared by the netlink modules: an optional value (a C pointer
    that may be NULL) and the first-match scan that every list lookup uses. */
module Util {

  datatype Option<+T> = None | Some(value: T)

  /** Position of the first element of `s` satisfying `p`, scanning from the
      head, or None when no element does. This is the shape of a
      `LIST_FOREACH` loop that returns on the first hit. */
  function FirstMatch<T>(s: seq<T>, p: T -> bool): (r: Option<nat>)
    ensures r.Some? ==> r.value < |s| && p(s[r.value])
    ensures r.Some? ==> forall j :: 0 <= j < r.value ==> !p(s[j])
    ensures r.None? <==> forall j :: 0 <= j < |s| ==> !p(s[j])
    decreases |s|
  {
    if |s| == 0 then None
    else if p(s[0]) then Some(0)
    else
      match FirstMatch(s[1..], p)
      case None => None
      case Some(k) => Some(k + 1)
  }

  /** A position moved one step down a list, as happens to every element
      when another is inserted at the head. */
  function Shift(k: Option<nat>): (r: Option<nat>)
  {
    match k
    case None => None
    case Some(i) => Some(i + 1)
  }

  /** Inserting a non-matching element at the head moves the first match
      one step down. */
  lemma FirstMatchCons<T>(x: T, s: seq<T>, p: T -> bool)
    requires !p(x)
    ensures FirstMatch([x] + s, p) == Shift(FirstMatch(s, p))
  {
    assert ([x] + s)[1..] == s;
  }
}
