/** Which positions of a sequence a filter keeps: the reference against which
    the filtering loops of the paper filter are stated. */
module Selection {

  /** The positions of the elements of `s` that satisfy `p`, in increasing order. */
  function Selected<T>(s: seq<T>, p: T -> bool): (idx: seq<nat>)
    ensures forall k :: 0 <= k < |idx| ==> idx[k] < |s| && p(s[idx[k]])
    ensures forall k, l :: 0 <= k < l < |idx| ==> idx[k] < idx[l]
    ensures forall i :: 0 <= i < |s| && p(s[i]) ==> i in idx
  {
    if s == [] then []
    else Selected(s[..|s| - 1], p) + (if p(s[|s| - 1]) then [|s| - 1] else [])
  }

  /** Nothing is selected exactly when no element satisfies the filter. */
  lemma SelectedEmptyIff<T>(s: seq<T>, p: T -> bool)
    ensures Selected(s, p) == [] <==> forall i :: 0 <= i < |s| ==> !p(s[i])
  {
    if Selected(s, p) != [] {
      var i := Selected(s, p)[0];
      assert p(s[i]);
    }
  }
}
