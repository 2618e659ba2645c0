/** Order-preserving selection: the indices an `Array.prototype.filter`
    (or a `reduce` that pushes conditionally) keeps. */
module Seqs {

  predicate StrictlyIncreasing(ix: seq<nat>) {
    forall a, b :: 0 <= a < b < |ix| ==> ix[a] < ix[b]
  }

  /** The positions of `s` whose element satisfies `keep`, in order: every
      listed position satisfies it and every position that satisfies it is
      listed, each exactly once. */
  function KeptIndices<T>(s: seq<T>, keep: T -> bool): (ix: seq<nat>)
    ensures StrictlyIncreasing(ix)
    ensures forall k :: 0 <= k < |ix| ==> ix[k] < |s| && keep(s[ix[k]])
    ensures forall i :: 0 <= i < |s| && keep(s[i]) ==> i in ix
  {
    if |s| == 0 then []
    else
      var prefix := s[..|s| - 1];
      var ix := KeptIndices(prefix, keep);
      assert forall k :: 0 <= k < |ix| ==> s[ix[k]] == prefix[ix[k]];
      ix + (if keep(s[|s| - 1]) then [|s| - 1] else [])
  }

  /** Nothing is kept exactly when no element satisfies `keep`. */
  lemma NoneKept<T>(s: seq<T>, keep: T -> bool)
    ensures KeptIndices(s, keep) == [] <==> forall i :: 0 <= i < |s| ==> !keep(s[i])
  {
    var ix := KeptIndices(s, keep);
    if ix != [] {
      assert keep(s[ix[0]]);
    }
  }

  /** `s.filter(keep)`: the kept elements, in order. */
  function Filter<T>(s: seq<T>, keep: T -> bool): (r: seq<T>)
    ensures |r| == |KeptIndices(s, keep)|
    ensures forall k :: 0 <= k < |r| ==> r[k] == s[KeptIndices(s, keep)[k]]
    ensures forall k :: 0 <= k < |r| ==> keep(r[k])
  {
    if |s| == 0 then []
    else
      var prefix := s[..|s| - 1];
      var ix := KeptIndices(prefix, keep);
      assert forall k :: 0 <= k < |ix| ==> s[ix[k]] == prefix[ix[k]];
      Filter(prefix, keep) + (if keep(s[|s| - 1]) then [s[|s| - 1]] else [])
  }
}
