/** A sequence standing inside another one. */
module Chunks {

  /** The chunk stands in s at position i. */
  ghost predicate HasAt<T>(s: seq<T>, i: nat, chunk: seq<T>) {
    i + |chunk| <= |s| && forall k :: 0 <= k < |chunk| ==> s[i + k] == chunk[k]
  }

  lemma HasAtParts<T>(s: seq<T>, i: nat, a: seq<T>, b: seq<T>)
    requires HasAt(s, i, a + b)
    ensures HasAt(s, i, a) && HasAt(s, i + |a|, b)
  {
    assert forall k :: 0 <= k < |a| ==> (a + b)[k] == a[k];
    forall k | 0 <= k < |b| ensures s[i + |a| + k] == b[k] {
      assert (a + b)[|a| + k] == b[k];
    }
  }
}
