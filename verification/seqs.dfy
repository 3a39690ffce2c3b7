/** Order-preserving selection from a sequence: what JavaScript's
    `Array.prototype.filter` keeps, and at which positions. */
module Seqs {

  /** The elements of `s` that satisfy `p`, in their original order. */
  function Filter<T>(s: seq<T>, p: T -> bool): (r: seq<T>)
    ensures |r| <= |s|
    ensures forall k :: 0 <= k < |r| ==> r[k] in s && p(r[k])
    ensures forall i :: 0 <= i < |s| && p(s[i]) ==> s[i] in r
  {
    if |s| == 0 then []
    else
      var n := |s| - 1;
      assert forall i :: 0 <= i < n ==> s[..n][i] == s[i];
      Filter(s[..n], p) + (if p(s[n]) then [s[n]] else [])
  }

  /** The positions of the elements of `s` that satisfy `p`: in range,
      strictly increasing, and containing every such position. */
  function MatchingIndices<T>(s: seq<T>, p: T -> bool): (r: seq<nat>)
    ensures |r| <= |s|
    ensures forall k :: 0 <= k < |r| ==> r[k] < |s| && p(s[r[k]])
    ensures forall j, k :: 0 <= j < k < |r| ==> r[j] < r[k]
    ensures forall i :: 0 <= i < |s| && p(s[i]) ==> i in r
  {
    if |s| == 0 then []
    else
      var n := |s| - 1;
      var prefix := MatchingIndices(s[..n], p);
      assert forall i :: 0 <= i < n ==> s[..n][i] == s[i];
      prefix + (if p(s[n]) then [n] else [])
  }

  /** The elements of `s` at the positions `idx`, in the order of `idx`. */
  function Pick<T>(s: seq<T>, idx: seq<nat>): (r: seq<T>)
    requires forall k :: 0 <= k < |idx| ==> idx[k] < |s|
    ensures |r| == |idx|
    ensures forall k :: 0 <= k < |idx| ==> r[k] == s[idx[k]]
  {
    seq(|idx|, k requires 0 <= k < |idx| => s[idx[k]])
  }

  /** Filtering is exactly picking the matching positions: the result is the
      subsequence of `s` made of all elements satisfying `p`, nothing else. */
  lemma {:induction false} FilterIsPick<T>(s: seq<T>, p: T -> bool)
    ensures Filter(s, p) == Pick(s, MatchingIndices(s, p))
  {
    if |s| > 0 {
      var n := |s| - 1;
      var idx := MatchingIndices(s[..n], p);
      var last: seq<nat> := if p(s[n]) then [n] else [];
      FilterIsPick(s[..n], p);
      PickFromPrefix(s, n, idx);
      PickConcat(s, idx, last);
      assert Pick(s, last) == (if p(s[n]) then [s[n]] else []);
    }
  }

  lemma PickFromPrefix<T>(s: seq<T>, n: nat, idx: seq<nat>)
    requires n <= |s|
    requires forall k :: 0 <= k < |idx| ==> idx[k] < n
    ensures Pick(s[..n], idx) == Pick(s, idx)
  {
  }

  lemma PickConcat<T>(s: seq<T>, a: seq<nat>, b: seq<nat>)
    requires forall k :: 0 <= k < |a| ==> a[k] < |s|
    requires forall k :: 0 <= k < |b| ==> b[k] < |s|
    ensures Pick(s, a + b) == Pick(s, a) + Pick(s, b)
  {
  }

  /** The matching positions depend only on which positions match. */
  lemma {:induction false} MatchingIndicesPointwise<T, U>(s: seq<T>, p: T -> bool, t: seq<U>, q: U -> bool)
    requires |s| == |t|
    requires forall i :: 0 <= i < |s| ==> p(s[i]) == q(t[i])
    ensures MatchingIndices(s, p) == MatchingIndices(t, q)
  {
    if |s| > 0 {
      var n := |s| - 1;
      MatchingIndicesPointwise(s[..n], p, t[..n], q);
    }
  }

  /** `g` applied to every element, in order. */
  function Map<T, U>(s: seq<T>, g: T -> U): (r: seq<U>)
    ensures |r| == |s|
    ensures forall i :: 0 <= i < |s| ==> r[i] == g(s[i])
  {
    seq(|s|, i requires 0 <= i < |s| => g(s[i]))
  }

  /** Filtering commutes with a map that never changes whether an element
      passes the filter. */
  lemma {:induction false} FilterMapCommute<T>(s: seq<T>, g: T -> T, p: T -> bool)
    requires forall x :: p(g(x)) == p(x)
    ensures Filter(Map(s, g), p) == Map(Filter(s, p), g)
  {
    if |s| > 0 {
      var n := |s| - 1;
      var m := Map(s, g);
      assert m[..n] == Map(s[..n], g);
      FilterMapCommute(s[..n], g, p);
      var kept := if p(s[n]) then [s[n]] else [];
      assert p(m[n]) == p(s[n]);
      assert Filter(m, p) == Filter(m[..n], p) + (if p(m[n]) then [m[n]] else []);
      assert Filter(s, p) == Filter(s[..n], p) + kept;
      MapConcat(Filter(s[..n], p), kept, g);
      assert Map(kept, g) == (if p(m[n]) then [m[n]] else []);
    }
  }

  lemma MapConcat<T, U>(a: seq<T>, b: seq<T>, g: T -> U)
    ensures Map(a + b, g) == Map(a, g) + Map(b, g)
  {
  }
}
