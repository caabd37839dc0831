/** Sequence notions shared by the catalog and the browse view. */
module Seqs {

  predicate NoDups<T(==)>(s: seq<T>)
  {
    forall i, j :: 0 <= i < j < |s| ==> s[i] != s[j]
  }

  /** `idx` lists, in increasing order, positions of `b` that spell out `a`. */
  ghost predicate IsEmbedding<T>(idx: seq<nat>, a: seq<T>, b: seq<T>)
  {
    && |idx| == |a|
    && (forall k :: 0 <= k < |idx| ==> idx[k] < |b| && a[k] == b[idx[k]])
    && (forall k, l :: 0 <= k < l < |idx| ==> idx[k] < idx[l])
  }

  /** `a` is `b` with some elements dropped and the rest kept in order. */
  ghost predicate IsSubsequence<T>(a: seq<T>, b: seq<T>)
  {
    exists idx :: IsEmbedding(idx, a, b)
  }

  /** Extending both sequences by the same element extends the embedding. */
  lemma EmbeddingAppendBoth<T>(idx: seq<nat>, a: seq<T>, b: seq<T>, x: T)
    requires IsEmbedding(idx, a, b)
    ensures IsEmbedding(idx + [|b|], a + [x], b + [x])
  {
  }

  /** Extending only the longer sequence keeps the embedding. */
  lemma EmbeddingAppendRight<T>(idx: seq<nat>, a: seq<T>, b: seq<T>, x: T)
    requires IsEmbedding(idx, a, b)
    ensures IsEmbedding(idx, a, b + [x])
  {
  }

  /** A subsequence is no longer than its sequence and draws its elements from it. */
  lemma SubsequenceBounds<T>(a: seq<T>, b: seq<T>)
    requires IsSubsequence(a, b)
    ensures |a| <= |b|
    ensures forall x :: x in a ==> x in b
  {
    var idx: seq<nat> :| IsEmbedding(idx, a, b);
    IncreasingBelow(idx, |b|);
    forall x | x in a ensures x in b {
      var k :| 0 <= k < |a| && a[k] == x;
      assert b[idx[k]] == x;
    }
  }

  /** A strictly increasing sequence of naturals below `n` has at most `n` elements. */
  lemma {:induction false} IncreasingBelow(idx: seq<nat>, n: nat)
    requires forall k :: 0 <= k < |idx| ==> idx[k] < n
    requires forall k, l :: 0 <= k < l < |idx| ==> idx[k] < idx[l]
    ensures |idx| <= n
    decreases n
  {
    if |idx| > 0 {
      var m := idx[|idx| - 1];
      IncreasingBelow(idx[..|idx| - 1], m);
    }
  }

  /** The values of a JavaScript `Set` built from `s`: each value of `s`
      exactly once. */
  function Distinct<T(==, !new)>(s: seq<T>): (r: seq<T>)
    ensures NoDups(r)
    ensures forall x :: x in r <==> x in s
  {
    if s == [] then []
    else
      var d := Distinct(s[..|s| - 1]);
      var x := s[|s| - 1];
      assert s == s[..|s| - 1] + [x];
      if x in d then d else d + [x]
  }

  /** `s.filter(y => y !== x)`: every occurrence of `x` dropped, the rest in order. */
  function Remove<T(==, !new)>(s: seq<T>, x: T): (r: seq<T>)
    ensures forall y :: y in r <==> y in s && y != x
    ensures x !in s ==> r == s
    ensures NoDups(s) ==> NoDups(r)
  {
    if s == [] then []
    else
      var init := s[..|s| - 1];
      var last := s[|s| - 1];
      assert s == init + [last];
      assert NoDups(s) ==> NoDups(init) && last !in init;
      if last == x then Remove(init, x) else Remove(init, x) + [last]
  }

  /** What `Remove` keeps stays in its original order. */
  lemma {:induction false} RemoveIsSubsequence<T(!new)>(s: seq<T>, x: T)
    ensures IsSubsequence(Remove(s, x), s)
  {
    if s == [] {
      assert IsEmbedding([], Remove(s, x), s);
    } else {
      var init := s[..|s| - 1];
      RemoveIsSubsequence(init, x);
      var t := Remove(init, x);
      var idx: seq<nat> :| IsEmbedding(idx, t, init);
      if s[|s| - 1] == x {
        assert IsEmbedding(idx, Remove(s, x), s);
      } else {
        assert IsEmbedding(idx + [|s| - 1], Remove(s, x), s);
      }
    }
  }

  /** `s.slice(0, n)`: the first `n` elements, or all of them when there are fewer. */
  function Take<T>(s: seq<T>, n: nat): (r: seq<T>)
    ensures |r| == if n <= |s| then n else |s|
    ensures r == s[..|r|]
  {
    if n <= |s| then s[..n] else s
  }
}
