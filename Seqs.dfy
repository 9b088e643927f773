// Order-preserving selection from a sequence: the shape shared by the
// loops that collect matching attributes, objects and types.
module Seqs {

  /** The elements of s that satisfy keep, in their original order. */
  function Filter<T>(s: seq<T>, keep: T -> bool): seq<T>
  {
    if |s| == 0 then []
    else Filter(s[..|s| - 1], keep) + (if keep(s[|s| - 1]) then [s[|s| - 1]] else [])
  }

  /** One more element: the filter of the longer prefix extends the shorter one. */
  lemma FilterStep<T>(s: seq<T>, i: nat, keep: T -> bool)
    requires i < |s|
    ensures Filter(s[..i + 1], keep) == Filter(s[..i], keep) + (if keep(s[i]) then [s[i]] else [])
  {
    assert s[..i + 1][..i] == s[..i];
  }

  /** An element is selected exactly when it occurs in s and satisfies keep. */
  lemma {:induction false} FilterMember<T>(s: seq<T>, keep: T -> bool, x: T)
    ensures x in Filter(s, keep) <==> x in s && keep(x)
    decreases |s|
  {
    if |s| > 0 {
      var front := s[..|s| - 1];
      FilterMember(front, keep, x);
      assert s == front + [s[|s| - 1]];
    }
  }

  /** Selection commutes with concatenation, so it keeps the original order. */
  lemma {:induction false} FilterAppend<T>(a: seq<T>, b: seq<T>, keep: T -> bool)
    ensures Filter(a + b, keep) == Filter(a, keep) + Filter(b, keep)
    decreases |b|
  {
    if |b| > 0 {
      var n := |b| - 1;
      FilterAppend(a, b[..n], keep);
      assert (a + b)[..|a + b| - 1] == a + b[..n];
    } else {
      assert a + b == a;
    }
  }

  /** A filter never lengthens its input. */
  lemma {:induction false} FilterLength<T>(s: seq<T>, keep: T -> bool)
    ensures |Filter(s, keep)| <= |s|
    ensures |Filter(s, keep)| == |s| <==> forall i :: 0 <= i < |s| ==> keep(s[i])
    decreases |s|
  {
    if |s| > 0 {
      var front := s[..|s| - 1];
      FilterLength(front, keep);
      if forall i :: 0 <= i < |s| ==> keep(s[i]) {
        assert forall i :: 0 <= i < |front| ==> keep(front[i]) by {
          forall i | 0 <= i < |front| ensures keep(front[i]) {
            assert front[i] == s[i];
          }
        }
      }
    }
  }

  lemma AppendAssoc<T>(a: seq<T>, b: seq<T>, c: seq<T>)
    ensures a + b + c == a + (b + c)
  {
  }

  /** No element occurs twice. */
  predicate NoDup<T(==)>(s: seq<T>)
  {
    forall i, j :: 0 <= i < j < |s| ==> s[i] != s[j]
  }

  /** The images under f of the elements of s, concatenated in order. */
  function FlatMap<A, B>(s: seq<A>, f: A --> seq<B>): seq<B>
    requires forall a :: a in s ==> f.requires(a)
  {
    if |s| == 0 then [] else FlatMap(s[..|s| - 1], f) + f(s[|s| - 1])
  }

  /** An element of the concatenation comes from the image of one element. */
  lemma {:induction false} FlatMapMember<A, B>(s: seq<A>, f: A --> seq<B>, x: B)
    requires forall a :: a in s ==> f.requires(a)
    ensures x in FlatMap(s, f) <==> exists k :: 0 <= k < |s| && x in f(s[k])
    decreases |s|
  {
    if |s| > 0 {
      var n := |s| - 1;
      var front := s[..n];
      assert forall a :: a in front ==> a in s;
      FlatMapMember(front, f, x);
      if x in FlatMap(s, f) && x in FlatMap(front, f) {
        var k :| 0 <= k < n && x in f(front[k]);
        assert front[k] == s[k];
      }
      if exists k :: 0 <= k < |s| && x in f(s[k]) {
        var k :| 0 <= k < |s| && x in f(s[k]);
        if k < n {
          assert front[k] == s[k];
        }
      }
    }
  }
}
