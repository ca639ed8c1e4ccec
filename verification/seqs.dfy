/**
 Nested `for` loops that emit a run of results per element, as one
 sequence operation: `FlatMap(s, f)` is `f(s[0]) + f(s[1]) + ...`.
 */
module Seqs {

  function FlatMap<T, U>(s: seq<T>, f: T -> seq<U>): seq<U>
  {
    if s == [] then [] else f(s[0]) + FlatMap(s[1..], f)
  }

  lemma {:induction false} FlatMapAppend<T, U>(a: seq<T>, b: seq<T>, f: T -> seq<U>)
    ensures FlatMap(a + b, f) == FlatMap(a, f) + FlatMap(b, f)
    decreases |a|
  {
    if a == [] {
      assert a + b == b;
    } else {
      assert (a + b)[0] == a[0] && (a + b)[1..] == a[1..] + b;
      FlatMapAppend(a[1..], b, f);
    }
  }

  /** The run of element `i` sits between the runs of the elements before
      and after it. */
  lemma {:induction false} FlatMapAround<T, U>(s: seq<T>, f: T -> seq<U>, i: int)
    requires 0 <= i < |s|
    ensures FlatMap(s, f) == FlatMap(s[..i], f) + f(s[i]) + FlatMap(s[i + 1..], f)
  {
    var pre, post := s[..i], s[i + 1..];
    var mid := [s[i]] + post;
    assert FlatMap(mid, f) == f(s[i]) + FlatMap(post, f) by {
      assert mid[0] == s[i] && mid[1..] == post;
    }
    assert s == pre + mid;
    FlatMapAppend(pre, mid, f);
  }

  /** An element of the result belongs to the run of some element of `s`,
      and every element of every run is in the result. */
  lemma {:induction false} FlatMapMember<T, U>(s: seq<T>, f: T -> seq<U>, u: U)
    ensures u in FlatMap(s, f) <==> exists i :: 0 <= i < |s| && u in f(s[i])
    decreases |s|
  {
    if s != [] {
      FlatMapMember(s[1..], f, u);
      if exists i :: 0 <= i < |s| && u in f(s[i]) {
        var i :| 0 <= i < |s| && u in f(s[i]);
        if i > 0 {
          assert s[1..][i - 1] == s[i];
        }
      }
      if exists i :: 0 <= i < |s[1..]| && u in f(s[1..][i]) {
        var i :| 0 <= i < |s[1..]| && u in f(s[1..][i]);
        assert s[1..][i] == s[i + 1];
      }
    }
  }

  /** When every element yields a run of exactly itself, the result is `s`. */
  lemma {:induction false} FlatMapSingletons<T>(s: seq<T>, f: T -> seq<T>)
    requires forall i :: 0 <= i < |s| ==> f(s[i]) == [s[i]]
    ensures FlatMap(s, f) == s
    decreases |s|
  {
    if s != [] {
      assert forall i :: 0 <= i < |s[1..]| ==> s[1..][i] == s[i + 1];
      FlatMapSingletons(s[1..], f);
    }
  }

  /** Regrouping a concatenation around its middle piece `d`. */
  lemma Regroup<T>(a: seq<T>, b: seq<T>, c: seq<T>, d: seq<T>, e: seq<T>, f: seq<T>, g: seq<T>)
    ensures a + (b + (c + d + e) + f) + g == (a + b + c) + d + (e + f + g)
  {
  }
}
