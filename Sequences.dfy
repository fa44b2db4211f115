/** Order-preserving operations on lists of rows: the `where`, `filter` and `take` steps of a query. */
module Sequences {

  function Min(a: int, b: int): int {
    if a <= b then a else b
  }

  /** `key` strictly increases along `s`. */
  ghost predicate StrictlyIncreasing<T>(s: seq<T>, key: T -> int) {
    forall i, j :: 0 <= i < j < |s| ==> key(s[i]) < key(s[j])
  }

  /** The elements of `s` that satisfy `p`, in their original order. */
  function Filter<T>(s: seq<T>, p: T -> bool): (r: seq<T>)
    ensures |r| <= |s|
    ensures forall i :: 0 <= i < |r| ==> r[i] in s && p(r[i])
    ensures forall i :: 0 <= i < |s| && p(s[i]) ==> s[i] in r
  {
    if s == [] then []
    else (if p(s[0]) then [s[0]] else []) + Filter(s[1..], p)
  }

  lemma IncreasingTail<T>(s: seq<T>, key: T -> int)
    requires s != [] && StrictlyIncreasing(s, key)
    ensures StrictlyIncreasing(s[1..], key)
    ensures forall x :: x in s[1..] ==> key(s[0]) < key(x)
  {
    var tail := s[1..];
    forall i, j | 0 <= i < j < |tail| ensures key(tail[i]) < key(tail[j]) {
      assert tail[i] == s[i + 1] && tail[j] == s[j + 1];
    }
    forall x | x in tail ensures key(s[0]) < key(x) {
      var k :| 0 <= k < |tail| && tail[k] == x;
      assert s[k + 1] == x;
    }
  }

  lemma IncreasingCons<T>(x: T, s: seq<T>, key: T -> int)
    requires StrictlyIncreasing(s, key)
    requires forall m :: 0 <= m < |s| ==> key(x) < key(s[m])
    ensures StrictlyIncreasing([x] + s, key)
  {
    var r := [x] + s;
    forall i, j | 0 <= i < j < |r| ensures key(r[i]) < key(r[j]) {
      assert r[j] == s[j - 1];
      if i > 0 {
        assert r[i] == s[i - 1];
      }
    }
  }

  /** Filtering keeps the relative order of the elements it keeps. */
  lemma {:induction false} FilterKeepsOrder<T>(s: seq<T>, p: T -> bool, key: T -> int)
    requires StrictlyIncreasing(s, key)
    ensures StrictlyIncreasing(Filter(s, p), key)
  {
    if s != [] {
      IncreasingTail(s, key);
      FilterKeepsOrder(s[1..], p, key);
      var rest := Filter(s[1..], p);
      if p(s[0]) {
        forall m | 0 <= m < |rest| ensures key(s[0]) < key(rest[m]) {
          assert rest[m] in s[1..];
        }
        IncreasingCons(s[0], rest, key);
        assert Filter(s, p) == [s[0]] + rest;
      } else {
        assert Filter(s, p) == rest;
      }
    }
  }

  /** The first `n` elements of `s`, or all of them when there are fewer. */
  function Take<T>(s: seq<T>, n: nat): (r: seq<T>)
    ensures |r| == Min(n, |s|)
    ensures r == s[..|r|]
  {
    if |s| <= n then s else s[..n]
  }

  /**
   * Taking the first `n` elements of a filtered list: an element of `s` that satisfies `p` is
   * left out only when `n` elements were returned.
   */
  lemma TakeFilterComplete<T>(s: seq<T>, p: T -> bool, n: nat)
    ensures forall i :: 0 <= i < |s| && p(s[i]) && s[i] !in Take(Filter(s, p), n) ==>
      |Take(Filter(s, p), n)| == n
  {
    var f := Filter(s, p);
    forall i | 0 <= i < |s| && p(s[i]) && s[i] !in Take(f, n) ensures |Take(f, n)| == n {
      var k :| 0 <= k < |f| && f[k] == s[i];
    }
  }

  /** `needle` occurs in `hay` starting at position `i`. */
  predicate OccursAt<T(==)>(hay: seq<T>, needle: seq<T>, i: nat) {
    i + |needle| <= |hay| && hay[i..i + |needle|] == needle
  }

  /** `needle` occurs in `hay` as a contiguous block, as SQL `LIKE '%needle%'` matches. */
  predicate Contains<T(==)>(hay: seq<T>, needle: seq<T>)
    ensures Contains(hay, needle) <==> exists i :: OccursAt(hay, needle, i)
  {
    assert needle <= hay ==> OccursAt(hay, needle, 0);
    assert OccursAt(hay, needle, 0) ==> needle <= hay;
    assert forall i: nat :: OccursAt(hay, needle, i) && i > 0 ==> OccursAt(hay[1..], needle, i - 1);
    assert hay != [] ==> forall i: nat :: OccursAt(hay[1..], needle, i) ==> OccursAt(hay, needle, i + 1);
    needle <= hay || (hay != [] && Contains(hay[1..], needle))
  }
}
