/**
 Paths and reachability over an edge relation given as a predicate.  Shared by the
 clustering walk, which needs both the directed neighbour relation and its
 undirected closure.
 */
module Reachability {

  /** Consecutive entries of `p` are edges. */
  ghost predicate IsPath<T(!new)>(e: (T, T) -> bool, p: seq<T>) {
    p != [] && forall i :: 0 < i < |p| ==> e(p[i - 1], p[i])
  }

  ghost predicate PathFromTo<T(!new)>(e: (T, T) -> bool, p: seq<T>, x: T, y: T) {
    IsPath(e, p) && p[0] == x && p[|p| - 1] == y
  }

  ghost predicate Reaches<T(!new)>(e: (T, T) -> bool, x: T, y: T) {
    exists p :: PathFromTo(e, p, x, y)
  }

  lemma {:induction false} ReachesSelf<T(!new)>(e: (T, T) -> bool, x: T)
    ensures Reaches(e, x, x)
  {
    assert PathFromTo(e, [x], x, x);
  }

  lemma {:induction false} ReachesStep<T(!new)>(e: (T, T) -> bool, x: T, y: T, z: T)
    requires Reaches(e, x, y) && e(y, z)
    ensures Reaches(e, x, z)
  {
    var p :| PathFromTo(e, p, x, y);
    assert PathFromTo(e, p + [z], x, z);
  }

  lemma {:induction false} ReachesEdge<T(!new)>(e: (T, T) -> bool, x: T, y: T)
    requires e(x, y)
    ensures Reaches(e, x, y)
  {
    assert PathFromTo(e, [x, y], x, y);
  }

  lemma {:induction false} ReachesTrans<T(!new)>(e: (T, T) -> bool, x: T, y: T, z: T)
    requires Reaches(e, x, y) && Reaches(e, y, z)
    ensures Reaches(e, x, z)
  {
    var p :| PathFromTo(e, p, x, y);
    var q :| PathFromTo(e, q, y, z);
    var r := p + q[1..];
    forall i | 0 < i < |r|
      ensures e(r[i - 1], r[i])
    {
      if i >= |p| {
        var k := i - |p| + 1;
        assert r[i] == q[k] && r[i - 1] == q[k - 1];
      }
    }
    assert PathFromTo(e, r, x, z);
  }

  /** Everything that is reachable and not the start has a reachable predecessor. */
  lemma {:induction false} LastEdge<T(!new)>(e: (T, T) -> bool, x: T, y: T) returns (w: T)
    requires Reaches(e, x, y) && x != y
    ensures Reaches(e, x, w) && e(w, y)
  {
    var p :| PathFromTo(e, p, x, y);
    var q := p[..|p| - 1];
    w := q[|q| - 1];
    assert PathFromTo(e, q, x, w);
  }

  /** A set closed under the edges keeps everything reachable from its members. */
  lemma {:induction false} ClosedUnderReach<T(!new)>(e: (T, T) -> bool, s: iset<T>, x: T, y: T)
    requires x in s && Reaches(e, x, y)
    requires forall v, w :: v in s && e(v, w) ==> w in s
    ensures y in s
  {
    var p :| PathFromTo(e, p, x, y);
    var i := 0;
    while i < |p| - 1
      invariant 0 <= i < |p| && p[i] in s
    {
      i := i + 1;
      assert e(p[i - 1], p[i]);
    }
  }

  /** Over a symmetric relation reachability is symmetric. */
  lemma {:induction false} ReachesSymmetric<T(!new)>(e: (T, T) -> bool, x: T, y: T)
    requires forall v, w :: e(v, w) ==> e(w, v)
    requires Reaches(e, x, y)
    ensures Reaches(e, y, x)
  {
    var s := iset z | Reaches(e, z, x);
    ReachesSelf(e, x);
    forall v, w | v in s && e(v, w)
      ensures w in s
    {
      ReachesEdge(e, w, v);
      ReachesTrans(e, w, v, x);
    }
    ClosedUnderReach(e, s, x, y);
  }
}
