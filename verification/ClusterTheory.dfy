/**
 What the clustering walk guarantees: for an arbitrary neighbour relation, and, under an
 exact condition on the relation, that the result is the list of its connected components.
 */
module ClusterTheory {
  import opened Wrappers
  import opened Reachability
  import opened Clusters

  ghost predicate Covered(cs: seq<set<Id>>, x: Id) {
    exists i :: 0 <= i < |cs| && x in cs[i]
  }

  /** The members of `s` are ids of the graph. */
  ghost predicate AllIn(g: Graph, s: seq<Id>) {
    forall x :: x in s ==> x in g.ids
  }

  lemma {:induction false} CoveredConcat(a: seq<set<Id>>, b: seq<set<Id>>, x: Id)
    requires Covered(a, x) || Covered(b, x)
    ensures Covered(a + b, x)
  {
    if i :| 0 <= i < |a| && x in a[i] {
      assert (a + b)[i] == a[i];
    } else {
      var i :| 0 <= i < |b| && x in b[i];
      assert (a + b)[|a| + i] == b[i];
    }
  }

  lemma {:induction false} ReachIsClosed(g: Graph, s: Id)
    requires WellFormed(g)
    ensures Closed(g, Reach(g, s))
  {
    forall x, y | x in Reach(g, s) && y in Near(g, x)
      ensures y in Reach(g, s)
    {
      ReachesStep(Forward(g), s, x, y);
    }
  }

  lemma {:induction false} VisitedStaysClosed(g: Graph, visited: set<Id>, s: Id)
    requires WellFormed(g) && Closed(g, visited)
    ensures Closed(g, VisitedAfter(g, visited, s))
  {
    ReachIsClosed(g, s);
  }

  lemma {:induction false} TwoMembers(c: set<Id>, x: Id, y: Id)
    requires x in c && y in c && x != y
    ensures |c| >= 2
  {
    assert |{x, y}| == 2 && {x, y} <= c;
    SubsetSize({x, y}, c);
  }

  // ---------------------------------------------------------------------------
  // Any neighbour relation
  // ---------------------------------------------------------------------------

  /** An id first met by this start is a member of the start's cluster, and so are its neighbours. */
  lemma {:induction false} FirstMet(g: Graph, visited: set<Id>, start: Id, x: Id)
    requires WellFormed(g) && Closed(g, visited) && start in g.ids
    requires x in Reach(g, start) - visited
    ensures x in ClusterFrom(g, visited, start)
    ensures forall y :: y in Near(g, x) ==> y in ClusterFrom(g, visited, start)
  {
    if x != start {
      var w := LastEdge(Forward(g), start, x);
      assert w in Reach(g, start) - visited;
    }
  }

  lemma {:induction false} ClusterWithinReach(g: Graph, visited: set<Id>, start: Id)
    requires WellFormed(g) && start in g.ids
    ensures start in ClusterFrom(g, visited, start)
    ensures ClusterFrom(g, visited, start) <= Reach(g, start)
  {
    ReachesSelf(Forward(g), start);
    ReachIsClosed(g, start);
    forall y | y in Neighbours(g, Reach(g, start) - visited)
      ensures y in Reach(g, start)
    {
      var x :| x in Reach(g, start) - visited && y in Near(g, x);
    }
  }

  lemma {:induction false} HasNeighbours(g: Graph, x: Id) returns (y: Id)
    requires WellFormed(g) && Near(g, x) != []
    ensures x in g.ids && y in Near(g, x) && y != x && y in g.ids
  {
    y := Near(g, x)[0];
    assert y in Near(g, x);
  }

  /** `c` was grown from one of the starts and stays within that start's forward reach. */
  ghost predicate Grown(g: Graph, starts: seq<Id>, c: set<Id>) {
    |c| >= 2 && exists s :: s in starts && s in c && c <= Reach(g, s)
  }

  lemma {:induction false} WalkGrows(g: Graph, starts: seq<Id>, visited: set<Id>, i: nat)
    requires WellFormed(g) && AllIn(g, starts)
    requires i < |Walk(g, starts, visited)|
    ensures Grown(g, starts, Walk(g, starts, visited)[i])
  {
    var s, rest := starts[0], starts[1..];
    var first := Yield(g, visited, s);
    var next := VisitedAfter(g, visited, s);
    assert Walk(g, starts, visited) == first + Walk(g, rest, next);
    if i < |first| {
      ClusterWithinReach(g, visited, s);
    } else {
      WalkGrows(g, rest, next, i - |first|);
    }
  }

  lemma {:induction false} WalkCovers(g: Graph, starts: seq<Id>, visited: set<Id>, x: Id)
    requires WellFormed(g) && AllIn(g, starts) && Closed(g, visited)
    requires x in starts && x !in visited && Near(g, x) != []
    ensures Covered(Walk(g, starts, visited), x)
  {
    var s, rest := starts[0], starts[1..];
    var first := Yield(g, visited, s);
    var next := VisitedAfter(g, visited, s);
    assert starts == [s] + rest;
    if s !in visited && x in Reach(g, s) {
      FirstMet(g, visited, s, x);
      var y := Near(g, x)[0];
      assert y in Near(g, x);
      TwoMembers(ClusterFrom(g, visited, s), x, y);
      assert x in first[0];
    } else {
      if s == x {
        ReachesSelf(Forward(g), s);
      }
      VisitedStaysClosed(g, visited, s);
      WalkCovers(g, rest, next, x);
    }
    CoveredConcat(first, Walk(g, rest, next), x);
  }

  /**
   For every neighbour relation, capped or not, and every order of the ids: each cluster
   lies within the forward reach of one of its own members, and every memory that has a
   neighbour is in some cluster.
   */
  lemma {:induction false} AnyRelation(g: Graph, order: seq<Id>)
    requires WellFormed(g) && Enumerates(g, order)
    ensures forall i :: 0 <= i < |Walk(g, order, {})| ==> Grown(g, order, Walk(g, order, {})[i])
    ensures forall x :: x in g.ids && Near(g, x) != [] ==> Covered(Walk(g, order, {}), x)
  {
    forall i | 0 <= i < |Walk(g, order, {})|
      ensures Grown(g, order, Walk(g, order, {})[i])
    {
      WalkGrows(g, order, {}, i);
    }
    forall x | x in g.ids && Near(g, x) != []
      ensures Covered(Walk(g, order, {}), x)
    {
      WalkCovers(g, order, {}, x);
    }
  }

  // ---------------------------------------------------------------------------
  // Connected components
  // ---------------------------------------------------------------------------

  ghost predicate Disjoint(cs: seq<set<Id>>) {
    forall i, j :: 0 <= i < j < |cs| ==> cs[i] !! cs[j]
  }

  ghost predicate IsComponent(g: Graph, c: set<Id>) {
    |c| >= 2 && exists x :: x in g.ids && c == Component(g, x)
  }

  /** Every component of the relation of size at least two, each once, nothing else. */
  ghost predicate ComponentsOf(g: Graph, cs: seq<set<Id>>) {
    && (forall i :: 0 <= i < |cs| ==> IsComponent(g, cs[i]))
    && (forall x :: x in g.ids && |Component(g, x)| >= 2 ==> Covered(cs, x))
    && Disjoint(cs)
  }

  ghost predicate Symmetric(g: Graph) {
    forall x, y :: y in Near(g, x) ==> x in Near(g, y)
  }

  ghost predicate Linked(g: Graph, x: Id, y: Id) {
    Reaches(Undirected(g), x, y)
  }

  /** Any two memories that have neighbours and are linked at all reach each other. */
  ghost predicate Balanced(g: Graph) {
    forall x, y :: Near(g, x) != [] && Near(g, y) != [] && Linked(g, x, y) ==> y in Reach(g, x)
  }

  lemma {:induction false} ForwardLinks(g: Graph, x: Id, y: Id)
    requires Reaches(Forward(g), x, y)
    ensures Linked(g, x, y)
  {
    var p :| PathFromTo(Forward(g), p, x, y);
    assert PathFromTo(Undirected(g), p, x, y);
  }

  lemma {:induction false} LinkedSymmetric(g: Graph, x: Id, y: Id)
    requires Linked(g, x, y)
    ensures Linked(g, y, x)
  {
    ReachesSymmetric(Undirected(g), x, y);
  }

  lemma {:induction false} SameComponent(g: Graph, x: Id, y: Id)
    requires Linked(g, x, y)
    ensures Component(g, x) == Component(g, y)
  {
    LinkedSymmetric(g, x, y);
    forall z
      ensures z in Component(g, x) <==> z in Component(g, y)
    {
      if z in Component(g, x) { ReachesTrans(Undirected(g), y, x, z); }
      if z in Component(g, y) { ReachesTrans(Undirected(g), x, y, z); }
    }
  }

  /** In a balanced relation a memory with neighbours reaches its whole component. */
  lemma {:induction false} ReachIsComponent(g: Graph, s: Id)
    requires WellFormed(g) && Balanced(g) && Near(g, s) != []
    ensures Reach(g, s) == Component(g, s)
  {
    forall y | y in Reach(g, s)
      ensures y in Component(g, s)
    {
      ForwardLinks(g, s, y);
    }
    forall y | y in Component(g, s)
      ensures y in Reach(g, s)
    {
      if Near(g, y) == [] {
        var w := LastEdge(Undirected(g), s, y);
        assert y in Near(g, w);
        assert w in Reach(g, s);
        ReachesStep(Forward(g), s, w, y);
      }
    }
  }

  lemma {:induction false} ClusterIsComponent(g: Graph, visited: set<Id>, s: Id)
    requires WellFormed(g) && Balanced(g) && Closed(g, visited)
    requires s in g.ids && s !in visited && Near(g, s) != []
    ensures ClusterFrom(g, visited, s) == Component(g, s)
  {
    ReachIsComponent(g, s);
    ClusterWithinReach(g, visited, s);
    forall y | y in Reach(g, s)
      ensures y in ClusterFrom(g, visited, s)
    {
      if y != s {
        var w := LastEdge(Forward(g), s, y);
        if w in visited {
          ForwardLinks(g, s, w);
          LinkedSymmetric(g, s, w);
          assert s in Reach(g, w);
          ClosedReach(g, visited, w, s);
        }
        assert w in Reach(g, s) - visited;
      }
    }
  }

  /** A memory without neighbours yields nothing. */
  lemma {:induction false} LoneStart(g: Graph, visited: set<Id>, s: Id)
    requires WellFormed(g) && Near(g, s) == []
    ensures Yield(g, visited, s) == []
  {
    forall y | y in Reach(g, s)
      ensures y == s
    {
      ClosedUnderReach(Forward(g), iset{s}, s, y);
    }
    assert ClusterFrom(g, visited, s) == {s};
  }

  /** `c` is the component of a memory that has neighbours and was not walked before. */
  ghost predicate FreshComponent(g: Graph, visited: set<Id>, c: set<Id>) {
    exists s :: s in g.ids && s !in visited && Near(g, s) != [] && c == Component(g, s)
  }

  lemma {:induction false} WalkYieldsComponents(g: Graph, starts: seq<Id>, visited: set<Id>, i: nat)
    requires WellFormed(g) && Balanced(g) && AllIn(g, starts) && Closed(g, visited)
    requires i < |Walk(g, starts, visited)|
    ensures FreshComponent(g, visited, Walk(g, starts, visited)[i])
  {
    var s, rest := starts[0], starts[1..];
    var first := Yield(g, visited, s);
    var next := VisitedAfter(g, visited, s);
    assert Walk(g, starts, visited) == first + Walk(g, rest, next);
    if i < |first| {
      if Near(g, s) == [] {
        LoneStart(g, visited, s);
      } else {
        ClusterIsComponent(g, visited, s);
      }
    } else {
      VisitedStaysClosed(g, visited, s);
      WalkYieldsComponents(g, rest, next, i - |first|);
    }
  }

  /** A component grown later is disjoint from the one just walked. */
  lemma {:induction false} LaterIsDisjoint(g: Graph, s: Id, visited: set<Id>, c: set<Id>)
    requires WellFormed(g) && Balanced(g) && Near(g, s) != []
    requires Reach(g, s) <= visited && FreshComponent(g, visited, c)
    ensures Component(g, s) !! c
  {
    ReachIsComponent(g, s);
    var t :| t in g.ids && t !in visited && Near(g, t) != [] && c == Component(g, t);
    forall y | y in Component(g, s) && y in Component(g, t)
      ensures false
    {
      SameComponent(g, s, y);
      SameComponent(g, t, y);
      ReachesSelf(Undirected(g), t);
    }
  }

  lemma {:induction false} DisjointCons(c: set<Id>, cs: seq<set<Id>>)
    requires Disjoint(cs)
    requires forall j :: 0 <= j < |cs| ==> c !! cs[j]
    ensures Disjoint([c] + cs)
  {
  }

  lemma {:induction false} WalkDisjoint(g: Graph, starts: seq<Id>, visited: set<Id>)
    requires WellFormed(g) && Balanced(g) && AllIn(g, starts) && Closed(g, visited)
    ensures Disjoint(Walk(g, starts, visited))
  {
    if starts != [] {
      var s, rest := starts[0], starts[1..];
      var next := VisitedAfter(g, visited, s);
      var later := Walk(g, rest, next);
      VisitedStaysClosed(g, visited, s);
      WalkDisjoint(g, rest, next);
      if Yield(g, visited, s) != [] {
        if Near(g, s) == [] {
          LoneStart(g, visited, s);
        } else {
          ClusterIsComponent(g, visited, s);
          forall j | 0 <= j < |later|
            ensures Component(g, s) !! later[j]
          {
            WalkYieldsComponents(g, rest, next, j);
            LaterIsDisjoint(g, s, next, later[j]);
          }
          DisjointCons(Component(g, s), later);
        }
      } else {
        assert Walk(g, starts, visited) == later;
      }
    }
  }

  /** A component of size two or more holds a memory that has neighbours. */
  lemma {:induction false} ComponentHasNeighbours(g: Graph, x: Id) returns (z: Id)
    requires WellFormed(g) && x in g.ids && |Component(g, x)| >= 2
    ensures z in Component(g, x) && Near(g, z) != []
  {
    if Near(g, x) != [] {
      z := x;
      ReachesSelf(Undirected(g), x);
    } else {
      var others := Component(g, x) - {x};
      if others == {} {
        SubsetSize(Component(g, x), {x});
      }
      var y := Pick(others);
      var p :| PathFromTo(Undirected(g), p, x, y);
      assert Undirected(g)(p[0], p[1]);
      z := p[1];
      ReachesEdge(Undirected(g), x, z);
    }
  }

  lemma {:induction false} SharedComponent(g: Graph, c: set<Id>, z: Id, x: Id)
    requires FreshComponent(g, {}, c) && z in c && z in Component(g, x) && x in g.ids
    ensures x in c
  {
    var s :| s in g.ids && c == Component(g, s);
    assert z in Component(g, s);
    SameComponent(g, s, z);
    SameComponent(g, x, z);
    ReachesSelf(Undirected(g), x);
  }

  lemma {:induction false} WalkCoversComponents(g: Graph, order: seq<Id>, x: Id)
    requires WellFormed(g) && Balanced(g) && Enumerates(g, order)
    requires x in g.ids && |Component(g, x)| >= 2
    ensures Covered(Walk(g, order, {}), x)
  {
    var z := ComponentHasNeighbours(g, x);
    var cs := Walk(g, order, {});
    WalkCovers(g, order, {}, z);
    var i :| 0 <= i < |cs| && z in cs[i];
    WalkYieldsComponents(g, order, {}, i);
    SharedComponent(g, cs[i], z, x);
  }

  lemma {:induction false} BalancedIsComponents(g: Graph, order: seq<Id>)
    requires WellFormed(g) && Balanced(g) && Enumerates(g, order)
    ensures ComponentsOf(g, Walk(g, order, {}))
  {
    var cs := Walk(g, order, {});
    forall i | 0 <= i < |cs|
      ensures IsComponent(g, cs[i])
    {
      WalkGrows(g, order, {}, i);
      WalkYieldsComponents(g, order, {}, i);
    }
    forall x | x in g.ids && |Component(g, x)| >= 2
      ensures Covered(cs, x)
    {
      WalkCoversComponents(g, order, x);
    }
    WalkDisjoint(g, order, {});
  }

  lemma {:induction false} SomeOrder(s: set<Id>) returns (r: seq<Id>)
    ensures forall x :: x in r <==> x in s
  {
    if s == {} {
      r := [];
    } else {
      var m := Pick(s);
      r := SomeOrder(s - {m});
      r := [m] + r;
    }
  }

  lemma {:induction false} FirstCluster(g: Graph, x: Id, rest: seq<Id>)
    requires WellFormed(g) && Near(g, x) != []
    ensures Walk(g, [x] + rest, {}) != [] && Walk(g, [x] + rest, {})[0] == ClusterFrom(g, {}, x)
  {
    var y := HasNeighbours(g, x);
    ReachesSelf(Forward(g), x);
    FirstMet(g, {}, x, x);
    TwoMembers(ClusterFrom(g, {}, x), x, y);
    assert ([x] + rest)[0] == x;
  }

  lemma {:induction false} SplitComponent(g: Graph, c: set<Id>, x: Id, y: Id)
    requires x in c && Linked(g, x, y) && y in g.ids && y !in c
    ensures !IsComponent(g, c)
  {
    if z :| z in g.ids && c == Component(g, z) {
      SameComponent(g, z, x);
    }
  }

  /** An order that starts from the wrong side of an unbalanced pair splits a component. */
  lemma {:induction false} UnbalancedOrder(g: Graph, x: Id, y: Id) returns (order: seq<Id>)
    requires WellFormed(g)
    requires Near(g, x) != [] && Linked(g, x, y) && y in g.ids && y !in Reach(g, x)
    ensures Enumerates(g, order) && !ComponentsOf(g, Walk(g, order, {}))
  {
    var neighbour := HasNeighbours(g, x);
    var ids := SomeOrder(g.ids);
    order := [x] + ids;
    FirstCluster(g, x, ids);
    ClusterWithinReach(g, {}, x);
    SplitComponent(g, ClusterFrom(g, {}, x), x, y);
  }

  /**
   The result is the list of the relation's connected components for every order in which
   the ids may be returned, if and only if the relation is balanced.
   */
  lemma {:induction false} ComponentsForEveryOrder(g: Graph)
    requires WellFormed(g)
    ensures Balanced(g)
       <==> forall order :: Enumerates(g, order) ==> ComponentsOf(g, Walk(g, order, {}))
  {
    if Balanced(g) {
      forall order | Enumerates(g, order)
        ensures ComponentsOf(g, Walk(g, order, {}))
      {
        BalancedIsComponents(g, order);
      }
    } else {
      var x, y :| Near(g, x) != [] && Near(g, y) != [] && Linked(g, x, y) && y !in Reach(g, x);
      var neighbour := HasNeighbours(g, y);
      var order := UnbalancedOrder(g, x, y);
    }
  }

  /** A symmetric relation is balanced. */
  lemma {:induction false} SymmetricIsBalanced(g: Graph)
    requires WellFormed(g) && Symmetric(g)
    ensures Balanced(g)
  {
    forall x, y | Near(g, x) != [] && Near(g, y) != [] && Linked(g, x, y)
      ensures y in Reach(g, x)
    {
      var neighbour := HasNeighbours(g, y);
      var p :| PathFromTo(Undirected(g), p, x, y);
      assert PathFromTo(Forward(g), p, x, y);
    }
  }

  lemma {:induction false} IsolatedComponent(g: Graph, x: Id)
    requires WellFormed(g) && Symmetric(g) && Near(g, x) == []
    ensures Component(g, x) <= {x}
  {
    forall y | y in Component(g, x)
      ensures y == x
    {
      ClosedUnderReach(Undirected(g), iset{x}, x, y);
    }
  }

  lemma {:induction false} MemberOfComponent(g: Graph, c: set<Id>, x: Id)
    requires IsComponent(g, c) && x in c
    ensures c == Component(g, x)
  {
    var z :| z in g.ids && c == Component(g, z);
    assert x in Component(g, z);
    SameComponent(g, z, x);
  }

  /** The members of the lists, as sets. */
  ghost predicate SameSets(clusters: seq<seq<Id>>, cs: seq<set<Id>>) {
    |clusters| == |cs| && forall i :: 0 <= i < |cs| ==> Elements(clusters[i]) == cs[i]
  }

  lemma {:induction false} ListedSets(clusters: seq<seq<Id>>, cs: seq<set<Id>>)
    requires Lists(clusters, cs)
    ensures SameSets(clusters, cs)
    ensures forall i :: 0 <= i < |clusters| ==> StrictlyIncreasing(clusters[i])
  {
    forall i | 0 <= i < |cs|
      ensures Elements(clusters[i]) == cs[i] && StrictlyIncreasing(clusters[i])
    {
      assert IsSortedList(clusters[i], cs[i]);
    }
  }

  ghost function Sets(clusters: seq<seq<Id>>): seq<set<Id>> {
    seq(|clusters|, i requires 0 <= i < |clusters| => Elements(clusters[i]))
  }

  /** A component of size two or more of a symmetric relation holds no isolated memory. */
  lemma {:induction false} NoIsolatedMember(g: Graph, c: set<Id>, x: Id)
    requires WellFormed(g) && Symmetric(g) && IsComponent(g, c) && x in c
    ensures Near(g, x) != []
  {
    MemberOfComponent(g, c, x);
    if Near(g, x) == [] {
      IsolatedComponent(g, x);
      SubsetSize(c, {x});
    }
  }

  /**
   For a symmetric relation the returned lists are sorted and are, as sets, exactly the
   components of size two or more, each once; every memory with a neighbour is listed and no
   other is.
   */
  lemma {:induction false} SymmetricResult(g: Graph, order: seq<Id>, clusters: seq<seq<Id>>)
    requires WellFormed(g) && Symmetric(g) && Enumerates(g, order)
    requires Lists(clusters, Walk(g, order, {}))
    ensures forall i :: 0 <= i < |clusters| ==> StrictlyIncreasing(clusters[i])
    ensures ComponentsOf(g, Sets(clusters))
    ensures forall x :: x in g.ids ==> (Covered(Sets(clusters), x) <==> Near(g, x) != [])
  {
    var cs := Walk(g, order, {});
    ListedSets(clusters, cs);
    assert Sets(clusters) == cs;
    SymmetricIsBalanced(g);
    BalancedIsComponents(g, order);
    AnyRelation(g, order);
    forall x | Covered(cs, x)
      ensures Near(g, x) != []
    {
      var i :| 0 <= i < |cs| && x in cs[i];
      NoIsolatedMember(g, cs[i], x);
    }
  }

  lemma {:induction false} OverlapAt(first: set<Id>, later: seq<set<Id>>, x: Id)
    requires x in first && Covered(later, x)
    ensures !Disjoint([first] + later)
  {
    var i :| 0 <= i < |later| && x in later[i];
    assert ([first] + later)[0] == first && ([first] + later)[i + 1] == later[i];
  }
}
