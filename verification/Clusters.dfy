/**
 Near-duplicate clustering: the worklist walk of `build_clusters`.

 The neighbour query is an arbitrary finite relation without self-loops.  It need not
 be symmetric: the per-query cap of 100 can keep `y` among the neighbours of `x` while
 dropping `x` from those of `y`.
 */
module Clusters {
  import opened Wrappers
  import opened Reachability

  /** Ids are UUIDs; the order of their fixed-width text is their numeric order. */
  type Id = int

  datatype Graph = Graph(ids: set<Id>, near: map<Id, seq<Id>>)

  function Near(g: Graph, x: Id): seq<Id> {
    if x in g.near then g.near[x] else []
  }

  /** Neighbours are current memories of the same tenant, never the seed itself. */
  ghost predicate WellFormed(g: Graph) {
    forall x, y {:trigger y in Near(g, x)} :: y in Near(g, x) ==> x in g.ids && y in g.ids && x != y
  }

  /** `order` is one result of the unordered id query. */
  ghost predicate Enumerates(g: Graph, order: seq<Id>) {
    forall x :: x in order <==> x in g.ids
  }

  ghost function Forward(g: Graph): (Id, Id) -> bool {
    (x, y) => y in Near(g, x)
  }

  ghost function Undirected(g: Graph): (Id, Id) -> bool {
    (x, y) => y in Near(g, x) || x in Near(g, y)
  }

  ghost function Reach(g: Graph, x: Id): set<Id> {
    set y | y in g.ids && Reaches(Forward(g), x, y)
  }

  /** The connected component of `x` once edge directions are ignored. */
  ghost function Component(g: Graph, x: Id): set<Id> {
    set y | y in g.ids && Reaches(Undirected(g), x, y)
  }

  ghost predicate Closed(g: Graph, s: set<Id>) {
    forall x, y :: x in s && y in Near(g, x) ==> y in s
  }

  ghost function Neighbours(g: Graph, s: set<Id>): set<Id> {
    set y | y in g.ids && exists x :: x in s && y in Near(g, x)
  }

  lemma {:induction false} ClosedReach(g: Graph, s: set<Id>, x: Id, y: Id)
    requires Closed(g, s) && x in s && Reaches(Forward(g), x, y)
    ensures y in s
  {
    var members := iset v | v in s;
    forall v, w | v in members && Forward(g)(v, w)
      ensures w in members
    {
      assert w in Near(g, v);
    }
    ClosedUnderReach(Forward(g), members, x, y);
  }

  // ---------------------------------------------------------------------------
  // What the walk computes, stated with reach sets and no worklist
  // ---------------------------------------------------------------------------

  /** The cluster grown from `start` when `visited` has been walked before. */
  ghost function ClusterFrom(g: Graph, visited: set<Id>, start: Id): set<Id> {
    {start} + Neighbours(g, Reach(g, start) - visited)
  }

  /** What one start contributes: nothing if it was walked before or stays alone. */
  ghost function Yield(g: Graph, visited: set<Id>, start: Id): seq<set<Id>> {
    if start in visited || |ClusterFrom(g, visited, start)| < 2 then []
    else [ClusterFrom(g, visited, start)]
  }

  ghost function VisitedAfter(g: Graph, visited: set<Id>, start: Id): set<Id> {
    if start in visited then visited else visited + Reach(g, start)
  }

  ghost function Walk(g: Graph, starts: seq<Id>, visited: set<Id>): seq<set<Id>> {
    if starts == [] then []
    else Yield(g, visited, starts[0]) + Walk(g, starts[1..], VisitedAfter(g, visited, starts[0]))
  }

  lemma {:induction false} LeastExists(s: set<Id>)
    requires s != {}
    ensures exists m :: m in s && forall y :: y in s ==> m <= y
  {
    var m := Pick(s);
    if k: Id :| k in s && k < m {
      var below := set y | y in s && y < m;
      assert k in below && m !in below;
      LeastExists(below);
      var least :| least in below && forall y :: y in below ==> least <= y;
      assert forall y :: y in s ==> y in below || m <= y;
      assert least in s;
    }
  }

  ghost predicate StrictlyIncreasing(s: seq<Id>) {
    forall i, j :: 0 <= i < j < |s| ==> s[i] < s[j]
  }

  /** `r` holds the members of `s`, each once, in increasing order. */
  ghost predicate IsSortedList(r: seq<Id>, s: set<Id>) {
    Elements(r) == s && StrictlyIncreasing(r)
  }

  lemma {:induction false} SortedCons(m: Id, r: seq<Id>, s: set<Id>)
    requires m in s && forall y :: y in s ==> m <= y
    requires IsSortedList(r, s - {m})
    ensures IsSortedList([m] + r, s)
  {
    forall j | 0 <= j < |r|
      ensures m < r[j]
    {
      assert r[j] in Elements(r);
    }
    assert Elements([m] + r) == {m} + Elements(r);
  }

  /** `sorted(cluster, key=str)`. */
  method Sort(s: set<Id>) returns (r: seq<Id>)
    ensures IsSortedList(r, s)
  {
    if s == {} {
      return [];
    }
    LeastExists(s);
    var m :| m in s && forall y :: y in s ==> m <= y;
    var rest := Sort(s - {m});
    SortedCons(m, rest, s);
    return [m] + rest;
  }

  // ---------------------------------------------------------------------------
  // The walk itself
  // ---------------------------------------------------------------------------

  /** What one exploration keeps; `visited0` was walked before this start, `pending` is the frontier. */
  ghost predicate Exploring(g: Graph, visited0: set<Id>, start: Id,
                            visited: set<Id>, cluster: set<Id>, pending: set<Id>) {
    && visited0 <= visited <= g.ids
    && start in cluster
    && visited - visited0 <= cluster
    && pending <= cluster <= visited + pending
    && cluster <= Reach(g, start)
    && cluster == {start} + Neighbours(g, visited - visited0)
  }

  lemma {:induction false} NeighboursOfOneMore(g: Graph, s: set<Id>, x: Id)
    requires WellFormed(g)
    ensures Neighbours(g, s + {x}) == Neighbours(g, s) + set y | y in Near(g, x)
  {
    var all := Neighbours(g, s) + set y | y in Near(g, x);
    forall y | y in all
      ensures y in Neighbours(g, s + {x})
    {
      if y in Near(g, x) {
        assert x in s + {x};
      } else {
        var w :| w in s && y in Near(g, w);
        assert w in s + {x};
      }
    }
  }

  lemma {:induction false} ExploringExpands(g: Graph, visited0: set<Id>, start: Id, current: Id,
                         visited: set<Id>, cluster: set<Id>, pending: set<Id>)
    requires WellFormed(g) && start in g.ids
    requires Exploring(g, visited0, start, visited, cluster, pending + {current})
    requires current !in visited
    ensures var nearby := set x | x in Near(g, current);
            Exploring(g, visited0, start, visited + {current}, cluster + nearby, pending + (nearby - cluster))
  {
    var nearby := set x | x in Near(g, current);
    assert visited + {current} - visited0 == visited - visited0 + {current};
    NeighboursOfOneMore(g, visited - visited0, current);
    forall x | x in nearby
      ensures x in Reach(g, start)
    {
      ReachesStep(Forward(g), start, current, x);
    }
  }

  lemma {:induction false} ExploringDone(g: Graph, visited0: set<Id>, start: Id, visited: set<Id>, cluster: set<Id>)
    requires WellFormed(g) && start in g.ids && start !in visited0
    requires Closed(g, visited0)
    requires Exploring(g, visited0, start, visited, cluster, {})
    ensures visited == visited0 + Reach(g, start)
    ensures cluster == ClusterFrom(g, visited0, start)
    ensures Closed(g, visited)
  {
    forall x, y | x in visited && y in Near(g, x)
      ensures y in visited
    {
      if x !in visited0 {
        assert y in Neighbours(g, visited - visited0);
      }
    }
    forall y | y in Reach(g, start)
      ensures y in visited
    {
      ClosedReach(g, visited, start, y);
    }
    assert visited - visited0 == Reach(g, start) - visited0;
  }

  /** The neighbour loop: every neighbour joins the cluster, the new ones also the frontier. */
  method Absorb(neighbours: seq<Id>, cluster0: set<Id>, frontier0: seq<Id>)
    returns (cluster: set<Id>, frontier: seq<Id>)
    ensures cluster == cluster0 + Elements(neighbours)
    ensures Elements(frontier) == Elements(frontier0) + (Elements(neighbours) - cluster0)
  {
    cluster, frontier := cluster0, frontier0;
    for i := 0 to |neighbours|
      invariant cluster == cluster0 + Elements(neighbours[..i])
      invariant Elements(frontier) == Elements(frontier0) + (Elements(neighbours[..i]) - cluster0)
    {
      var nid := neighbours[i];
      assert neighbours[..i + 1] == neighbours[..i] + [nid];
      ElementsSnoc(neighbours[..i], nid);
      if nid !in cluster {
        cluster := cluster + {nid};
        ElementsSnoc(frontier, nid);
        frontier := frontier + [nid];
      }
    }
    assert neighbours[..|neighbours|] == neighbours;
  }

  method Explore(g: Graph, visited0: set<Id>, start: Id) returns (visited: set<Id>, cluster: set<Id>)
    requires WellFormed(g) && start in g.ids && start !in visited0
    requires visited0 <= g.ids && Closed(g, visited0)
    ensures visited == visited0 + Reach(g, start)
    ensures cluster == ClusterFrom(g, visited0, start)
    ensures visited <= g.ids && Closed(g, visited)
  {
    visited, cluster := visited0, {start};
    var frontier := [start];
    ReachesSelf(Forward(g), start);
    assert Elements(frontier) == {start} && visited - visited0 == {};
    while frontier != []
      invariant Exploring(g, visited0, start, visited, cluster, Elements(frontier))
      decreases g.ids - visited, |frontier|
    {
      var rest, current := frontier[..|frontier| - 1], frontier[|frontier| - 1];
      assert frontier == rest + [current];
      ElementsSnoc(rest, current);
      frontier := rest;
      if current !in visited {
        ExploringExpands(g, visited0, start, current, visited, cluster, Elements(rest));
        visited := visited + {current};
        cluster, frontier := Absorb(Near(g, current), cluster, frontier);
      }
    }
    assert Elements(frontier) == {};
    ExploringDone(g, visited0, start, visited, cluster);
  }

  /** `listed` shows the clusters `cs` in order, each as a sorted list. */
  ghost predicate Lists(listed: seq<seq<Id>>, cs: seq<set<Id>>) {
    |listed| == |cs| && forall i :: 0 <= i < |cs| ==> IsSortedList(listed[i], cs[i])
  }

  lemma {:induction false} ListsSnoc(listed: seq<seq<Id>>, cs: seq<set<Id>>, r: seq<Id>, c: set<Id>)
    requires Lists(listed, cs)
    ensures Lists(listed, cs + [])
    ensures IsSortedList(r, c) ==> Lists(listed + [r], cs + [c])
  {
  }

  lemma {:induction false} WalkStep(g: Graph, order: seq<Id>, k: nat, visited: set<Id>, found: seq<set<Id>>)
    requires k < |order|
    ensures found + Walk(g, order[k..], visited)
         == (found + Yield(g, visited, order[k])) + Walk(g, order[k + 1..], VisitedAfter(g, visited, order[k]))
  {
    assert order[k..][0] == order[k] && order[k..][1..] == order[k + 1..];
    ConcatAssociative(found, Yield(g, visited, order[k]),
                      Walk(g, order[k + 1..], VisitedAfter(g, visited, order[k])));
  }

  /** `build_clusters`, for any order in which the id query returns the ids. */
  method BuildClusters(g: Graph, allIds: seq<Id>) returns (clusters: seq<seq<Id>>)
    requires WellFormed(g) && Enumerates(g, allIds)
    ensures Lists(clusters, Walk(g, allIds, {}))
  {
    var visited: set<Id> := {};
    clusters := [];
    ghost var found: seq<set<Id>> := [];
    assert allIds[0..] == allIds && [] + Walk(g, allIds, {}) == Walk(g, allIds, {});
    for k := 0 to |allIds|
      invariant visited <= g.ids && Closed(g, visited)
      invariant Lists(clusters, found)
      invariant Walk(g, allIds, {}) == found + Walk(g, allIds[k..], visited)
    {
      var start := allIds[k];
      WalkStep(g, allIds, k, visited, found);
      var cluster, listed := {}, [];
      ghost var yielded := Yield(g, visited, start);
      if start !in visited {
        visited, cluster := Explore(g, visited, start);
        listed := Sort(cluster);
      }
      ListsSnoc(clusters, found, listed, cluster);
      found := found + yielded;
      if |cluster| >= 2 {
        clusters := clusters + [listed];
      }
    }
    assert found + Walk(g, allIds[|allIds|..], visited) == found;
  }
}
