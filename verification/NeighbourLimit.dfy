/**
 What the limit of the similarity query does to clusters.  Two families of embeddings, for every
 limit: around a hub the clusters overlap, and between two groups a component is torn apart.
 */
module NeighbourLimit {
  import opened Wrappers
  import opened Reachability
  import opened Clusters
  import opened ClusterTheory
  import opened NeighbourQuery

  // ---------------------------------------------------------------------------
  // Similarities that embeddings can have
  // ---------------------------------------------------------------------------

  /** The scalar product of the first `n` coordinates of two vectors. */
  function Dot(u: nat -> real, v: nat -> real, n: nat): real {
    if n == 0 then 0.0 else Dot(u, v, n - 1) + u(n - 1) * v(n - 1)
  }

  /** Unit vectors `of` the memories in `dim` dimensions have the scores as their cosines. */
  ghost predicate CosinesOf(c: Corpus, of: Id -> (nat -> real), dim: nat) {
    && (forall x :: Dot(of(x), of(x), dim) == 1.0)
    && (forall x, y :: c.score(x, y) == Dot(of(x), of(y), dim))
  }

  /** The scores are cosine similarities of some embeddings. */
  ghost predicate Realizable(c: Corpus) {
    exists of, dim :: CosinesOf(c, of, dim)
  }

  lemma {:induction false} DotCommutes(u: nat -> real, v: nat -> real, n: nat)
    ensures Dot(u, v, n) == Dot(v, u, n)
  {
    if n > 0 {
      DotCommutes(u, v, n - 1);
    }
  }

  lemma {:induction false} RealizableIsSymmetric(c: Corpus)
    requires Realizable(c)
    ensures SymmetricScore(c)
  {
    var of, dim :| CosinesOf(c, of, dim);
    forall x, y
      ensures c.score(x, y) == c.score(y, x)
    {
      DotCommutes(of(x), of(y), dim);
    }
  }

  // ---------------------------------------------------------------------------
  // Overlapping clusters
  // ---------------------------------------------------------------------------

  /** Memory 0 points along the first axis; the others lean away from it, each towards an axis of its own. */
  function Along(k: nat, x: Id): real {
    if 1 <= x <= k then 77.0 / 85.0 else if x == k + 1 then 15.0 / 17.0 else 1.0
  }

  function Aside(k: nat, x: Id): real {
    if 1 <= x <= k then 36.0 / 85.0 else if x == k + 1 then 8.0 / 17.0 else 0.0
  }

  function HubVector(k: nat, x: Id): nat -> real {
    i => if i == 0 then Along(k, x) else if i == x then Aside(k, x) else 0.0
  }

  /** The cosines: memory 0 is a little more similar to 1 .. k than to k + 1; no others reach 0.85. */
  function HubScore(k: nat, x: Id, y: Id): real {
    Along(k, x) * Along(k, y) + (if x == y then Aside(k, x) * Aside(k, y) else 0.0)
  }

  lemma {:induction false} HubDot(k: nat, x: Id, y: Id, n: nat)
    requires n >= 1
    ensures Dot(HubVector(k, x), HubVector(k, y), n)
         == Along(k, x) * Along(k, y) + (if x == y && 1 <= x < n then Aside(k, x) * Aside(k, y) else 0.0)
  {
    if n > 1 {
      HubDot(k, x, y, n - 1);
    } else {
      assert Dot(HubVector(k, x), HubVector(k, y), 0) == 0.0;
    }
  }

  /** The scores of the hub are cosines in k + 2 dimensions. */
  lemma {:induction false} HubIsRealizable(k: nat)
    ensures Realizable(Hub(k))
  {
    var c, of := Hub(k), (x: Id) => HubVector(k, x);
    forall x, y
      ensures c.score(x, y) == Dot(of(x), of(y), k + 2)
      ensures Dot(of(x), of(x), k + 2) == 1.0
    {
      HubDot(k, x, y, k + 2);
      HubDot(k, x, x, k + 2);
    }
    assert CosinesOf(c, of, k + 2);
  }

  predicate Between(low: Id, i: Id, high: Id) {
    low <= i <= high
  }

  function UpTo(n: nat): set<Id> {
    set i | 0 <= i <= n && Between(0, i, n)
  }

  function Hub(k: nat): Corpus {
    Corpus(UpTo(k + 1), UpTo(k + 1), (x, y) => HubScore(k, x, y), 0.85)
  }

  function Count(k: nat): seq<Id> {
    seq(k, i => i + 1)
  }

  /** With a limit of k the query answers: 1 .. k for memory 0, and memory 0 for each of the others. */
  function HubGraph(k: nat): Graph {
    var ids := UpTo(k + 1);
    Graph(ids, map x | x in ids :: if x == 0 then Count(k) else [0])
  }

  lemma {:induction false} HubSimilar(k: nat, x: Id, y: Id)
    ensures SimilarTo(Hub(k), x, y) <==> (x == 0 && 1 <= y <= k + 1) || (y == 0 && 1 <= x <= k + 1)
    ensures Hub(k).score(x, y) == HubScore(k, x, y)
  {
  }

  lemma {:induction false} InCount(k: nat, y: Id)
    ensures y in Count(k) <==> 1 <= y <= k
  {
    if 1 <= y <= k {
      assert Count(k)[y - 1] == y;
    }
  }

  lemma {:induction false} HubAnswersCentre(k: nat)
    ensures Answers(Hub(k), k, 0, Count(k))
  {
    forall y
      ensures y in Count(k) <==> 1 <= y <= k
      ensures SimilarTo(Hub(k), 0, y) <==> 1 <= y <= k + 1
      ensures Hub(k).score(0, y) == HubScore(k, 0, y)
    {
      InCount(k, y);
      HubSimilar(k, 0, y);
    }
  }

  lemma {:induction false} HubAnswersOther(k: nat, x: Id)
    requires k >= 1 && 1 <= x <= k + 1
    ensures Answers(Hub(k), k, x, [0])
  {
    forall y
      ensures SimilarTo(Hub(k), x, y) <==> y == 0
    {
      HubSimilar(k, x, y);
    }
  }

  lemma {:induction false} HubAnswers(k: nat)
    requires k >= 1
    ensures FromQuery(Hub(k), k, HubGraph(k)) && SymmetricScore(Hub(k))
  {
    var c, g := Hub(k), HubGraph(k);
    forall x
      ensures Answers(c, k, x, Near(g, x))
    {
      if x == 0 {
        HubAnswersCentre(k);
      } else if 1 <= x <= k + 1 {
        HubAnswersOther(k, x);
      } else {
        forall y
          ensures !SimilarTo(c, x, y)
        {
          HubSimilar(k, x, y);
        }
      }
    }
    HubIsRealizable(k);
    RealizableIsSymmetric(c);
  }

  /** From memory 0 the walk visits 0 .. k, and not k + 1. */
  lemma {:induction false} HubReach(k: nat)
    requires k >= 1 && WellFormed(HubGraph(k))
    ensures Reach(HubGraph(k), 0) == UpTo(k)
  {
    var g := HubGraph(k);
    forall x, y | x in UpTo(k) && y in Near(g, x)
      ensures y in UpTo(k)
    {
      InCount(k, y);
    }
    ReachesSelf(Forward(g), 0);
    forall y | y in g.ids
      ensures y in Reach(g, 0) <==> y in UpTo(k)
    {
      InCount(k, y);
      if 1 <= y <= k {
        ReachesEdge(Forward(g), 0, y);
      }
      if y in Reach(g, 0) {
        ClosedReach(g, UpTo(k), 0, y);
      }
    }
  }

  /** Once 0 .. k are visited, the starts among them yield nothing more. */
  lemma {:induction false} VisitedStartsYieldNothing(g: Graph, starts: seq<Id>, rest: seq<Id>, visited: set<Id>)
    requires forall x :: x in starts ==> x in visited
    ensures Walk(g, starts + rest, visited) == Walk(g, rest, visited)
    decreases |starts|
  {
    if starts == [] {
      assert starts + rest == rest;
    } else {
      assert (starts + rest)[0] == starts[0] && (starts + rest)[1..] == starts[1..] + rest;
      assert starts[0] in visited;
      VisitedStartsYieldNothing(g, starts[1..], rest, visited);
    }
  }

  /** The last memory is walked last; its cluster holds memory 0. */
  lemma {:induction false} HubLast(k: nat)
    requires k >= 1 && WellFormed(HubGraph(k)) && Closed(HubGraph(k), UpTo(k))
    ensures Covered(Walk(HubGraph(k), Count(k) + [k + 1], UpTo(k)), 0)
  {
    var g, seen, last := HubGraph(k), UpTo(k), k + 1;
    assert 0 in Near(g, last);
    ReachesSelf(Forward(g), last);
    FirstMet(g, seen, last, last);
    TwoMembers(ClusterFrom(g, seen, last), last, 0);
    assert 0 in Yield(g, seen, last)[0];
    forall x | x in Count(k)
      ensures x in seen
    {
      InCount(k, x);
    }
    VisitedStartsYieldNothing(g, Count(k), [last], seen);
    assert [last][1..] == [];
    assert Walk(g, [last], seen) == Yield(g, seen, last) + Walk(g, [], VisitedAfter(g, seen, last));
    CoveredConcat(Yield(g, seen, last), Walk(g, [], VisitedAfter(g, seen, last)), 0);
  }

  function HubOrder(k: nat): seq<Id> {
    [0] + (Count(k) + [k + 1])
  }

  lemma {:induction false} HubOrderEnumerates(k: nat)
    ensures Enumerates(HubGraph(k), HubOrder(k))
  {
    forall x
      ensures x in HubOrder(k) <==> x in UpTo(k + 1)
    {
      InCount(k, x);
    }
  }

  /**
   For every limit the query has an answer over real embeddings for which the clusters overlap:
   one memory with one similar memory more than the limit is enough.
   */
  lemma {:induction false} CappedHubOverlaps(k: nat)
    requires k >= 1
    ensures Realizable(Hub(k)) && FromQuery(Hub(k), k, HubGraph(k))
    ensures Enumerates(HubGraph(k), HubOrder(k))
    ensures !Disjoint(Walk(HubGraph(k), HubOrder(k), {}))
  {
    var g := HubGraph(k);
    HubIsRealizable(k);
    HubAnswers(k);
    QueryIsWellFormed(Hub(k), k, g);
    HubOrderEnumerates(k);
    HubReach(k);
    ReachIsClosed(g, 0);
    HubLast(k);
    var rest := Count(k) + [k + 1];
    InCount(k, 1);
    FirstCluster(g, 0, rest);
    assert HubOrder(k)[0] == 0 && HubOrder(k)[1..] == rest;
    assert VisitedAfter(g, {}, 0) == UpTo(k);
    assert Yield(g, {}, 0) == [ClusterFrom(g, {}, 0)] by {
      assert Walk(g, [0] + rest, {}) == Yield(g, {}, 0) + Walk(g, rest, UpTo(k));
      HubFirst(k);
    }
    OverlapAt(ClusterFrom(g, {}, 0), Walk(g, rest, UpTo(k)), 0);
  }

  lemma {:induction false} HubFirst(k: nat)
    requires k >= 1 && WellFormed(HubGraph(k))
    ensures |ClusterFrom(HubGraph(k), {}, 0)| >= 2
  {
    var g := HubGraph(k);
    InCount(k, 1);
    ReachesSelf(Forward(g), 0);
    FirstMet(g, {}, 0, 0);
    TwoMembers(ClusterFrom(g, {}, 0), 0, 1);
  }

  /** The code's limit: 101 memories similar to one are enough for overlapping clusters. */
  lemma {:induction false} OneMoreThanTheLimitOverlaps()
    ensures FromQuery(Hub(100), MAX_NEIGHBORS_PER_QUERY, HubGraph(100)) && Realizable(Hub(100))
    ensures Enumerates(HubGraph(100), HubOrder(100)) && !Disjoint(Walk(HubGraph(100), HubOrder(100), {}))
  {
    CappedHubOverlaps(MAX_NEIGHBORS_PER_QUERY);
  }

  lemma {:induction false} UpToSize(n: nat)
    ensures |UpTo(n)| == n + 1
  {
    if n == 0 {
      assert UpTo(0) == {0};
    } else {
      UpToSize(n - 1);
      assert UpTo(n) == UpTo(n - 1) + {n};
    }
  }

  lemma {:induction false} HubIsBarelyCapped(k: nat)
    ensures Uncapped(Hub(k), k + 1)
  {
    forall x
      ensures |Similar(Hub(k), x)| <= k + 1
    {
      UpToSize(k + 1);
      var others := UpTo(k + 1) - {x};
      if x in UpTo(k + 1) {
        SubsetSize(Similar(Hub(k), x), others);
      } else {
        assert Similar(Hub(k), x) == {};
      }
    }
  }

  // ---------------------------------------------------------------------------
  // Components torn apart
  // ---------------------------------------------------------------------------

  /**
   Two groups of k + 1 memories in the plane: k memories at one direction and one that leans over to
   the other group.  The two that lean are similar, but less so than each is to its own group.
   */
  function East(k: nat, x: Id): real {
    if x < k then 1.0 else if x == k then 24.0 / 25.0 else if x == k + 1 then 4.0 / 5.0 else 3.0 / 5.0
  }

  function North(k: nat, x: Id): real {
    if x < k then 0.0 else if x == k then 7.0 / 25.0 else if x == k + 1 then 3.0 / 5.0 else 4.0 / 5.0
  }

  function PlaneVector(k: nat, x: Id): nat -> real {
    i => if i == 0 then East(k, x) else North(k, x)
  }

  function PlaneScore(k: nat, x: Id, y: Id): real {
    East(k, x) * East(k, y) + North(k, x) * North(k, y)
  }

  function TwoGroups(k: nat): Corpus {
    Corpus(UpTo(2 * k + 1), UpTo(2 * k + 1), (x, y) => PlaneScore(k, x, y), 0.85)
  }

  lemma {:induction false} PlaneDot(k: nat, x: Id, y: Id)
    ensures Dot(PlaneVector(k, x), PlaneVector(k, y), 2) == PlaneScore(k, x, y)
    ensures PlaneScore(k, x, x) == 1.0
  {
    var u, v := PlaneVector(k, x), PlaneVector(k, y);
    assert Dot(u, v, 0) == 0.0;
    assert Dot(u, v, 1) == u(0) * v(0);
    assert Dot(u, v, 2) == Dot(u, v, 1) + u(1) * v(1);
  }

  lemma {:induction false} TwoGroupsIsRealizable(k: nat)
    ensures Realizable(TwoGroups(k))
  {
    var c, of := TwoGroups(k), (x: Id) => PlaneVector(k, x);
    forall x, y
      ensures c.score(x, y) == Dot(of(x), of(y), 2)
      ensures Dot(of(x), of(x), 2) == 1.0
    {
      PlaneDot(k, x, y);
      PlaneDot(k, x, x);
    }
    assert CosinesOf(c, of, 2);
  }

  /** Both are in the first group, or both in the second. */
  predicate SameSide(k: nat, x: Id, y: Id) {
    (x <= k && y <= k) || (x > k && y > k)
  }

  lemma {:induction false} PlaneSimilar(k: nat, x: Id, y: Id)
    ensures SimilarTo(TwoGroups(k), x, y)
       <==> 0 <= x <= 2 * k + 1 && 0 <= y <= 2 * k + 1 && x != y
            && (SameSide(k, x, y) || (x == k && y == k + 1) || (x == k + 1 && y == k))
    ensures SameSide(k, x, y) ==> PlaneScore(k, x, y) >= 0.96
    ensures !SameSide(k, x, y) ==> PlaneScore(k, x, y) <= 0.936
    ensures TwoGroups(k).score(x, y) == PlaneScore(k, x, y)
  {
  }

  /** The k + 1 ids from `low` on without `x`. */
  function Except(low: Id, k: nat, x: Id): seq<Id> {
    seq(k, i => if low + i < x then low + i else low + i + 1)
  }

  lemma {:induction false} ExceptIs(low: Id, k: nat, x: Id)
    requires low <= x <= low + k
    ensures NoDuplicates(Except(low, k, x))
    ensures forall y :: y in Except(low, k, x) <==> low <= y <= low + k && y != x
  {
    forall y | low <= y <= low + k && y != x
      ensures y in Except(low, k, x)
    {
      assert Except(low, k, x)[if y < x then y - low else y - low - 1] == y;
    }
  }

  /** With a limit of k every memory lists the k others of its own group. */
  function TornGraph(k: nat): Graph {
    var ids := UpTo(2 * k + 1);
    Graph(ids, map x | x in ids :: Except(if x <= k then 0 else k + 1, k, x))
  }

  lemma {:induction false} TornLists(k: nat, x: Id, y: Id)
    ensures y in Near(TornGraph(k), x)
       <==> 0 <= x <= 2 * k + 1 && 0 <= y <= 2 * k + 1 && x != y && SameSide(k, x, y)
  {
    if 0 <= x <= 2 * k + 1 {
      ExceptIs(if x <= k then 0 else k + 1, k, x);
    }
  }

  lemma {:induction false} TornAnswers(k: nat)
    ensures FromQuery(TwoGroups(k), k, TornGraph(k)) && Symmetric(TornGraph(k))
  {
    var c, g := TwoGroups(k), TornGraph(k);
    forall x, y
      ensures y in Near(g, x) <==> 0 <= x <= 2 * k + 1 && 0 <= y <= 2 * k + 1 && x != y && SameSide(k, x, y)
    {
      TornLists(k, x, y);
    }
    forall x
      ensures Answers(c, k, x, Near(g, x))
    {
      forall y
        ensures y in Near(g, x) ==> SimilarTo(c, x, y) && c.score(x, y) >= 0.96
        ensures y !in Near(g, x) && SimilarTo(c, x, y) ==> c.score(x, y) <= 0.936
        ensures SimilarTo(c, x, y) ==> 0 <= x <= 2 * k + 1
      {
        PlaneSimilar(k, x, y);
      }
      if 0 <= x <= 2 * k + 1 {
        ExceptIs(if x <= k then 0 else k + 1, k, x);
      }
    }
  }

  /** The walk never crosses from one group to the other. */
  lemma {:induction false} TornReach(k: nat, x: Id, y: Id)
    requires 0 <= x <= 2 * k + 1 && y in Reach(TornGraph(k), x)
    ensures SameSide(k, x, y)
  {
    var g := TornGraph(k);
    var side := iset z | SameSide(k, x, z);
    forall v, w | v in side && Forward(g)(v, w)
      ensures w in side
    {
      TornLists(k, v, w);
    }
    ClosedUnderReach(Forward(g), side, x, y);
  }

  lemma {:induction false} TornComponents(k: nat, order: seq<Id>)
    requires Enumerates(TornGraph(k), order)
    ensures WellFormed(TornGraph(k)) && ComponentsOf(TornGraph(k), Walk(TornGraph(k), order, {}))
  {
    TornAnswers(k);
    QueryIsWellFormed(TwoGroups(k), k, TornGraph(k));
    SymmetricIsBalanced(TornGraph(k));
    BalancedIsComponents(TornGraph(k), order);
  }

  lemma {:induction false} SeparatedPair(c: Corpus, cs: seq<set<Id>>, i: nat, x: Id, y: Id)
    requires SymmetricScore(c) && i < |cs| && x in cs[i] && y !in cs[i] && SimilarTo(c, x, y)
    ensures !Promised(c, cs)
  {
    if Promised(c, cs) {
      AlikeInGroup(c, cs[i], x, y);
    }
  }

  /** The cluster of one leaning memory does not hold the other. */
  lemma {:induction false} TornCluster(k: nat, order: seq<Id>) returns (i: nat)
    requires k >= 1 && WellFormed(TornGraph(k)) && Enumerates(TornGraph(k), order)
    ensures i < |Walk(TornGraph(k), order, {})|
    ensures k in Walk(TornGraph(k), order, {})[i] && k + 1 !in Walk(TornGraph(k), order, {})[i]
  {
    var g := TornGraph(k);
    TornLists(k, k, 0);
    AnyRelation(g, order);
    i :| 0 <= i < |Walk(g, order, {})| && k in Walk(g, order, {})[i];
    assert Grown(g, order, Walk(g, order, {})[i]);
    var s :| s in order && Walk(g, order, {})[i] <= Reach(g, s);
    TornReach(k, s, k);
    if k + 1 in Walk(g, order, {})[i] {
      TornReach(k, s, k + 1);
    }
  }

  /**
   For every limit of at least one, embeddings for which the relation is symmetric and its components
   are returned in every order, and yet in no order the components of the similarity graph: the cap
   tears one of them apart without a trace.
   */
  lemma {:induction false} CapTearsApart(k: nat, order: seq<Id>)
    requires k >= 1 && Enumerates(TornGraph(k), order)
    ensures Realizable(TwoGroups(k)) && FromQuery(TwoGroups(k), k, TornGraph(k))
    ensures ComponentsOf(TornGraph(k), Walk(TornGraph(k), order, {}))
    ensures !Promised(TwoGroups(k), Walk(TornGraph(k), order, {}))
  {
    TwoGroupsIsRealizable(k);
    RealizableIsSymmetric(TwoGroups(k));
    TornAnswers(k);
    TornComponents(k, order);
    var i := TornCluster(k, order);
    PlaneSimilar(k, k, k + 1);
    SeparatedPair(TwoGroups(k), Walk(TornGraph(k), order, {}), i, k, k + 1);
  }

  // ---------------------------------------------------------------------------
  // The limit decides
  // ---------------------------------------------------------------------------

  /** Every answer of the query over embeddings that give each memory at most `n` similar ones. */
  ghost predicate SafeUpTo(limit: nat, n: nat) {
    forall c, g, order ::
      Realizable(c) && Uncapped(c, n) && FromQuery(c, limit, g) && Enumerates(g, order) ==>
        Promised(c, Walk(g, order, {}))
  }

  /**
   Clustering returns the components of the similarity graph of all embeddings that give each
   memory at most `n` similar ones, if and only if the query's limit is at least `n`.
   */
  lemma {:induction false} LimitDecides(limit: nat, n: nat)
    requires limit >= 1
    ensures SafeUpTo(limit, n) <==> n <= limit
  {
    if n <= limit {
      forall c, g, order | Realizable(c) && Uncapped(c, n) && FromQuery(c, limit, g) && Enumerates(g, order)
        ensures Promised(c, Walk(g, order, {}))
      {
        RealizableIsSymmetric(c);
        assert forall x :: |Similar(c, x)| <= limit;
        UncappedIsPromised(c, limit, g, order);
      }
    } else {
      CappedHubOverlaps(limit);
      HubIsBarelyCapped(limit);
      assert Uncapped(Hub(limit), n);
      assert !Promised(Hub(limit), Walk(HubGraph(limit), HubOrder(limit), {}));
    }
  }
}
