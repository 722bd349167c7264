/**
 Where the neighbour relation comes from: a similarity query with a threshold and a limit on
 the number of rows.  Without the limit the relation is the similarity graph itself; at the
 limit it can become one-sided.
 */
module NeighbourQuery {
  import opened Wrappers
  import opened Reachability
  import opened Clusters
  import opened ClusterTheory

  const MAX_NEIGHBORS_PER_QUERY: nat := 100

  /** The current memories, those of them with an embedding, and the cosine similarity of two. */
  datatype Corpus = Corpus(ids: set<Id>, embedded: set<Id>, score: (Id, Id) -> real, threshold: real)

  ghost predicate SymmetricScore(c: Corpus) {
    forall x, y :: c.score(x, y) == c.score(y, x)
  }

  predicate SimilarTo(c: Corpus, x: Id, y: Id) {
    x in c.ids && y in c.ids && x in c.embedded && y in c.embedded && x != y && c.score(x, y) >= c.threshold
  }

  ghost function Similar(c: Corpus, x: Id): set<Id> {
    set y | y in c.ids && SimilarTo(c, x, y)
  }

  /** `list` is an answer of the query: the most similar memories, as many as the limit allows. */
  ghost predicate Answers(c: Corpus, limit: nat, x: Id, list: seq<Id>) {
    && NoDuplicates(list)
    && |list| <= limit
    && (forall y :: y in list ==> SimilarTo(c, x, y))
    && (forall y, z :: y in list && SimilarTo(c, x, z) && z !in list ==> c.score(x, z) <= c.score(x, y))
    && (|list| < limit ==> forall y :: SimilarTo(c, x, y) ==> y in list)
  }

  /** The neighbour lists of the graph are answers of the query. */
  ghost predicate FromQuery(c: Corpus, limit: nat, g: Graph) {
    g.ids == c.ids && forall x :: Answers(c, limit, x, Near(g, x))
  }

  /** No memory has more similar memories than the limit. */
  ghost predicate Uncapped(c: Corpus, limit: nat) {
    forall x :: |Similar(c, x)| <= limit
  }

  lemma {:induction false} QueryIsWellFormed(c: Corpus, limit: nat, g: Graph)
    requires FromQuery(c, limit, g)
    ensures WellFormed(g)
  {
    forall x, y | y in Near(g, x)
      ensures x in g.ids && y in g.ids && x != y
    {
      assert Answers(c, limit, x, Near(g, x));
    }
  }

  /** Where the limit does not bite, the answer is every similar memory. */
  lemma {:induction false} UncappedAnswer(c: Corpus, limit: nat, x: Id, list: seq<Id>)
    requires Answers(c, limit, x, list) && |Similar(c, x)| <= limit
    ensures Elements(list) == Similar(c, x)
  {
    DistinctSize(list);
    forall y | y in Elements(list)
      ensures y in Similar(c, x)
    {
      assert y in list;
    }
    if |list| == limit {
      SubsetSize(Elements(list), Similar(c, x));
    }
  }

  /**
   If no memory has more similar memories than the limit, the relation is exactly the
   similarity graph, and symmetric.
   */
  lemma {:induction false} UncappedIsSymmetric(c: Corpus, limit: nat, g: Graph)
    requires SymmetricScore(c) && FromQuery(c, limit, g) && Uncapped(c, limit)
    ensures forall x, y {:trigger y in Near(g, x)} :: y in Near(g, x) <==> SimilarTo(c, x, y)
    ensures Symmetric(g)
  {
    forall x, y
      ensures y in Near(g, x) <==> SimilarTo(c, x, y)
    {
      assert Answers(c, limit, x, Near(g, x));
      UncappedAnswer(c, limit, x, Near(g, x));
      assert y in Elements(Near(g, x)) <==> y in Near(g, x);
    }
    forall x, y | y in Near(g, x)
      ensures x in Near(g, y)
    {
      assert SimilarTo(c, x, y);
      assert SimilarTo(c, y, x);
    }
  }

  // ---------------------------------------------------------------------------
  // The documented result
  // ---------------------------------------------------------------------------

  /** The edges of the similarity graph. */
  ghost function Likeness(c: Corpus): (Id, Id) -> bool {
    (x, y) => SimilarTo(c, x, y)
  }

  /** The connected component of `x` in the similarity graph. */
  ghost function Group(c: Corpus, x: Id): set<Id> {
    set y | y in c.ids && Reaches(Likeness(c), x, y)
  }

  ghost predicate IsGroup(c: Corpus, s: set<Id>) {
    |s| >= 2 && exists x :: x in c.ids && s == Group(c, x)
  }

  /** The documented result: the components of the similarity graph of size at least two, each once, nothing else. */
  ghost predicate Promised(c: Corpus, cs: seq<set<Id>>) {
    && (forall i :: 0 <= i < |cs| ==> IsGroup(c, cs[i]))
    && (forall x :: x in c.ids && |Group(c, x)| >= 2 ==> Covered(cs, x))
    && Disjoint(cs)
  }

  /** The walk can get from every memory to every similar one. */
  ghost predicate Bridged(c: Corpus, g: Graph) {
    forall x, y :: SimilarTo(c, x, y) ==> y in Reach(g, x)
  }

  /** The walk follows edges of the similarity graph only. */
  lemma {:induction false} LinkedIsAlike(c: Corpus, limit: nat, g: Graph, x: Id, y: Id)
    requires SymmetricScore(c) && FromQuery(c, limit, g) && Linked(g, x, y)
    ensures Reaches(Likeness(c), x, y)
  {
    var p :| PathFromTo(Undirected(g), p, x, y);
    forall i | 0 < i < |p|
      ensures Likeness(c)(p[i - 1], p[i])
    {
      assert Undirected(g)(p[i - 1], p[i]);
      assert Answers(c, limit, p[i - 1], Near(g, p[i - 1])) && Answers(c, limit, p[i], Near(g, p[i]));
      assert SimilarTo(c, p[i - 1], p[i]) || SimilarTo(c, p[i], p[i - 1]);
    }
    assert PathFromTo(Likeness(c), p, x, y);
  }

  /** In a bridged relation the walk gets everywhere in the similarity graph. */
  lemma {:induction false} AlikeIsReached(c: Corpus, g: Graph, x: Id, y: Id)
    requires Bridged(c, g) && Reaches(Likeness(c), x, y)
    ensures Reaches(Forward(g), x, y)
  {
    var s := iset z | Reaches(Forward(g), x, z);
    ReachesSelf(Forward(g), x);
    forall v, w | v in s && Likeness(c)(v, w)
      ensures w in s
    {
      assert w in Reach(g, v);
      ReachesTrans(Forward(g), x, v, w);
    }
    ClosedUnderReach(Likeness(c), s, x, y);
  }

  lemma {:induction false} BridgedGroups(c: Corpus, limit: nat, g: Graph)
    requires SymmetricScore(c) && FromQuery(c, limit, g) && Bridged(c, g)
    ensures Balanced(g) && forall x :: Component(g, x) == Group(c, x)
  {
    QueryIsWellFormed(c, limit, g);
    forall x, y
      ensures Linked(g, x, y) <==> Reaches(Likeness(c), x, y)
      ensures Linked(g, x, y) ==> Reaches(Forward(g), x, y)
    {
      if Linked(g, x, y) {
        LinkedIsAlike(c, limit, g, x, y);
      }
      if Reaches(Likeness(c), x, y) {
        AlikeIsReached(c, g, x, y);
        ForwardLinks(g, x, y);
      }
    }
    forall x, y | Near(g, x) != [] && Near(g, y) != [] && Linked(g, x, y)
      ensures y in Reach(g, x)
    {
      var neighbour := HasNeighbours(g, y);
    }
    forall x, y
      ensures y in Component(g, x) <==> y in Group(c, x)
    {
    }
    assert forall x :: Component(g, x) == Group(c, x);
  }

  lemma {:induction false} BridgedIsPromised(c: Corpus, limit: nat, g: Graph, order: seq<Id>)
    requires SymmetricScore(c) && FromQuery(c, limit, g) && Bridged(c, g) && Enumerates(g, order)
    ensures Promised(c, Walk(g, order, {}))
  {
    QueryIsWellFormed(c, limit, g);
    BridgedGroups(c, limit, g);
    BalancedIsComponents(g, order);
  }

  lemma {:induction false} AlikeInGroup(c: Corpus, s: set<Id>, x: Id, y: Id)
    requires SymmetricScore(c) && IsGroup(c, s) && x in s && SimilarTo(c, x, y)
    ensures y in s
  {
    var z :| z in c.ids && s == Group(c, z);
    ReachesStep(Likeness(c), z, x, y);
  }

  lemma {:induction false} NoListsNoClusters(g: Graph, starts: seq<Id>, visited: set<Id>)
    requires WellFormed(g) && forall x :: Near(g, x) == []
    ensures Walk(g, starts, visited) == []
  {
    if starts != [] {
      LoneStart(g, visited, starts[0]);
      NoListsNoClusters(g, starts[1..], VisitedAfter(g, visited, starts[0]));
    }
  }

  /** A similar pair that the walk cannot get across is torn apart when the walk starts there. */
  lemma {:induction false} GapBreaksPromise(c: Corpus, limit: nat, g: Graph, x: Id, y: Id) returns (order: seq<Id>)
    requires SymmetricScore(c) && FromQuery(c, limit, g) && SimilarTo(c, x, y) && y !in Reach(g, x)
    ensures Enumerates(g, order) && !Promised(c, Walk(g, order, {}))
  {
    QueryIsWellFormed(c, limit, g);
    var ids := SomeOrder(g.ids);
    order := [x] + ids;
    assert Answers(c, limit, x, Near(g, x));
    if Near(g, x) == [] {
      assert limit == 0;
      forall z
        ensures Near(g, z) == []
      {
        assert Answers(c, limit, z, Near(g, z));
      }
      NoListsNoClusters(g, order, {});
      ReachesSelf(Likeness(c), x);
      ReachesEdge(Likeness(c), x, y);
      TwoMembers(Group(c, x), x, y);
      assert !Covered(Walk(g, order, {}), x);
    } else {
      FirstCluster(g, x, ids);
      ClusterWithinReach(g, {}, x);
      if Promised(c, Walk(g, order, {})) {
        AlikeInGroup(c, ClusterFrom(g, {}, x), x, y);
      }
    }
  }

  /**
   For every corpus, limit and answer of the query: the walk returns the components of the
   similarity graph in every order of the ids, if and only if it can get from every memory to
   every similar one.
   */
  lemma {:induction false} PromisedForEveryOrder(c: Corpus, limit: nat, g: Graph)
    requires SymmetricScore(c) && FromQuery(c, limit, g)
    ensures (forall order :: Enumerates(g, order) ==> Promised(c, Walk(g, order, {}))) <==> Bridged(c, g)
  {
    if Bridged(c, g) {
      forall order | Enumerates(g, order)
        ensures Promised(c, Walk(g, order, {}))
      {
        BridgedIsPromised(c, limit, g, order);
      }
    } else {
      var x, y :| SimilarTo(c, x, y) && y !in Reach(g, x);
      var order := GapBreaksPromise(c, limit, g, x, y);
    }
  }

  lemma {:induction false} UncappedIsPromised(c: Corpus, limit: nat, g: Graph, order: seq<Id>)
    requires SymmetricScore(c) && FromQuery(c, limit, g) && Uncapped(c, limit) && Enumerates(g, order)
    ensures Promised(c, Walk(g, order, {}))
  {
    UncappedIsSymmetric(c, limit, g);
    forall x, y | SimilarTo(c, x, y)
      ensures y in Reach(g, x)
    {
      assert y in Near(g, x);
      ReachesEdge(Forward(g), x, y);
    }
    BridgedIsPromised(c, limit, g, order);
  }

  /**
   If no memory has more than 100 similar memories, clustering returns, for every order of the
   ids, exactly the connected components of the similarity graph.
   */
  lemma {:induction false} UncappedCorpusIsPromised(c: Corpus, g: Graph, order: seq<Id>)
    requires SymmetricScore(c) && FromQuery(c, MAX_NEIGHBORS_PER_QUERY, g) && Uncapped(c, MAX_NEIGHBORS_PER_QUERY)
    requires Enumerates(g, order)
    ensures Promised(c, Walk(g, order, {}))
  {
    UncappedIsPromised(c, MAX_NEIGHBORS_PER_QUERY, g, order);
  }
}
