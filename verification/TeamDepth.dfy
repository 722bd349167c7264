/**
 Chains of any length in the team graph, the check that keeps them short when a team joins another,
 and what the access queries miss because they stop after five assignments.
 */
module TeamDepth {
  import opened Wrappers
  import opened TeamGraph

  // ---------------------------------------------------------------------------
  // Chains
  // ---------------------------------------------------------------------------

  function TeamEdges(g: Graph): Graph {
    set a | a in g && a.kind == TeamMember
  }

  /** Active team memberships, each in the team that the one before it leads to. */
  ghost predicate TeamChain(g: Graph, p: seq<Assignment>) {
    Chain(TeamEdges(g), g, p)
  }

  lemma {:induction false} ChainConcat(start: Graph, g: Graph, p: seq<Assignment>, q: seq<Assignment>)
    requires Chain(start, g, p) && TeamChain(g, q) && q[0].member == Final(p).parent
    ensures Chain(start, g, p + q) && (p + q)[0] == p[0] && Final(p + q) == Final(q)
  {
    var r := p + q;
    forall i | 0 < i < |r|
      ensures StepAt(g, r, i)
    {
      if i < |p| {
        assert StepAt(g, p, i);
      } else if i > |p| {
        assert StepAt(g, q, i - |p|);
      }
    }
  }

  lemma {:induction false} ChainFront(start: Graph, g: Graph, p: seq<Assignment>, n: nat)
    requires Chain(start, g, p) && 0 < n <= |p|
    ensures Chain(start, g, p[..n]) && p[..n][0] == p[0] && Final(p[..n]) == p[n - 1]
  {
    var q := p[..n];
    forall i | 0 < i < |q|
      ensures StepAt(g, q, i)
    {
      assert StepAt(g, p, i);
    }
  }

  lemma {:induction false} ChainRest(start: Graph, g: Graph, p: seq<Assignment>, n: nat)
    requires Chain(start, g, p) && 0 < n < |p|
    ensures TeamChain(g, p[n..]) && p[n..][0].member == p[n - 1].parent && Final(p[n..]) == Final(p)
  {
    var q := p[n..];
    assert StepAt(g, p, n);
    forall i | 0 < i < |q|
      ensures StepAt(g, q, i)
    {
      assert StepAt(g, p, n + i);
    }
  }

  lemma {:induction false} ChainMiddle(start: Graph, g: Graph, p: seq<Assignment>, lo: nat, hi: nat)
    requires Chain(start, g, p) && 0 < lo < hi <= |p|
    ensures TeamChain(g, p[lo..hi]) && p[lo..hi][0].member == p[lo - 1].parent && Final(p[lo..hi]) == p[hi - 1]
  {
    ChainFront(start, g, p, hi);
    ChainRest(start, g, p[..hi], lo);
    assert p[..hi][lo..] == p[lo..hi];
  }

  ghost function Backward(p: seq<Assignment>): seq<Assignment> {
    seq(|p|, k requires 0 <= k < |p| => Turn(p[|p| - 1 - k]))
  }

  /** A chain walked the other way is one over the turned memberships. */
  lemma {:induction false} ChainBackward(g: Graph, p: seq<Assignment>)
    requires TeamChain(g, p)
    ensures TeamChain(Turned(g), Backward(p))
    ensures Backward(p)[0].member == Final(p).parent && Final(Backward(p)).parent == p[0].member
  {
    var q, t := Backward(p), Turned(g);
    forall i | 0 <= i < |p|
      ensures Turn(p[i]) in t && p[i].active
    {
      assert i > 0 ==> StepAt(g, p, i);
    }
    forall k | 0 < k < |q|
      ensures StepAt(t, q, k)
    {
      assert StepAt(g, p, |p| - k);
    }
    assert q[0] == Turn(Final(p));
  }

  lemma {:induction false} TurnedTwice(g: Graph, p: seq<Assignment>)
    requires TeamChain(Turned(Turned(g)), p)
    ensures TeamChain(g, p)
  {
    forall a | a in Turned(Turned(g))
      ensures a in TeamEdges(g)
    {
      var b :| b in Turned(g) && b.kind == TeamMember && a == Turn(b);
      var c :| c in g && c.kind == TeamMember && b == Turn(c);
      assert a == c;
    }
    forall i | 0 < i < |p|
      ensures StepAt(g, p, i)
    {
      assert StepAt(Turned(Turned(g)), p, i);
    }
  }

  // ---------------------------------------------------------------------------
  // What the access queries miss
  // ---------------------------------------------------------------------------

  /** A chain of any length joins the user to the team. */
  ghost predicate JoinedBy(g: Graph, user: Id, team: Id, p: seq<Assignment>) {
    Chain(Users(g), g, p) && p[0].member == user && Final(p).parent == team
  }

  ghost predicate Joined(g: Graph, user: Id, team: Id) {
    exists p :: JoinedBy(g, user, team, p)
  }

  /** Some path within the query's bound ends with the same assignment as `p`. */
  ghost predicate Attained(g: Graph, p: seq<Assignment>)
    requires p != []
  {
    exists q :: Path(g, p[0].member, Final(p).parent, q) && Final(q) == Final(p)
  }

  /** The chain with its first six assignments replaced by a shorter way to the same team. */
  lemma {:induction false} Shortcut(g: Graph, p: seq<Assignment>, q: seq<Assignment>) returns (r: seq<Assignment>)
    requires Chain(Users(g), g, p) && |p| > 6 && Path(g, p[0].member, p[5].parent, q)
    ensures Chain(Users(g), g, r) && r[0].member == p[0].member && Final(r) == Final(p) && |r| < |p|
  {
    ChainRest(Users(g), g, p, 6);
    ChainConcat(Users(g), g, q, p[6..]);
    r := q + p[6..];
  }

  ghost predicate SixPairsImplied(g: Graph) {
    forall p: seq<Assignment> :: Chain(Users(g), g, p) && |p| == 6 ==> (p[0].member, Final(p).parent) in Implied(g)
  }

  lemma {:induction false} LongChainsImplied(g: Graph, p: seq<Assignment>)
    requires SixPairsImplied(g) && Chain(Users(g), g, p)
    ensures (p[0].member, Final(p).parent) in Implied(g)
    decreases |p|
  {
    if |p| <= 5 {
      assert Path(g, p[0].member, Final(p).parent, p);
      QueryIsBoundedReach(g, p[0].member, Final(p).parent);
    } else if |p| > 6 {
      ChainFront(Users(g), g, p, 6);
      QueryIsBoundedReach(g, p[0].member, p[5].parent);
      var q :| Path(g, p[0].member, p[5].parent, q);
      var r := Shortcut(g, p, q);
      LongChainsImplied(g, r);
    }
  }

  /**
   Every pair that is joined at all is found, exactly if every pair joined by six assignments is:
   one more than the queries follow.
   */
  lemma {:induction false} AllPairsFoundExactly(g: Graph)
    ensures (forall user, team :: Joined(g, user, team) ==> (user, team) in Implied(g)) <==> SixPairsImplied(g)
  {
    if SixPairsImplied(g) {
      forall user, team | Joined(g, user, team)
        ensures (user, team) in Implied(g)
      {
        var p :| JoinedBy(g, user, team, p);
        LongChainsImplied(g, p);
      }
    }
    forall p: seq<Assignment> | Chain(Users(g), g, p)
      ensures Joined(g, p[0].member, Final(p).parent)
    {
      assert JoinedBy(g, p[0].member, Final(p).parent, p);
    }
  }

  ghost predicate SixEndsAttained(g: Graph) {
    forall p :: Chain(Users(g), g, p) && |p| == 6 ==> Attained(g, p)
  }

  lemma {:induction false} LongChainsAttained(g: Graph, p: seq<Assignment>)
    requires SixEndsAttained(g) && Chain(Users(g), g, p)
    ensures Attained(g, p)
    decreases |p|
  {
    if |p| <= 5 {
      assert Path(g, p[0].member, Final(p).parent, p);
    } else if |p| > 6 {
      ChainFront(Users(g), g, p, 6);
      assert Attained(g, p[..6]);
      var q :| Path(g, p[0].member, p[5].parent, q) && Final(q) == p[5];
      var r := Shortcut(g, p, q);
      LongChainsAttained(g, r);
    }
  }

  /** The same for the last assignment of a chain, whose role decides what the chain grants. */
  lemma {:induction false} AllEndsAttainedExactly(g: Graph)
    ensures (forall p :: Chain(Users(g), g, p) ==> Attained(g, p)) <==> SixEndsAttained(g)
  {
    if SixEndsAttained(g) {
      forall p | Chain(Users(g), g, p)
        ensures Attained(g, p)
      {
        LongChainsAttained(g, p);
      }
    }
  }

  ghost predicate ClassOnChain(g: Graph, user: Id, team: Id, cls: RoleClass) {
    exists p :: JoinedBy(g, user, team, p) && Final(p).role.cls == cls
  }

  ghost predicate PermissionOnChain(g: Graph, user: Id, team: Id, perm: string) {
    exists p :: JoinedBy(g, user, team, p) && perm in Final(p).role.permissions
  }

  lemma {:induction false} ChainsArePaths(g: Graph, user: Id, team: Id)
    requires SixEndsAttained(g)
    ensures forall p :: JoinedBy(g, user, team, p) ==> exists q :: Path(g, user, team, q) && Final(q) == Final(p)
    ensures forall p :: Path(g, user, team, p) ==> JoinedBy(g, user, team, p)
  {
    forall p | JoinedBy(g, user, team, p)
      ensures exists q :: Path(g, user, team, q) && Final(q) == Final(p)
    {
      LongChainsAttained(g, p);
    }
  }

  lemma {:induction false} ChainClass(g: Graph, user: Id, team: Id, cls: RoleClass)
    requires SixEndsAttained(g)
    ensures ClassOnChain(g, user, team, cls) <==> ClassOnPath(g, user, team, cls)
  {
    ChainsArePaths(g, user, team);
  }

  lemma {:induction false} ChainPermission(g: Graph, user: Id, team: Id, perm: string)
    requires SixEndsAttained(g)
    ensures PermissionOnChain(g, user, team, perm) <==> PermissionOnPath(g, user, team, perm)
  {
    ChainsArePaths(g, user, team);
  }

  /** Then access is the documented union over all paths of any length. */
  lemma {:induction false} AccessIsUnionOfChains(g: Graph, user: Id, team: Id, perm: string)
    requires SixEndsAttained(g)
    ensures Recompute(g, user, team).Some? <==> Joined(g, user, team)
    ensures Recompute(g, user, team).Some? ==>
              && Recompute(g, user, team).value.roleClass
                 == (if ClassOnChain(g, user, team, Internal) then Internal
                     else if ClassOnChain(g, user, team, External) then External else Service)
              && (perm in Recompute(g, user, team).value.permissions <==> PermissionOnChain(g, user, team, perm))
  {
    ChainsArePaths(g, user, team);
    RecomputeAgreesWithReach(g, user, team);
    QueryIsBoundedReach(g, user, team);
    if Recompute(g, user, team).Some? {
      AccessIsUnionOfPaths(g, user, team, perm);
      ChainClass(g, user, team, Internal);
      ChainClass(g, user, team, External);
      ChainPermission(g, user, team, perm);
    }
  }

  // ---------------------------------------------------------------------------
  // The check before a team joins another
  // ---------------------------------------------------------------------------

  datatype Verdict = Accepted | CycleWouldForm | MaxDepthExceeded

  /** `MAX(depth)` of the rows, 0 if there are none; no row is deeper than `n`. */
  function MaxDepth(rows: set<Row>, n: nat): nat {
    if n == 0 || exists r :: r in rows && r.depth == n then n else MaxDepth(rows, n - 1)
  }

  ghost function ClimbDepth(g: Graph, team: Id): nat {
    MaxDepth(Rows(Upward(g, team), g, false), MAX_DEPTH)
  }

  ghost predicate Looped(g: Graph, parent: Id, child: Id) {
    parent == child || child in Ancestors(g, parent)
  }

  ghost function Check(g: Graph, parent: Id, child: Id): Verdict {
    if Looped(g, parent, child) then CycleWouldForm
    else if ClimbDepth(g, parent) + 1 + ClimbDepth(Turned(g), child) > MAX_DEPTH then MaxDepthExceeded
    else Accepted
  }

  method CanAddTeamAsMember(g: Graph, parent: Id, child: Id) returns (v: Verdict)
    ensures v == Check(g, parent, child)
    ensures v == CycleWouldForm
       <==> parent == child || exists p :: Walk(Upward(g, parent), g, p) && Final(p).parent == child
  {
    AncestorsAreEnds(g, parent, child);
    if parent == child {
      return CycleWouldForm;
    }
    var above := WalkAncestors(g, parent);
    if child in above {
      return CycleWouldForm;
    }
    var up := RecursiveQuery(Upward(g, parent), g, false);
    var down := RecursiveQuery(Upward(Turned(g), child), Turned(g), false);
    if MaxDepth(up, MAX_DEPTH) + 1 + MaxDepth(down, MAX_DEPTH) > MAX_DEPTH {
      return MaxDepthExceeded;
    }
    return Accepted;
  }

  /** Up from a team leads a chain of `n` memberships. */
  ghost predicate Climbs(g: Graph, team: Id, n: nat) {
    n == 0 || exists p: seq<Assignment> :: TeamChain(g, p) && |p| == n && p[0].member == team
  }

  lemma {:induction false} UpwardChain(g: Graph, team: Id, p: seq<Assignment>)
    ensures Chain(Upward(g, team), g, p) <==> TeamChain(g, p) && p[0].member == team
  {
  }

  lemma {:induction false} DepthIsClimb(g: Graph, team: Id, n: nat)
    requires 0 < n <= MAX_DEPTH
    ensures (exists r :: r in Rows(Upward(g, team), g, false) && r.depth == n) <==> Climbs(g, team, n)
  {
    var rows := Rows(Upward(g, team), g, false);
    if r :| r in rows && r.depth == n {
      RowsAreWalks(Upward(g, team), g, false, r);
      var p :| Walk(Upward(g, team), g, p) && r == RowOf(false, p);
      UpwardChain(g, team, p);
    }
    if p: seq<Assignment> :| TeamChain(g, p) && |p| == n && p[0].member == team {
      UpwardChain(g, team, p);
      RowsAreWalks(Upward(g, team), g, false, RowOf(false, p));
      assert RowOf(false, p) in rows;
    }
  }

  lemma {:induction false} MaxDepthIs(g: Graph, team: Id, n: nat)
    requires n <= MAX_DEPTH
    ensures MaxDepth(Rows(Upward(g, team), g, false), n) <= n
    ensures Climbs(g, team, MaxDepth(Rows(Upward(g, team), g, false), n))
    ensures forall k :: MaxDepth(Rows(Upward(g, team), g, false), n) < k <= n ==> !Climbs(g, team, k)
  {
    if n > 0 {
      DepthIsClimb(g, team, n);
      MaxDepthIs(g, team, n - 1);
    }
  }

  /** No chain has more than five team memberships. */
  ghost predicate Shallow(g: Graph) {
    forall p :: TeamChain(g, p) ==> |p| <= MAX_DEPTH
  }

  /** On a shallow graph the query sees the longest chain. */
  lemma {:induction false} ClimbDepthIs(g: Graph, team: Id, p: seq<Assignment>)
    requires Shallow(g) && TeamChain(g, p) && p[0].member == team
    ensures |p| <= ClimbDepth(g, team)
  {
    MaxDepthIs(g, team, MAX_DEPTH);
    assert Climbs(g, team, |p|);
  }

  lemma {:induction false} TurnedIsShallow(g: Graph)
    requires Shallow(g)
    ensures Shallow(Turned(g))
  {
    forall p | TeamChain(Turned(g), p)
      ensures |p| <= MAX_DEPTH
    {
      ChainBackward(Turned(g), p);
      TurnedTwice(g, Backward(p));
    }
  }

  /** The membership of `child` in `parent`. */
  predicate IsEdge(a: Assignment, parent: Id, child: Id) {
    a.kind == TeamMember && a.member == child && a.parent == parent
  }

  /** The upsert that follows an accepted check. */
  function Add(g: Graph, parent: Id, child: Id, role: Role): Graph {
    (set a | a in g && !IsEdge(a, parent, child)) + {Assignment(TeamMember, child, parent, true, role)}
  }

  // ---------------------------------------------------------------------------
  // Accepted means shallow
  // ---------------------------------------------------------------------------

  ghost predicate Avoids(p: seq<Assignment>, parent: Id, child: Id) {
    forall i :: 0 <= i < |p| ==> !IsEdge(p[i], parent, child)
  }

  lemma {:induction false} AvoidingChain(g: Graph, parent: Id, child: Id, role: Role, p: seq<Assignment>)
    requires TeamChain(Add(g, parent, child, role), p) && Avoids(p, parent, child)
    ensures TeamChain(g, p)
  {
    forall i | 0 < i < |p|
      ensures StepAt(g, p, i)
    {
      assert StepAt(Add(g, parent, child, role), p, i);
    }
  }

  lemma {:induction false} AvoidsCons(p: seq<Assignment>, parent: Id, child: Id)
    requires p != []
    ensures Avoids(p, parent, child) <==> !IsEdge(p[0], parent, child) && Avoids(p[1..], parent, child)
  {
    assert p == [p[0]] + p[1..];
  }

  /** The last use of the edge in a chain that uses it. */
  lemma {:induction false} LastUse(p: seq<Assignment>, parent: Id, child: Id) returns (j: nat)
    requires !Avoids(p, parent, child)
    ensures j < |p| && IsEdge(p[j], parent, child) && Avoids(p[j + 1..], parent, child)
  {
    if Avoids(p[1..], parent, child) {
      j := 0;
      AvoidsCons(p, parent, child);
    } else {
      var k := LastUse(p[1..], parent, child);
      j := k + 1;
      assert p[j + 1..] == p[1..][k + 1..];
    }
  }

  lemma {:induction false} OldLoopIsSeen(g: Graph, parent: Id, child: Id, p: seq<Assignment>)
    requires Shallow(g) && TeamChain(g, p) && p[0].member == parent && Final(p).parent == child
    ensures Looped(g, parent, child)
  {
    UpwardChain(g, parent, p);
    AncestorsAreEnds(g, parent, child);
    assert Walk(Upward(g, parent), g, p);
  }

  /** A chain from the parent up to the child is a cycle with the new edge, and the check sees it. */
  lemma {:induction false} LoopIsSeen(g: Graph, parent: Id, child: Id, role: Role, p: seq<Assignment>)
    requires Shallow(g) && TeamChain(Add(g, parent, child, role), p)
    requires p[0].member == parent && Final(p).parent == child
    ensures Looped(g, parent, child)
    decreases |p|
  {
    if Avoids(p, parent, child) {
      AvoidingChain(g, parent, child, role, p);
      OldLoopIsSeen(g, parent, child, p);
    } else {
      var h := Add(g, parent, child, role);
      var j := LastUse(p, parent, child);
      if j + 1 < |p| {
        ChainRest(TeamEdges(h), h, p, j + 1);
        LoopIsSeen(g, parent, child, role, p[j + 1..]);
      }
    }
  }

  /** Two uses of the edge in one chain make a loop. */
  lemma {:induction false} TwoUses(g: Graph, parent: Id, child: Id, role: Role, p: seq<Assignment>, i: nat, j: nat)
    requires Shallow(g) && TeamChain(Add(g, parent, child, role), p) && i < j < |p|
    requires IsEdge(p[i], parent, child) && IsEdge(p[j], parent, child)
    ensures Looped(g, parent, child)
  {
    var h := Add(g, parent, child, role);
    assert StepAt(h, p, j);
    if i + 1 < j {
      ChainMiddle(TeamEdges(h), h, p, i + 1, j);
      LoopIsSeen(g, parent, child, role, p[i + 1..j]);
    }
  }

  /** Without a loop the edge is used at most once in a chain. */
  lemma {:induction false} UsedOnce(g: Graph, parent: Id, child: Id, role: Role, p: seq<Assignment>, j: nat)
    requires Shallow(g) && !Looped(g, parent, child)
    requires TeamChain(Add(g, parent, child, role), p) && j < |p| && IsEdge(p[j], parent, child)
    ensures Avoids(p[..j], parent, child)
  {
    forall i | 0 <= i < |p[..j]|
      ensures !IsEdge(p[..j][i], parent, child)
    {
      if IsEdge(p[i], parent, child) {
        TwoUses(g, parent, child, role, p, i, j);
      }
    }
  }

  /** The part of a chain below the new edge is within the depth that the query reports for the child. */
  lemma {:induction false} PartBelow(g: Graph, parent: Id, child: Id, role: Role, p: seq<Assignment>, j: nat)
    requires Shallow(g) && TeamChain(Add(g, parent, child, role), p) && j < |p|
    requires IsEdge(p[j], parent, child) && Avoids(p[..j], parent, child)
    ensures j <= ClimbDepth(Turned(g), child)
  {
    var h := Add(g, parent, child, role);
    if j > 0 {
      ChainFront(TeamEdges(h), h, p, j);
      AvoidingChain(g, parent, child, role, p[..j]);
      assert StepAt(h, p, j);
      ChainBackward(g, p[..j]);
      TurnedIsShallow(g);
      ClimbDepthIs(Turned(g), child, Backward(p[..j]));
    }
  }

  lemma {:induction false} PartAbove(g: Graph, parent: Id, child: Id, role: Role, p: seq<Assignment>, j: nat)
    requires Shallow(g) && TeamChain(Add(g, parent, child, role), p) && j < |p|
    requires IsEdge(p[j], parent, child) && Avoids(p[j + 1..], parent, child)
    ensures |p| - 1 - j <= ClimbDepth(g, parent)
  {
    var h := Add(g, parent, child, role);
    if j + 1 < |p| {
      ChainRest(TeamEdges(h), h, p, j + 1);
      AvoidingChain(g, parent, child, role, p[j + 1..]);
      ClimbDepthIs(g, parent, p[j + 1..]);
    }
  }

  lemma {:induction false} AcceptedStaysShallow(g: Graph, parent: Id, child: Id, role: Role)
    requires Shallow(g) && Check(g, parent, child) == Accepted
    ensures Shallow(Add(g, parent, child, role))
  {
    forall p | TeamChain(Add(g, parent, child, role), p)
      ensures |p| <= MAX_DEPTH
    {
      if Avoids(p, parent, child) {
        AvoidingChain(g, parent, child, role, p);
      } else {
        var j := LastUse(p, parent, child);
        UsedOnce(g, parent, child, role, p, j);
        PartBelow(g, parent, child, role, p, j);
        PartAbove(g, parent, child, role, p, j);
      }
    }
  }

  // ---------------------------------------------------------------------------
  // Rejected means too deep
  // ---------------------------------------------------------------------------

  function NewEdge(parent: Id, child: Id, role: Role): Assignment {
    Assignment(TeamMember, child, parent, true, role)
  }

  /** A chain of the old graph, with the new edge in place of the old one. */
  ghost function Renewed(p: seq<Assignment>, parent: Id, child: Id, role: Role): seq<Assignment> {
    seq(|p|, i requires 0 <= i < |p| => if IsEdge(p[i], parent, child) then NewEdge(parent, child, role) else p[i])
  }

  lemma {:induction false} RenewedChain(g: Graph, parent: Id, child: Id, role: Role, p: seq<Assignment>)
    requires TeamChain(g, p)
    ensures TeamChain(Add(g, parent, child, role), Renewed(p, parent, child, role))
    ensures Renewed(p, parent, child, role)[0].member == p[0].member
    ensures Final(Renewed(p, parent, child, role)).parent == Final(p).parent
  {
    var h, q := Add(g, parent, child, role), Renewed(p, parent, child, role);
    forall i | 0 < i < |q|
      ensures StepAt(h, q, i)
    {
      assert StepAt(g, p, i);
    }
  }

  lemma {:induction false} EdgeChain(g: Graph, parent: Id, child: Id, role: Role)
    ensures TeamChain(Add(g, parent, child, role), [NewEdge(parent, child, role)])
  {
  }

  ghost function Repeated(p: seq<Assignment>, n: nat): seq<Assignment> {
    if n == 0 then [] else p + Repeated(p, n - 1)
  }

  /** A chain that ends where it starts can be walked again and again. */
  lemma {:induction false} RepeatedChain(g: Graph, p: seq<Assignment>, n: nat)
    requires TeamChain(g, p) && p[0].member == Final(p).parent && n > 0
    ensures TeamChain(g, Repeated(p, n)) && |Repeated(p, n)| >= n
    ensures Repeated(p, n)[0].member == p[0].member
  {
    if n > 1 {
      RepeatedChain(g, p, n - 1);
      ChainConcat(TeamEdges(g), g, p, Repeated(p, n - 1));
    } else {
      assert Repeated(p, 0) == [] && p + [] == p;
    }
  }

  lemma {:induction false} CycleIsDeep(g: Graph, parent: Id, child: Id, role: Role)
    requires Looped(g, parent, child)
    ensures !Shallow(Add(g, parent, child, role))
  {
    var h, e := Add(g, parent, child, role), NewEdge(parent, child, role);
    var loop := [e];
    EdgeChain(g, parent, child, role);
    if parent != child {
      AncestorsAreEnds(g, parent, child);
      var p :| Walk(Upward(g, parent), g, p) && Final(p).parent == child;
      UpwardChain(g, parent, p);
      RenewedChain(g, parent, child, role, p);
      ChainConcat(TeamEdges(h), h, Renewed(p, parent, child, role), [e]);
      loop := Renewed(p, parent, child, role) + [e];
    }
    RepeatedChain(h, loop, MAX_DEPTH + 1);
  }

  /** The new edge, and above it as deep a chain as the query reports for the parent. */
  lemma {:induction false} ChainAbove(g: Graph, parent: Id, child: Id, role: Role) returns (chain: seq<Assignment>)
    ensures TeamChain(Add(g, parent, child, role), chain) && chain[0].member == child
    ensures |chain| == 1 + ClimbDepth(g, parent)
  {
    var h, a := Add(g, parent, child, role), ClimbDepth(g, parent);
    MaxDepthIs(g, parent, MAX_DEPTH);
    EdgeChain(g, parent, child, role);
    chain := [NewEdge(parent, child, role)];
    if a > 0 {
      var p: seq<Assignment> :| TeamChain(g, p) && |p| == a && p[0].member == parent;
      RenewedChain(g, parent, child, role, p);
      ChainConcat(TeamEdges(h), h, chain, Renewed(p, parent, child, role));
      chain := chain + Renewed(p, parent, child, role);
    }
  }

  /** Below the child there is as deep a chain as the query reports for it. */
  lemma {:induction false} ChainBelow(g: Graph, parent: Id, child: Id, role: Role) returns (chain: seq<Assignment>)
    requires ClimbDepth(Turned(g), child) > 0
    ensures TeamChain(Add(g, parent, child, role), chain) && Final(chain).parent == child
    ensures |chain| == ClimbDepth(Turned(g), child)
  {
    var b := ClimbDepth(Turned(g), child);
    MaxDepthIs(Turned(g), child, MAX_DEPTH);
    var q: seq<Assignment> :| TeamChain(Turned(g), q) && |q| == b && q[0].member == child;
    ChainBackward(Turned(g), q);
    TurnedTwice(g, Backward(q));
    RenewedChain(g, parent, child, role, Backward(q));
    chain := Renewed(Backward(q), parent, child, role);
  }

  lemma {:induction false} DepthIsDeep(g: Graph, parent: Id, child: Id, role: Role)
    requires ClimbDepth(g, parent) + 1 + ClimbDepth(Turned(g), child) > MAX_DEPTH
    ensures !Shallow(Add(g, parent, child, role))
  {
    var h := Add(g, parent, child, role);
    var chain := ChainAbove(g, parent, child, role);
    if ClimbDepth(Turned(g), child) > 0 {
      var below := ChainBelow(g, parent, child, role);
      ChainConcat(TeamEdges(h), h, below, chain);
      chain := below + chain;
    }
  }

  /**
   On a graph whose chains have at most five team memberships the check accepts a new one exactly if
   that stays so; a cycle counts as a chain without end.
   */
  lemma {:induction false} AcceptedExactly(g: Graph, parent: Id, child: Id, role: Role)
    requires Shallow(g)
    ensures Check(g, parent, child) == Accepted <==> Shallow(Add(g, parent, child, role))
  {
    match Check(g, parent, child)
    case Accepted => AcceptedStaysShallow(g, parent, child, role);
    case CycleWouldForm => CycleIsDeep(g, parent, child, role);
    case MaxDepthExceeded => DepthIsDeep(g, parent, child, role);
  }

  // ---------------------------------------------------------------------------
  // Whole runs of changes
  // ---------------------------------------------------------------------------

  datatype Change =
    | AddTeam(parent: Id, child: Id, role: Role)
    | AddUser(team: Id, user: Id, role: Role)
    | Remove(kind: MemberKind, member: Id, parent: Id)

  ghost predicate Enabled(g: Graph, c: Change) {
    c.AddTeam? ==> Check(g, c.parent, c.child) == Accepted
  }

  function Apply(g: Graph, c: Change): Graph {
    match c
    case AddTeam(parent, child, role) => Add(g, parent, child, role)
    case AddUser(team, user, role) =>
      (set a | a in g && !(a.kind == UserMember && a.member == user && a.parent == team))
      + {Assignment(UserMember, user, team, true, role)}
    case Remove(kind, member, parent) =>
      set a | a in g && !(a.kind == kind && a.member == member && a.parent == parent)
  }

  /** The membership that a change is about. */
  ghost predicate IsAbout(c: Change, a: Assignment) {
    match c
    case AddTeam(parent, child, _) => a.kind == TeamMember && a.member == child && a.parent == parent
    case AddUser(team, user, _) => a.kind == UserMember && a.member == user && a.parent == team
    case Remove(kind, member, parent) => a.kind == kind && a.member == member && a.parent == parent
  }

  /** A change replaces or removes one membership and leaves all others as they are. */
  lemma {:induction false} ChangeIsOneMembership(g: Graph, c: Change, a: Assignment)
    ensures !IsAbout(c, a) ==> (a in Apply(g, c) <==> a in g)
    ensures IsAbout(c, a) ==> (a in Apply(g, c) <==> !c.Remove? && a.active && a.role == c.role)
  {
  }

  /** The primary key: one assignment for a member in a team. */
  ghost predicate KeysUnique(g: Graph) {
    forall a, b :: a in g && b in g && a.kind == b.kind && a.member == b.member && a.parent == b.parent ==> a == b
  }

  lemma {:induction false} KeysStayUnique(g: Graph, cs: seq<Change>, h: Graph)
    requires KeysUnique(g) && StepsTo(g, cs, h)
    ensures KeysUnique(h)
    decreases |cs|
  {
    if cs != [] {
      KeysStayUnique(Apply(g, cs[0]), cs[1..], h);
    }
  }

  ghost predicate StepsTo(g: Graph, cs: seq<Change>, h: Graph)
    decreases |cs|
  {
    if cs == [] then g == h else Enabled(g, cs[0]) && StepsTo(Apply(g, cs[0]), cs[1..], h)
  }

  lemma {:induction false} FewerEdgesStayShallow(g: Graph, h: Graph)
    requires Shallow(g) && forall a :: a in TeamEdges(h) ==> a in g
    ensures Shallow(h)
  {
    forall p | TeamChain(h, p)
      ensures |p| <= MAX_DEPTH
    {
      forall i | 0 < i < |p|
        ensures StepAt(g, p, i)
      {
        assert StepAt(h, p, i);
        assert p[i] in TeamEdges(h);
      }
      assert p[0] in TeamEdges(h);
      assert TeamChain(g, p);
    }
  }

  /** Every graph that changes lead to has chains of at most five team memberships. */
  lemma {:induction false} GraphsStayShallow(g: Graph, cs: seq<Change>, h: Graph)
    requires Shallow(g) && StepsTo(g, cs, h)
    ensures Shallow(h)
    decreases |cs|
  {
    if cs != [] {
      var next := Apply(g, cs[0]);
      if cs[0].AddTeam? {
        AcceptedExactly(g, cs[0].parent, cs[0].child, cs[0].role);
      } else {
        FewerEdgesStayShallow(g, next);
      }
      GraphsStayShallow(next, cs[1..], h);
    }
  }

  /** Starting from nothing, a user is never more than six assignments from a team. */
  lemma {:induction false} SixIsTheMost(g: Graph, p: seq<Assignment>)
    requires Built(g) && Chain(Users(g), g, p)
    ensures |p| <= 6
  {
    var cs :| StepsTo({}, cs, g);
    GraphsStayShallow({}, cs, g);
    if |p| > 1 {
      ChainRest(Users(g), g, p, 1);
    }
  }

  lemma {:induction false} StepsSnoc(g: Graph, cs: seq<Change>, h: Graph, c: Change, k: Graph)
    requires StepsTo(g, cs, h) && Enabled(h, c) && Apply(h, c) == k
    ensures StepsTo(g, cs + [c], k)
    decreases |cs|
  {
    if cs == [] {
      assert [] + [c] == [c] && [c][1..] == [];
    } else {
      StepsSnoc(Apply(g, cs[0]), cs[1..], h, c, k);
      assert (cs + [c])[0] == cs[0] && (cs + [c])[1..] == cs[1..] + [c];
    }
  }

  /** Accepted changes lead from nothing to the graph. */
  ghost predicate Built(g: Graph) {
    exists cs :: StepsTo({}, cs, g)
  }

  lemma {:induction false} BuildOn(g: Graph, h: Graph, parent: Id, child: Id, role: Role)
    requires Built(g) && Add(g, parent, child, role) == h && Shallow(h)
    ensures Built(h)
  {
    var cs :| StepsTo({}, cs, g);
    GraphsStayShallow({}, cs, g);
    AcceptedExactly(g, parent, child, role);
    StepsSnoc({}, cs, g, AddTeam(parent, child, role), h);
  }

  /** Team `i` is in the next one. */
  function Rung(role: Role, i: Id): Assignment {
    NewEdge(i + 1, i, role)
  }

  /** User 0 is in team 1, and each of the teams 1 to n in the next. */
  ghost function Ladder(role: Role, n: nat): Graph {
    {Assignment(UserMember, 0, 1, true, role)} + set i | 1 <= i <= n :: Rung(role, i)
  }

  lemma {:induction false} OnLadder(role: Role, n: nat, a: Assignment)
    ensures a in Ladder(role, n)
       <==> a == Assignment(UserMember, 0, 1, true, role) || (1 <= a.member <= n && a == Rung(role, a.member))
  {
  }

  lemma {:induction false} LadderSteps(role: Role, n: nat, start: Graph, p: seq<Assignment>, i: nat)
    requires Chain(start, Ladder(role, n), p) && i < |p| && p[0].parent == p[0].member + 1
    ensures p[i].member == p[0].member + i && p[i].parent == p[i].member + 1 && (i > 0 ==> p[i].member <= n)
  {
    if i > 0 {
      LadderSteps(role, n, start, p, i - 1);
      assert StepAt(Ladder(role, n), p, i);
      OnLadder(role, n, p[i]);
    }
  }

  lemma {:induction false} LadderIsShallow(role: Role, n: nat)
    requires n <= 5
    ensures Shallow(Ladder(role, n))
  {
    var g := Ladder(role, n);
    forall p | TeamChain(g, p)
      ensures |p| <= MAX_DEPTH
    {
      OnLadder(role, n, p[0]);
      LadderSteps(role, n, TeamEdges(g), p, |p| - 1);
    }
  }

  lemma {:induction false} LadderGrows(role: Role, n: nat)
    requires n > 0
    ensures Add(Ladder(role, n - 1), n + 1, n, role) == Ladder(role, n)
  {
    forall a
      ensures a in Add(Ladder(role, n - 1), n + 1, n, role) <==> a in Ladder(role, n)
    {
      OnLadder(role, n - 1, a);
      OnLadder(role, n, a);
    }
  }

  lemma {:induction false} FootOfLadder(role: Role)
    ensures Built(Ladder(role, 0))
  {
    var c := AddUser(1, 0, role);
    assert Apply({}, c) == Ladder(role, 0);
    assert [c][1..] == [];
    assert StepsTo({}, [c], Ladder(role, 0));
  }

  /** All memberships of the ladder are accepted, one after the other. */
  lemma {:induction false} LadderIsBuilt(role: Role, n: nat)
    requires n <= 5
    ensures Built(Ladder(role, n))
  {
    if n == 0 {
      FootOfLadder(role);
    } else {
      LadderIsBuilt(role, n - 1);
      LadderIsShallow(role, n);
      LadderGrows(role, n);
      BuildOn(Ladder(role, n - 1), Ladder(role, n), n + 1, n, role);
    }
  }

  ghost function LadderPath(role: Role, n: nat): seq<Assignment> {
    if n == 0 then [Assignment(UserMember, 0, 1, true, role)] else LadderPath(role, n - 1) + [Rung(role, n)]
  }

  lemma {:induction false} LadderJoins(role: Role, n: nat, m: nat)
    requires n <= m
    ensures JoinedBy(Ladder(role, m), 0, n + 1, LadderPath(role, n)) && |LadderPath(role, n)| == n + 1
  {
    var g := Ladder(role, m);
    OnLadder(role, m, Assignment(UserMember, 0, 1, true, role));
    if n > 0 {
      var e := Rung(role, n);
      LadderJoins(role, n - 1, m);
      OnLadder(role, m, e);
      assert TeamChain(g, [e]);
      ChainConcat(Users(g), g, LadderPath(role, n - 1), [e]);
    }
  }

  lemma {:induction false} LadderPathLength(role: Role, n: nat, p: seq<Assignment>)
    requires Chain(Users(Ladder(role, n)), Ladder(role, n), p)
    ensures |p| == Final(p).parent
  {
    OnLadder(role, n, p[0]);
    LadderSteps(role, n, Users(Ladder(role, n)), p, |p| - 1);
  }

  lemma {:induction false} LadderIsTooLong(role: Role, n: nat, top: Id)
    requires top > MAX_DEPTH
    ensures !Reachable(Ladder(role, n), 0, top)
  {
    if p :| Path(Ladder(role, n), 0, top, p) {
      LadderPathLength(role, n, p);
    }
  }

  lemma {:induction false} NoPathNoAccess(g: Graph, user: Id, team: Id)
    requires !Reachable(g, user, team)
    ensures (user, team) !in Implied(g) && Recompute(g, user, team) == None
  {
    QueryIsBoundedReach(g, user, team);
    RecomputeAgreesWithReach(g, user, team);
  }

  /** A chain joins the user to the team, and the user has no access to it. */
  ghost predicate Missed(g: Graph, user: Id, team: Id) {
    Joined(g, user, team) && (user, team) !in Implied(g) && Recompute(g, user, team) == None
  }

  lemma {:induction false} JoinedButUnreached(g: Graph, user: Id, team: Id, p: seq<Assignment>)
    requires JoinedBy(g, user, team, p) && !Reachable(g, user, team)
    ensures Missed(g, user, team)
  {
    NoPathNoAccess(g, user, team);
  }

  /** From five team memberships on, the user has no access to the top of the ladder. */
  lemma {:induction false} TopIsMissed(role: Role, n: nat, top: Id)
    requires top == n + 1 > MAX_DEPTH
    ensures Missed(Ladder(role, n), 0, top)
  {
    LadderJoins(role, n, n);
    LadderIsTooLong(role, n, top);
    JoinedButUnreached(Ladder(role, n), 0, top, LadderPath(role, n));
  }

  /** So accepted memberships alone lead to a graph that misses a user. */
  lemma {:induction false} AcceptedGraphMissesUser(role: Role) returns (g: Graph)
    ensures Built(g) && Missed(g, 0, 6)
  {
    LadderIsBuilt(role, MAX_DEPTH);
    g := Ladder(role, MAX_DEPTH);
    TopIsMissed(role, MAX_DEPTH, 6);
  }
}
