/**
 The team graph and the recursive queries over it: who reaches which team, a team's ancestors and
 descendants, and the access that a user has in a team through all paths.
 */
module TeamGraph {
  import opened Wrappers

  type Id = int

  datatype MemberKind = UserMember | TeamMember

  datatype RoleClass = Internal | External | Service

  datatype Role = Role(cls: RoleClass, permissions: seq<string>)

  /** `member` holds `role` in `parent`; members are users or other teams. */
  datatype Assignment = Assignment(kind: MemberKind, member: Id, parent: Id, active: bool, role: Role)

  type Graph = set<Assignment>

  const MAX_DEPTH: nat := 5

  /** A row of a recursive query: where it started, the team it got to, and in how many steps. */
  datatype Row = Row(origin: Id, team: Id, role: Option<Role>, depth: int)

  // ---------------------------------------------------------------------------
  // The recursive queries
  // ---------------------------------------------------------------------------

  /** Some of the queries carry the role of the last assignment, the others have no such column. */
  function Column(withRole: bool, role: Role): Option<Role> {
    if withRole then Some(role) else None
  }

  /** The non-recursive term over the assignments it selects. */
  function Direct(start: Graph, withRole: bool): set<Row> {
    set a | a in start && a.active :: Row(a.member, a.parent, Column(withRole, a.role), 1)
  }

  /** The recursive term, applied to the working table. */
  function Extend(g: Graph, withRole: bool, work: set<Row>): set<Row> {
    set r, a | r in work && a in g && a.kind == TeamMember && a.active && a.member == r.team && r.depth < MAX_DEPTH
      :: Row(r.origin, a.parent, Column(withRole, a.role), r.depth + 1)
  }

  /** Rows found after `k` rounds beyond the non-recursive term. */
  ghost function Level(start: Graph, g: Graph, withRole: bool, k: nat): set<Row> {
    if k == 0 then Direct(start, withRole) else Extend(g, withRole, Level(start, g, withRole, k - 1))
  }

  ghost function Levels(start: Graph, g: Graph, withRole: bool, k: nat): set<Row> {
    if k == 0 then Level(start, g, withRole, 0)
    else Levels(start, g, withRole, k - 1) + Level(start, g, withRole, k)
  }

  /** All rows of the query. */
  ghost function Rows(start: Graph, g: Graph, withRole: bool): set<Row> {
    Levels(start, g, withRole, MAX_DEPTH)
  }

  /** The step that took the working table to a new row. */
  lemma {:induction false} Origin(g: Graph, withRole: bool, work: set<Row>, r: Row) returns (q: Row, a: Assignment)
    requires r in Extend(g, withRole, work)
    ensures q in work && q.depth < MAX_DEPTH && a in g && a.kind == TeamMember && a.active && a.member == q.team
    ensures r == Row(q.origin, a.parent, Column(withRole, a.role), q.depth + 1)
  {
    q, a :| q in work && a in g && a.kind == TeamMember && a.active && a.member == q.team
            && q.depth < MAX_DEPTH && r == Row(q.origin, a.parent, Column(withRole, a.role), q.depth + 1);
  }

  lemma {:induction false} LevelDepth(start: Graph, g: Graph, withRole: bool, k: nat, r: Row)
    requires r in Level(start, g, withRole, k)
    ensures r.depth == k + 1 <= MAX_DEPTH
  {
    if k > 0 {
      var q, a := Origin(g, withRole, Level(start, g, withRole, k - 1), r);
      LevelDepth(start, g, withRole, k - 1, q);
    }
  }

  lemma {:induction false} LevelsDepth(start: Graph, g: Graph, withRole: bool, k: nat, r: Row)
    requires r in Levels(start, g, withRole, k)
    ensures 1 <= r.depth <= k + 1 && r in Level(start, g, withRole, r.depth - 1)
  {
    if r in Level(start, g, withRole, k) {
      LevelDepth(start, g, withRole, k, r);
    } else {
      LevelsDepth(start, g, withRole, k - 1, r);
    }
  }

  lemma {:induction false} LevelsHold(start: Graph, g: Graph, withRole: bool, k: nat, j: nat, r: Row)
    requires j <= k && r in Level(start, g, withRole, j)
    ensures r in Levels(start, g, withRole, k)
  {
    if j < k {
      LevelsHold(start, g, withRole, k - 1, j, r);
    }
  }

  /** No level beyond the depth limit has rows. */
  lemma {:induction false} DeepLevelEmpty(start: Graph, g: Graph, withRole: bool, k: nat)
    requires k >= MAX_DEPTH
    ensures Level(start, g, withRole, k) == {}
  {
    forall r | r in Level(start, g, withRole, k)
      ensures false
    {
      LevelDepth(start, g, withRole, k, r);
    }
  }

  /** A round finds only rows that are new. */
  lemma {:induction false} LevelIsNew(start: Graph, g: Graph, withRole: bool, k: nat)
    ensures Level(start, g, withRole, k + 1) - Levels(start, g, withRole, k) == Level(start, g, withRole, k + 1)
  {
    forall r | r in Level(start, g, withRole, k + 1) && r in Levels(start, g, withRole, k)
      ensures false
    {
      LevelDepth(start, g, withRole, k + 1, r);
      LevelsDepth(start, g, withRole, k, r);
    }
  }

  /** Once a round finds nothing, no later one does. */
  lemma {:induction false} EmptyStays(start: Graph, g: Graph, withRole: bool, k: nat, n: nat)
    requires Level(start, g, withRole, k) == {} && k <= n
    ensures Level(start, g, withRole, n) == {} && Levels(start, g, withRole, n) == Levels(start, g, withRole, k)
    decreases n
  {
    if k < n {
      EmptyStays(start, g, withRole, k, n - 1);
    }
  }

  lemma {:induction false} RowsFrom(start: Graph, g: Graph, withRole: bool, k: nat)
    requires Level(start, g, withRole, k) == {} && k <= MAX_DEPTH
    ensures Levels(start, g, withRole, k) == Rows(start, g, withRole)
  {
    EmptyStays(start, g, withRole, k, MAX_DEPTH);
  }

  /** `WITH RECURSIVE ... UNION`: iterate on the new rows until a round finds none. */
  method RecursiveQuery(start: Graph, g: Graph, withRole: bool) returns (rows: set<Row>)
    ensures rows == Rows(start, g, withRole)
  {
    rows := Direct(start, withRole);
    var work := rows;
    ghost var k := 0;
    while work != {}
      invariant work == Level(start, g, withRole, k) && rows == Levels(start, g, withRole, k) && k <= MAX_DEPTH
      decreases MAX_DEPTH - k
    {
      if k == MAX_DEPTH {
        DeepLevelEmpty(start, g, withRole, k);
      }
      LevelIsNew(start, g, withRole, k);
      work := Extend(g, withRole, work) - rows;
      rows := rows + work;
      k := k + 1;
    }
    RowsFrom(start, g, withRole, k);
  }

  // ---------------------------------------------------------------------------
  // Walks
  // ---------------------------------------------------------------------------

  /** Assignment `i` of the walk is active and hands the team of the one before it on to its own parent. */
  ghost predicate StepAt(g: Graph, p: seq<Assignment>, i: nat)
    requires 0 < i < |p|
  {
    p[i] in g && p[i].active && p[i].kind == TeamMember && p[i].member == p[i - 1].parent
  }

  /** An active assignment of `start`, then active team memberships of `g`, any number of them. */
  ghost predicate Chain(start: Graph, g: Graph, p: seq<Assignment>) {
    p != [] && p[0] in start && p[0].active && forall i :: 0 < i < |p| ==> StepAt(g, p, i)
  }

  /** A chain of at most five assignments. */
  ghost predicate Walk(start: Graph, g: Graph, p: seq<Assignment>) {
    Chain(start, g, p) && |p| <= MAX_DEPTH
  }

  function Final(p: seq<Assignment>): Assignment
    requires p != []
  {
    p[|p| - 1]
  }

  /** The row that a walk stands for. */
  ghost function RowOf(withRole: bool, p: seq<Assignment>): Row
    requires p != []
  {
    Row(p[0].member, Final(p).parent, Column(withRole, Final(p).role), |p|)
  }

  lemma {:induction false} WalkSnoc(start: Graph, g: Graph, p: seq<Assignment>, a: Assignment)
    requires Walk(start, g, p) && |p| < MAX_DEPTH
    requires a in g && a.active && a.kind == TeamMember && a.member == Final(p).parent
    ensures Walk(start, g, p + [a])
  {
    var q := p + [a];
    forall i | 0 < i < |q|
      ensures StepAt(g, q, i)
    {
      if i < |p| {
        assert StepAt(g, p, i);
      }
    }
  }

  lemma {:induction false} WalkFront(start: Graph, g: Graph, p: seq<Assignment>)
    requires Walk(start, g, p) && |p| > 1
    ensures Walk(start, g, p[..|p| - 1]) && StepAt(g, p, |p| - 1)
  {
    var q := p[..|p| - 1];
    forall i | 0 < i < |q|
      ensures StepAt(g, q, i)
    {
      assert StepAt(g, p, i);
    }
  }

  lemma {:induction false} LevelHasWalk(start: Graph, g: Graph, withRole: bool, k: nat, r: Row)
    returns (p: seq<Assignment>)
    requires r in Level(start, g, withRole, k)
    ensures Walk(start, g, p) && |p| == k + 1 && r == RowOf(withRole, p)
  {
    if k == 0 {
      var a :| a in start && a.active && r == Row(a.member, a.parent, Column(withRole, a.role), 1);
      p := [a];
    } else {
      var q, a := Origin(g, withRole, Level(start, g, withRole, k - 1), r);
      var front := LevelHasWalk(start, g, withRole, k - 1, q);
      WalkSnoc(start, g, front, a);
      p := front + [a];
    }
  }

  lemma {:induction false} WalkInLevel(start: Graph, g: Graph, withRole: bool, p: seq<Assignment>)
    requires Walk(start, g, p)
    ensures RowOf(withRole, p) in Level(start, g, withRole, |p| - 1)
    decreases |p|
  {
    if |p| > 1 {
      WalkFront(start, g, p);
      WalkInLevel(start, g, withRole, p[..|p| - 1]);
    }
  }

  lemma {:induction false} LevelsAreWalks(start: Graph, g: Graph, withRole: bool, n: nat, r: Row)
    requires n >= MAX_DEPTH
    ensures r in Levels(start, g, withRole, n) <==> exists p :: Walk(start, g, p) && r == RowOf(withRole, p)
  {
    if r in Levels(start, g, withRole, n) {
      LevelsDepth(start, g, withRole, n, r);
      var p := LevelHasWalk(start, g, withRole, r.depth - 1, r);
    }
    if p :| Walk(start, g, p) && r == RowOf(withRole, p) {
      WalkInLevel(start, g, withRole, p);
      LevelsHold(start, g, withRole, n, |p| - 1, r);
    }
  }

  /** The rows of the query are those of the walks. */
  lemma {:induction false} RowsAreWalks(start: Graph, g: Graph, withRole: bool, r: Row)
    ensures r in Rows(start, g, withRole) <==> exists p :: Walk(start, g, p) && r == RowOf(withRole, p)
  {
    LevelsAreWalks(start, g, withRole, MAX_DEPTH, r);
  }

  // ---------------------------------------------------------------------------
  // Who reaches which team
  // ---------------------------------------------------------------------------

  function Users(g: Graph): Graph {
    set a | a in g && a.kind == UserMember
  }

  /** A walk from a user to a team. */
  ghost predicate Path(g: Graph, user: Id, team: Id, p: seq<Assignment>) {
    Walk(Users(g), g, p) && p[0].member == user && Final(p).parent == team
  }

  ghost predicate Reachable(g: Graph, user: Id, team: Id) {
    exists p :: Path(g, user, team, p)
  }

  /** `SELECT DISTINCT user_id, team_id`. */
  function Pairs(rows: set<Row>): set<(Id, Id)> {
    set r | r in rows :: (r.origin, r.team)
  }

  /** All pairs of the reach query. */
  ghost function Implied(g: Graph): set<(Id, Id)> {
    Pairs(Rows(Users(g), g, false))
  }

  method ReachQuery(g: Graph) returns (pairs: set<(Id, Id)>)
    ensures pairs == Implied(g)
  {
    var rows := RecursiveQuery(Users(g), g, false);
    pairs := Pairs(rows);
  }

  /**
   On any graph, cyclic or not, the query yields exactly the pairs joined by an active chain
   of one to five assignments.
   */
  lemma {:induction false} QueryIsBoundedReach(g: Graph, user: Id, team: Id)
    ensures (user, team) in Implied(g) <==> Reachable(g, user, team)
  {
    var rows := Rows(Users(g), g, false);
    if (user, team) in Pairs(rows) {
      var r :| r in rows && (r.origin, r.team) == (user, team);
      RowsAreWalks(Users(g), g, false, r);
      var p :| Walk(Users(g), g, p) && r == RowOf(false, p);
      assert Path(g, user, team, p);
    }
    if p :| Path(g, user, team, p) {
      RowsAreWalks(Users(g), g, false, RowOf(false, p));
      assert RowOf(false, p) in rows;
    }
  }

  // ---------------------------------------------------------------------------
  // The access of one user in one team
  // ---------------------------------------------------------------------------

  datatype Access = Access(roleClass: RoleClass, permissions: set<string>, pathCount: nat)

  /** The memberships of one user. */
  function MembershipsOf(g: Graph, user: Id): Graph {
    set a | a in g && a.kind == UserMember && a.member == user
  }

  function Into(g: Graph, team: Id): Graph {
    set a | a in g && a.parent == team
  }

  function At(rows: set<Row>, team: Id): set<Row> {
    set r | r in rows && r.team == team
  }

  /** `paths`: walks that never leave the target team. */
  ghost function Inner(g: Graph, user: Id, team: Id): set<Row> {
    Rows(Into(MembershipsOf(g, user), team), Into(g, team), true)
  }

  /** The rows of `recursive_membership` at the target team. */
  ghost function Outer(g: Graph, user: Id, team: Id): set<Row> {
    At(Rows(MembershipsOf(g, user), g, true), team)
  }

  predicate HasClass(rows: set<Row>, cls: RoleClass) {
    exists r :: r in rows && r.role.Some? && r.role.value.cls == cls
  }

  function Permissions(rows: set<Row>): set<string> {
    set r, perm | r in rows && r.role.Some? && perm in r.role.value.permissions :: perm
  }

  /** The aggregate over both sets of rows; they are joined by UNION ALL, so a row in both counts twice. */
  function Summary(inner: set<Row>, outer: set<Row>): Option<Access> {
    if |inner| + |outer| == 0 then None
    else
      var cls :=
        if HasClass(inner + outer, Internal) then Internal
        else if HasClass(inner + outer, External) then External
        else Service;
      Some(Access(cls, Permissions(inner + outer), |inner| + |outer|))
  }

  ghost function Recompute(g: Graph, user: Id, team: Id): Option<Access> {
    Summary(Inner(g, user, team), Outer(g, user, team))
  }

  method RecomputeAccess(g: Graph, user: Id, team: Id) returns (access: Option<Access>)
    ensures access == Recompute(g, user, team)
  {
    var inner := RecursiveQuery(Into(MembershipsOf(g, user), team), Into(g, team), true);
    var membership := RecursiveQuery(MembershipsOf(g, user), g, true);
    access := Summary(inner, At(membership, team));
  }

  /** A walk of one user, told by where it starts or by the memberships it may start from. */
  lemma {:induction false} PathIsWalk(g: Graph, user: Id, team: Id, p: seq<Assignment>)
    ensures Path(g, user, team, p) <==> Walk(MembershipsOf(g, user), g, p) && Final(p).parent == team
  {
  }

  lemma {:induction false} OuterAreEndings(g: Graph, user: Id, team: Id, r: Row)
    ensures r in Outer(g, user, team) <==> exists p :: Path(g, user, team, p) && r == RowOf(true, p)
  {
    var start := MembershipsOf(g, user);
    RowsAreWalks(start, g, true, r);
    if r in Outer(g, user, team) {
      var p :| Walk(start, g, p) && r == RowOf(true, p);
      PathIsWalk(g, user, team, p);
      assert Path(g, user, team, p);
    }
    if p :| Path(g, user, team, p) && r == RowOf(true, p) {
      PathIsWalk(g, user, team, p);
    }
  }

  /** The path that never leaves the target team. */
  ghost predicate Stays(p: seq<Assignment>, team: Id) {
    forall i :: 0 <= i < |p| ==> p[i].parent == team
  }

  lemma {:induction false} StayingWalk(g: Graph, user: Id, team: Id, p: seq<Assignment>)
    ensures Walk(Into(MembershipsOf(g, user), team), Into(g, team), p) <==> Path(g, user, team, p) && Stays(p, team)
  {
    var start, into := Into(MembershipsOf(g, user), team), Into(g, team);
    if Walk(start, into, p) {
      forall i | 0 < i < |p|
        ensures StepAt(g, p, i) && p[i].parent == team
      {
        assert StepAt(into, p, i);
      }
    }
    if Path(g, user, team, p) && Stays(p, team) {
      forall i | 0 < i < |p|
        ensures StepAt(into, p, i)
      {
        assert StepAt(g, p, i);
      }
    }
  }

  lemma {:induction false} InnerAreEndings(g: Graph, user: Id, team: Id, r: Row)
    ensures r in Inner(g, user, team)
       <==> exists p :: Path(g, user, team, p) && Stays(p, team) && r == RowOf(true, p)
  {
    var start, into := Into(MembershipsOf(g, user), team), Into(g, team);
    RowsAreWalks(start, into, true, r);
    if r in Inner(g, user, team) {
      var p :| Walk(start, into, p) && r == RowOf(true, p);
      StayingWalk(g, user, team, p);
      assert Path(g, user, team, p) && Stays(p, team);
    }
    if p :| Path(g, user, team, p) && Stays(p, team) && r == RowOf(true, p) {
      StayingWalk(g, user, team, p);
    }
  }

  lemma {:induction false} InnerWithinOuter(g: Graph, user: Id, team: Id)
    ensures Inner(g, user, team) <= Outer(g, user, team)
  {
    forall r | r in Inner(g, user, team)
      ensures r in Outer(g, user, team)
    {
      InnerAreEndings(g, user, team, r);
      OuterAreEndings(g, user, team, r);
    }
  }

  lemma {:induction false} OuterSaysReachable(g: Graph, user: Id, team: Id)
    ensures Outer(g, user, team) != {} <==> Reachable(g, user, team)
  {
    if Outer(g, user, team) != {} {
      var r := Pick(Outer(g, user, team));
      OuterAreEndings(g, user, team, r);
    }
    if p :| Path(g, user, team, p) {
      OuterAreEndings(g, user, team, RowOf(true, p));
      assert RowOf(true, p) in Outer(g, user, team);
    }
  }

  /** The recompute query finds a path exactly for the pairs of the reach query. */
  lemma {:induction false} RecomputeAgreesWithReach(g: Graph, user: Id, team: Id)
    ensures Recompute(g, user, team).Some? <==> (user, team) in Implied(g)
  {
    QueryIsBoundedReach(g, user, team);
    OuterSaysReachable(g, user, team);
    InnerWithinOuter(g, user, team);
    assert Outer(g, user, team) == {} <==> |Outer(g, user, team)| == 0;
  }

  /** Some path ends with a role of this class. */
  ghost predicate ClassOnPath(g: Graph, user: Id, team: Id, cls: RoleClass) {
    exists p :: Path(g, user, team, p) && Final(p).role.cls == cls
  }

  ghost predicate PermissionOnPath(g: Graph, user: Id, team: Id, perm: string) {
    exists p :: Path(g, user, team, p) && perm in Final(p).role.permissions
  }

  lemma {:induction false} OuterClass(g: Graph, user: Id, team: Id, cls: RoleClass)
    ensures HasClass(Outer(g, user, team), cls) <==> ClassOnPath(g, user, team, cls)
  {
    var rows := Outer(g, user, team);
    if HasClass(rows, cls) {
      var r :| r in rows && r.role.Some? && r.role.value.cls == cls;
      OuterAreEndings(g, user, team, r);
    }
    if p :| Path(g, user, team, p) && Final(p).role.cls == cls {
      var r := RowOf(true, p);
      OuterAreEndings(g, user, team, r);
      assert r in rows && r.role.value.cls == cls;
    }
  }

  lemma {:induction false} OuterPermission(g: Graph, user: Id, team: Id, perm: string)
    ensures perm in Permissions(Outer(g, user, team)) <==> PermissionOnPath(g, user, team, perm)
  {
    var rows := Outer(g, user, team);
    if perm in Permissions(rows) {
      var r :| r in rows && r.role.Some? && perm in r.role.value.permissions;
      OuterAreEndings(g, user, team, r);
    }
    if p :| Path(g, user, team, p) && perm in Final(p).role.permissions {
      var r := RowOf(true, p);
      OuterAreEndings(g, user, team, r);
      assert r in rows && perm in r.role.value.permissions;
    }
  }

  /**
   The recomputed access is the union over all paths within the bound: internal beats external
   beats service, and a permission is granted exactly if the last role of some path grants it.
   */
  lemma {:induction false} AccessIsUnionOfPaths(g: Graph, user: Id, team: Id, perm: string)
    requires Recompute(g, user, team).Some?
    ensures Recompute(g, user, team).value.roleClass
         == if ClassOnPath(g, user, team, Internal) then Internal
            else if ClassOnPath(g, user, team, External) then External else Service
    ensures perm in Recompute(g, user, team).value.permissions <==> PermissionOnPath(g, user, team, perm)
  {
    InnerWithinOuter(g, user, team);
    assert Inner(g, user, team) + Outer(g, user, team) == Outer(g, user, team);
    OuterClass(g, user, team, Internal);
    OuterClass(g, user, team, External);
    OuterPermission(g, user, team, perm);
  }

  // ---------------------------------------------------------------------------
  // The path count
  // ---------------------------------------------------------------------------

  /** The user itself has an active role in the team. */
  ghost predicate DirectMember(g: Graph, user: Id, team: Id) {
    exists a :: a in g && a.kind == UserMember && a.active && a.member == user && a.parent == team
  }

  lemma {:induction false} InnerNeedsDirect(g: Graph, user: Id, team: Id)
    ensures Inner(g, user, team) != {} <==> DirectMember(g, user, team)
  {
    if Inner(g, user, team) != {} {
      var r := Pick(Inner(g, user, team));
      InnerAreEndings(g, user, team, r);
      var p :| Path(g, user, team, p) && Stays(p, team) && r == RowOf(true, p);
      assert p[0] in g;
    }
    if a :| a in g && a.kind == UserMember && a.active && a.member == user && a.parent == team {
      assert Path(g, user, team, [a]) && Stays([a], team);
      InnerAreEndings(g, user, team, RowOf(true, [a]));
      assert RowOf(true, [a]) in Inner(g, user, team);
    }
  }

  /** The last role and the length of every path, each combination once. */
  ghost function Endings(g: Graph, user: Id, team: Id): set<(Option<Role>, int)> {
    set r | r in Outer(g, user, team) :: (r.role, r.depth)
  }

  lemma {:induction false} SameSize(g: Graph, user: Id, team: Id, rows: set<Row>)
    requires rows <= Outer(g, user, team)
    ensures |set r | r in rows :: (r.role, r.depth)| == |rows|
    decreases rows
  {
    if rows != {} {
      var r := Pick(rows);
      var rest := rows - {r};
      SameSize(g, user, team, rest);
      forall q | q in rows && (q.role, q.depth) == (r.role, r.depth)
        ensures q == r
      {
        OuterAreEndings(g, user, team, q);
        OuterAreEndings(g, user, team, r);
      }
      var some := set q | q in rest :: (q.role, q.depth);
      assert (set q | q in rows :: (q.role, q.depth)) == some + {(r.role, r.depth)};
      assert (r.role, r.depth) !in some;
    }
  }

  /** The count is that of the different endings exactly if the user is no direct member; otherwise it is higher. */
  lemma {:induction false} CountIsExact(g: Graph, user: Id, team: Id)
    requires Recompute(g, user, team).Some?
    ensures Recompute(g, user, team).value.pathCount >= |Endings(g, user, team)|
    ensures Recompute(g, user, team).value.pathCount == |Endings(g, user, team)| <==> !DirectMember(g, user, team)
  {
    SameSize(g, user, team, Outer(g, user, team));
    InnerNeedsDirect(g, user, team);
    assert Inner(g, user, team) == {} <==> |Inner(g, user, team)| == 0;
  }

  lemma {:induction false} OneMembershipPaths(a: Assignment, p: seq<Assignment>)
    requires a.kind == UserMember && a.active
    ensures Path({a}, a.member, a.parent, p) <==> p == [a]
  {
    if Path({a}, a.member, a.parent, p) {
      assert |p| > 1 ==> StepAt({a}, p, 1);
    }
  }

  lemma {:induction false} OneMembershipRows(a: Assignment)
    requires a.kind == UserMember && a.active
    ensures Outer({a}, a.member, a.parent) == {RowOf(true, [a])} == Inner({a}, a.member, a.parent)
  {
    var r := RowOf(true, [a]);
    OneMembershipPaths(a, [a]);
    assert Stays([a], a.parent);
    forall q
      ensures q in Outer({a}, a.member, a.parent) <==> q == r
      ensures q in Inner({a}, a.member, a.parent) <==> q == r
    {
      OuterAreEndings({a}, a.member, a.parent, q);
      InnerAreEndings({a}, a.member, a.parent, q);
      if p :| Path({a}, a.member, a.parent, p) && q == RowOf(true, p) {
        OneMembershipPaths(a, p);
      }
    }
  }

  /** What two equal single rows add up to. */
  lemma {:induction false} SummaryOfTwins(r: Row, role: Role)
    requires r.role == Some(role)
    ensures Summary({r}, {r}) == Some(Access(role.cls, set perm | perm in role.permissions, 2))
  {
    var rows := {r} + {r};
    assert r in rows && forall q :: q in rows ==> q == r;
    assert HasClass(rows, role.cls) && forall cls :: HasClass(rows, cls) ==> cls == role.cls;
    assert Permissions(rows) == set perm | perm in role.permissions;
  }

  /** A graph of one active membership has one path, and the count says two. */
  lemma {:induction false} OneMembershipCountsTwice(user: Id, team: Id, role: Role)
    ensures Recompute({Assignment(UserMember, user, team, true, role)}, user, team)
         == Some(Access(role.cls, set perm | perm in role.permissions, 2))
  {
    var a := Assignment(UserMember, user, team, true, role);
    OneMembershipRows(a);
    SummaryOfTwins(RowOf(true, [a]), role);
  }

  // ---------------------------------------------------------------------------
  // The number of paths
  // ---------------------------------------------------------------------------

  /** The walks of exactly `k + 1` assignments. */
  ghost function WalksOf(start: Graph, g: Graph, k: nat): set<seq<Assignment>> {
    if k == 0 then set a | a in start && a.active :: [a]
    else
      set p, a | p in WalksOf(start, g, k - 1) && a in g && p != [] && a.active && a.kind == TeamMember
                 && a.member == Final(p).parent
        :: p + [a]
  }

  ghost function WalksUpTo(start: Graph, g: Graph, k: nat): set<seq<Assignment>> {
    WalksOf(start, g, k) + if k == 0 then {} else WalksUpTo(start, g, k - 1)
  }

  lemma {:induction false} WalksOfAre(start: Graph, g: Graph, k: nat, p: seq<Assignment>)
    requires k < MAX_DEPTH
    ensures p in WalksOf(start, g, k) <==> Walk(start, g, p) && |p| == k + 1
  {
    if k > 0 {
      if p in WalksOf(start, g, k) {
        var q, a :| q in WalksOf(start, g, k - 1) && a in g && q != [] && a.active && a.kind == TeamMember
                    && a.member == Final(q).parent && p == q + [a];
        WalksOfAre(start, g, k - 1, q);
        WalkSnoc(start, g, q, a);
      }
      if Walk(start, g, p) && |p| == k + 1 {
        var q := p[..k];
        WalkFront(start, g, p);
        WalksOfAre(start, g, k - 1, q);
        var a := p[k];
        assert p == q + [a] && q in WalksOf(start, g, k - 1) && a.member == Final(q).parent;
      }
    } else if Walk(start, g, p) && |p| == 1 {
      assert p == [p[0]];
    }
  }

  lemma {:induction false} WalksUpToAre(start: Graph, g: Graph, k: nat, p: seq<Assignment>)
    requires k < MAX_DEPTH
    ensures p in WalksUpTo(start, g, k) <==> Walk(start, g, p) && |p| <= k + 1
  {
    WalksOfAre(start, g, k, p);
    if k > 0 {
      WalksUpToAre(start, g, k - 1, p);
    }
  }

  /** All paths from the user to the team. */
  ghost function PathsOf(g: Graph, user: Id, team: Id): set<seq<Assignment>> {
    set p | p in WalksUpTo(Users(g), g, MAX_DEPTH - 1) && Path(g, user, team, p)
  }

  lemma {:induction false} PathsOfAre(g: Graph, user: Id, team: Id, p: seq<Assignment>)
    ensures p in PathsOf(g, user, team) <==> Path(g, user, team, p)
  {
    WalksUpToAre(Users(g), g, MAX_DEPTH - 1, p);
  }

  /** Two different paths of one length that end with the same role. */
  ghost predicate Alike(g: Graph, user: Id, team: Id, p: seq<Assignment>, q: seq<Assignment>) {
    Path(g, user, team, p) && Path(g, user, team, q) && p != q && RowOf(true, p) == RowOf(true, q)
  }

  ghost predicate SomeAlike(g: Graph, user: Id, team: Id) {
    exists p, q :: Alike(g, user, team, p, q)
  }

  ghost function RowsOf(ps: set<seq<Assignment>>): set<Row> {
    set p | p in ps && p != [] :: RowOf(true, p)
  }

  /** Walks have as many rows as there are walks exactly if no two share one, and never more. */
  lemma {:induction false} RowsOfSize(ps: set<seq<Assignment>>)
    requires [] !in ps
    ensures |RowsOf(ps)| <= |ps|
    ensures |RowsOf(ps)| == |ps| <==> forall p, q :: p in ps && q in ps && RowOf(true, p) == RowOf(true, q) ==> p == q
    decreases ps
  {
    if ps != {} {
      var p := Pick(ps);
      var rest := ps - {p};
      RowsOfSize(rest);
      assert RowsOf(ps) == RowsOf(rest) + {RowOf(true, p)};
      assert ps == rest + {p};
      assert |ps| == |rest| + 1;
      if RowOf(true, p) in RowsOf(rest) {
        var q :| q in rest && RowOf(true, q) == RowOf(true, p);
        assert RowsOf(ps) == RowsOf(rest);
      }
    }
  }

  lemma {:induction false} OuterIsRowsOf(g: Graph, user: Id, team: Id)
    ensures RowsOf(PathsOf(g, user, team)) == Outer(g, user, team) && [] !in PathsOf(g, user, team)
  {
    forall r
      ensures r in RowsOf(PathsOf(g, user, team)) <==> r in Outer(g, user, team)
    {
      OuterAreEndings(g, user, team, r);
      if p :| Path(g, user, team, p) && r == RowOf(true, p) {
        PathsOfAre(g, user, team, p);
      }
    }
  }

  lemma {:induction false} PathsMatchRows(g: Graph, user: Id, team: Id)
    ensures |Outer(g, user, team)| <= |PathsOf(g, user, team)|
    ensures |Outer(g, user, team)| == |PathsOf(g, user, team)| <==> !SomeAlike(g, user, team)
  {
    var ps := PathsOf(g, user, team);
    OuterIsRowsOf(g, user, team);
    RowsOfSize(ps);
    forall p
      ensures p in ps <==> Path(g, user, team, p)
    {
      PathsOfAre(g, user, team, p);
    }
    if p, q :| Alike(g, user, team, p, q) {
      assert p in ps && q in ps;
    }
    if p, q :| p in ps && q in ps && RowOf(true, p) == RowOf(true, q) && p != q {
      assert Alike(g, user, team, p, q);
    }
  }

  /**
   The count is the number of paths exactly if as many rows count twice, for walks that stay in the
   team, as paths are lost to others with the same ending.  Without a direct membership that is:
   exactly if no two paths of one length end with the same role.
   */
  lemma {:induction false} CountIsPathsExactly(g: Graph, user: Id, team: Id)
    requires Recompute(g, user, team).Some?
    ensures Recompute(g, user, team).value.pathCount == |PathsOf(g, user, team)|
       <==> |Inner(g, user, team)| == |PathsOf(g, user, team)| - |Endings(g, user, team)|
    ensures !DirectMember(g, user, team) ==> Recompute(g, user, team).value.pathCount <= |PathsOf(g, user, team)|
    ensures !DirectMember(g, user, team) && !SomeAlike(g, user, team) ==>
              Recompute(g, user, team).value.pathCount == |PathsOf(g, user, team)|
    ensures !DirectMember(g, user, team) && SomeAlike(g, user, team) ==>
              Recompute(g, user, team).value.pathCount < |PathsOf(g, user, team)|
  {
    InnerNeedsDirect(g, user, team);
    PathsMatchRows(g, user, team);
    SameSize(g, user, team, Outer(g, user, team));
  }

  /** User 1 is in teams 2 and 3, which hold the same role in team 4. */
  function Diamond(role: Role): Graph {
    {Assignment(UserMember, 1, 2, true, role), Assignment(UserMember, 1, 3, true, role),
     Assignment(TeamMember, 2, 4, true, role), Assignment(TeamMember, 3, 4, true, role)}
  }

  /** From user 1 through `team` to team 4. */
  function Leg(role: Role, team: Id): seq<Assignment> {
    [Assignment(UserMember, 1, team, true, role), Assignment(TeamMember, team, 4, true, role)]
  }

  lemma {:induction false} DiamondPaths(role: Role, w: seq<Assignment>)
    ensures Path(Diamond(role), 1, 4, w) <==> w == Leg(role, 2) || w == Leg(role, 3)
  {
    if Path(Diamond(role), 1, 4, w) {
      assert |w| > 1 ==> StepAt(Diamond(role), w, 1);
      assert |w| > 2 ==> StepAt(Diamond(role), w, 2);
    }
  }

  lemma {:induction false} DiamondRows(role: Role)
    ensures PathsOf(Diamond(role), 1, 4) == {Leg(role, 2), Leg(role, 3)}
    ensures Outer(Diamond(role), 1, 4) == {Row(1, 4, Some(role), 2)}
  {
    forall w
      ensures w in PathsOf(Diamond(role), 1, 4) <==> w == Leg(role, 2) || w == Leg(role, 3)
    {
      PathsOfAre(Diamond(role), 1, 4, w);
      DiamondPaths(role, w);
    }
    forall r
      ensures r in Outer(Diamond(role), 1, 4) <==> r == Row(1, 4, Some(role), 2)
    {
      OuterAreEndings(Diamond(role), 1, 4, r);
      DiamondPaths(role, Leg(role, 2));
      assert RowOf(true, Leg(role, 2)) == Row(1, 4, Some(role), 2) == RowOf(true, Leg(role, 3));
      if p :| Path(Diamond(role), 1, 4, p) && r == RowOf(true, p) {
        DiamondPaths(role, p);
      }
    }
  }

  lemma {:induction false} DiamondIsIndirect(role: Role)
    ensures Inner(Diamond(role), 1, 4) == {}
  {
    InnerNeedsDirect(Diamond(role), 1, 4);
  }

  /** Two paths that count as one. */
  lemma {:induction false} TwoPathsCountOnce(role: Role)
    ensures Recompute(Diamond(role), 1, 4).Some? && Recompute(Diamond(role), 1, 4).value.pathCount == 1
    ensures |PathsOf(Diamond(role), 1, 4)| == 2
  {
    DiamondRows(role);
    DiamondIsIndirect(role);
    assert Leg(role, 2)[0] != Leg(role, 3)[0];
  }

  // ---------------------------------------------------------------------------
  // Ancestors and descendants
  // ---------------------------------------------------------------------------

  /** The active and inactive memberships of one team in others. */
  function Upward(g: Graph, team: Id): Graph {
    set a | a in g && a.kind == TeamMember && a.member == team
  }

  function Turn(a: Assignment): Assignment {
    a.(member := a.parent, parent := a.member)
  }

  /** The team memberships with member and parent exchanged. */
  function Turned(g: Graph): Graph {
    set a | a in g && a.kind == TeamMember :: Turn(a)
  }

  function Teams(rows: set<Row>): set<Id> {
    set r | r in rows :: r.team
  }

  ghost function Ancestors(g: Graph, team: Id): set<Id> {
    Teams(Rows(Upward(g, team), g, false))
  }

  ghost function Descendants(g: Graph, team: Id): set<Id> {
    Ancestors(Turned(g), team)
  }

  method WalkAncestors(g: Graph, team: Id) returns (teams: set<Id>)
    ensures teams == Ancestors(g, team)
  {
    var rows := RecursiveQuery(Upward(g, team), g, false);
    teams := Teams(rows);
  }

  method WalkDescendants(g: Graph, team: Id) returns (teams: set<Id>)
    ensures teams == Descendants(g, team)
  {
    teams := WalkAncestors(Turned(g), team);
  }

  /** Ancestors are the ends of the walks up from a team. */
  lemma {:induction false} AncestorsAreEnds(g: Graph, team: Id, above: Id)
    ensures above in Ancestors(g, team) <==> exists p :: Walk(Upward(g, team), g, p) && Final(p).parent == above
  {
    var start := Upward(g, team);
    if above in Ancestors(g, team) {
      var r :| r in Rows(start, g, false) && r.team == above;
      RowsAreWalks(start, g, false, r);
    }
    if p :| Walk(start, g, p) && Final(p).parent == above {
      RowsAreWalks(start, g, false, RowOf(false, p));
      assert RowOf(false, p) in Rows(start, g, false);
    }
  }
}
