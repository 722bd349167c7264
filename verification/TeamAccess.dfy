/**
 The table of effective team access: the upsert of one pair, the two refreshes that follow a change
 of the team graph, and the job that reconciles the whole table.
 */
module TeamAccess {
  import opened Wrappers
  import opened TeamGraph

  // ---------------------------------------------------------------------------
  // What one change of the graph can affect
  // ---------------------------------------------------------------------------

  /** The assignment of one member in one team. */
  predicate Touched(a: Assignment, kind: MemberKind, member: Id, parent: Id) {
    a.kind == kind && a.member == member && a.parent == parent
  }

  /** The graphs agree but for that assignment. */
  ghost predicate DifferAt(g: Graph, h: Graph, kind: MemberKind, member: Id, parent: Id) {
    forall a :: !Touched(a, kind, member, parent) ==> (a in g <==> a in h)
  }

  /** No later assignment of the path than number `j` is touched. */
  ghost predicate CleanAfter(p: seq<Assignment>, j: nat, kind: MemberKind, member: Id, parent: Id) {
    forall i :: j < i < |p| ==> !Touched(p[i], kind, member, parent)
  }

  ghost predicate CleanBefore(p: seq<Assignment>, j: nat, kind: MemberKind, member: Id, parent: Id) {
    forall i :: 0 <= i < |p| && i < j ==> !Touched(p[i], kind, member, parent)
  }

  lemma {:induction false} FirstTouched(p: seq<Assignment>, n: nat, kind: MemberKind, member: Id, parent: Id)
    returns (j: nat)
    requires n < |p| && Touched(p[n], kind, member, parent)
    ensures j <= n && Touched(p[j], kind, member, parent) && CleanBefore(p, j, kind, member, parent)
    decreases n
  {
    if i :| 0 <= i < n && Touched(p[i], kind, member, parent) {
      j := FirstTouched(p, i, kind, member, parent);
    } else {
      j := n;
    }
  }

  lemma {:induction false} LastTouched(p: seq<Assignment>, n: nat, kind: MemberKind, member: Id, parent: Id)
    returns (j: nat)
    requires n < |p| && Touched(p[n], kind, member, parent)
    ensures n <= j < |p| && Touched(p[j], kind, member, parent) && CleanAfter(p, j, kind, member, parent)
    decreases |p| - n
  {
    if i :| n < i < |p| && Touched(p[i], kind, member, parent) {
      j := LastTouched(p, i, kind, member, parent);
    } else {
      j := n;
    }
  }

  /** After its last touched assignment a path climbs, in the other graph too, from the parent to its end. */
  lemma {:induction false} EndsAbove(g: Graph, h: Graph, p: seq<Assignment>, j: nat,
                                     kind: MemberKind, member: Id, parent: Id)
    requires Walk(Users(g), g, p) && DifferAt(g, h, kind, member, parent)
    requires j < |p| && Touched(p[j], kind, member, parent) && CleanAfter(p, j, kind, member, parent)
    ensures Final(p).parent == parent || Final(p).parent in Ancestors(h, parent)
  {
    if j < |p| - 1 {
      var q := p[j + 1..];
      assert StepAt(g, p, j + 1);
      forall i | 0 < i < |q|
        ensures StepAt(h, q, i)
      {
        assert StepAt(g, p, j + 1 + i);
      }
      assert Walk(Upward(h, parent), h, q);
      AncestorsAreEnds(h, parent, Final(q).parent);
      assert Final(q) == Final(p);
    }
  }

  /** The team memberships of a path up to number `n`, walked down. */
  ghost function Down(p: seq<Assignment>, n: nat): seq<Assignment>
    requires n < |p|
  {
    seq(n, k requires 0 <= k < n => Turn(p[n - k]))
  }

  /** Before its first touched assignment a path climbs from a team of the user to the member team. */
  lemma {:induction false} StartsBelow(g: Graph, h: Graph, p: seq<Assignment>, j: nat, member: Id, parent: Id)
    requires Walk(Users(g), g, p) && DifferAt(g, h, TeamMember, member, parent)
    requires j < |p| && Touched(p[j], TeamMember, member, parent) && CleanBefore(p, j, TeamMember, member, parent)
    ensures p[0] in h && (p[0].parent == member || p[0].parent in Descendants(h, member))
  {
    assert StepAt(g, p, j);
    if j > 1 {
      var n, t := j - 1, Turned(h);
      var q := Down(p, n);
      forall i | 0 < i <= n
        ensures Turn(p[i]) in t && StepAt(g, p, i)
      {
        assert StepAt(g, p, i);
        assert p[i] in h;
      }
      forall k | 0 < k < |q|
        ensures StepAt(t, q, k)
      {
        assert StepAt(g, p, n - k + 1);
      }
      assert q[0] == Turn(p[n]);
      assert Walk(Upward(t, member), t, q);
      AncestorsAreEnds(t, member, Final(q).parent);
      assert Final(q) == Turn(p[1]) && StepAt(g, p, 1);
    }
  }

  /** A path without touched assignments is one in the other graph. */
  lemma {:induction false} UntouchedPath(g: Graph, h: Graph, user: Id, team: Id, p: seq<Assignment>,
                                         kind: MemberKind, member: Id, parent: Id)
    requires Path(g, user, team, p) && DifferAt(g, h, kind, member, parent)
    requires CleanBefore(p, |p|, kind, member, parent)
    ensures Path(h, user, team, p)
  {
    forall i | 0 < i < |p|
      ensures StepAt(h, p, i)
    {
      assert StepAt(g, p, i);
    }
  }

  lemma {:induction false} SamePathsSameAccess(g: Graph, h: Graph, user: Id, team: Id)
    requires forall p :: Path(g, user, team, p) <==> Path(h, user, team, p)
    ensures Recompute(g, user, team) == Recompute(h, user, team)
  {
    forall r
      ensures r in Outer(g, user, team) <==> r in Outer(h, user, team)
      ensures r in Inner(g, user, team) <==> r in Inner(h, user, team)
    {
      OuterAreEndings(g, user, team, r);
      OuterAreEndings(h, user, team, r);
      InnerAreEndings(g, user, team, r);
      InnerAreEndings(h, user, team, r);
    }
    assert Outer(g, user, team) == Outer(h, user, team);
    assert Inner(g, user, team) == Inner(h, user, team);
  }

  type Scope = iset<(Id, Id)>

  ghost function Box(users: set<Id>, teams: set<Id>): Scope {
    iset p: (Id, Id) | p.0 in users && p.1 in teams
  }

  /** The users with an active role in one of the teams. */
  function MembersOf(h: Graph, teams: set<Id>): set<Id> {
    set a | a in h && a.kind == UserMember && a.active && a.parent in teams :: a.member
  }

  /** The pairs that are recomputed when the role of a user or a team in a team changes. */
  ghost function Affected(h: Graph, kind: MemberKind, member: Id, parent: Id): Scope {
    Box(if kind == UserMember then {member} else MembersOf(h, {member} + Descendants(h, member)),
        {parent} + Ancestors(h, parent))
  }

  /** Any path that uses the changed assignment joins a pair in scope. */
  lemma {:induction false} TouchedPathInScope(g: Graph, h: Graph, user: Id, team: Id, p: seq<Assignment>, n: nat,
                                              kind: MemberKind, member: Id, parent: Id)
    requires Path(g, user, team, p) && DifferAt(g, h, kind, member, parent)
    requires n < |p| && Touched(p[n], kind, member, parent)
    ensures (user, team) in Affected(h, kind, member, parent)
  {
    var j := LastTouched(p, n, kind, member, parent);
    EndsAbove(g, h, p, j, kind, member, parent);
    if kind == UserMember {
      assert n > 0 ==> StepAt(g, p, n);
    } else {
      var i := FirstTouched(p, n, kind, member, parent);
      StartsBelow(g, h, p, i, member, parent);
      assert p[0].member == user;
    }
  }

  lemma {:induction false} OutOfScopeKeepsPath(g: Graph, h: Graph, k: Graph, user: Id, team: Id, p: seq<Assignment>,
                                               kind: MemberKind, member: Id, parent: Id)
    requires DifferAt(g, h, kind, member, parent) && DifferAt(g, k, kind, member, parent)
    requires (user, team) !in Affected(k, kind, member, parent) && Path(g, user, team, p)
    ensures Path(h, user, team, p)
  {
    forall n | 0 <= n < |p|
      ensures !Touched(p[n], kind, member, parent)
    {
      if Touched(p[n], kind, member, parent) {
        TouchedPathInScope(g, k, user, team, p, n, kind, member, parent);
      }
    }
    UntouchedPath(g, h, user, team, p, kind, member, parent);
  }

  /** A change of one assignment leaves the access of every pair out of its scope as it was. */
  lemma {:induction false} ChangeIsLocal(g: Graph, h: Graph, kind: MemberKind, member: Id, parent: Id, p: (Id, Id))
    requires DifferAt(g, h, kind, member, parent) && p !in Affected(h, kind, member, parent)
    ensures Recompute(g, p.0, p.1) == Recompute(h, p.0, p.1)
  {
    forall w
      ensures Path(g, p.0, p.1, w) <==> Path(h, p.0, p.1, w)
    {
      if Path(g, p.0, p.1, w) {
        OutOfScopeKeepsPath(g, h, h, p.0, p.1, w, kind, member, parent);
      }
      if Path(h, p.0, p.1, w) {
        OutOfScopeKeepsPath(h, g, h, p.0, p.1, w, kind, member, parent);
      }
    }
    SamePathsSameAccess(g, h, p.0, p.1);
  }

  // ---------------------------------------------------------------------------
  // The table
  // ---------------------------------------------------------------------------

  function Lookup(access: map<(Id, Id), Access>, p: (Id, Id)): Option<Access> {
    if p in access then Some(access[p]) else None
  }

  /** Every pair has the row that the graph implies, or none if it implies none. */
  ghost predicate UpToDate(access: map<(Id, Id), Access>, g: Graph) {
    forall p :: Lookup(access, p) == Recompute(g, p.0, p.1)
  }

  /** The pairs in scope have been recomputed, the others are as they were. */
  ghost predicate Recomputed(access: map<(Id, Id), Access>, was: map<(Id, Id), Access>, g: Graph, scope: Scope) {
    forall p :: Lookup(access, p) == if p in scope then Recompute(g, p.0, p.1) else Lookup(was, p)
  }

  ghost function AsScope(pairs: set<(Id, Id)>): Scope {
    iset p | p in pairs
  }

  lemma {:induction false} BoxSplit(users: set<Id>, some: set<Id>, others: set<Id>)
    ensures Box(users, some + others) == Box(users, some) + Box(users, others)
  {
  }

  lemma {:induction false} ScopeSnoc(pairs: set<(Id, Id)>, p: (Id, Id))
    ensures AsScope(pairs + {p}) == AsScope(pairs) + Box({p.0}, {p.1})
  {
  }

  /** Two rounds of recomputing are one over both scopes. */
  lemma {:induction false} RecomputedThen(a: map<(Id, Id), Access>, b: map<(Id, Id), Access>, c: map<(Id, Id), Access>,
                                          g: Graph, first: Scope, second: Scope)
    requires Recomputed(b, a, g, first) && Recomputed(c, b, g, second)
    ensures Recomputed(c, a, g, first + second)
  {
    forall p: (Id, Id)
      ensures Lookup(c, p) == if p in first + second then Recompute(g, p.0, p.1) else Lookup(a, p)
    {
      assert Lookup(b, p) == if p in first then Recompute(g, p.0, p.1) else Lookup(a, p);
    }
  }

  lemma {:induction false} NothingToDelete<K, V>(m: map<K, V>, s: set<K>)
    requires m.Keys !! s
    ensures m - s == m
  {
  }

  lemma {:induction false} UpToDateKeys(access: map<(Id, Id), Access>, g: Graph)
    requires UpToDate(access, g)
    ensures access.Keys == Implied(g)
  {
    forall p: (Id, Id)
      ensures p in access <==> p in Implied(g)
    {
      RecomputeAgreesWithReach(g, p.0, p.1);
      assert Lookup(access, p) == Recompute(g, p.0, p.1);
    }
  }

  class AccessTable {
    var access: map<(Id, Id), Access>

    constructor (rows: map<(Id, Id), Access>)
      ensures access == rows
    {
      access := rows;
    }

    /** Recompute one pair: write its row, or delete it if no path is left. */
    method Upsert(g: Graph, user: Id, team: Id)
      modifies this
      ensures Recomputed(access, old(access), g, Box({user}, {team}))
    {
      var computed := RecomputeAccess(g, user, team);
      if computed.None? {
        access := access - {(user, team)};
        return;
      }
      access := access[(user, team) := computed.value];
    }

    /** The loop of both refreshes over the target teams of one user. */
    method UpsertTeams(g: Graph, user: Id, teams: set<Id>)
      modifies this
      ensures Recomputed(access, old(access), g, Box({user}, teams))
    {
      var todo := teams;
      while todo != {}
        invariant todo <= teams
        invariant Recomputed(access, old(access), g, Box({user}, teams - todo))
        decreases todo
      {
        ghost var some := Pick(todo);
        var team :| team in todo;
        ghost var before := access;
        Upsert(g, user, team);
        RecomputedThen(old(access), before, access, g, Box({user}, teams - todo), Box({user}, {team}));
        BoxSplit({user}, teams - todo, {team});
        assert teams - (todo - {team}) == (teams - todo) + {team};
        todo := todo - {team};
      }
    }

    /**
     The refresh after a user's role in a team was added, removed or changed, which took the graph
     from `was` to `g`: a table that was up to date is up to date again.
     */
    method SyncRefreshOnUserAssignment(g: Graph, user: Id, parent: Id, ghost was: Graph)
      modifies this
      ensures Recomputed(access, old(access), g, Affected(g, UserMember, user, parent))
      ensures UpToDate(old(access), was) && DifferAt(was, g, UserMember, user, parent) ==> UpToDate(access, g)
    {
      Upsert(g, user, parent);
      ghost var before := access;
      var ancestors := WalkAncestors(g, parent);
      UpsertTeams(g, user, ancestors);
      RecomputedThen(old(access), before, access, g, Box({user}, {parent}), Box({user}, ancestors));
      BoxSplit({user}, {parent}, ancestors);
      RefreshRestores(access, old(access), was, g, UserMember, user, parent);
    }

    /** The loop of the cascade over the affected users. */
    method UpsertUsers(g: Graph, users: set<Id>, teams: set<Id>) returns (refreshed: nat)
      modifies this
      ensures refreshed == |users| * |teams|
      ensures Recomputed(access, old(access), g, Box(users, teams))
    {
      refreshed := 0;
      var todo := users;
      while todo != {}
        invariant todo <= users && refreshed == (|users| - |todo|) * |teams|
        invariant Recomputed(access, old(access), g, Box(users - todo, teams))
        decreases todo
      {
        ghost var some := Pick(todo);
        var user :| user in todo;
        ghost var before := access;
        UpsertTeams(g, user, teams);
        RecomputedThen(old(access), before, access, g, Box(users - todo, teams), Box({user}, teams));
        assert Box(users - todo, teams) + Box({user}, teams) == Box(users - (todo - {user}), teams);
        refreshed := refreshed + |teams|;
        todo := todo - {user};
      }
      assert users - {} == users;
    }

    /** The same after a team's role in another team was added, removed or changed. */
    method CascadeOnTeamMemberChange(g: Graph, parent: Id, member: Id, ghost was: Graph) returns (refreshed: nat)
      modifies this
      ensures refreshed == |MembersOf(g, {member} + Descendants(g, member))| * |{parent} + Ancestors(g, parent)|
      ensures forall u :: u in MembersOf(g, {member} + Descendants(g, member))
                     <==> exists a :: a in g && a.kind == UserMember && a.active && a.member == u
                                      && (a.parent == member || a.parent in Descendants(g, member))
      ensures Recomputed(access, old(access), g, Affected(g, TeamMember, member, parent))
      ensures UpToDate(old(access), was) && DifferAt(was, g, TeamMember, member, parent) ==> UpToDate(access, g)
    {
      var above := WalkAncestors(g, parent);
      var targets := {parent} + above;
      var below := WalkDescendants(g, member);
      var users := MembersOf(g, {member} + below);
      refreshed := UpsertUsers(g, users, targets);
      RefreshRestores(access, old(access), was, g, TeamMember, member, parent);
    }

    /** The upsert loop of the job; a dry run only counts. */
    method UpsertAll(g: Graph, pairs: set<(Id, Id)>, dryRun: bool) returns (n: nat)
      modifies this
      ensures n == |pairs|
      ensures dryRun ==> access == old(access)
      ensures !dryRun ==> Recomputed(access, old(access), g, AsScope(pairs))
    {
      n := 0;
      var todo := pairs;
      ghost var done: set<(Id, Id)> := {};
      while todo != {}
        invariant done == pairs - todo && todo <= pairs && n == |done|
        invariant if dryRun then access == old(access) else Recomputed(access, old(access), g, AsScope(done))
        decreases todo
      {
        ghost var some := Pick(todo);
        var p :| p in todo;
        if !dryRun {
          ghost var before := access;
          Upsert(g, p.0, p.1);
          RecomputedThen(old(access), before, access, g, AsScope(done), Box({p.0}, {p.1}));
          ScopeSnoc(done, p);
        }
        todo, done := todo - {p}, done + {p};
        n := n + 1;
      }
      assert done == pairs;
    }

    /** The defensive delete of pairs that the graph no longer implies. */
    method DeleteOrphans(orphans: set<(Id, Id)>) returns (n: nat)
      modifies this
      ensures n == |orphans| && access == old(access) - orphans
    {
      n := 0;
      var left := orphans;
      ghost var access0 := access;
      while left != {}
        invariant left <= orphans && n == |orphans - left| && access == access0 - (orphans - left)
        decreases left
      {
        ghost var some := Pick(left);
        var p :| p in left;
        SubsetSize(left, orphans);
        SubsetSize(left - {p}, orphans);
        assert orphans - (left - {p}) == (orphans - left) + {p};
        access := access - {p};
        left := left - {p};
        n := n + 1;
      }
      assert orphans - {} == orphans;
    }

    /**
     After a run the table is up to date, whatever it held before: its keys are exactly the implied
     pairs and every row is the recomputed one.  A dry run changes nothing and reports the same count.
     */
    method Refresh(g: Graph, dryRun: bool) returns (upserted: nat, deleted: nat)
      modifies this
      ensures upserted == |Implied(g) + old(access).Keys|
      ensures deleted == if dryRun then 0 else |old(access).Keys - Implied(g)|
      ensures dryRun ==> access == old(access)
      ensures !dryRun ==> UpToDate(access, g) && access.Keys == Implied(g)
    {
      var implied := ReachQuery(g);
      var existing := access.Keys;
      var orphans := existing - implied;
      upserted := UpsertAll(g, implied + existing, dryRun);
      deleted := 0;
      if !dryRun {
        AllRecomputed(access, old(access), g);
        UpToDateKeys(access, g);
        if orphans != {} {
          NothingToDelete(access, orphans);
          deleted := DeleteOrphans(orphans);
        }
      }
    }

    /** A second run on the same graph finds no orphans and leaves every row as it is. */
    method RefreshTwice(g: Graph) returns (deletedAgain: nat)
      modifies this
      ensures deletedAgain == 0 && UpToDate(access, g)
    {
      var n, d := Refresh(g, false);
      ghost var once := access;
      n, deletedAgain := Refresh(g, false);
      assert once.Keys - Implied(g) == {};
    }
  }

  /** Recomputing the pairs in scope of a change brings a table that was up to date up to date again. */
  lemma {:induction false} RefreshRestores(access: map<(Id, Id), Access>, before: map<(Id, Id), Access>,
                                           was: Graph, g: Graph, kind: MemberKind, member: Id, parent: Id)
    requires Recomputed(access, before, g, Affected(g, kind, member, parent))
    ensures UpToDate(before, was) && DifferAt(was, g, kind, member, parent) ==> UpToDate(access, g)
  {
    if UpToDate(before, was) && DifferAt(was, g, kind, member, parent) {
      forall p: (Id, Id)
        ensures Lookup(access, p) == Recompute(g, p.0, p.1)
      {
        if p !in Affected(g, kind, member, parent) {
          ChangeIsLocal(was, g, kind, member, parent, p);
          assert Lookup(before, p) == Recompute(was, p.0, p.1);
        }
      }
    }
  }

  /** Recomputing all implied and all existing pairs brings any table up to date. */
  lemma {:induction false} AllRecomputed(access: map<(Id, Id), Access>, before: map<(Id, Id), Access>, g: Graph)
    requires Recomputed(access, before, g, AsScope(Implied(g) + before.Keys))
    ensures UpToDate(access, g)
  {
    forall p: (Id, Id)
      ensures Lookup(access, p) == Recompute(g, p.0, p.1)
    {
      RecomputeAgreesWithReach(g, p.0, p.1);
      assert Lookup(access, p) == if p in Implied(g) + before.Keys then Recompute(g, p.0, p.1) else Lookup(before, p);
    }
  }
}
