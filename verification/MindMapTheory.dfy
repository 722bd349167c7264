/**
 The guard over whole runs: what it returns, how that relates to the order of events, and
 what overlapping transactions do to it.
 */
module MindMapTheory {
  import opened Wrappers
  import opened MindMap

  // ---------------------------------------------------------------------------
  // What every transaction keeps
  // ---------------------------------------------------------------------------

  ghost predicate MapInv(s: System, root: NodeId) {
    if root !in s.db.maps then root !in s.readIn
    else
      var row := s.db.maps[root];
      && (row.lastOwnerWrite.Some? ==> row.lastOwnerWrite.value <= s.now)
      && (row.lastAgentRead.Some? ==> row.lastAgentRead.value <= s.now)
      && (row.lastAgentRead.Some? <==> root in s.readIn)
      && (root in s.readIn ==> s.readIn[root] < s.step)
  }

  ghost predicate NodeInv(s: System, m: NodeId) {
    m in s.db.members ==>
      var node := s.db.members[m];
      && m in s.addedIn && s.addedIn[m] < s.step && node.addedAt <= s.now
      && node.root in s.db.maps
      && var row := s.db.maps[node.root];
         && (node.author == Owner ==> row.lastOwnerWrite.Some? && node.addedAt <= row.lastOwnerWrite.value)
         && (node.root in s.readIn && row.lastAgentRead.Some? ==>
               && (s.addedIn[m] > s.readIn[node.root] ==> node.addedAt >= row.lastAgentRead.value)
               && (s.addedIn[m] <= s.readIn[node.root] ==> node.addedAt <= row.lastAgentRead.value))
  }

  ghost predicate Inv(s: System) {
    (forall root :: MapInv(s, root)) && (forall m :: NodeInv(s, m))
  }

  lemma {:induction false} StepKeepsMap(s: System, e: Event, root: NodeId)
    requires Inv(s) && Enabled(s, e) && Atomic(s, e)
    ensures MapInv(Apply(s, e), root)
  {
    assert MapInv(s, root);
  }

  /** The inserted node, if any, and the map it belongs to. */
  lemma {:induction false} StepKeepsNode(s: System, e: Event, m: NodeId)
    requires Inv(s) && Enabled(s, e) && Atomic(s, e)
    ensures NodeInv(Apply(s, e), m)
  {
    assert NodeInv(s, m);
    if m in s.db.members {
      assert MapInv(s, s.db.members[m].root);
    } else if e.WriteNode? {
      assert MapInv(s, e.root);
    } else if e.OpenMap? {
      assert MapInv(s, e.root);
    }
  }

  lemma {:induction false} StepKeepsInv(s: System, e: Event)
    requires Inv(s) && Enabled(s, e) && Atomic(s, e)
    ensures Inv(Apply(s, e))
  {
    forall root
      ensures MapInv(Apply(s, e), root)
    {
      StepKeepsMap(s, e, root);
    }
    forall m
      ensures NodeInv(Apply(s, e), m)
    {
      StepKeepsNode(s, e, m);
    }
  }

  // ---------------------------------------------------------------------------
  // Whole runs
  // ---------------------------------------------------------------------------

  const EMPTY := Tables(map[], map[], map[])

  ghost predicate StepAt(ss: seq<System>, es: seq<Event>, i: nat)
    requires i < |es| && i + 1 < |ss|
  {
    Enabled(ss[i], es[i]) && ss[i + 1] == Apply(ss[i], es[i])
  }

  ghost predicate Run(ss: seq<System>, es: seq<Event>) {
    && |ss| == |es| + 1
    && ss[0] == System(EMPTY, 0, 0, map[], map[])
    && forall i :: 0 <= i < |es| ==> StepAt(ss, es, i)
  }

  ghost predicate AllAtomic(ss: seq<System>, es: seq<Event>)
    requires Run(ss, es)
  {
    forall i :: 0 <= i < |es| ==> Atomic(ss[i], es[i])
  }

  lemma {:induction false} InvAlways(ss: seq<System>, es: seq<Event>, n: nat)
    requires Run(ss, es) && AllAtomic(ss, es) && n < |ss|
    ensures Inv(ss[n])
  {
    if n > 0 {
      InvAlways(ss, es, n - 1);
      assert StepAt(ss, es, n - 1);
      assert Atomic(ss[n - 1], es[n - 1]);
      StepKeepsInv(ss[n - 1], es[n - 1]);
    }
  }

  /** Owner nodes whose insert committed after the map was last read. */
  ghost function WrittenAfterRead(s: System, root: NodeId, tenant: TenantId): set<NodeId> {
    set m | m in s.db.members && OwnerNode(s.db, root, tenant, m)
            && m in s.addedIn && (root !in s.readIn || s.addedIn[m] > s.readIn[root])
  }

  /** The node carries the very timestamp of the map's last read. */
  ghost predicate TiesWithRead(s: System, root: NodeId, m: NodeId) {
    && m in s.db.members && root in s.db.maps && s.db.maps[root].lastAgentRead.Some?
    && s.db.members[m].addedAt == s.db.maps[root].lastAgentRead.value
  }

  lemma {:induction false} GuardOfInv(s: System, root: NodeId, tenant: TenantId)
    requires Inv(s)
    ensures root in s.db.maps ==>
              Unacknowledged(s.db, root, tenant) == AddedSince(s.db, root, tenant, s.db.maps[root].lastAgentRead)
    ensures root !in s.db.maps ==> forall m :: !OwnerNode(s.db, root, tenant, m)
  {
    forall m | OwnerNode(s.db, root, tenant, m)
      ensures root in s.db.maps && s.db.maps[root].lastOwnerWrite.Some?
              && s.db.members[m].addedAt <= s.db.maps[root].lastOwnerWrite.value
    {
      assert NodeInv(s, m);
    }
    if root in s.db.maps {
      CurrentStampIsExact(s.db, root, tenant);
    }
  }

  /**
   In every run of transactions that pair each owner insert with its stamp, the guard returns
   exactly the live owner nodes stamped after the last agent read, all of them if there was
   no read; the shortcut hides nothing.
   */
  lemma {:induction false} GuardIsExact(ss: seq<System>, es: seq<Event>, n: nat, root: NodeId, tenant: TenantId)
    requires Run(ss, es) && AllAtomic(ss, es) && n < |ss| && root in ss[n].db.maps
    ensures Unacknowledged(ss[n].db, root, tenant)
         == AddedSince(ss[n].db, root, tenant, ss[n].db.maps[root].lastAgentRead)
  {
    InvAlways(ss, es, n);
    GuardOfInv(ss[n], root, tenant);
  }

  lemma {:induction false} GuardMember(s: System, root: NodeId, tenant: TenantId, m: NodeId)
    requires Inv(s)
    ensures m in Unacknowledged(s.db, root, tenant)
       <==> m in WrittenAfterRead(s, root, tenant) && !TiesWithRead(s, root, m)
  {
    GuardOfInv(s, root, tenant);
    assert NodeInv(s, m);
    assert MapInv(s, root);
  }

  /**
   In terms of events: the guard returns what the owner wrote after the last read, except nodes
   stamped with the read's own instant; it is complete exactly if there is no such node.
   */
  lemma {:induction false} GuardFollowsEvents(ss: seq<System>, es: seq<Event>, n: nat, root: NodeId, tenant: TenantId)
    requires Run(ss, es) && AllAtomic(ss, es) && n < |ss|
    ensures Unacknowledged(ss[n].db, root, tenant) <= WrittenAfterRead(ss[n], root, tenant)
    ensures Unacknowledged(ss[n].db, root, tenant) == WrittenAfterRead(ss[n], root, tenant)
       <==> forall m :: m in WrittenAfterRead(ss[n], root, tenant) ==> !TiesWithRead(ss[n], root, m)
  {
    InvAlways(ss, es, n);
    var s := ss[n];
    forall m
      ensures m in Unacknowledged(s.db, root, tenant)
         <==> m in WrittenAfterRead(s, root, tenant) && !TiesWithRead(s, root, m)
    {
      GuardMember(s, root, tenant, m);
    }
  }

  // ---------------------------------------------------------------------------
  // Transactions that overlap
  // ---------------------------------------------------------------------------

  /** What every run keeps of the history, atomic or not. */
  ghost predicate Logged(s: System) {
    && (forall m :: m in s.db.members ==> m in s.addedIn)
    && (forall root :: root in s.readIn <==> root in s.db.maps && s.db.maps[root].lastAgentRead.Some?)
  }

  lemma {:induction false} StepKeepsLogged(s: System, e: Event)
    requires Logged(s) && Enabled(s, e)
    ensures Logged(Apply(s, e))
  {
  }

  lemma {:induction false} LoggedAlways(ss: seq<System>, es: seq<Event>, n: nat)
    requires Run(ss, es) && n < |ss|
    ensures Logged(ss[n])
  {
    if n > 0 {
      LoggedAlways(ss, es, n - 1);
      assert StepAt(ss, es, n - 1);
      StepKeepsLogged(ss[n - 1], es[n - 1]);
    }
  }

  /** Owner nodes that had been committed when the map was last read. */
  ghost function WrittenBeforeRead(s: System, root: NodeId, tenant: TenantId): set<NodeId> {
    set m | m in s.db.members && OwnerNode(s.db, root, tenant, m)
            && m in s.addedIn && root in s.readIn && s.addedIn[m] <= s.readIn[root]
  }

  /** The node's timestamp is not after that of the map's last read. */
  ghost predicate StampedByRead(s: System, root: NodeId, m: NodeId) {
    && m in s.db.members && root in s.db.maps && s.db.maps[root].lastAgentRead.Some?
    && s.db.members[m].addedAt <= s.db.maps[root].lastAgentRead.value
  }

  /** One of the guard's two early exits is taken. */
  ghost predicate ExitsEarly(db: Tables, root: NodeId) {
    || root !in db.maps || db.maps[root].lastOwnerWrite.None?
    || (&& db.maps[root].lastAgentRead.Some?
        && db.maps[root].lastOwnerWrite.value <= db.maps[root].lastAgentRead.value)
  }

  lemma {:induction false} OwnerNodesSplit(s: System, root: NodeId, tenant: TenantId)
    requires Logged(s)
    ensures forall m :: OwnerNode(s.db, root, tenant, m)
                   <==> m in WrittenAfterRead(s, root, tenant) || m in WrittenBeforeRead(s, root, tenant)
  {
  }

  /**
   In every run, overlaps included: the guard covers what was committed after the last read exactly
   if there is nothing, or no early exit is taken and none of it is stamped at or before that read.
   It returns nothing that had been read exactly if it exits early or all of that is stamped at or
   before the read.
   */
  lemma {:induction false} GuardInAnyRun(ss: seq<System>, es: seq<Event>, n: nat, root: NodeId, tenant: TenantId)
    requires Run(ss, es) && n < |ss|
    ensures WrittenAfterRead(ss[n], root, tenant) <= Unacknowledged(ss[n].db, root, tenant)
       <==> || WrittenAfterRead(ss[n], root, tenant) == {}
            || (&& !ExitsEarly(ss[n].db, root)
                && forall m :: m in WrittenAfterRead(ss[n], root, tenant) ==> !StampedByRead(ss[n], root, m))
    ensures Unacknowledged(ss[n].db, root, tenant) <= WrittenAfterRead(ss[n], root, tenant)
       <==> || ExitsEarly(ss[n].db, root)
            || forall m :: m in WrittenBeforeRead(ss[n], root, tenant) ==> StampedByRead(ss[n], root, m)
  {
    var s := ss[n];
    LoggedAlways(ss, es, n);
    OwnerNodesSplit(s, root, tenant);
    forall m
      ensures m in Unacknowledged(s.db, root, tenant)
         <==> !ExitsEarly(s.db, root) && OwnerNode(s.db, root, tenant, m) && !StampedByRead(s, root, m)
    {
    }
  }

  /** With a current owner stamp an early exit hides only nodes stamped at or before the read. */
  lemma {:induction false} GuardWithCurrentStamp(ss: seq<System>, es: seq<Event>, n: nat, root: NodeId,
                                                 tenant: TenantId)
    requires Run(ss, es) && n < |ss| && StampCurrent(ss[n].db, root, tenant)
    ensures WrittenAfterRead(ss[n], root, tenant) <= Unacknowledged(ss[n].db, root, tenant)
       <==> forall m :: m in WrittenAfterRead(ss[n], root, tenant) ==> !StampedByRead(ss[n], root, m)
    ensures Unacknowledged(ss[n].db, root, tenant) <= WrittenAfterRead(ss[n], root, tenant)
       <==> forall m :: m in WrittenBeforeRead(ss[n], root, tenant) ==> StampedByRead(ss[n], root, m)
  {
    var s := ss[n];
    LoggedAlways(ss, es, n);
    OwnerNodesSplit(s, root, tenant);
    GuardInAnyRun(ss, es, n, root, tenant);
    forall m | OwnerNode(s.db, root, tenant, m) && ExitsEarly(s.db, root)
      ensures StampedByRead(s, root, m)
    {
    }
  }

  /** When an owner write commits, the guard reports the node exactly if the write began after the last read did. */
  lemma {:induction false} WriteIsReportedExactly(s: System, m: NodeId, root: NodeId, stamp: int)
    requires !Rejected(s.db, m, root) && !s.db.memories[m].deleted && stamp <= s.now
    ensures m in Unacknowledged(Apply(s, WriteNode(m, root, Owner, stamp)).db, root, s.db.memories[m].tenant)
       <==> NewerThan(stamp, s.db.maps[root].lastAgentRead)
  {
    assert OwnerNode(Apply(s, WriteNode(m, root, Owner, stamp)).db, root, s.db.memories[m].tenant, m);
  }

  ghost predicate Reachable(s: System) {
    exists ss, es :: Run(ss, es) && s == ss[|es|]
  }

  lemma {:induction false} ReachInitial()
    ensures Reachable(System(EMPTY, 0, 0, map[], map[]))
  {
    var s := System(EMPTY, 0, 0, map[], map[]);
    assert Run([s], []) && s == [s][0];
  }

  lemma {:induction false} ReachStep(s: System, e: Event)
    requires Reachable(s) && Enabled(s, e)
    ensures Reachable(Apply(s, e))
  {
    var ss, es :| Run(ss, es) && s == ss[|es|];
    var ss', es' := ss + [Apply(s, e)], es + [e];
    forall i | 0 <= i < |es'|
      ensures StepAt(ss', es', i)
    {
      if i < |es| {
        assert StepAt(ss, es, i);
      }
    }
    assert Run(ss', es') && Apply(s, e) == ss'[|es'|];
  }

  /** A map with two memories that are not in it yet. */
  lemma {:induction false} MapWithTwoMemories() returns (s: System)
    ensures Reachable(s) && s.now == 0
    ensures s.db.maps == map[0 := MapRow(None, None)] && s.db.members == map[0 := Member(0, Unknown, 0)]
    ensures s.db.memories == map[0 := Memory(7, false), 1 := Memory(7, false), 2 := Memory(7, false)]
  {
    ReachInitial();
    s := System(EMPTY, 0, 0, map[], map[]);
    ReachStep(s, NewMemory(0, 7));
    s := Apply(s, NewMemory(0, 7));
    ReachStep(s, NewMemory(1, 7));
    s := Apply(s, NewMemory(1, 7));
    ReachStep(s, NewMemory(2, 7));
    s := Apply(s, NewMemory(2, 7));
    ReachStep(s, OpenMap(0));
    s := Apply(s, OpenMap(0));
  }

  /**
   Two owner writes that overlap can commit in the opposite order of their stamps.  The later
   commit then moves the map's owner stamp back, and the shortcut hides a node that the scan
   would return.
   */
  lemma {:induction false} OverlappingWritesHideNodes() returns (s: System)
    ensures Reachable(s) && 0 in s.db.maps
    ensures Unacknowledged(s.db, 0, 7) == {}
    ensures 1 in AddedSince(s.db, 0, 7, s.db.maps[0].lastAgentRead)
  {
    s := MapWithTwoMemories();
    ReachStep(s, Tick(5));
    s := Apply(s, Tick(5));
    ReachStep(s, WriteNode(1, 0, Owner, 5));
    s := Apply(s, WriteNode(1, 0, Owner, 5));
    ReachStep(s, WriteNode(2, 0, Owner, 3));
    s := Apply(s, WriteNode(2, 0, Owner, 3));
    ReachStep(s, AgentRead(0, 4));
    s := Apply(s, AgentRead(0, 4));
    assert OwnerNode(s.db, 0, 7, 1);
  }

  /**
   An owner write that began before a read and commits after it: stamp and scan agree that there is
   nothing left to read, and the agent has not seen the node.
   */
  lemma {:induction false} LateCommitIsMissed() returns (s: System)
    ensures Reachable(s) && 0 in s.db.maps && StampCurrent(s.db, 0, 7)
    ensures Unacknowledged(s.db, 0, 7) == {} == AddedSince(s.db, 0, 7, s.db.maps[0].lastAgentRead)
    ensures WrittenAfterRead(s, 0, 7) == {1} && !TiesWithRead(s, 0, 1)
  {
    s := MapWithTwoMemories();
    ReachStep(s, Tick(5));
    s := Apply(s, Tick(5));
    ReachStep(s, AgentRead(0, 4));
    s := Apply(s, AgentRead(0, 4));
    ReachStep(s, WriteNode(1, 0, Owner, 3));
    s := Apply(s, WriteNode(1, 0, Owner, 3));
    assert OwnerNode(s.db, 0, 7, 1);
  }

  /** A read that began before an owner write and commits after it: the node stays reported. */
  lemma {:induction false} LateReadIsIgnored() returns (s: System)
    ensures Reachable(s) && StampCurrent(s.db, 0, 7)
    ensures Unacknowledged(s.db, 0, 7) == {1} == WrittenBeforeRead(s, 0, 7)
  {
    s := MapWithTwoMemories();
    ReachStep(s, Tick(5));
    s := Apply(s, Tick(5));
    ReachStep(s, WriteNode(1, 0, Owner, 5));
    s := Apply(s, WriteNode(1, 0, Owner, 5));
    ReachStep(s, AgentRead(0, 4));
    s := Apply(s, AgentRead(0, 4));
    assert OwnerNode(s.db, 0, 7, 1);
  }
}
