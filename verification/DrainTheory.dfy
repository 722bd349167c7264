/**
 Safety of the write queue over every interleaving of any number of workers, aborts and
 crashes.
 */
module DrainTheory {
  import opened Wrappers
  import opened Drain

  // ---------------------------------------------------------------------------
  // One step
  // ---------------------------------------------------------------------------

  ghost predicate SameFor(s: System, t: System, r: ReqId) {
    && (r in s.rows <==> r in t.rows)
    && (r in s.rows ==> s.rows[r] == t.rows[r])
    && s.calls[r] == t.calls[r]
    && (r in s.returned <==> r in t.returned)
    && (r in s.returned ==> s.returned[r] == t.returned[r])
  }

  /** Only worker `w` moved, and it now plays `role` for the request. */
  ghost predicate OnlyMoved(s: System, t: System, w: WorkerId, r: ReqId, role: Role) {
    && w in t.workers && RoleOf(t.workers[w], r) == role
    && forall v :: v != w ==>
         (v in s.workers <==> v in t.workers) && (v in s.workers ==> s.workers[v] == t.workers[v])
  }

  /** A worker that lets go of the request, or keeps its role, with nothing else changed for it. */
  lemma {:induction false} KeepsOrFrees(s: System, t: System, w: WorkerId, r: ReqId, role: Role)
    requires ReqInv(s, r) && SameFor(s, t, r) && OnlyMoved(s, t, w, r, role)
    requires role.Free? || (w in s.workers && role == RoleOf(s.workers[w], r))
    ensures ReqInv(t, r)
  {
  }

  /** The worker that holds the request moves it on; no other worker is concerned. */
  lemma {:induction false} HolderMoves(s: System, t: System, w: WorkerId, r: ReqId, role: Role)
    requires ReqInv(s, r) && OnlyMoved(s, t, w, r, role)
    requires w in s.workers && !RoleOf(s.workers[w], r).Free?
    requires RoleFits(t, r, role) && RowFits(t, r)
    ensures ReqInv(t, r)
  {
    forall v | v in t.workers
      ensures RoleFits(t, r, RoleOf(t.workers[v], r))
      ensures v != w ==> RoleOf(t.workers[v], r).Free?
    {
      if v != w {
        assert RoleOf(s.workers[v], r).Free?;
      }
    }
  }

  lemma {:induction false} Locks(s: System, t: System, w: WorkerId, r: ReqId)
    requires ReqInv(s, r) && SameFor(s, t, r) && OnlyMoved(s, t, w, r, Locking)
    requires Available(s, r) && w in s.workers && s.workers[w].Idle?
    ensures ReqInv(t, r)
  {
    forall v | v in s.workers
      ensures RoleOf(s.workers[v], r).Free?
    {
      assert RoleFits(s, r, RoleOf(s.workers[v], r));
    }
  }

  lemma {:induction false} ClaimSteps(s: System, e: Event, r: ReqId)
    requires Inv(s) && Enabled(s, e)
    requires e.BeginClaim? || e.CommitClaim? || e.AbortClaim?
    ensures ReqInv(Apply(s, e), r)
  {
    var t, w := Apply(s, e), e.w;
    var role := RoleOf(t.workers[w], r);
    assert ReqInv(s, r);
    if e.BeginClaim? && r in e.picked {
      Locks(s, t, w, r);
    } else if e.CommitClaim? && r in s.workers[w].picked {
      assert RoleFits(s, r, RoleOf(s.workers[w], r));
      HolderMoves(s, t, w, r, role);
    } else {
      KeepsOrFrees(s, t, w, r, role);
    }
  }

  lemma {:induction false} WriteSteps(s: System, e: Event, r: ReqId)
    requires Inv(s) && Enabled(s, e)
    requires e.StartWrite? || e.WriteReturns? || e.WriteRaises?
    ensures ReqInv(Apply(s, e), r)
  {
    var t, w := Apply(s, e), e.w;
    var role := RoleOf(t.workers[w], r);
    assert ReqInv(s, r);
    assert RoleFits(s, r, RoleOf(s.workers[w], r));
    if r == (if e.StartWrite? then e.req else s.workers[w].req) {
      HolderMoves(s, t, w, r, role);
    } else {
      KeepsOrFrees(s, t, w, r, role);
    }
  }

  lemma {:induction false} MarkSteps(s: System, e: Event, r: ReqId)
    requires Inv(s) && Enabled(s, e)
    requires e.CommitMark? || e.AbortMark?
    ensures ReqInv(Apply(s, e), r)
  {
    var t, w := Apply(s, e), e.w;
    var role := RoleOf(t.workers[w], r);
    assert ReqInv(s, r);
    assert RoleFits(s, r, RoleOf(s.workers[w], r));
    assert WorkerFits(s.workers[w]);
    if r == s.workers[w].req {
      HolderMoves(s, t, w, r, role);
    } else {
      KeepsOrFrees(s, t, w, r, role);
    }
  }

  lemma {:induction false} OtherSteps(s: System, e: Event, r: ReqId)
    requires Inv(s) && Enabled(s, e)
    requires e.Submit? || e.Join? || e.Finish? || e.BadPayload? || e.Crash?
    ensures ReqInv(Apply(s, e), r)
  {
    var t := Apply(s, e);
    assert ReqInv(s, r);
    if e.Submit? {
      forall v | v in t.workers
        ensures RoleFits(t, r, RoleOf(t.workers[v], r))
      {
        assert RoleFits(s, r, RoleOf(s.workers[v], r));
      }
    } else {
      KeepsOrFrees(s, t, e.w, r, RoleOf(t.workers[e.w], r));
    }
  }

  lemma {:induction false} StepKeepsWorkers(s: System, e: Event)
    requires Inv(s) && Enabled(s, e)
    ensures forall w :: w in Apply(s, e).workers ==> WorkerFits(Apply(s, e).workers[w])
  {
    var t := Apply(s, e);
    forall w | w in t.workers
      ensures WorkerFits(t.workers[w])
    {
      if w in s.workers {
        assert WorkerFits(s.workers[w]);
      }
    }
  }

  lemma {:induction false} StepKeepsInv(s: System, e: Event)
    requires Inv(s) && Enabled(s, e)
    ensures Inv(Apply(s, e))
  {
    forall r
      ensures ReqInv(Apply(s, e), r)
    {
      if e.BeginClaim? || e.CommitClaim? || e.AbortClaim? {
        ClaimSteps(s, e, r);
      } else if e.StartWrite? || e.WriteReturns? || e.WriteRaises? {
        WriteSteps(s, e, r);
      } else if e.CommitMark? || e.AbortMark? {
        MarkSteps(s, e, r);
      } else {
        OtherSteps(s, e, r);
      }
    }
    StepKeepsWorkers(s, e);
  }

  // ---------------------------------------------------------------------------
  // Whole behaviours
  // ---------------------------------------------------------------------------

  const INITIAL := System(map[], map[], multiset{}, map[])

  ghost predicate StepAt(ss: seq<System>, es: seq<Event>, i: nat)
    requires i < |es| && i + 1 < |ss|
  {
    Enabled(ss[i], es[i]) && ss[i + 1] == Apply(ss[i], es[i])
  }

  /** `ss` are the states of a run that takes the steps `es` from an empty queue. */
  ghost predicate Behaviour(ss: seq<System>, es: seq<Event>) {
    && |ss| == |es| + 1
    && ss[0] == INITIAL
    && forall i :: 0 <= i < |es| ==> StepAt(ss, es, i)
  }

  lemma {:induction false} InvAlways(ss: seq<System>, es: seq<Event>, n: nat)
    requires Behaviour(ss, es) && n < |ss|
    ensures Inv(ss[n])
  {
    if n == 0 {
      assert forall r :: ReqInv(INITIAL, r);
    } else {
      InvAlways(ss, es, n - 1);
      assert StepAt(ss, es, n - 1);
      StepKeepsInv(ss[n - 1], es[n - 1]);
    }
  }

  /** How often the request was claimed, counted over the committed claims of the run. */
  ghost function Claims(ss: seq<System>, es: seq<Event>, n: nat, r: ReqId): nat
    requires Behaviour(ss, es) && n < |ss|
  {
    if n == 0 then 0
    else
      assert StepAt(ss, es, n - 1);
      Claims(ss, es, n - 1, r)
      + (if es[n - 1].CommitClaim? && r in ss[n - 1].workers[es[n - 1].w].picked then 1 else 0)
  }

  /** How often the request's write was invoked. */
  ghost function Writes(es: seq<Event>, r: ReqId): nat {
    if es == [] then 0
    else Writes(es[..|es| - 1], r) + (if es[|es| - 1].StartWrite? && es[|es| - 1].req == r then 1 else 0)
  }

  lemma {:induction false} ClaimsAreAttempts(ss: seq<System>, es: seq<Event>, n: nat, r: ReqId)
    requires Behaviour(ss, es) && n < |ss|
    ensures Claims(ss, es, n, r) == if r in ss[n].rows then ss[n].rows[r].attempts else 0
  {
    if n > 0 {
      var s, e := ss[n - 1], es[n - 1];
      ClaimsAreAttempts(ss, es, n - 1, r);
      assert StepAt(ss, es, n - 1);
      InvAlways(ss, es, n - 1);
      assert ReqInv(s, r);
      if e.CommitClaim? {
        assert RoleFits(s, r, RoleOf(s.workers[e.w], r));
      } else if e.CommitMark? {
        assert RoleFits(s, r, RoleOf(s.workers[e.w], r));
      }
    }
  }

  lemma {:induction false} WritesAreCalls(ss: seq<System>, es: seq<Event>, n: nat, r: ReqId)
    requires Behaviour(ss, es) && n < |ss|
    ensures Writes(es[..n], r) == ss[n].calls[r]
  {
    if n > 0 {
      WritesAreCalls(ss, es, n - 1, r);
      assert StepAt(ss, es, n - 1);
      assert es[..n][..n - 1] == es[..n - 1];
    }
  }

  ghost predicate Holds(s: System, w: WorkerId, r: ReqId) {
    w in s.workers && !RoleOf(s.workers[w], r).Free?
  }

  /**
   In every state of every behaviour a request has been claimed at most once and its write
   invoked at most once; its attempts are 0 exactly while it is queued and 1 afterwards; and
   no two workers hold it.
   */
  lemma {:induction false} AtMostOnce(ss: seq<System>, es: seq<Event>, n: nat, r: ReqId)
    requires Behaviour(ss, es) && n < |ss|
    ensures Claims(ss, es, n, r) <= 1 && Writes(es[..n], r) <= Claims(ss, es, n, r)
    ensures r in ss[n].rows ==>
              var row := ss[n].rows[r];
              && row.attempts == Claims(ss, es, n, r)
              && (row.attempts == 0 <==> row.state == Queued)
    ensures forall w, v :: Holds(ss[n], w, r) && Holds(ss[n], v, r) ==> w == v
  {
    InvAlways(ss, es, n);
    ClaimsAreAttempts(ss, es, n, r);
    WritesAreCalls(ss, es, n, r);
    assert ReqInv(ss[n], r);
  }

  /** A finished row records what its one write did. */
  lemma {:induction false} FinishedRowsTellTheTruth(ss: seq<System>, es: seq<Event>, n: nat, r: ReqId)
    requires Behaviour(ss, es) && n < |ss| && r in ss[n].rows
    requires ss[n].rows[r].state == Succeeded || ss[n].rows[r].state == Failed
    ensures Writes(es[..n], r) == 1
    ensures ss[n].rows[r].state == Succeeded ==>
              r in ss[n].returned && ss[n].rows[r].result == Some(ss[n].returned[r])
  {
    InvAlways(ss, es, n);
    WritesAreCalls(ss, es, n, r);
    assert ReqInv(ss[n], r);
  }

  /** A row moves from queued to in flight to one final state, which it keeps unchanged. */
  ghost predicate Follows(a: Row, b: Row) {
    match a.state
    case Queued => true
    case InFlight => b.state != Queued
    case _ => b == a
  }

  lemma {:induction false} StepFollows(s: System, e: Event, r: ReqId)
    requires Inv(s) && Enabled(s, e) && r in s.rows
    ensures r in Apply(s, e).rows && Follows(s.rows[r], Apply(s, e).rows[r])
  {
    assert ReqInv(s, r);
    if e.CommitClaim? || e.CommitMark? {
      assert RoleFits(s, r, RoleOf(s.workers[e.w], r));
    }
  }

  lemma {:induction false} RowsOnlyMoveForward(ss: seq<System>, es: seq<Event>, i: nat, j: nat, r: ReqId)
    requires Behaviour(ss, es) && i <= j < |ss| && r in ss[i].rows
    ensures r in ss[j].rows && Follows(ss[i].rows[r], ss[j].rows[r])
    decreases j
  {
    if i < j {
      RowsOnlyMoveForward(ss, es, i, j - 1, r);
      InvAlways(ss, es, j - 1);
      assert StepAt(ss, es, j - 1);
      StepFollows(ss[j - 1], es[j - 1], r);
    }
  }

  // ---------------------------------------------------------------------------
  // The price of a single attempt
  // ---------------------------------------------------------------------------

  /** In flight, with no worker left that knows about it. */
  ghost predicate Orphaned(s: System, r: ReqId) {
    r in s.rows && s.rows[r].state == InFlight && forall w :: !Holds(s, w, r)
  }

  lemma {:induction false} StepKeepsOrphan(s: System, e: Event, r: ReqId)
    requires Inv(s) && Enabled(s, e) && Orphaned(s, r)
    ensures Orphaned(Apply(s, e), r) && Apply(s, e).rows[r] == s.rows[r]
  {
    var t := Apply(s, e);
    if !e.Submit? && e.w in s.workers {
      assert !Holds(s, e.w, r);
    }
    forall w
      ensures !Holds(t, w, r)
    {
      assert !Holds(s, w, r);
    }
  }

  /** An orphaned row stays in flight for ever: nothing retries or finishes it. */
  lemma {:induction false} OrphansStay(ss: seq<System>, es: seq<Event>, i: nat, j: nat, r: ReqId)
    requires Behaviour(ss, es) && i <= j < |ss| && Orphaned(ss[i], r)
    ensures Orphaned(ss[j], r) && ss[j].rows[r] == ss[i].rows[r]
    decreases j
  {
    if i < j {
      OrphansStay(ss, es, i, j - 1, r);
      InvAlways(ss, es, j - 1);
      assert StepAt(ss, es, j - 1);
      StepKeepsOrphan(ss[j - 1], es[j - 1], r);
    }
  }

  /** The step makes its worker forget what is left of its batch. */
  ghost predicate Abandons(s: System, e: Event) {
    || e.Crash? || e.BadPayload?
    || (e.AbortMark? && e.w in s.workers && s.workers[e.w].Marking? && s.workers[e.w].outcome.Raised?)
  }

  /** Only a crash or an exception that leaves the row handler can orphan a row. */
  lemma {:induction false} OnlyAbandoningOrphans(s: System, e: Event, r: ReqId)
    requires Inv(s) && Enabled(s, e) && !Orphaned(s, r) && Orphaned(Apply(s, e), r)
    ensures Abandons(s, e) && Holds(s, e.w, r)
  {
    var t := Apply(s, e);
    assert ReqInv(s, r);
    if !e.Submit? {
      assert !Holds(t, e.w, r);
      if !Holds(s, e.w, r) {
        forall w
          ensures !Holds(s, w, r)
        {
          assert !Holds(t, w, r);
        }
      } else {
        assert RoleFits(s, r, RoleOf(s.workers[e.w], r));
      }
    } else {
      forall w
        ensures !Holds(s, w, r)
      {
        assert !Holds(t, w, r);
      }
    }
  }

  /** A worker that is idle after the step and was not merely claiming lets its rows go unfinished. */
  lemma {:induction false} AbandoningOrphans(s: System, e: Event, r: ReqId)
    requires Inv(s) && Enabled(s, e) && Abandons(s, e) && Holds(s, e.w, r)
    requires !RoleOf(s.workers[e.w], r).Locking?
    ensures Orphaned(Apply(s, e), r)
  {
    var t := Apply(s, e);
    assert ReqInv(s, r);
    assert RoleFits(s, r, RoleOf(s.workers[e.w], r));
    forall v
      ensures !Holds(t, v, r)
    {
      if v != e.w && v in s.workers {
        assert RoleOf(s.workers[v], r).Free?;
      }
    }
  }

  /**
   A step orphans a row exactly if it abandons the batch of the worker that holds the row, and
   the worker had claimed the row and not merely locked it.
   */
  lemma {:induction false} OrphanedExactly(s: System, e: Event, r: ReqId)
    requires Inv(s) && Enabled(s, e) && !Orphaned(s, r)
    ensures Orphaned(Apply(s, e), r)
       <==> Abandons(s, e) && Holds(s, e.w, r) && !RoleOf(s.workers[e.w], r).Locking?
  {
    if Orphaned(Apply(s, e), r) {
      OnlyAbandoningOrphans(s, e, r);
      assert ReqInv(s, r);
      assert RoleFits(s, r, RoleOf(s.workers[e.w], r));
    }
    if Abandons(s, e) && Holds(s, e.w, r) && !RoleOf(s.workers[e.w], r).Locking? {
      AbandoningOrphans(s, e, r);
    }
  }

  ghost predicate Reachable(s: System) {
    exists ss, es :: Behaviour(ss, es) && s == ss[|es|]
  }

  lemma {:induction false} ReachInitial()
    ensures Reachable(INITIAL)
  {
    assert Behaviour([INITIAL], []) && INITIAL == [INITIAL][0];
  }

  lemma {:induction false} ReachStep(s: System, e: Event)
    requires Reachable(s) && Enabled(s, e)
    ensures Reachable(Apply(s, e))
  {
    var ss, es :| Behaviour(ss, es) && s == ss[|es|];
    var ss', es' := ss + [Apply(s, e)], es + [e];
    forall i | 0 <= i < |es'|
      ensures StepAt(ss', es', i)
    {
      if i < |es| {
        assert StepAt(ss, es, i);
      }
    }
    assert Behaviour(ss', es') && Apply(s, e) == ss'[|es'|];
  }

  const QUEUED_ROW := Row(1, 0, Queued, 0, None, None)

  /** One queued row, and one worker that has locked it. */
  lemma {:induction false} OneLockedRow() returns (s: System)
    ensures Reachable(s)
    ensures s == System(map[1 := QUEUED_ROW], map[1 := Claiming({1})], multiset{}, map[])
  {
    ReachInitial();
    ReachStep(INITIAL, Submit(1, 1, 0));
    s := Apply(INITIAL, Submit(1, 1, 0));
    ReachStep(s, Join(1));
    s := Apply(s, Join(1));
    assert s == System(map[1 := QUEUED_ROW], map[1 := Idle], multiset{}, map[]);
    assert forall r :: Available(s, r) <==> r == 1;
    ReachStep(s, BeginClaim(1, {1}));
    s := Apply(s, BeginClaim(1, {1}));
  }

  /** A crash between the claim and the write: the row was never written and never will be. */
  lemma {:induction false} CrashOrphansUnwrittenRow() returns (s: System)
    ensures Reachable(s) && Orphaned(s, 1) && s.calls[1] == 0
  {
    s := OneLockedRow();
    ReachStep(s, CommitClaim(1));
    s := Apply(s, CommitClaim(1));
    ReachStep(s, Crash(1));
    s := Apply(s, Crash(1));
  }

  /** Both marks fail after a write that returned: the row was written and is never reported. */
  lemma {:induction false} FailedMarksOrphanWrittenRow(error: string) returns (s: System)
    ensures Reachable(s) && Orphaned(s, 1) && s.calls[1] == 1 && 1 in s.returned
  {
    s := OneLockedRow();
    ReachStep(s, CommitClaim(1));
    s := Apply(s, CommitClaim(1));
    ReachStep(s, StartWrite(1, 1));
    s := Apply(s, StartWrite(1, 1));
    ReachStep(s, WriteReturns(1, 7));
    s := Apply(s, WriteReturns(1, 7));
    ReachStep(s, AbortMark(1, error));
    s := Apply(s, AbortMark(1, error));
    ReachStep(s, AbortMark(1, error));
    s := Apply(s, AbortMark(1, error));
  }

  ghost predicate NeverAbandons(ss: seq<System>, es: seq<Event>)
    requires Behaviour(ss, es)
  {
    forall i :: 0 <= i < |es| ==> !Abandons(ss[i], es[i])
  }

  lemma {:induction false} NoOrphans(ss: seq<System>, es: seq<Event>, n: nat, r: ReqId)
    requires Behaviour(ss, es) && n < |ss| && NeverAbandons(ss, es)
    ensures !Orphaned(ss[n], r)
  {
    if n > 0 {
      NoOrphans(ss, es, n - 1, r);
      InvAlways(ss, es, n - 1);
      assert StepAt(ss, es, n - 1);
      assert !Abandons(ss[n - 1], es[n - 1]);
      if Orphaned(ss[n], r) {
        OnlyAbandoningOrphans(ss[n - 1], es[n - 1], r);
      }
    }
  }

  /**
   Without crashes and abandoned batches, once every worker is idle each row is queued and
   untouched, or finished after exactly one write.
   */
  lemma {:induction false} QuietQueueIsSettled(ss: seq<System>, es: seq<Event>, n: nat, r: ReqId)
    requires Behaviour(ss, es) && n < |ss| && NeverAbandons(ss, es)
    requires forall w :: w in ss[n].workers ==> ss[n].workers[w].Idle?
    requires r in ss[n].rows
    ensures ss[n].rows[r].state != InFlight
    ensures Writes(es[..n], r) == if ss[n].rows[r].state == Queued then 0 else 1
  {
    NoOrphans(ss, es, n, r);
    InvAlways(ss, es, n);
    WritesAreCalls(ss, es, n, r);
    assert ReqInv(ss[n], r);
    assert forall w :: !Holds(ss[n], w, r);
  }
}
