/**
 The order in which queued rows are claimed: within a tenant over whole runs, and over all tenants
 in one claim.
 */
module DrainOrder {
  import opened Wrappers
  import opened Drain
  import opened DrainTheory
  import Drainer

  // ---------------------------------------------------------------------------
  // Order within a tenant
  // ---------------------------------------------------------------------------

  /** Both rows are of one tenant, and `a` was submitted before `b`. */
  ghost predicate Earlier(s: System, a: ReqId, b: ReqId) {
    && a in s.rows && b in s.rows && s.rows[a].tenant == s.rows[b].tenant
    && s.rows[a].submittedAt < s.rows[b].submittedAt
  }

  /** A claimed or locked row has no earlier row of its tenant still waiting. */
  ghost predicate InOrder(s: System, a: ReqId, b: ReqId) {
    Earlier(s, a, b) ==>
      && (s.rows[b].state != Queued ==> s.rows[a].state != Queued)
      && (Locked(s, b) ==> s.rows[a].state != Queued || Locked(s, a))
  }

  ghost predicate TenantOrder(s: System) {
    forall a, b :: InOrder(s, a, b)
  }

  /** A claimed row has no earlier row of its tenant still queued. */
  ghost predicate ClaimedInOrder(s: System) {
    forall a, b :: Earlier(s, a, b) && s.rows[b].state != Queued ==> s.rows[a].state != Queued
  }

  /** The worker has an open claim on the row. */
  ghost predicate LockedBy(s: System, w: WorkerId, r: ReqId) {
    w in s.workers && s.workers[w].Claiming? && r in s.workers[w].picked
  }

  /** A claim commits without an earlier queued row of one of its rows' tenants. */
  ghost predicate CommitsOutOfOrder(s: System, e: Event) {
    && e.CommitClaim?
    && exists a, b :: Earlier(s, a, b) && LockedBy(s, e.w, b) && s.rows[a].state == Queued && !LockedBy(s, e.w, a)
  }

  /** An open claim is given up while another worker has locked a later row of the tenant. */
  ghost predicate LeavesBehind(s: System, e: Event) {
    && (e.AbortClaim? || e.Crash?)
    && exists a, b, v :: Earlier(s, a, b) && LockedBy(s, e.w, a) && v != e.w && LockedBy(s, v, b)
  }

  ghost predicate Taken(s: System, r: ReqId) {
    r in s.rows && (s.rows[r].state != Queued || Locked(s, r))
  }

  /** A row arrives that is older than a claimed or locked row of its tenant. */
  ghost predicate ArrivesLate(s: System, e: Event) {
    e.Submit? && exists b :: Taken(s, b) && s.rows[b].tenant == e.tenant && e.at < s.rows[b].submittedAt
  }

  /** A row arrives that is older than a claimed row of its tenant. */
  ghost predicate ArrivesTooLate(s: System, e: Event) {
    e.Submit? && exists b :: b in s.rows && s.rows[b].state != Queued && s.rows[b].tenant == e.tenant
                             && e.at < s.rows[b].submittedAt
  }

  ghost predicate BreaksOrder(s: System, e: Event) {
    CommitsOutOfOrder(s, e) || LeavesBehind(s, e) || ArrivesLate(s, e)
  }

  /** Marks find claimed rows, so they queue nothing and claim nothing. */
  lemma {:induction false} MarkedRowIsClaimed(s: System, w: WorkerId)
    requires Inv(s) && w in s.workers && s.workers[w].Marking? && s.workers[w].req in s.rows
    ensures s.rows[s.workers[w].req].state == InFlight
  {
    assert ReqInv(s, s.workers[w].req);
    assert RoleFits(s, s.workers[w].req, RoleOf(s.workers[w], s.workers[w].req));
  }

  lemma {:induction false} LockedRowIsQueued(s: System, w: WorkerId, r: ReqId)
    requires Inv(s) && LockedBy(s, w, r)
    ensures r in s.rows && s.rows[r].state == Queued && Locked(s, r)
    ensures forall v :: LockedBy(s, v, r) ==> v == w
  {
    assert ReqInv(s, r);
    assert RoleFits(s, r, RoleOf(s.workers[w], r));
    forall v | LockedBy(s, v, r)
      ensures v == w
    {
      assert !RoleOf(s.workers[v], r).Free? && !RoleOf(s.workers[w], r).Free?;
    }
  }

  /** Rows keep tenant and time; only a commit of a claim takes a row out of the queue. */
  lemma {:induction false} QueuedAfter(s: System, e: Event, r: ReqId)
    requires Inv(s) && Enabled(s, e) && r in s.rows
    ensures r in Apply(s, e).rows
    ensures Apply(s, e).rows[r].tenant == s.rows[r].tenant && Apply(s, e).rows[r].submittedAt == s.rows[r].submittedAt
    ensures Apply(s, e).rows[r].state == Queued
       <==> s.rows[r].state == Queued && !(e.CommitClaim? && LockedBy(s, e.w, r))
  {
    if e.CommitMark? && s.workers[e.w].req in s.rows {
      MarkedRowIsClaimed(s, e.w);
    }
  }

  lemma {:induction false} LockedBySome(s: System, r: ReqId)
    ensures Locked(s, r) <==> exists w :: LockedBy(s, w, r)
  {
    if Locked(s, r) {
      var w :| w in s.workers && s.workers[w].Claiming? && r in s.workers[w].picked;
      assert LockedBy(s, w, r);
    }
  }

  /** Which rows are locked after a step. */
  lemma {:induction false} LockedAfter(s: System, e: Event, r: ReqId)
    requires Inv(s) && Enabled(s, e)
    ensures e.BeginClaim? ==> (Locked(Apply(s, e), r) <==> Locked(s, r) || r in e.picked)
    ensures e.CommitClaim? || e.AbortClaim? || e.Crash? ==>
              (Locked(Apply(s, e), r) <==> Locked(s, r) && !LockedBy(s, e.w, r))
    ensures !e.BeginClaim? && !e.CommitClaim? && !e.AbortClaim? && !e.Crash? ==>
              (Locked(Apply(s, e), r) <==> Locked(s, r))
  {
    var t := Apply(s, e);
    LockedBySome(s, r);
    LockedBySome(t, r);
    forall v
      ensures LockedBy(s, v, r) ==> LockedBy(t, v, r) || (!e.Submit? && e.w == v)
      ensures LockedBy(t, v, r) ==> LockedBy(s, v, r) || (e.BeginClaim? && e.w == v && r in e.picked)
    {
    }
    if v :| LockedBy(s, v, r) {
      LockedRowIsQueued(s, v, r);
    }
    if e.BeginClaim? && r in e.picked {
      assert LockedBy(t, e.w, r);
    }
  }

  /** What a step does to a pair of rows that is in order. */
  lemma {:induction false} PairBreaksExactly(s: System, e: Event, a: ReqId, b: ReqId)
    requires Inv(s) && Enabled(s, e) && TenantOrder(s) && Earlier(s, a, b)
    ensures !InOrder(Apply(s, e), a, b)
       <==> || (e.CommitClaim? && LockedBy(s, e.w, b) && s.rows[a].state == Queued && !LockedBy(s, e.w, a))
            || ((e.AbortClaim? || e.Crash?) && LockedBy(s, e.w, a) && Locked(s, b) && !LockedBy(s, e.w, b))
  {
    assert InOrder(s, a, b);
    QueuedAfter(s, e, a);
    QueuedAfter(s, e, b);
    LockedAfter(s, e, a);
    LockedAfter(s, e, b);
    LockedBySome(s, a);
    if w :| LockedBy(s, w, a) {
      LockedRowIsQueued(s, w, a);
    }
    LockedBySome(s, b);
    if w :| LockedBy(s, w, b) {
      LockedRowIsQueued(s, w, b);
    }
    if e.BeginClaim? && b in e.picked {
      assert Available(s, a) ==> a in e.picked;
    }
  }

  /** A newly submitted row against the rows that were there. */
  lemma {:induction false} SubmittedPair(s: System, e: Event, b: ReqId)
    requires Inv(s) && Enabled(s, e) && e.Submit? && b in s.rows
    ensures InOrder(Apply(s, e), b, e.req)
    ensures !InOrder(Apply(s, e), e.req, b)
       <==> Taken(s, b) && s.rows[b].tenant == e.tenant && e.at < s.rows[b].submittedAt
  {
    LockedAfter(s, e, b);
    LockedAfter(s, e, e.req);
    LockedBySome(s, e.req);
    if w :| LockedBy(s, w, e.req) {
      LockedRowIsQueued(s, w, e.req);
    }
  }

  lemma {:induction false} BreakingStepBreaks(s: System, e: Event)
    requires Inv(s) && Enabled(s, e) && TenantOrder(s) && BreaksOrder(s, e)
    ensures !TenantOrder(Apply(s, e))
  {
    if CommitsOutOfOrder(s, e) {
      var a, b :| Earlier(s, a, b) && LockedBy(s, e.w, b) && s.rows[a].state == Queued && !LockedBy(s, e.w, a);
      PairBreaksExactly(s, e, a, b);
    } else if LeavesBehind(s, e) {
      var a, b, v :| Earlier(s, a, b) && LockedBy(s, e.w, a) && v != e.w && LockedBy(s, v, b);
      LockedRowIsQueued(s, v, b);
      PairBreaksExactly(s, e, a, b);
    } else {
      var b :| Taken(s, b) && s.rows[b].tenant == e.tenant && e.at < s.rows[b].submittedAt;
      SubmittedPair(s, e, b);
    }
  }

  /** A pair that is out of order after a step shows which kind of step it was. */
  lemma {:induction false} BrokenPairTells(s: System, e: Event, a: ReqId, b: ReqId)
    requires Inv(s) && Enabled(s, e) && TenantOrder(s) && !InOrder(Apply(s, e), a, b)
    ensures BreaksOrder(s, e)
  {
    if a in s.rows && b in s.rows {
      QueuedAfter(s, e, a);
      QueuedAfter(s, e, b);
      PairBreaksExactly(s, e, a, b);
      if e.AbortClaim? || e.Crash? {
        LockedBySome(s, b);
        var v :| LockedBy(s, v, b);
        assert v != e.w && LeavesBehind(s, e);
      }
    } else if e.Submit? && b in s.rows {
      SubmittedPair(s, e, b);
    } else if e.Submit? && a in s.rows {
      SubmittedPair(s, e, a);
    }
  }

  /**
   A step breaks the order of a tenant's rows in exactly three ways: it commits a claim while an
   earlier row is queued outside of it, it gives up a claim while another worker has locked a later
   row, or it submits a row older than one that is claimed or locked.
   */
  lemma {:induction false} OrderBreaksExactly(s: System, e: Event)
    requires Inv(s) && Enabled(s, e) && TenantOrder(s)
    ensures !TenantOrder(Apply(s, e)) <==> BreaksOrder(s, e)
  {
    if BreaksOrder(s, e) {
      BreakingStepBreaks(s, e);
    }
    if !TenantOrder(Apply(s, e)) {
      var a, b :| !InOrder(Apply(s, e), a, b);
      BrokenPairTells(s, e, a, b);
    }
  }

  /** Claimed rows alone: only an incomplete claim and a late arrival put them out of order. */
  lemma {:induction false} ClaimsOutOfOrderExactly(s: System, e: Event)
    requires Inv(s) && Enabled(s, e) && ClaimedInOrder(s)
    ensures !ClaimedInOrder(Apply(s, e)) <==> CommitsOutOfOrder(s, e) || ArrivesTooLate(s, e)
  {
    var t := Apply(s, e);
    forall a | a in s.rows
      ensures a in t.rows && t.rows[a].tenant == s.rows[a].tenant && t.rows[a].submittedAt == s.rows[a].submittedAt
      ensures t.rows[a].state == Queued <==> s.rows[a].state == Queued && !(e.CommitClaim? && LockedBy(s, e.w, a))
    {
      QueuedAfter(s, e, a);
    }
    if CommitsOutOfOrder(s, e) {
      var a, b :| Earlier(s, a, b) && LockedBy(s, e.w, b) && s.rows[a].state == Queued && !LockedBy(s, e.w, a);
      assert Earlier(t, a, b) && t.rows[b].state != Queued && t.rows[a].state == Queued;
    }
    if ArrivesTooLate(s, e) {
      var b :| b in s.rows && s.rows[b].state != Queued && s.rows[b].tenant == e.tenant && e.at < s.rows[b].submittedAt;
      assert Earlier(t, e.req, b);
    }
    if a, b :| Earlier(t, a, b) && t.rows[b].state != Queued && t.rows[a].state == Queued {
      if a in s.rows && b in s.rows {
        assert Earlier(s, a, b);
      }
    }
  }

  /** A run keeps the order in all its states exactly if none of its steps is of those kinds. */
  lemma {:induction false} OrderKeptExactly(ss: seq<System>, es: seq<Event>, n: nat)
    requires Behaviour(ss, es) && n < |ss|
    ensures (forall i :: 0 <= i <= n ==> TenantOrder(ss[i]))
       <==> (forall i :: 0 <= i < n ==> !BreaksOrder(ss[i], es[i]))
  {
    if n > 0 {
      OrderKeptExactly(ss, es, n - 1);
      InvAlways(ss, es, n - 1);
      assert StepAt(ss, es, n - 1);
      if TenantOrder(ss[n - 1]) {
        OrderBreaksExactly(ss[n - 1], es[n - 1]);
      }
    }
  }

  /** The submissions of each tenant arrive in time order, and only worker `w` ever joins. */
  ghost predicate SingleDrainer(ss: seq<System>, es: seq<Event>, w: WorkerId)
    requires Behaviour(ss, es)
  {
    forall i :: 0 <= i < |es| ==> SoleStep(ss[i], es[i], w)
  }

  ghost predicate SoleStep(s: System, e: Event, w: WorkerId) {
    && (e.Join? ==> e.w == w)
    && (e.Submit? ==> forall r :: r in s.rows && s.rows[r].tenant == e.tenant ==> s.rows[r].submittedAt <= e.at)
  }

  ghost predicate OnlyWorker(s: System, w: WorkerId) {
    forall v :: v in s.workers ==> v == w
  }

  lemma {:induction false} SoleWorkerAlways(ss: seq<System>, es: seq<Event>, w: WorkerId, n: nat)
    requires Behaviour(ss, es) && SingleDrainer(ss, es, w) && n < |ss|
    ensures OnlyWorker(ss[n], w)
  {
    if n > 0 {
      SoleWorkerAlways(ss, es, w, n - 1);
      assert StepAt(ss, es, n - 1);
      assert SoleStep(ss[n - 1], es[n - 1], w);
    }
  }

  /** A worker that is alone commits complete claims, and leaves nothing locked by another. */
  lemma {:induction false} SoleStepKeepsOrder(s: System, e: Event, w: WorkerId)
    requires Inv(s) && OnlyWorker(s, w) && TenantOrder(s) && Enabled(s, e) && SoleStep(s, e, w)
    ensures !BreaksOrder(s, e)
  {
    if CommitsOutOfOrder(s, e) {
      var a, b :| Earlier(s, a, b) && LockedBy(s, e.w, b) && s.rows[a].state == Queued && !LockedBy(s, e.w, a);
      LockedRowIsQueued(s, e.w, b);
      assert InOrder(s, a, b);
      LockedBySome(s, a);
    }
  }

  /**
   With one drainer and each tenant's submissions in time order, the rows of a tenant are claimed in
   submission order across all batches: a claimed row has no earlier one still queued.
   */
  lemma {:induction false} OneDrainerKeepsTenantOrder(ss: seq<System>, es: seq<Event>, w: WorkerId, n: nat)
    requires Behaviour(ss, es) && SingleDrainer(ss, es, w) && n < |ss|
    ensures TenantOrder(ss[n])
  {
    if n > 0 {
      var s, e := ss[n - 1], es[n - 1];
      OneDrainerKeepsTenantOrder(ss, es, w, n - 1);
      SoleWorkerAlways(ss, es, w, n - 1);
      InvAlways(ss, es, n - 1);
      assert StepAt(ss, es, n - 1);
      assert SoleStep(s, e, w);
      SoleStepKeepsOrder(s, e, w);
      OrderBreaksExactly(s, e);
    }
  }

  /** Two drainers, each with one of two rows of a tenant locked. */
  lemma {:induction false} TwoLockedRows() returns (s: System)
    ensures Reachable(s) && s.workers == map[1 := Claiming({1}), 2 := Claiming({2})]
    ensures s.rows == map[1 := QUEUED_ROW, 2 := QUEUED_ROW.(submittedAt := 5)]
  {
    s := OneLockedRow();
    ReachStep(s, Submit(2, 1, 5));
    s := Apply(s, Submit(2, 1, 5));
    ReachStep(s, Join(2));
    s := Apply(s, Join(2));
    assert s.workers == map[1 := Claiming({1}), 2 := Idle];
    assert LockedBy(s, 1, 1);
    forall r
      ensures Available(s, r) <==> r == 2
    {
      if Locked(s, r) {
        var v :| v in s.workers && s.workers[v].Claiming? && r in s.workers[v].picked;
      }
    }
    ReachStep(s, BeginClaim(2, {2}));
    s := Apply(s, BeginClaim(2, {2}));
  }

  /** The later row of a tenant is claimed while another worker still has the earlier one locked. */
  lemma {:induction false} TwoDrainersBreakTenantOrder() returns (s: System)
    ensures Reachable(s) && Earlier(s, 1, 2) && LockedBy(s, 1, 1)
    ensures s.rows[1].state == Queued && s.rows[2].state == InFlight && !ClaimedInOrder(s) && !TenantOrder(s)
  {
    s := TwoLockedRows();
    ReachStep(s, CommitClaim(2));
    s := Apply(s, CommitClaim(2));
    assert !InOrder(s, 1, 2);
  }

  /** A claim is given up while another worker has the later row locked. */
  lemma {:induction false} AbortBreaksTenantOrder() returns (s: System)
    ensures Reachable(s) && Earlier(s, 1, 2) && Available(s, 1) && LockedBy(s, 2, 2) && !TenantOrder(s)
  {
    s := TwoLockedRows();
    ReachStep(s, AbortClaim(1));
    s := Apply(s, AbortClaim(1));
    assert s.workers == map[1 := Idle, 2 := Claiming({2})];
    assert LockedBy(s, 2, 2);
    assert !Locked(s, 1);
    assert !InOrder(s, 1, 2);
  }

  // ---------------------------------------------------------------------------
  // Order over all tenants
  // ---------------------------------------------------------------------------

  /** Every claimed row is at least as old as every row left waiting. */
  ghost predicate OldestFirst(s: System, picked: set<ReqId>)
    requires forall r :: r in picked ==> r in s.rows
  {
    forall a, b :: a in picked && Available(s, b) && b !in picked ==> s.rows[a].submittedAt <= s.rows[b].submittedAt
  }

  ghost function Waiting(s: System): set<ReqId> {
    set r | r in s.rows && Available(s, r)
  }

  /** The waiting rows that come strictly before `a` in the claim's order. */
  ghost function Ahead(s: System, a: ReqId): set<ReqId>
    requires a in s.rows
  {
    set r | r in Waiting(s) && !NotAfter(s.rows[a], s.rows[r])
  }

  /** The waiting rows that do not come after `b`, itself included. */
  ghost function Through(s: System, b: ReqId): set<ReqId>
    requires b in s.rows
  {
    set r | r in Waiting(s) && NotAfter(s.rows[r], s.rows[b])
  }

  /**
   A newer row of a lower tenant id can be in the next batch while an older row of a higher one is
   not: fewer than 50 rows are ahead of the first, and more than 50 reach through to the second.
   */
  ghost predicate Overtakes(s: System, a: ReqId, b: ReqId) {
    && Available(s, a) && Available(s, b)
    && s.rows[a].tenant < s.rows[b].tenant && s.rows[a].submittedAt > s.rows[b].submittedAt
    && |Ahead(s, a)| < DRAIN_BATCH_SIZE < |Through(s, b)|
  }

  /** A claim that leaves an older row behind has an overtaking pair in the queue. */
  lemma {:induction false} BadBatchOvertakes(s: System, picked: set<ReqId>, a: ReqId, b: ReqId)
    requires IsBatch(s, picked) && a in picked && Available(s, b) && b !in picked
    requires s.rows[a].submittedAt > s.rows[b].submittedAt
    ensures Overtakes(s, a, b)
  {
    assert Available(s, a) && NotAfter(s.rows[a], s.rows[b]);
    forall r | r in Ahead(s, a)
      ensures r in picked - {a}
    {
      assert Available(s, r);
    }
    SubsetSize(Ahead(s, a), picked - {a});
    forall r | r in picked + {b}
      ensures r in Through(s, b)
    {
      assert Available(s, r);
    }
    SubsetSize(picked + {b}, Through(s, b));
  }

  /** The set comes no later than all other waiting rows, and within `b`'s reach, without `b`. */
  ghost predicate Growing(s: System, some: set<ReqId>, b: ReqId)
    requires b in s.rows
  {
    && some <= Through(s, b) && b !in some
    && forall x, y :: x in some && y in Waiting(s) && y !in some ==> NotAfter(s.rows[x], s.rows[y])
  }

  lemma {:induction false} GrowOne(s: System, some: set<ReqId>, b: ReqId) returns (m: ReqId)
    requires Available(s, b) && Growing(s, some, b) && |some| + 1 < |Through(s, b)|
    ensures m !in some && Growing(s, some + {m}, b)
  {
    var left := Through(s, b) - some - {b};
    if left == {} {
      assert Through(s, b) <= some + {b};
      SubsetSize(Through(s, b), some + {b});
    }
    m := Drainer.FirstExists(s.rows, left);
    forall y | y in Waiting(s) && y !in some + {m}
      ensures NotAfter(s.rows[m], s.rows[y])
    {
      assert y in left || y == b || !NotAfter(s.rows[y], s.rows[b]);
    }
  }

  lemma {:induction false} GrowToBatch(s: System, some: set<ReqId>, b: ReqId) returns (picked: set<ReqId>)
    requires Available(s, b) && Growing(s, some, b) && |some| <= DRAIN_BATCH_SIZE < |Through(s, b)|
    ensures some <= picked && b !in picked && IsBatch(s, picked)
    decreases DRAIN_BATCH_SIZE - |some|
  {
    if |some| < DRAIN_BATCH_SIZE {
      var m := GrowOne(s, some, b);
      picked := GrowToBatch(s, some + {m}, b);
    } else {
      picked := some;
      assert forall r :: r in picked ==> r in Waiting(s);
      assert forall r :: Available(s, r) ==> r in Waiting(s);
    }
  }

  /** An overtaking pair is taken apart by some claim that the query may make. */
  lemma {:induction false} OvertakingBatch(s: System, a: ReqId, b: ReqId) returns (picked: set<ReqId>)
    requires Overtakes(s, a, b)
    ensures IsBatch(s, picked) && a in picked && b !in picked
  {
    var some := Ahead(s, a) + {a};
    assert a in Waiting(s);
    assert Growing(s, some, b);
    picked := GrowToBatch(s, some, b);
  }

  /**
   Whatever batch the claim's query returns, it is the oldest rows, exactly if no pair of waiting rows
   overtakes: a condition on the queue alone.
   */
  lemma {:induction false} OldestFirstExactly(s: System)
    ensures (forall picked :: IsBatch(s, picked) ==> OldestFirst(s, picked)) <==> !exists a, b :: Overtakes(s, a, b)
  {
    if picked :| IsBatch(s, picked) && !OldestFirst(s, picked) {
      var a, b :| a in picked && Available(s, b) && b !in picked && s.rows[a].submittedAt > s.rows[b].submittedAt;
      BadBatchOvertakes(s, picked, a, b);
    }
    if a, b :| Overtakes(s, a, b) {
      var picked := OvertakingBatch(s, a, b);
      assert !OldestFirst(s, picked);
    }
  }

  const NEWER_ROW := Row(1, 10, Queued, 0, None, None)

  /** `n` newer rows of tenant 1 are queued. */
  lemma {:induction false} ManyQueued(n: nat) returns (s: System)
    ensures Reachable(s) && s.workers == map[] && s.rows.Keys == FirstIds(n)
    ensures forall r :: r in s.rows ==> s.rows[r] == NEWER_ROW
  {
    if n == 0 {
      ReachInitial();
      s := INITIAL;
    } else {
      FirstIdsAre(n - 1);
      s := ManyQueued(n - 1);
      ReachStep(s, Submit(n - 1, 1, 10));
      s := Apply(s, Submit(n - 1, 1, 10));
    }
  }

  /** Fifty newer rows of a lower tenant id are claimed before the oldest row of the queue. */
  lemma {:induction false} OldestRowWaits() returns (s: System, picked: set<ReqId>)
    ensures Reachable(s) && IsBatch(s, picked) && 50 in s.rows && !OldestFirst(s, picked)
  {
    s := ManyQueued(DRAIN_BATCH_SIZE);
    FirstIdsAre(DRAIN_BATCH_SIZE);
    picked := FirstIds(DRAIN_BATCH_SIZE);
    ReachStep(s, Submit(50, 2, 0));
    s := Apply(s, Submit(50, 2, 0));
    forall r
      ensures Available(s, r) <==> 0 <= r <= 50
    {
      assert !Locked(s, r);
    }
    assert 0 in picked && Available(s, 50) && 50 !in picked;
  }
}
