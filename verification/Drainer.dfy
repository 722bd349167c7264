/**
 One drain iteration as the daemon runs it, and the proof that everything it does to the
 queue is a sequence of the protocol's steps.
 */
module Drainer {
  import opened Wrappers
  import opened Drain

  /** The steps `es` lead from `s` to `t`. */
  ghost predicate Leads(s: System, es: seq<Event>, t: System)
    decreases |es|
  {
    if es == [] then s == t else Enabled(s, es[0]) && Leads(Apply(s, es[0]), es[1..], t)
  }

  lemma {:induction false} LeadsConcat(s: System, a: seq<Event>, t: System, b: seq<Event>, u: System)
    requires Leads(s, a, t) && Leads(t, b, u)
    ensures Leads(s, a + b, u)
    decreases |a|
  {
    if a == [] {
      assert a + b == b;
    } else {
      LeadsConcat(Apply(s, a[0]), a[1..], t, b, u);
      assert (a + b)[0] == a[0] && (a + b)[1..] == a[1..] + b;
    }
  }

  lemma {:induction false} LeadsSnoc(s: System, es: seq<Event>, t: System, e: Event)
    requires Leads(s, es, t) && Enabled(t, e)
    ensures Leads(s, es + [e], Apply(t, e))
  {
    assert [e][1..] == [];
    assert Leads(t, [e], Apply(t, e));
    LeadsConcat(s, es, t, [e], Apply(t, e));
  }

  predicate IsFirst(rows: map<ReqId, Row>, s: set<ReqId>, m: ReqId)
    requires forall r :: r in s ==> r in rows
  {
    m in s && forall r :: r in s ==> NotAfter(rows[m], rows[r])
  }

  lemma {:induction false} FirstExists(rows: map<ReqId, Row>, s: set<ReqId>) returns (m: ReqId)
    requires s != {} && forall r :: r in s ==> r in rows
    ensures IsFirst(rows, s, m)
  {
    var x := Pick(s);
    var others := s - {x};
    if others == {} {
      m := x;
      assert s == {x};
    } else {
      var k := FirstExists(rows, others);
      m := if NotAfter(rows[x], rows[k]) then x else k;
      assert s == others + {x};
    }
  }

  /** Every row of `a` comes no later than every row of `b`. */
  ghost predicate Precedes(rows: map<ReqId, Row>, a: set<ReqId>, b: set<ReqId>)
    requires forall r :: r in a + b ==> r in rows
  {
    forall x, y {:trigger x in a, y in b} :: x in a && y in b ==> NotAfter(rows[x], rows[y])
  }

  lemma {:induction false} PrecedesTakes(rows: map<ReqId, Row>, a: set<ReqId>, b: set<ReqId>, m: ReqId)
    requires forall r :: r in a + b ==> r in rows
    requires Precedes(rows, a, b) && IsFirst(rows, b, m)
    ensures Precedes(rows, a + {m}, b - {m})
  {
  }

  /** `ORDER BY tenant_id, submitted_at LIMIT 50` over the candidates. */
  method SelectBatch(rows: map<ReqId, Row>, candidates: set<ReqId>) returns (picked: set<ReqId>)
    requires forall r :: r in candidates ==> r in rows
    ensures picked <= candidates && |picked| <= DRAIN_BATCH_SIZE
    ensures Precedes(rows, picked, candidates - picked)
    ensures |picked| < DRAIN_BATCH_SIZE ==> picked == candidates
  {
    picked := {};
    var left := candidates;
    while |picked| < DRAIN_BATCH_SIZE && left != {}
      invariant picked <= candidates && left == candidates - picked
      invariant |picked| <= DRAIN_BATCH_SIZE
      invariant Precedes(rows, picked, left)
      decreases left
    {
      ghost var m0 := FirstExists(rows, left);
      var m :| m in left && IsFirst(rows, left, m);
      PrecedesTakes(rows, picked, left, m);
      picked, left := picked + {m}, left - {m};
    }
  }

  /**
   What can go wrong around a write: a payload that does not parse, an error of the success
   mark, and a failure mark whose transaction fails.
   */
  datatype Faults = Faults(badPayload: ReqId -> bool, successMark: ReqId -> Option<string>, failureMark: ReqId -> bool)

  /** The outcome that the handler ends up recording: a failed success mark counts as a failure. */
  function FinalOutcome(tool: ReqId -> Outcome, faults: Faults, r: ReqId): Outcome {
    if tool(r).Wrote? && faults.successMark(r).Some? then Raised(faults.successMark(r).value) else tool(r)
  }

  /** An exception leaves the handler of this row. */
  predicate Escapes(tool: ReqId -> Outcome, faults: Faults, r: ReqId) {
    faults.badPayload(r) || (FinalOutcome(tool, faults, r).Raised? && faults.failureMark(r))
  }

  /** The table after a batch has been claimed. */
  ghost function Claimed(rows: map<ReqId, Row>, batch: set<ReqId>): map<ReqId, Row> {
    map r | r in rows :: if r in batch then Claim(rows[r]) else rows[r]
  }

  /** Exactly the rows in `done` are marked, each with its final outcome. */
  ghost predicate Recorded(rows0: map<ReqId, Row>, rows: map<ReqId, Row>, done: set<ReqId>,
                           tool: ReqId -> Outcome, faults: Faults)
  {
    && rows.Keys == rows0.Keys
    && forall r :: r in rows0 ==>
         rows[r] == if r in done then Mark(rows0[r], FinalOutcome(tool, faults, r)) else rows0[r]
  }

  /** The whole batch is done, or an exception has left the handler of one of the rows that are not. */
  ghost predicate Ended(batch: set<ReqId>, done: set<ReqId>, raised: bool, tool: ReqId -> Outcome, faults: Faults) {
    && done <= batch
    && (forall r :: r in done ==> !Escapes(tool, faults, r))
    && if raised then exists r :: r in batch - done && Escapes(tool, faults, r) else done == batch
  }

  lemma {:induction false} RecordNext(rows0: map<ReqId, Row>, rows: map<ReqId, Row>, done: set<ReqId>, r: ReqId,
                                      tool: ReqId -> Outcome, faults: Faults)
    requires Recorded(rows0, rows, done, tool, faults) && r in rows && r !in done
    ensures Recorded(rows0, rows[r := Mark(rows[r], FinalOutcome(tool, faults, r))], done + {r}, tool, faults)
  {
  }

  /**
   What a handled row shows, told by what happened to it: a write that returned and was marked, a
   write that raised, or a write whose success mark failed.
   */
  ghost predicate ShowsWhatHappened(row: Row, o: Outcome, markError: Option<string>) {
    && (o.Wrote? && markError.None? ==> row.state == Succeeded && row.result == Some(o.mem))
    && (o.Wrote? && markError.Some? ==> row.state == Failed && row.error == markError)
    && (o.Raised? ==> row.state == Failed && row.error == Some(o.error))
  }

  /** An exception gets out: of a bad payload, or of a failure mark after a failed write or a failed success mark. */
  ghost predicate Breaks(faults: Faults, o: Outcome, r: ReqId) {
    faults.badPayload(r) || (faults.failureMark(r) && (o.Raised? || faults.successMark(r).Some?))
  }

  /** A claimed row that was not handled differs from the queued one in state and attempts only. */
  ghost predicate InFlightAs(row: Row, was: Row) {
    && row.state == InFlight && row.attempts == was.attempts + 1
    && row.tenant == was.tenant && row.submittedAt == was.submittedAt
    && row.result == was.result && row.error == was.error
  }

  class DrainWorker {
    const me: WorkerId
    var rows: map<ReqId, Row>
    /** The whole system: this table, all workers, and the histories. */
    ghost var sys: System

    ghost predicate Valid()
      reads this
    {
      sys.rows == rows && me in sys.workers
    }

    /** This worker's place in the protocol. */
    ghost function Place(): Worker
      reads this
      requires Valid()
    {
      sys.workers[me]
    }

    constructor (w: WorkerId, rows: map<ReqId, Row>, ghost s: System)
      requires s.rows == rows && w in s.workers && s.workers[w].Idle?
      ensures Valid() && me == w && this.rows == rows && sys == s
    {
      me, this.rows, sys := w, rows, s;
    }

    /** Take one protocol step, and extend the steps `es` taken since `s0`. */
    ghost method Advance(s0: System, es: seq<Event>, e: Event) returns (more: seq<Event>)
      requires Leads(s0, es, sys) && Enabled(sys, e)
      modifies this`sys
      ensures sys == Apply(old(sys), e) && Leads(s0, more, sys)
    {
      LeadsSnoc(s0, es, sys, e);
      sys := Apply(sys, e);
      more := es + [e];
    }

    /** Lock the batch, flag it in flight, commit. */
    method ClaimBatch(locked: set<ReqId>) returns (batch: set<ReqId>, ghost es: seq<Event>)
      requires Valid() && Place().Idle?
      requires forall r :: r in locked <==> Locked(sys, r)
      modifies this
      ensures Valid() && Place() == Working(batch)
      ensures IsBatch(old(sys), batch) && batch <= old(rows).Keys
      ensures rows == Claimed(old(rows), batch)
      ensures Leads(old(sys), es, sys)
    {
      var candidates := set r | r in rows && rows[r].state == Queued && r !in locked;
      batch := SelectBatch(rows, candidates);
      assert forall r :: Available(sys, r) <==> r in candidates;
      forall a, b | a in batch && Available(sys, b) && b !in batch
        ensures NotAfter(rows[a], rows[b])
      {
        assert b in candidates - batch;
      }
      ghost var s0 := sys;
      es := Advance(s0, [], BeginClaim(me, batch));
      es := Advance(s0, es, CommitClaim(me));
      rows := map r | r in rows :: if r in batch then Claim(rows[r]) else rows[r];
    }

    /**
     Run the write for one claimed row and record its outcome.  If an exception leaves the
     handler, the row stays as it was and the worker forgets the rest of its batch.
     */
    method ProcessOne(r: ReqId, tool: ReqId -> Outcome, faults: Faults) returns (raised: bool, ghost es: seq<Event>)
      requires Valid() && Place().Working? && r in Place().rest && r in rows
      modifies this
      ensures Valid() && raised == Escapes(tool, faults, r)
      ensures Place() == if raised then Idle else Working(old(Place()).rest - {r})
      ensures rows == if raised then old(rows) else old(rows)[r := Mark(old(rows)[r], FinalOutcome(tool, faults, r))]
      ensures raised <==> Breaks(faults, tool(r), r)
      ensures !raised ==> ShowsWhatHappened(rows[r], tool(r), faults.successMark(r))
      ensures Leads(old(sys), es, sys)
    {
      ghost var s0 := sys;
      if faults.badPayload(r) {
        es := Advance(s0, [], BadPayload(me));
        return true, es;
      }
      es := Advance(s0, [], StartWrite(me, r));
      var outcome := tool(r);
      es := Advance(s0, es, if outcome.Wrote? then WriteReturns(me, outcome.mem) else WriteRaises(me, outcome.error));
      if outcome.Wrote? && faults.successMark(r).Some? {
        es := Advance(s0, es, AbortMark(me, faults.successMark(r).value));
        outcome := Raised(faults.successMark(r).value);
      }
      if outcome.Raised? && faults.failureMark(r) {
        es := Advance(s0, es, AbortMark(me, outcome.error));
        return true, es;
      }
      es := Advance(s0, es, CommitMark(me));
      rows := rows[r := Mark(rows[r], outcome)];
      raised := false;
    }

    /** The loop over a claimed batch; it ends early if an exception leaves a handler. */
    method ProcessBatch(batch: set<ReqId>, tool: ReqId -> Outcome, faults: Faults)
      returns (raised: bool, ghost done: set<ReqId>, ghost es: seq<Event>)
      requires Valid() && Place() == Working(batch) && batch <= rows.Keys
      modifies this
      ensures Valid() && Place().Idle?
      ensures Recorded(old(rows), rows, done, tool, faults)
      ensures Ended(batch, done, raised, tool, faults)
      ensures raised <==> exists r :: r in batch && Breaks(faults, tool(r), r)
      ensures forall r :: r in done ==> ShowsWhatHappened(rows[r], tool(r), faults.successMark(r))
      ensures Leads(old(sys), es, sys)
    {
      var rest := batch;
      ghost var rows0, s0 := rows, sys;
      done, es := {}, [];
      while rest != {}
        invariant Valid() && Place() == Working(rest) && rest == batch - done && done <= batch
        invariant Recorded(rows0, rows, done, tool, faults)
        invariant forall r :: r in done ==> !Escapes(tool, faults, r) && !Breaks(faults, tool(r), r)
        invariant forall r :: r in done ==> ShowsWhatHappened(rows[r], tool(r), faults.successMark(r))
        invariant Leads(s0, es, sys)
        decreases rest
      {
        ghost var some := Pick(rest);
        var r :| r in rest;
        RecordNext(rows0, rows, done, r, tool, faults);
        ghost var before, more := sys, [];
        raised, more := ProcessOne(r, tool, faults);
        LeadsConcat(s0, es, before, more, sys);
        es := es + more;
        if raised {
          assert r in batch - done;
          return true, done, es;
        }
        rest, done := rest - {r}, done + {r};
      }
      es := Advance(s0, es, Finish(me));
      raised := false;
    }

    /**
     One iteration: claim a batch and process its rows until all are done or an exception
     leaves a handler.  Rows that are done end as their write ended; the rest of the batch
     stays in flight; every other row is untouched; all of it is a run of protocol steps.
     */
    method DrainOnce(locked: set<ReqId>, tool: ReqId -> Outcome, faults: Faults)
      returns (n: nat, raised: bool, ghost batch: set<ReqId>, ghost done: set<ReqId>, ghost es: seq<Event>)
      requires Valid() && Place().Idle?
      requires forall r :: r in locked <==> Locked(sys, r)
      modifies this
      ensures Valid() && Place().Idle? && n == |batch| && IsBatch(old(sys), batch)
      ensures n <= 50 && (n < 50 ==> forall r :: Available(old(sys), r) ==> r in batch)
      ensures Recorded(Claimed(old(rows), batch), rows, done, tool, faults)
      ensures Ended(batch, done, raised, tool, faults)
      ensures raised <==> exists r :: r in batch && Breaks(faults, tool(r), r)
      ensures !raised ==> done == batch
      ensures forall r :: r in done ==> ShowsWhatHappened(rows[r], tool(r), faults.successMark(r))
      ensures forall r :: r in batch && r !in done ==> InFlightAs(rows[r], old(rows)[r])
      ensures forall r :: r in rows && r !in batch ==> r in old(rows) && rows[r] == old(rows)[r]
      ensures Leads(old(sys), es, sys)
    {
      var claimed;
      ghost var s0 := sys;
      claimed, es := ClaimBatch(locked);
      batch, n := claimed, |claimed|;
      assert rows.Keys == old(rows).Keys;
      ghost var s1, more := sys, [];
      raised, done, more := ProcessBatch(claimed, tool, faults);
      LeadsConcat(s0, es, s1, more, sys);
      es := es + more;
    }
  }
}
