/**
 The async write queue and its drainers.

 Any number of workers claim queued rows in one transaction (lock and skip), run the write
 for each claimed row, and record the outcome in another transaction.  A transaction either
 commits or has no effect; a worker may crash between any two steps, and an exception that
 leaves the per-row handler abandons the rest of the batch.
 */
module Drain {
  import opened Wrappers

  type ReqId = int
  type WorkerId = int
  type MemId = int

  datatype State = Queued | InFlight | Succeeded | Failed

  datatype Row = Row(tenant: int, submittedAt: int, state: State, attempts: nat,
                     result: Option<MemId>, error: Option<string>)

  const DRAIN_BATCH_SIZE: nat := 50

  /** How a write ended, as the handler sees it. */
  datatype Outcome = Wrote(mem: MemId) | Raised(error: string)

  /**
   Where a worker is.  The order in which a batch is processed is the order in which the
   claim returned it, which the database leaves open, so what is left of a batch is a set.
   */
  datatype Worker =
    | Idle
    | Claiming(picked: set<ReqId>)
    | Working(rest: set<ReqId>)
    | Writing(req: ReqId, rest: set<ReqId>)
    | Marking(req: ReqId, outcome: Outcome, rest: set<ReqId>)

  /**
   The table, the workers, and two histories: how often each request's write was invoked,
   and what the write returned.
   */
  datatype System = System(rows: map<ReqId, Row>, workers: map<WorkerId, Worker>,
                           calls: multiset<ReqId>, returned: map<ReqId, MemId>)

  datatype Event =
    | Submit(req: ReqId, tenant: int, at: int)
    | Join(w: WorkerId)
    | BeginClaim(w: WorkerId, picked: set<ReqId>)
    | CommitClaim(w: WorkerId)
    | AbortClaim(w: WorkerId)
    | StartWrite(w: WorkerId, req: ReqId)
    | WriteReturns(w: WorkerId, mem: MemId)
    | WriteRaises(w: WorkerId, error: string)
    | CommitMark(w: WorkerId)
    | AbortMark(w: WorkerId, error: string)
    | Finish(w: WorkerId)
    | BadPayload(w: WorkerId)
    | Crash(w: WorkerId)

  // ---------------------------------------------------------------------------
  // Steps
  // ---------------------------------------------------------------------------

  ghost predicate Locked(s: System, r: ReqId) {
    exists w :: w in s.workers && s.workers[w].Claiming? && r in s.workers[w].picked
  }

  /** What the claim query can lock: queued rows that no open claim has locked. */
  ghost predicate Available(s: System, r: ReqId) {
    r in s.rows && s.rows[r].state == Queued && !Locked(s, r)
  }

  /** The claim's order: tenant, then submission time. */
  predicate NotAfter(a: Row, b: Row) {
    a.tenant < b.tenant || (a.tenant == b.tenant && a.submittedAt <= b.submittedAt)
  }

  /** The first rows of the claim's order, as many as the limit allows. */
  ghost predicate IsBatch(s: System, picked: set<ReqId>) {
    && |picked| <= DRAIN_BATCH_SIZE
    && (forall r :: r in picked ==> Available(s, r))
    && (forall a, b :: a in picked && Available(s, b) && b !in picked ==> NotAfter(s.rows[a], s.rows[b]))
    && (|picked| < DRAIN_BATCH_SIZE ==> forall r :: Available(s, r) ==> r in picked)
  }

  ghost predicate At(s: System, w: WorkerId) {
    w in s.workers
  }

  ghost predicate Enabled(s: System, e: Event) {
    match e
    case Submit(r, _, _) => r !in s.rows
    case Join(w) => w !in s.workers
    case BeginClaim(w, picked) => At(s, w) && s.workers[w].Idle? && IsBatch(s, picked)
    case CommitClaim(w) => At(s, w) && s.workers[w].Claiming?
    case AbortClaim(w) => At(s, w) && s.workers[w].Claiming?
    case StartWrite(w, r) => At(s, w) && s.workers[w].Working? && r in s.workers[w].rest
    case WriteReturns(w, _) => At(s, w) && s.workers[w].Writing?
    case WriteRaises(w, _) => At(s, w) && s.workers[w].Writing?
    case CommitMark(w) => At(s, w) && s.workers[w].Marking?
    case AbortMark(w, _) => At(s, w) && s.workers[w].Marking?
    case Finish(w) => At(s, w) && s.workers[w].Working? && s.workers[w].rest == {}
    case BadPayload(w) => At(s, w) && s.workers[w].Working? && s.workers[w].rest != {}
    case Crash(w) => At(s, w)
  }

  /** The claim's update of one row. */
  function Claim(row: Row): Row {
    row.(state := InFlight, attempts := row.attempts + 1)
  }

  /** The mark's update of one row; neither checks the row's state. */
  function Mark(row: Row, o: Outcome): Row {
    match o
    case Wrote(m) => row.(state := Succeeded, result := Some(m))
    case Raised(x) => row.(state := Failed, error := Some(x))
  }

  function Put(s: System, w: WorkerId, wk: Worker): System {
    s.(workers := s.workers[w := wk])
  }

  ghost function Apply(s: System, e: Event): System
    requires Enabled(s, e)
  {
    match e
    case Submit(r, t, at) => s.(rows := s.rows[r := Row(t, at, Queued, 0, None, None)])
    case Join(w) => Put(s, w, Idle)
    case BeginClaim(w, picked) => Put(s, w, Claiming(picked))
    case CommitClaim(w) =>
      var picked := s.workers[w].picked;
      Put(s, w, Working(picked))
      .(rows := map r | r in s.rows :: if r in picked then Claim(s.rows[r]) else s.rows[r])
    case AbortClaim(w) => Put(s, w, Idle)
    case StartWrite(w, r) =>
      Put(s, w, Writing(r, s.workers[w].rest - {r})).(calls := s.calls + multiset{r})
    case WriteReturns(w, m) =>
      var wk := s.workers[w];
      Put(s, w, Marking(wk.req, Wrote(m), wk.rest)).(returned := s.returned[wk.req := m])
    case WriteRaises(w, x) =>
      var wk := s.workers[w];
      Put(s, w, Marking(wk.req, Raised(x), wk.rest))
    case CommitMark(w) =>
      var wk := s.workers[w];
      Put(s, w, Working(wk.rest))
      .(rows := if wk.req in s.rows then s.rows[wk.req := Mark(s.rows[wk.req], wk.outcome)] else s.rows)
    case AbortMark(w, x) =>
      var wk := s.workers[w];
      // A failed success mark is handled like a failed write; a failed failure mark ends the batch.
      if wk.outcome.Wrote? then Put(s, w, Marking(wk.req, Raised(x), wk.rest)) else Put(s, w, Idle)
    case Finish(w) => Put(s, w, Idle)
    case BadPayload(w) => Put(s, w, Idle)
    case Crash(w) => Put(s, w, Idle)
  }

  // ---------------------------------------------------------------------------
  // What every step keeps
  // ---------------------------------------------------------------------------

  /** What a worker is doing with one request. */
  datatype Role = Free | Locking | Pending | Calling | Recording(outcome: Outcome)

  ghost function RoleOf(wk: Worker, r: ReqId): Role {
    match wk
    case Idle => Free
    case Claiming(picked) => if r in picked then Locking else Free
    case Working(rest) => if r in rest then Pending else Free
    case Writing(q, rest) => if r == q then Calling else if r in rest then Pending else Free
    case Marking(q, o, rest) => if r == q then Recording(o) else if r in rest then Pending else Free
  }

  /** The row and the histories agree with what a worker is doing with the request. */
  ghost predicate RoleFits(s: System, r: ReqId, role: Role) {
    role.Free? ||
    (&& r in s.rows
     && s.rows[r].state == (if role.Locking? then Queued else InFlight)
     && s.calls[r] == (if role.Locking? || role.Pending? then 0 else 1)
     && (role.Recording? && role.outcome.Wrote? ==> r in s.returned && s.returned[r] == role.outcome.mem))
  }

  ghost predicate RowFits(s: System, r: ReqId) {
    if r in s.rows then
      var row := s.rows[r];
      && row.attempts == (if row.state == Queued then 0 else 1)
      && s.calls[r] <= row.attempts
      && (row.state == Succeeded ==> s.calls[r] == 1 && r in s.returned && row.result == Some(s.returned[r]))
      && (row.state == Failed ==> s.calls[r] == 1 && row.error.Some?)
    else s.calls[r] == 0
  }

  /** A worker that is past a write's current request does not also hold it as pending. */
  ghost predicate WorkerFits(wk: Worker) {
    (wk.Writing? || wk.Marking?) ==> wk.req !in wk.rest
  }

  ghost predicate Excludes(s: System, r: ReqId) {
    forall w, v :: w in s.workers && v in s.workers && w != v ==>
      RoleOf(s.workers[w], r).Free? || RoleOf(s.workers[v], r).Free?
  }

  ghost predicate ReqInv(s: System, r: ReqId) {
    && RowFits(s, r)
    && Excludes(s, r)
    && forall w :: w in s.workers ==> RoleFits(s, r, RoleOf(s.workers[w], r))
  }

  ghost predicate Inv(s: System) {
    && (forall r :: ReqInv(s, r))
    && (forall w :: w in s.workers ==> WorkerFits(s.workers[w]))
  }
}
