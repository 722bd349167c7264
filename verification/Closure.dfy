/**
 Account closure: request, cancel within a day, and the retention job that scans for
 expired requests in one transaction and finalizes them later without looking again.

 Each transaction is one step.  Requests and cancellations read the application's clock,
 the scan reads the database's; both are whole microseconds and never go back.
 */
module Closure {
  import opened Wrappers

  type TenantId = int

  const DAY: int := 86_400_000_000

  datatype Status = Active | Suspended | PendingDeletion | Deleted

  datatype Tenant = Tenant(status: Status, requestedAt: Option<int>, tokenHash: Option<string>)

  type Tenants = map<TenantId, Tenant>

  /** `Done`, or the error code of the raised closure error. */
  datatype Outcome = Done | NotFound | AlreadyPending | NotActive | NotPending | TokenInvalid | Expired

  /** The token hash, taken as collision-free and never empty. */
  ghost predicate GoodHash(hash: string -> string) {
    && (forall a, b :: hash(a) == hash(b) ==> a == b)
    && (forall a :: hash(a) != "")
  }

  function RequestOutcome(ts: Tenants, t: TenantId): Outcome {
    if t !in ts then NotFound
    else if ts[t].status == PendingDeletion then AlreadyPending
    else if ts[t].status != Active then NotActive
    else Done
  }

  function AfterRequest(ts: Tenants, t: TenantId, tokenHash: string, now: int): Tenants {
    if RequestOutcome(ts, t) == Done then ts[t := Tenant(PendingDeletion, Some(now), Some(tokenHash))] else ts
  }

  function CancelOutcome(ts: Tenants, t: TenantId, tokenHash: string, now: int): Outcome {
    if t !in ts then NotFound
    else
      var row := ts[t];
      if row.status != PendingDeletion then NotPending
      else if tokenHash != (if row.tokenHash.Some? then row.tokenHash.value else "") then TokenInvalid
      else if row.requestedAt.None? || now - row.requestedAt.value > DAY then Expired
      else Done
  }

  function AfterCancel(ts: Tenants, t: TenantId, tokenHash: string, now: int): Tenants {
    if CancelOutcome(ts, t, tokenHash, now) == Done then ts[t := Tenant(Active, None, None)] else ts
  }

  /** The retention query selects the tenant. */
  predicate Due(ts: Tenants, t: TenantId, now: int) {
    && t in ts && ts[t].status == PendingDeletion
    && ts[t].requestedAt.Some? && ts[t].requestedAt.value < now - DAY
  }

  /** Finalizing looks only at whether the tenant exists. */
  function AfterFinalize(ts: Tenants, t: TenantId): Tenants {
    if t in ts then ts[t := Tenant(Deleted, None, None)] else ts
  }

  // ---------------------------------------------------------------------------
  // The operations
  // ---------------------------------------------------------------------------

  /** The row holds this token hash; a missing one compares like the empty string. */
  predicate StoredHash(row: Tenant, tokenHash: string) {
    row.tokenHash == Some(tokenHash) || (row.tokenHash.None? && tokenHash == "")
  }

  datatype Stats = Stats(scanned: nat, finalized: nat, failed: nat)

  class ClosureStore {
    var tenants: Tenants

    constructor (ts: Tenants)
      ensures tenants == ts
    {
      tenants := ts;
    }

    method RequestClosure(t: TenantId, tokenHash: string, now: int) returns (o: Outcome)
      modifies this
      ensures o == RequestOutcome(old(tenants), t)
      ensures tenants == AfterRequest(old(tenants), t, tokenHash, now)
      ensures o == NotFound <==> t !in old(tenants)
      ensures o == AlreadyPending <==> t in old(tenants) && old(tenants)[t].status == PendingDeletion
      ensures o == Done <==> t in old(tenants) && old(tenants)[t].status == Active
      ensures o == NotActive <==> t in old(tenants) && old(tenants)[t].status in {Suspended, Deleted}
      ensures o == Done ==> tenants == old(tenants)[t := Tenant(PendingDeletion, Some(now), Some(tokenHash))]
      ensures o != Done ==> tenants == old(tenants)
    {
      if t !in tenants { return NotFound; }
      if tenants[t].status == PendingDeletion { return AlreadyPending; }
      if tenants[t].status != Active { return NotActive; }
      tenants := tenants[t := Tenant(PendingDeletion, Some(now), Some(tokenHash))];
      return Done;
    }

    method CancelClosure(t: TenantId, tokenHash: string, now: int) returns (o: Outcome)
      modifies this
      ensures o == CancelOutcome(old(tenants), t, tokenHash, now)
      ensures tenants == AfterCancel(old(tenants), t, tokenHash, now)
      ensures o == NotFound <==> t !in old(tenants)
      ensures o == NotPending <==> t in old(tenants) && old(tenants)[t].status != PendingDeletion
      ensures o == TokenInvalid <==> t in old(tenants) && old(tenants)[t].status == PendingDeletion
                                     && !StoredHash(old(tenants)[t], tokenHash)
      ensures o == Done <==> t in old(tenants) && old(tenants)[t].status == PendingDeletion
                             && StoredHash(old(tenants)[t], tokenHash)
                             && old(tenants)[t].requestedAt.Some? && now <= old(tenants)[t].requestedAt.value + DAY
      ensures o == Done ==> tenants == old(tenants)[t := Tenant(Active, None, None)]
      ensures o != Done ==> tenants == old(tenants)
    {
      if t !in tenants { return NotFound; }
      var row := tenants[t];
      if row.status != PendingDeletion { return NotPending; }
      var stored := if row.tokenHash.Some? then row.tokenHash.value else "";
      if tokenHash != stored { return TokenInvalid; }
      if row.requestedAt.None? { return Expired; }
      var elapsed := now - row.requestedAt.value;
      if elapsed > DAY { return Expired; }
      tenants := tenants[t := Tenant(Active, None, None)];
      return Done;
    }

    method FinalizeClosure(t: TenantId) returns (o: Outcome)
      modifies this
      ensures o == if t in old(tenants) then Done else NotFound
      ensures tenants == AfterFinalize(old(tenants), t)
      ensures tenants == if o == Done then old(tenants)[t := Tenant(Deleted, None, None)] else old(tenants)
    {
      if t !in tenants { return NotFound; }
      tenants := tenants[t := Tenant(Deleted, None, None)];
      return Done;
    }

    /**
     The retention job with nothing else running: everyone due at the scan is deleted unless
     its own transaction fails, a failure does not stop the others, and nobody else changes.
     */
    method RunRetention(now: int, candidates: seq<TenantId>, broken: set<TenantId>) returns (stats: Stats)
      requires forall t :: t in candidates <==> Due(tenants, t, now)
      requires forall i, j :: 0 <= i < j < |candidates| ==> candidates[i] != candidates[j]
      modifies this
      ensures stats.scanned == |candidates| == stats.finalized + stats.failed
      ensures stats.failed == CountIn(candidates, broken)
      ensures tenants.Keys == old(tenants).Keys
      ensures forall t :: t in tenants ==>
                tenants[t] == if Due(old(tenants), t, now) && t !in broken then Tenant(Deleted, None, None)
                              else old(tenants)[t]
    {
      ghost var ts0 := tenants;
      var finalized, failed := 0, 0;
      for k := 0 to |candidates|
        invariant finalized + failed == k && failed == CountIn(candidates[..k], broken)
        invariant tenants.Keys == ts0.Keys
        invariant forall t :: t in tenants ==>
                    tenants[t] == if t in candidates[..k] && t !in broken then Tenant(Deleted, None, None) else ts0[t]
      {
        var t := candidates[k];
        assert candidates[..k + 1] == candidates[..k] + [t];
        assert t in candidates;
        if t in broken {
          failed := failed + 1;
        } else {
          var o := FinalizeClosure(t);
          finalized := finalized + 1;
        }
        assert candidates[..k + 1][..k] == candidates[..k];
      }
      assert candidates[..|candidates|] == candidates;
      stats := Stats(|candidates|, finalized, failed);
    }
  }

  ghost function CountIn(s: seq<TenantId>, b: set<TenantId>): nat {
    if s == [] then 0 else CountIn(s[..|s| - 1], b) + (if s[|s| - 1] in b then 1 else 0)
  }

  // ---------------------------------------------------------------------------
  // The protocol
  // ---------------------------------------------------------------------------

  /**
   `scanned` are the tenants that some run of the job has selected and may finalize at any
   later time; `issued` are the cancel tokens handed out to each tenant, in order.
   */
  datatype System = System(tenants: Tenants, scanned: set<TenantId>, issued: map<TenantId, seq<string>>,
                           app: int, db: int)

  datatype Event =
    | SignUp(t: TenantId)
    | Request(t: TenantId, token: string)
    | Cancel(t: TenantId, token: string)
    | Scan
    | Finalize(t: TenantId)
    | Tick(appTo: int, dbTo: int)

  ghost function TokensOf(s: System, t: TenantId): seq<string> {
    if t in s.issued then s.issued[t] else []
  }

  ghost predicate Issued(s: System, token: string) {
    exists t :: token in TokensOf(s, t)
  }

  /** Tokens are random and never repeat; finalizing follows a scan; clocks go forward. */
  ghost predicate Enabled(s: System, e: Event) {
    match e
    case SignUp(t) => t !in s.tenants
    case Request(t, token) => !Issued(s, token)
    case Cancel(_, _) => true
    case Scan => true
    case Finalize(t) => t in s.scanned
    case Tick(a, d) => s.app <= a && s.db <= d
  }

  ghost function Apply(hash: string -> string, s: System, e: Event): System {
    match e
    case SignUp(t) => s.(tenants := s.tenants[t := Tenant(Active, None, None)])
    case Request(t, token) =>
      if RequestOutcome(s.tenants, t) == Done then
        s.(tenants := AfterRequest(s.tenants, t, hash(token), s.app),
           issued := s.issued[t := TokensOf(s, t) + [token]])
      else s
    case Cancel(t, token) => s.(tenants := AfterCancel(s.tenants, t, hash(token), s.app))
    case Scan => s.(scanned := s.scanned + set t | t in s.tenants && Due(s.tenants, t, s.db))
    case Finalize(t) => s.(tenants := AfterFinalize(s.tenants, t))
    case Tick(a, d) => s.(app := a, db := d)
  }
}
