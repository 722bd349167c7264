/**
 Why finalizing without a second look is safe, and exactly when: once the application's
 clock is past the cancellation window nothing can bring a tenant back.
 */
module ClosureTheory {
  import opened Wrappers
  import opened Closure

  // ---------------------------------------------------------------------------
  // What every step keeps
  // ---------------------------------------------------------------------------

  ghost predicate Distinct(tokens: seq<string>) {
    forall i, j :: 0 <= i < j < |tokens| ==> tokens[i] != tokens[j]
  }

  /** A pending tenant carries the time and the newest token of its request. */
  ghost predicate TenantInv(hash: string -> string, s: System, t: TenantId) {
    && Distinct(TokensOf(s, t))
    && (t in s.tenants && s.tenants[t].status == PendingDeletion ==>
          && s.tenants[t].requestedAt.Some?
          && TokensOf(s, t) != []
          && s.tenants[t].tokenHash == Some(hash(TokensOf(s, t)[|TokensOf(s, t)| - 1])))
  }

  ghost predicate Inv(hash: string -> string, s: System) {
    forall t :: TenantInv(hash, s, t)
  }

  lemma {:induction false} StepKeepsInv(hash: string -> string, s: System, e: Event)
    requires Inv(hash, s) && Enabled(s, e)
    ensures Inv(hash, Apply(hash, s, e))
  {
    forall t
      ensures TenantInv(hash, Apply(hash, s, e), t)
    {
      assert TenantInv(hash, s, t);
      if e.Request? && e.t == t {
        assert e.token !in TokensOf(s, t);
      }
    }
  }

  ghost predicate Leads(hash: string -> string, s: System, es: seq<Event>, u: System)
    decreases |es|
  {
    if es == [] then s == u else Enabled(s, es[0]) && Leads(hash, Apply(hash, s, es[0]), es[1..], u)
  }

  /** Deleted tenants never change again. */
  lemma {:induction false} DeletedIsFinal(hash: string -> string, s: System, es: seq<Event>, u: System, t: TenantId)
    requires Leads(hash, s, es, u) && t in s.tenants && s.tenants[t] == Tenant(Deleted, None, None)
    ensures t in u.tenants && u.tenants[t] == Tenant(Deleted, None, None)
    decreases |es|
  {
    if es != [] {
      DeletedIsFinal(hash, Apply(hash, s, es[0]), es[1..], u, t);
    }
  }

  // ---------------------------------------------------------------------------
  // The cancellation window
  // ---------------------------------------------------------------------------

  ghost predicate Pending(s: System, t: TenantId) {
    t in s.tenants && s.tenants[t].status == PendingDeletion
  }

  /** Only the newest token cancels, and only within a day of the request. */
  lemma {:induction false} CancelNeedsNewestToken(hash: string -> string, s: System, t: TenantId, token: string)
    requires GoodHash(hash) && Inv(hash, s) && Pending(s, t)
    ensures TokensOf(s, t) != [] && s.tenants[t].requestedAt.Some?
    ensures CancelOutcome(s.tenants, t, hash(token), s.app) == Done
       <==> token == TokensOf(s, t)[|TokensOf(s, t)| - 1] && s.app <= s.tenants[t].requestedAt.value + DAY
  {
    assert TenantInv(hash, s, t);
  }

  /** A token of an earlier request of the same tenant never cancels a later one. */
  lemma {:induction false} OldTokensAreDead(hash: string -> string, s: System, t: TenantId, i: nat)
    requires GoodHash(hash) && Inv(hash, s) && Pending(s, t) && i + 1 < |TokensOf(s, t)|
    ensures CancelOutcome(s.tenants, t, hash(TokensOf(s, t)[i]), s.app) == TokenInvalid
  {
    assert TenantInv(hash, s, t);
  }

  /** On one clock, a pending tenant is either still cancellable or already due, never both. */
  lemma {:induction false} CancelOrDue(hash: string -> string, s: System, t: TenantId, token: string)
    requires GoodHash(hash) && Inv(hash, s) && Pending(s, t) && s.app == s.db
    requires TokensOf(s, t) != [] && token == TokensOf(s, t)[|TokensOf(s, t)| - 1]
    ensures CancelOutcome(s.tenants, t, hash(token), s.app) == Done <==> !Due(s.tenants, t, s.db)
  {
    CancelNeedsNewestToken(hash, s, t, token);
  }

  // ---------------------------------------------------------------------------
  // Point of no return
  // ---------------------------------------------------------------------------

  /** Deleted, or pending with the window closed by the application's clock. */
  ghost predicate Gone(s: System, t: TenantId) {
    t in s.tenants &&
    (|| s.tenants[t].status == Deleted
     || (&& s.tenants[t].status == PendingDeletion && s.tenants[t].requestedAt.Some?
         && s.app > s.tenants[t].requestedAt.value + DAY))
  }

  lemma {:induction false} StepKeepsGone(hash: string -> string, s: System, e: Event, t: TenantId)
    requires Enabled(s, e) && Gone(s, t)
    ensures Gone(Apply(hash, s, e), t)
  {
  }

  lemma {:induction false} GoneForEver(hash: string -> string, s: System, es: seq<Event>, u: System, t: TenantId)
    requires Leads(hash, s, es, u) && Gone(s, t)
    ensures Gone(u, t)
    decreases |es|
  {
    if es != [] {
      StepKeepsGone(hash, s, es[0], t);
      GoneForEver(hash, Apply(hash, s, es[0]), es[1..], u, t);
    }
  }

  ghost predicate NeverActiveAgain(hash: string -> string, s: System, t: TenantId) {
    forall es, u :: Leads(hash, s, es, u) ==> t in u.tenants && u.tenants[t].status != Active
  }

  /**
   A tenant that the scan selects cannot become active again, whatever happens until it is
   finalized, exactly if the application's clock is past the cancellation window too.
   */
  lemma {:induction false} ScanIsFinalExactly(hash: string -> string, s: System, t: TenantId)
    requires GoodHash(hash) && Inv(hash, s) && Due(s.tenants, t, s.db)
    ensures NeverActiveAgain(hash, s, t) <==> s.app > s.tenants[t].requestedAt.value + DAY
  {
    if s.app > s.tenants[t].requestedAt.value + DAY {
      forall es, u | Leads(hash, s, es, u)
        ensures t in u.tenants && u.tenants[t].status != Active
      {
        GoneForEver(hash, s, es, u, t);
      }
    } else {
      assert TenantInv(hash, s, t);
      var token := TokensOf(s, t)[|TokensOf(s, t)| - 1];
      var es, u := [Cancel(t, token)], Apply(hash, s, Cancel(t, token));
      CancelNeedsNewestToken(hash, s, t, token);
      assert es[1..] == [];
      assert Leads(hash, s, es, u);
    }
  }

  // ---------------------------------------------------------------------------
  // Whole behaviours
  // ---------------------------------------------------------------------------

  ghost predicate StepAt(hash: string -> string, ss: seq<System>, es: seq<Event>, i: nat)
    requires i < |es| && i + 1 < |ss|
  {
    Enabled(ss[i], es[i]) && ss[i + 1] == Apply(hash, ss[i], es[i])
  }

  ghost predicate Behaviour(hash: string -> string, ss: seq<System>, es: seq<Event>) {
    && |ss| == |es| + 1
    && ss[0].tenants == map[] && ss[0].scanned == {} && ss[0].issued == map[]
    && forall i :: 0 <= i < |es| ==> StepAt(hash, ss, es, i)
  }

  // ---------------------------------------------------------------------------
  // The window, measured from the request itself
  // ---------------------------------------------------------------------------

  /** Step `k` is a closure request of the tenant that is accepted. */
  ghost predicate Accepted(ss: seq<System>, es: seq<Event>, k: nat, t: TenantId)
    requires k < |es| && |ss| == |es| + 1
  {
    es[k].Request? && es[k].t == t && t in ss[k].tenants && ss[k].tenants[t].status == Active
  }

  /** Step `k` is the newest accepted request of the tenant before state `n`. */
  ghost predicate NewestRequest(ss: seq<System>, es: seq<Event>, k: nat, n: nat, t: TenantId)
    requires |ss| == |es| + 1 && n <= |es|
  {
    k < n && Accepted(ss, es, k, t) && forall i :: k < i < n ==> !Accepted(ss, es, i, t)
  }

  /** A pending tenant has an accepted request behind it. */
  lemma {:induction false} PendingHasRequest(hash: string -> string, ss: seq<System>, es: seq<Event>, n: nat,
                                             t: TenantId)
    returns (k: nat)
    requires Behaviour(hash, ss, es) && n <= |es| && Pending(ss[n], t)
    ensures NewestRequest(ss, es, k, n, t)
  {
    assert n > 0;
    assert StepAt(hash, ss, es, n - 1);
    if Accepted(ss, es, n - 1, t) {
      k := n - 1;
    } else {
      k := PendingHasRequest(hash, ss, es, n - 1, t);
    }
  }

  /** Until the next accepted request, a pending tenant shows the time and the token of this one. */
  lemma {:induction false} RowShowsRequest(hash: string -> string, ss: seq<System>, es: seq<Event>, k: nat, n: nat,
                                           t: TenantId)
    requires Behaviour(hash, ss, es) && n <= |es| && NewestRequest(ss, es, k, n, t)
    ensures t in ss[n].tenants
    ensures Pending(ss[n], t) ==>
              ss[n].tenants[t] == Tenant(PendingDeletion, Some(ss[k].app), Some(hash(es[k].token)))
    decreases n
  {
    assert StepAt(hash, ss, es, n - 1);
    if k < n - 1 {
      RowShowsRequest(hash, ss, es, k, n - 1, t);
      assert !Accepted(ss, es, n - 1, t);
    }
  }

  /**
   In every behaviour a pending closure can be cancelled exactly with the token of its own request, the
   newest accepted one, and for 24 hours from the application's time at that request; and the
   retention scan selects it exactly once the database's clock is past those 24 hours.
   */
  lemma {:induction false} WindowRunsFromRequest(hash: string -> string, ss: seq<System>, es: seq<Event>, k: nat,
                                                 n: nat, t: TenantId, token: string)
    requires GoodHash(hash) && Behaviour(hash, ss, es) && n <= |es|
    requires Pending(ss[n], t) && NewestRequest(ss, es, k, n, t)
    ensures CancelOutcome(ss[n].tenants, t, hash(token), ss[n].app) == Done
       <==> token == es[k].token && ss[n].app <= ss[k].app + 24 * 3_600_000_000
    ensures Due(ss[n].tenants, t, ss[n].db) <==> ss[n].db > ss[k].app + 24 * 3_600_000_000
  {
    RowShowsRequest(hash, ss, es, k, n, t);
  }

  /** The database's clock is never ahead of the application's; one shared clock is a special case. */
  ghost predicate ClocksAgree(ss: seq<System>) {
    forall i :: 0 <= i < |ss| ==> ss[i].db <= ss[i].app
  }

  ghost predicate ScannedGone(s: System) {
    forall t :: t in s.scanned ==> Gone(s, t)
  }

  lemma {:induction false} InvAlways(hash: string -> string, ss: seq<System>, es: seq<Event>, n: nat)
    requires Behaviour(hash, ss, es) && n < |ss|
    ensures Inv(hash, ss[n])
  {
    if n == 0 {
      assert forall t :: TenantInv(hash, ss[0], t);
    } else {
      InvAlways(hash, ss, es, n - 1);
      assert StepAt(hash, ss, es, n - 1);
      StepKeepsInv(hash, ss[n - 1], es[n - 1]);
    }
  }

  lemma {:induction false} ScannedStayGone(hash: string -> string, ss: seq<System>, es: seq<Event>, n: nat)
    requires Behaviour(hash, ss, es) && ClocksAgree(ss) && n < |ss|
    ensures ScannedGone(ss[n])
  {
    if n > 0 {
      var s, e := ss[n - 1], es[n - 1];
      ScannedStayGone(hash, ss, es, n - 1);
      assert StepAt(hash, ss, es, n - 1);
      assert s.db <= s.app;
      forall t | t in ss[n].scanned
        ensures Gone(ss[n], t)
      {
        if t in s.scanned {
          StepKeepsGone(hash, s, e, t);
        }
      }
    }
  }

  /**
   In every behaviour, a finalize never hits an active tenant: it finds the tenant deleted
   already, or pending and more than a day past its request.
   */
  lemma {:induction false} FinalizeIsSafe(hash: string -> string, ss: seq<System>, es: seq<Event>, n: nat)
    requires Behaviour(hash, ss, es) && ClocksAgree(ss) && n < |es| && es[n].Finalize?
    ensures var t := es[n].t;
            t in ss[n].tenants && ss[n].tenants[t].status != Active && Gone(ss[n], t)
  {
    ScannedStayGone(hash, ss, es, n);
    assert StepAt(hash, ss, es, n);
  }

  /** However little the database's clock is ahead, a run deletes a cancelled account all the same. */
  lemma {:induction false} SkewedClocksDeleteActive(hash: string -> string, t: TenantId, token: string, skew: int)
    returns (ss: seq<System>, es: seq<Event>)
    requires GoodHash(hash) && skew >= 1
    ensures Behaviour(hash, ss, es) && forall n :: 0 <= n < |ss| ==> ss[n].db - ss[n].app in {0, skew}
    ensures exists n :: 0 <= n < |es| && es[n] == Finalize(t) && t in ss[n].tenants && ss[n].tenants[t].status == Active
  {
    es := [SignUp(t), Request(t, token), Tick(DAY, DAY + skew), Scan, Cancel(t, token), Finalize(t)];
    var s0 := System(map[], {}, map[], 0, 0);
    var s1 := Apply(hash, s0, es[0]);
    var s2 := Apply(hash, s1, es[1]);
    var s3 := Apply(hash, s2, es[2]);
    var s4 := Apply(hash, s3, es[3]);
    var s5 := Apply(hash, s4, es[4]);
    ss := [s0, s1, s2, s3, s4, s5, Apply(hash, s5, es[5])];
    assert !Issued(s1, token);
    assert t in s4.scanned;
    assert s5.tenants[t].status == Active;
    assert es[5] == Finalize(t);
    assert s3.db == s3.app + skew;
  }
}
