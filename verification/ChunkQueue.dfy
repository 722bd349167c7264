/**
 Whether the chunk worker's queue serves everyone.  Passes fetch the oldest candidates; a memory
 without any chunk stays a candidate for ever, so enough of them block everything behind them.
 */
module ChunkQueue {
  import opened Wrappers
  import opened ChunkIndex
  import ChunkIndexTheory
  import Chunking
  import Text

  /** One pass: when it fetched, what, and how embedding and inserting went. */
  datatype Pass = Pass(now: int, batch: seq<Id>, embed: string -> Embedding, broken: set<Id>)

  /** The memories that are not younger than `m`, itself included. */
  ghost function Front(db: Tables, m: Id): set<Id>
    requires m in db.memories
  {
    set x | x in db.memories && db.memories[x].createdAt <= db.memories[m].createdAt
  }

  /**
   A pass, seen from `m`: it fetches the oldest candidates and does to the memories in front what
   building each alone does.  Anything may happen meanwhile to younger memories.
   */
  ghost predicate Passes(cfg: Config, limit: nat, m: Id, db: Tables, p: Pass, after: Tables) {
    && m in db.memories && m in after.memories && Front(after, m) == Front(db, m)
    && Oldest(db, p.batch, limit, p.now)
    && forall x :: x in Front(db, m) ==> AloneFor(cfg, db, after, p.batch, x, p.embed, p.broken, p.now)
  }

  /** Passes in sequence, on a clock that does not go back, the first at a time when `m` is a candidate. */
  ghost predicate Run(cfg: Config, limit: nat, m: Id, dbs: seq<Tables>, ps: seq<Pass>) {
    && |dbs| == |ps| + 1
    && (forall i :: 0 <= i < |ps| ==> Passes(cfg, limit, m, dbs[i], ps[i], dbs[i + 1]))
    && (forall i, j :: 0 <= i < j < |ps| ==> ps[i].now <= ps[j].now)
    && (ps != [] ==> Candidate(dbs[0], m, ps[0].now))
  }

  /** Live, not indexed and not given up: a candidate now or when its delay is over. */
  ghost predicate Pending(db: Tables, x: Id) {
    && x in db.memories && db.memories[x].live && !Fresh(db, x)
    && (BackoffOf(db, x).Some? ==> !BackoffOf(db, x).value.terminal)
  }

  ghost predicate Blank(cfg: Config, db: Tables, x: Id)
    requires x in db.memories
  {
    cfg.split(db.memories[x].content) == []
  }

  /** The blank memories in front of `m` that are pending. */
  ghost function Blanks(cfg: Config, db: Tables, m: Id): set<Id>
    requires m in db.memories
  {
    set x | x in Front(db, m) && x != m && Pending(db, x) && Blank(cfg, db, x)
  }

  // ---------------------------------------------------------------------------
  // What a pass keeps
  // ---------------------------------------------------------------------------

  /** A memory that a pass did not fetch, or that has no chunks, is as it was. */
  lemma {:induction false} PassKeeps(cfg: Config, limit: nat, m: Id, db: Tables, p: Pass, after: Tables, x: Id)
    requires Passes(cfg, limit, m, db, p, after) && x in Front(db, m)
    requires x !in p.batch || Blank(cfg, db, x)
    ensures SameFor(after, db, x)
  {
    assert AloneFor(cfg, db, after, p.batch, x, p.embed, p.broken, p.now);
  }

  lemma {:induction false} PassKeepsMemory(cfg: Config, limit: nat, m: Id, db: Tables, p: Pass, after: Tables, x: Id)
    requires Passes(cfg, limit, m, db, p, after) && x in Front(db, m)
    ensures x in after.memories && after.memories[x] == db.memories[x]
  {
    assert AloneFor(cfg, db, after, p.batch, x, p.embed, p.broken, p.now);
  }

  lemma {:induction false} PassKeepsBlanks(cfg: Config, limit: nat, m: Id, db: Tables, p: Pass, after: Tables)
    requires Passes(cfg, limit, m, db, p, after)
    ensures Blanks(cfg, after, m) == Blanks(cfg, db, m)
  {
    forall x
      ensures x in Blanks(cfg, after, m) <==> x in Blanks(cfg, db, m)
    {
      if x in Front(db, m) {
        PassKeepsMemory(cfg, limit, m, db, p, after, x);
        if Blank(cfg, db, x) {
          PassKeeps(cfg, limit, m, db, p, after, x);
        }
      }
    }
  }

  /** As long as it is not fetched, a candidate stays one. */
  lemma {:induction false} UnfetchedStays(cfg: Config, limit: nat, m: Id, db: Tables, p: Pass, after: Tables, now: int)
    requires Passes(cfg, limit, m, db, p, after) && Candidate(db, m, p.now) && m !in p.batch && p.now <= now
    ensures Candidate(after, m, now)
  {
    PassKeeps(cfg, limit, m, db, p, after, m);
  }

  // ---------------------------------------------------------------------------
  // Few blank memories: everyone is served
  // ---------------------------------------------------------------------------

  /** How many more times a memory with chunks can be fetched. */
  ghost function Left(cfg: Config, db: Tables, x: Id): nat {
    if !Pending(db, x) || Blank(cfg, db, x) then 0
    else
      var attempts := if BackoffOf(db, x).Some? then BackoffOf(db, x).value.attempts else 0;
      if cfg.maxAttempts - attempts < 1 then 1 else cfg.maxAttempts - attempts
  }

  lemma {:induction false} SameLeft(cfg: Config, a: Tables, b: Tables, x: Id)
    requires SameFor(a, b, x)
    ensures Left(cfg, a, x) == Left(cfg, b, x)
  {
  }

  /** Building a candidate with chunks uses up one of its tries. */
  lemma {:induction false} BuildUsesTry(cfg: Config, db: Tables, x: Id, embed: string -> Embedding,
                                        broken: bool, now: int)
    requires Candidate(db, x, now) && !Blank(cfg, db, x)
    ensures Left(cfg, AfterBuild(cfg, db, x, Fetch(db, x, now), embed, broken, now), x) < Left(cfg, db, x)
  {
    var f := Fetch(db, x, now);
    var after := AfterBuild(cfg, db, x, f, embed, broken, now);
    if BuildOutcome(cfg, f, embed, broken) == Built {
      assert RowsOf(after, x) == NewRows(cfg, db, x, f);
      assert RowsOf(after, x)[0].sourceHash == db.memories[x].hash;
    }
  }

  lemma {:induction false} PassUsesTries(cfg: Config, limit: nat, m: Id, db: Tables, p: Pass, after: Tables, x: Id)
    requires Passes(cfg, limit, m, db, p, after) && x in Front(db, m)
    ensures Left(cfg, after, x) <= Left(cfg, db, x)
    ensures x in p.batch && !Blank(cfg, db, x) ==> Left(cfg, after, x) < Left(cfg, db, x)
  {
    if x in p.batch && !Blank(cfg, db, x) {
      assert AloneFor(cfg, db, after, p.batch, x, p.embed, p.broken, p.now);
      assert Candidate(db, x, p.now);
      var alone := AfterBuild(cfg, db, x, Fetch(db, x, p.now), p.embed, x in p.broken, p.now);
      BuildUsesTry(cfg, db, x, p.embed, x in p.broken, p.now);
      SameLeft(cfg, after, alone, x);
    } else {
      PassKeeps(cfg, limit, m, db, p, after, x);
      SameLeft(cfg, after, db, x);
    }
  }

  ghost function Sum(cfg: Config, db: Tables, xs: seq<Id>): nat {
    if xs == [] then 0 else Left(cfg, db, xs[0]) + Sum(cfg, db, xs[1..])
  }

  lemma {:induction false} SumBound(cfg: Config, db: Tables, xs: seq<Id>)
    ensures Sum(cfg, db, xs) <= |xs| * ChunkIndexTheory.MaxTries(cfg)
  {
    if xs != [] {
      SumBound(cfg, db, xs[1..]);
      assert Left(cfg, db, xs[0]) <= ChunkIndexTheory.MaxTries(cfg);
      assert |xs| * ChunkIndexTheory.MaxTries(cfg)
          == ChunkIndexTheory.MaxTries(cfg) + |xs[1..]| * ChunkIndexTheory.MaxTries(cfg);
    }
  }

  lemma {:induction false} SumDrops(cfg: Config, db: Tables, after: Tables, xs: seq<Id>, y: Id)
    requires forall x :: x in xs ==> Left(cfg, after, x) <= Left(cfg, db, x)
    ensures Sum(cfg, after, xs) <= Sum(cfg, db, xs)
    ensures y in xs && Left(cfg, after, y) < Left(cfg, db, y) ==> Sum(cfg, after, xs) < Sum(cfg, db, xs)
  {
    if xs != [] {
      assert forall x :: x in xs[1..] ==> x in xs;
      SumDrops(cfg, db, after, xs[1..], y);
    }
  }

  lemma {:induction false} Enumerate(s: set<Id>) returns (xs: seq<Id>)
    ensures |xs| == |s| && forall x :: x in xs <==> x in s
  {
    if s == {} {
      xs := [];
    } else {
      var x := Pick(s);
      var rest := Enumerate(s - {x});
      xs := [x] + rest;
    }
  }

  lemma {:induction false} SomethingLeft(a: set<Id>, b: set<Id>)
    requires |b| < |a|
    ensures a - b != {}
  {
    assert a == (a - b) + (a * b);
    SubsetSize(a * b, b);
  }

  /** A pass that does not fetch a candidate fetches some memory with chunks in front of it. */
  lemma {:induction false} MissedForAnother(cfg: Config, limit: nat, m: Id, db: Tables, p: Pass, after: Tables)
    returns (y: Id)
    requires Passes(cfg, limit, m, db, p, after) && Candidate(db, m, p.now) && m !in p.batch
    requires |Blanks(cfg, db, m)| < limit
    ensures y in p.batch && y in Front(db, m) && !Blank(cfg, db, y)
  {
    assert |p.batch| == limit;
    DistinctSize(p.batch);
    if Elements(p.batch) <= Blanks(cfg, db, m) {
      SubsetSize(Elements(p.batch), Blanks(cfg, db, m));
    }
    y :| y in Elements(p.batch) && y !in Blanks(cfg, db, m);
    assert y in p.batch && Candidate(db, y, p.now);
  }

  /** Each pass that misses `m` uses up a try of a memory in front of it. */
  lemma {:induction false} MissesUseTries(cfg: Config, limit: nat, m: Id, dbs: seq<Tables>, ps: seq<Pass>,
                                          xs: seq<Id>, n: nat)
    requires Run(cfg, limit, m, dbs, ps) && 0 < n <= |ps| && |Blanks(cfg, dbs[0], m)| < limit
    requires forall i :: 0 <= i < n ==> m !in ps[i].batch
    requires forall x :: x in xs <==> x in Front(dbs[0], m)
    ensures m in dbs[n].memories && Front(dbs[n], m) == Front(dbs[0], m)
    ensures Blanks(cfg, dbs[n], m) == Blanks(cfg, dbs[0], m)
    ensures n < |ps| ==> Candidate(dbs[n], m, ps[n].now)
    ensures Sum(cfg, dbs[n], xs) + n <= Sum(cfg, dbs[0], xs)
  {
    var db, p, after := dbs[n - 1], ps[n - 1], dbs[n];
    assert Passes(cfg, limit, m, db, p, after);
    if n > 1 {
      MissesUseTries(cfg, limit, m, dbs, ps, xs, n - 1);
    }
    PassKeepsBlanks(cfg, limit, m, db, p, after);
    if n < |ps| {
      UnfetchedStays(cfg, limit, m, db, p, after, ps[n].now);
    }
    var y := MissedForAnother(cfg, limit, m, db, p, after);
    forall x | x in xs
      ensures Left(cfg, after, x) <= Left(cfg, db, x)
    {
      PassUsesTries(cfg, limit, m, db, p, after, x);
    }
    PassUsesTries(cfg, limit, m, db, p, after, y);
    SumDrops(cfg, db, after, xs, y);
  }

  ghost predicate Served(ps: seq<Pass>, m: Id) {
    exists i :: 0 <= i < |ps| && m in ps[i].batch
  }

  /** As many passes as the memories in front have tries, and one more. */
  ghost function Enough(cfg: Config, db: Tables, m: Id): nat
    requires m in db.memories
  {
    |Front(db, m)| * ChunkIndexTheory.MaxTries(cfg) + 1
  }

  /** With fewer pending blank memories in front than a batch holds, a candidate is fetched in time. */
  lemma {:induction false} FewBlanksServe(cfg: Config, limit: nat, m: Id, dbs: seq<Tables>, ps: seq<Pass>)
    requires Run(cfg, limit, m, dbs, ps) && m in dbs[0].memories
    requires |Blanks(cfg, dbs[0], m)| < limit && |ps| >= Enough(cfg, dbs[0], m)
    ensures Served(ps, m)
  {
    if !Served(ps, m) {
      var xs := Enumerate(Front(dbs[0], m));
      SumBound(cfg, dbs[0], xs);
      MissesUseTries(cfg, limit, m, dbs, ps, xs, |ps|);
    }
  }

  // ---------------------------------------------------------------------------
  // Many blank memories: the queue is blocked
  // ---------------------------------------------------------------------------

  /** Blank candidates that are strictly older than `m`. */
  ghost function OlderBlanks(cfg: Config, db: Tables, m: Id, now: int): set<Id>
    requires m in db.memories
  {
    set x | x in Front(db, m) && db.memories[x].createdAt < db.memories[m].createdAt && Candidate(db, x, now)
            && Blank(cfg, db, x)
  }

  lemma {:induction false} OlderBlanksStay(cfg: Config, limit: nat, m: Id, dbs: seq<Tables>, ps: seq<Pass>, n: nat)
    requires Run(cfg, limit, m, dbs, ps) && n < |ps| && m in dbs[0].memories
    ensures m in dbs[n].memories && OlderBlanks(cfg, dbs[0], m, ps[0].now) <= OlderBlanks(cfg, dbs[n], m, ps[n].now)
  {
    if n > 0 {
      OlderBlanksStay(cfg, limit, m, dbs, ps, n - 1);
      var db, p, after := dbs[n - 1], ps[n - 1], dbs[n];
      assert Passes(cfg, limit, m, db, p, after);
      PassKeepsMemory(cfg, limit, m, db, p, after, m);
      forall x | x in OlderBlanks(cfg, db, m, p.now)
        ensures x in OlderBlanks(cfg, after, m, ps[n].now)
      {
        PassKeeps(cfg, limit, m, db, p, after, x);
      }
    }
  }

  /** A fetched batch that holds `m` holds all older candidates too. */
  lemma {:induction false} OlderBlanksFirst(cfg: Config, db: Tables, m: Id, batch: seq<Id>, limit: nat, now: int)
    requires m in db.memories && Oldest(db, batch, limit, now) && |OlderBlanks(cfg, db, m, now)| >= limit
    ensures m !in batch
  {
    if m in batch {
      forall x | x in OlderBlanks(cfg, db, m, now)
        ensures x in Elements(batch) - {m}
      {
      }
      assert m in Elements(batch);
      DistinctSize(batch);
      SubsetSize(OlderBlanks(cfg, db, m, now), Elements(batch) - {m});
    }
  }

  /** No run ever fetches a memory behind a full batch of older blank candidates. */
  lemma {:induction false} OlderBlanksBlock(cfg: Config, limit: nat, m: Id, dbs: seq<Tables>, ps: seq<Pass>)
    requires Run(cfg, limit, m, dbs, ps) && ps != [] && m in dbs[0].memories
    requires |OlderBlanks(cfg, dbs[0], m, ps[0].now)| >= limit
    ensures !Served(ps, m)
  {
    forall n | 0 <= n < |ps|
      ensures m !in ps[n].batch
    {
      OlderBlanksStay(cfg, limit, m, dbs, ps, n);
      SubsetSize(OlderBlanks(cfg, dbs[0], m, ps[0].now), OlderBlanks(cfg, dbs[n], m, ps[n].now));
      assert Passes(cfg, limit, m, dbs[n], ps[n], dbs[n + 1]);
      OlderBlanksFirst(cfg, dbs[n], m, ps[n].batch, limit, ps[n].now);
    }
  }

  /** From this time on everything pending in the set is a candidate. */
  lemma {:induction false} DelaysEnd(db: Tables, s: set<Id>) returns (t: int)
    requires forall x :: x in s ==> Pending(db, x)
    ensures forall x :: x in s ==> Candidate(db, x, t)
  {
    if s == {} {
      t := 0;
    } else {
      var x := Pick(s);
      var u := DelaysEnd(db, s - {x});
      t := if BackoffOf(db, x).Some? && BackoffOf(db, x).value.nextAt > u then BackoffOf(db, x).value.nextAt else u;
      forall y | y in s
        ensures Candidate(db, y, t)
      {
        assert y == x || y in s - {x};
      }
    }
  }

  /** A pass over any fetched batch has a result. */
  lemma {:induction false} PassExists(cfg: Config, db: Tables, batch: seq<Id>, embed: string -> Embedding,
                                      broken: set<Id>, now: int) returns (after: Tables)
    requires forall x :: x in batch ==> x in db.memories
    requires forall i, j :: 0 <= i < j < |batch| ==> batch[i] != batch[j]
    ensures after.memories == db.memories
    ensures forall x :: AloneFor(cfg, db, after, batch, x, embed, broken, now)
  {
    if batch == [] {
      after := db;
    } else {
      var n := |batch| - 1;
      var front, x := batch[..n], batch[n];
      assert batch == front + [x];
      var db1 := PassExists(cfg, db, front, embed, broken, now);
      after := AfterBuild(cfg, db1, x, Fetch(db, x, now), embed, x in broken, now);
      PassStep(cfg, db, db1, front, x, embed, broken, now);
    }
  }

  /** The candidates in front of `m`. */
  ghost function Others(db: Tables, m: Id, now: int): set<Id>
    requires m in db.memories
  {
    set x | x in Front(db, m) && x != m && Candidate(db, x, now)
  }

  lemma {:induction false} FillBatch(db: Tables, m: Id, now: int, some: seq<Id>, limit: nat) returns (batch: seq<Id>)
    requires m in db.memories && |some| <= limit <= |Others(db, m, now)|
    requires Elements(some) <= Others(db, m, now) && Sorted(db, some, Others(db, m, now) - Elements(some))
    ensures |batch| == limit && Elements(batch) <= Others(db, m, now)
    ensures Sorted(db, batch, Others(db, m, now) - Elements(batch))
    decreases limit - |some|
  {
    if |some| == limit {
      batch := some;
    } else {
      var left := Others(db, m, now) - Elements(some);
      DistinctSize(some);
      SomethingLeft(Others(db, m, now), Elements(some));
      var x := OldestExists(db, left);
      SortedSnoc(db, some, left, x);
      assert Elements(some + [x]) == Elements(some) + {x};
      assert Others(db, m, now) - Elements(some + [x]) == left - {x};
      batch := FillBatch(db, m, now, some + [x], limit);
    }
  }

  /** With a full batch of other candidates in front, the query has an answer without `m`. */
  lemma {:induction false} AvoidingBatch(db: Tables, m: Id, now: int, limit: nat) returns (batch: seq<Id>)
    requires m in db.memories && limit <= |Others(db, m, now)|
    ensures Oldest(db, batch, limit, now) && m !in batch
  {
    assert Elements<Id>([]) == {};
    batch := FillBatch(db, m, now, [], limit);
    forall x | x in batch
      ensures x in Others(db, m, now)
    {
      assert x in Elements(batch);
    }
    forall x, y | x in batch && Candidate(db, y, now) && y !in batch
      ensures db.memories[x].createdAt <= db.memories[y].createdAt
    {
      if y in Others(db, m, now) {
        assert y in Others(db, m, now) - Elements(batch);
      }
    }
  }

  /** The blank memories in front are candidates and fill a batch. */
  ghost predicate Blocked(cfg: Config, db: Tables, m: Id, now: int, limit: nat) {
    && Candidate(db, m, now) && limit <= |Blanks(cfg, db, m)|
    && forall x :: x in Blanks(cfg, db, m) ==> Candidate(db, x, now)
  }

  /** One pass that misses `m` and leaves the queue blocked. */
  lemma {:induction false} BlockedPass(cfg: Config, limit: nat, m: Id, db: Tables, now: int)
    returns (p: Pass, after: Tables)
    requires Blocked(cfg, db, m, now, limit)
    ensures p.now == now && m !in p.batch && Passes(cfg, limit, m, db, p, after) && Blocked(cfg, after, m, now, limit)
  {
    SubsetSize(Blanks(cfg, db, m), Others(db, m, now));
    var batch := AvoidingBatch(db, m, now, limit);
    p := Pass(now, batch, _ => Vector, {});
    forall x | x in batch
      ensures x in db.memories
    {
      var k :| 0 <= k < |batch| && batch[k] == x;
      assert Candidate(db, batch[k], now);
    }
    after := PassExists(cfg, db, batch, p.embed, p.broken, now);
    assert Front(after, m) == Front(db, m);
    PassKeepsBlanks(cfg, limit, m, db, p, after);
    UnfetchedStays(cfg, limit, m, db, p, after, now);
    forall x | x in Blanks(cfg, db, m)
      ensures Candidate(after, x, now)
    {
      PassKeeps(cfg, limit, m, db, p, after, x);
    }
  }

  lemma {:induction false} BlockedRun(cfg: Config, limit: nat, m: Id, db: Tables, now: int, n: nat)
    returns (dbs: seq<Tables>, ps: seq<Pass>)
    requires Blocked(cfg, db, m, now, limit)
    ensures Run(cfg, limit, m, dbs, ps) && |ps| == n && dbs[0] == db && !Served(ps, m)
    ensures forall i :: 0 <= i < n ==> ps[i].now == now
    decreases n
  {
    if n == 0 {
      dbs, ps := [db], [];
    } else {
      var p, after := BlockedPass(cfg, limit, m, db, now);
      var dbs1, ps1 := BlockedRun(cfg, limit, m, after, now, n - 1);
      dbs, ps := [db] + dbs1, [p] + ps1;
      forall i | 0 <= i < n
        ensures Passes(cfg, limit, m, dbs[i], ps[i], dbs[i + 1]) && m !in ps[i].batch
      {
        if i > 0 {
          assert Passes(cfg, limit, m, dbs1[i - 1], ps1[i - 1], dbs1[i]);
        }
      }
    }
  }

  /** With a full batch of pending blank memories in front, runs of any length never fetch `m`. */
  lemma {:induction false} ManyBlanksStarve(cfg: Config, limit: nat, m: Id, db: Tables, n: nat)
    returns (dbs: seq<Tables>, ps: seq<Pass>)
    requires Pending(db, m) && limit <= |Blanks(cfg, db, m)|
    ensures Run(cfg, limit, m, dbs, ps) && |ps| == n && dbs[0] == db && !Served(ps, m)
  {
    var t := DelaysEnd(db, Blanks(cfg, db, m) + {m});
    assert m in Blanks(cfg, db, m) + {m};
    dbs, ps := BlockedRun(cfg, limit, m, db, t, n);
  }

  /** Every run of enough passes fetches `m`. */
  ghost predicate AlwaysServed(cfg: Config, limit: nat, m: Id, db: Tables)
    requires m in db.memories
  {
    forall dbs, ps :: Run(cfg, limit, m, dbs, ps) && dbs[0] == db && |ps| >= Enough(cfg, db, m) ==> Served(ps, m)
  }

  /**
   A pending memory is fetched by every long enough run exactly if there are fewer pending blank
   memories in front of it than a batch holds.
   */
  lemma {:induction false} ServedExactly(cfg: Config, limit: nat, m: Id, db: Tables)
    requires Pending(db, m)
    ensures AlwaysServed(cfg, limit, m, db) <==> |Blanks(cfg, db, m)| < limit
  {
    if |Blanks(cfg, db, m)| < limit {
      forall dbs, ps | Run(cfg, limit, m, dbs, ps) && dbs[0] == db && |ps| >= Enough(cfg, db, m)
        ensures Served(ps, m)
      {
        FewBlanksServe(cfg, limit, m, dbs, ps);
      }
    } else {
      var dbs, ps := ManyBlanksStarve(cfg, limit, m, db, Enough(cfg, db, m));
    }
  }

  // ---------------------------------------------------------------------------
  // A blocked queue is reachable
  // ---------------------------------------------------------------------------

  /** Such contents exist: one space. */
  lemma {:induction false} SpaceIsBlank()
    ensures Chunking.Chunks(" ") == []
  {
    assert Text.Strip(" ") == "";
  }

  /** A memory is written. */
  lemma {:induction false} WriteStep(cfg: Config, s: ChunkIndexTheory.System, m: Id, content: string)
    returns (t: ChunkIndexTheory.System)
    requires ChunkIndexTheory.Reachable(cfg, s) && m !in s.db.memories
    ensures ChunkIndexTheory.Reachable(cfg, t) && t.now == s.now
    ensures t.db == s.db.(memories := s.db.memories[m := Memory(content, cfg.hash(content), false, true, s.now)])
  {
    ChunkIndexTheory.ReachStep(cfg, s, ChunkIndexTheory.Write(m, content, false));
    t := ChunkIndexTheory.Apply(cfg, s, ChunkIndexTheory.Write(m, content, false));
  }

  /** `n` blank memories are written at time 0. */
  lemma {:induction false} BlankWrites(cfg: Config, blank: string, n: nat) returns (s: ChunkIndexTheory.System)
    ensures ChunkIndexTheory.Reachable(cfg, s) && s.now == 0 && s.db.chunks == map[] && s.db.backoff == map[]
    ensures forall x :: x in s.db.memories <==> x in FirstIds(n)
    ensures forall x :: x in s.db.memories ==> s.db.memories[x] == Memory(blank, cfg.hash(blank), false, true, 0)
  {
    if n == 0 {
      ChunkIndexTheory.ReachInitial(cfg);
      s := ChunkIndexTheory.System(Tables(map[], map[], map[]), 0, map[], map[], map[]);
    } else {
      s := BlankWrites(cfg, blank, n - 1);
      FirstIdsAre(n - 1);
      s := WriteStep(cfg, s, n - 1, blank);
    }
  }

  /** Blank memories 0 to limit - 1, written at time 0, and memory `limit`, written at time 1. */
  ghost predicate BlanksThenText(cfg: Config, db: Tables, blank: string, text: string, limit: nat) {
    && db.chunks == map[] && db.backoff == map[]
    && (forall x :: x in db.memories <==> 0 <= x <= limit)
    && (forall x :: 0 <= x < limit ==> db.memories[x] == Memory(blank, cfg.hash(blank), false, true, 0))
    && db.memories[limit] == Memory(text, cfg.hash(text), false, true, 1)
  }

  lemma {:induction false} BlanksAreOlder(cfg: Config, db: Tables, blank: string, text: string, limit: nat, now: int)
    requires BlanksThenText(cfg, db, blank, text, limit) && cfg.split(blank) == []
    ensures Candidate(db, limit, now) && |OlderBlanks(cfg, db, limit, now)| == limit
  {
    FirstIdsAre(limit);
    forall x
      ensures x in OlderBlanks(cfg, db, limit, now) <==> x in FirstIds(limit)
    {
      assert RowsOf(db, x) == [] && BackoffOf(db, x).None?;
    }
    assert OlderBlanks(cfg, db, limit, now) == FirstIds(limit);
    assert RowsOf(db, limit) == [];
  }

  /** For every batch size: that many blank memories and one later memory, which no run ever fetches. */
  lemma {:induction false} BlockedQueue(cfg: Config, blank: string, text: string, limit: nat)
    returns (s: ChunkIndexTheory.System)
    requires cfg.split(blank) == []
    ensures ChunkIndexTheory.Reachable(cfg, s) && BlanksThenText(cfg, s.db, blank, text, limit)
    ensures forall now :: Candidate(s.db, limit, now)
    ensures forall dbs, ps :: Run(cfg, limit, limit, dbs, ps) && dbs[0] == s.db ==> !Served(ps, limit)
  {
    s := BlankWrites(cfg, blank, limit);
    FirstIdsAre(limit);
    ChunkIndexTheory.ReachStep(cfg, s, ChunkIndexTheory.Tick(1));
    s := ChunkIndexTheory.Apply(cfg, s, ChunkIndexTheory.Tick(1));
    s := WriteStep(cfg, s, limit, text);
    forall now
      ensures Candidate(s.db, limit, now)
    {
      BlanksAreOlder(cfg, s.db, blank, text, limit, now);
    }
    forall dbs: seq<Tables>, ps: seq<Pass> | Run(cfg, limit, limit, dbs, ps) && dbs[0] == s.db
      ensures !Served(ps, limit)
    {
      if ps != [] {
        BlanksAreOlder(cfg, s.db, blank, text, limit, ps[0].now);
        OlderBlanksBlock(cfg, limit, limit, dbs, ps);
      }
    }
  }
}
