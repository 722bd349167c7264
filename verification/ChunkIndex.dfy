/**
 The chunk-build worker: which memories need their chunk rows rebuilt, how one memory is
 built, and how failures back off.  Times are whole microseconds.
 */
module ChunkIndex {
  import opened Wrappers
  import opened Chunking

  type Id = int

  const MINUTE: int := 60_000_000

  /** The chunker, the content hash, and the configured cap on attempts. */
  datatype Config = Config(split: string -> seq<string>, hash: string -> string, maxAttempts: int)

  /** `live` stands for: not deleted, current, indexable and not expired. */
  datatype Memory = Memory(content: string, hash: string, hasEmbedding: bool, live: bool, createdAt: int)

  datatype ChunkRow = ChunkRow(index: nat, text: string, sourceHash: string)

  datatype Backoff = Backoff(attempts: nat, nextAt: int, terminal: bool)

  datatype Tables = Tables(memories: map<Id, Memory>, chunks: map<Id, seq<ChunkRow>>, backoff: map<Id, Backoff>)

  /** What a pass reads of a candidate, and when. */
  datatype Fetched = Fetched(content: string, hash: string, hasEmbedding: bool, at: int)

  datatype Embedding = Vector | EmbedError(permanent: bool)

  datatype Outcome = Built | SkippedEmpty | FailedEmbed | FailedUnknown

  // ---------------------------------------------------------------------------
  // Candidates
  // ---------------------------------------------------------------------------

  function RowsOf(db: Tables, m: Id): seq<ChunkRow> {
    if m in db.chunks then db.chunks[m] else []
  }

  /** Some chunk row carries the memory's current hash. */
  predicate Fresh(db: Tables, m: Id) {
    m in db.memories && exists i :: 0 <= i < |RowsOf(db, m)| && RowsOf(db, m)[i].sourceHash == db.memories[m].hash
  }

  predicate Waiting(b: Option<Backoff>, now: int) {
    b.Some? && (b.value.terminal || b.value.nextAt > now)
  }

  function BackoffOf(db: Tables, m: Id): Option<Backoff> {
    if m in db.backoff then Some(db.backoff[m]) else None
  }

  predicate Candidate(db: Tables, m: Id, now: int) {
    m in db.memories && db.memories[m].live && !Fresh(db, m) && !Waiting(BackoffOf(db, m), now)
  }

  /** An answer of the candidate query: the oldest candidates in order, as many as the limit allows. */
  ghost predicate Oldest(db: Tables, batch: seq<Id>, limit: nat, now: int) {
    && |batch| <= limit
    && (forall i, j :: 0 <= i < j < |batch| ==> batch[i] != batch[j])
    && (forall k :: 0 <= k < |batch| ==> Candidate(db, batch[k], now))
    && (forall i, j :: 0 <= i < j < |batch| ==> db.memories[batch[i]].createdAt <= db.memories[batch[j]].createdAt)
    && (forall x, y :: x in batch && Candidate(db, y, now) && y !in batch ==>
          db.memories[x].createdAt <= db.memories[y].createdAt)
    && (|batch| < limit ==> forall x :: Candidate(db, x, now) ==> x in batch)
  }

  predicate IsOldest(db: Tables, s: set<Id>, x: Id)
    requires forall y :: y in s ==> y in db.memories
  {
    x in s && forall y :: y in s ==> db.memories[x].createdAt <= db.memories[y].createdAt
  }

  lemma {:induction false} OldestExists(db: Tables, s: set<Id>) returns (x: Id)
    requires s != {} && forall y :: y in s ==> y in db.memories
    ensures IsOldest(db, s, x)
  {
    var y := Pick(s);
    var others := s - {y};
    assert s == others + {y};
    if others == {} {
      x := y;
    } else {
      var z := OldestExists(db, others);
      x := if db.memories[y].createdAt <= db.memories[z].createdAt then y else z;
    }
  }

  /** `batch` is in order and without duplicates, and everything in it is at least as old as all of `left`. */
  ghost predicate Sorted(db: Tables, batch: seq<Id>, left: set<Id>) {
    && (forall x :: x in batch || x in left ==> x in db.memories)
    && (forall x :: x in batch ==> x !in left)
    && (forall i, j :: 0 <= i < j < |batch| ==>
          batch[i] != batch[j] && db.memories[batch[i]].createdAt <= db.memories[batch[j]].createdAt)
    && (forall x, y :: x in batch && y in left ==> db.memories[x].createdAt <= db.memories[y].createdAt)
  }

  lemma {:induction false} SortedSnoc(db: Tables, batch: seq<Id>, left: set<Id>, x: Id)
    requires Sorted(db, batch, left) && IsOldest(db, left, x)
    ensures Sorted(db, batch + [x], left - {x})
  {
    var more := batch + [x];
    forall i, j | 0 <= i < j < |more|
      ensures more[i] != more[j] && db.memories[more[i]].createdAt <= db.memories[more[j]].createdAt
    {
      assert more[i] in batch;
    }
  }

  function Fetch(db: Tables, m: Id, now: int): Fetched
    requires m in db.memories
  {
    var x := db.memories[m];
    Fetched(x.content, x.hash, x.hasEmbedding, now)
  }

  // ---------------------------------------------------------------------------
  // Failures
  // ---------------------------------------------------------------------------

  function Pow2(n: nat): nat {
    if n == 0 then 1 else 2 * Pow2(n - 1)
  }

  /** The delay after a failure that found `previous` earlier ones, as the statement computes it. */
  function DelayAfter(previous: nat): int {
    if previous == 0 then 5 * MINUTE
    else
      var doubled := 5 * MINUTE * Pow2(if previous < 7 then previous else 7);
      if doubled < 360 * MINUTE then doubled else 360 * MINUTE
  }

  function AfterFailure(cfg: Config, b: Option<Backoff>, permanent: bool, now: int): Backoff {
    var previous := if b.Some? then b.value.attempts else 0;
    Backoff(previous + 1, now + DelayAfter(previous), permanent || previous + 1 >= cfg.maxAttempts)
  }

  function Failed(cfg: Config, db: Tables, m: Id, permanent: bool, now: int): Tables {
    db.(backoff := db.backoff[m := AfterFailure(cfg, BackoffOf(db, m), permanent, now)])
  }

  // ---------------------------------------------------------------------------
  // Building one memory
  // ---------------------------------------------------------------------------

  function Numbered(texts: seq<string>, hash: string): seq<ChunkRow> {
    seq(|texts|, i requires 0 <= i < |texts| => ChunkRow(i, texts[i], hash))
  }

  /** The fast path copies the memory's own embedding, and re-reads its hash, in the database. */
  predicate SingleReuse(cfg: Config, f: Fetched) {
    |cfg.split(f.content)| == 1 && f.hasEmbedding
  }

  function NewRows(cfg: Config, db: Tables, m: Id, f: Fetched): seq<ChunkRow> {
    var texts := cfg.split(f.content);
    if !SingleReuse(cfg, f) then Numbered(texts, f.hash)
    else if m in db.memories then [ChunkRow(0, texts[0], db.memories[m].hash)]
    else []
  }

  /** Delete and insert the rows and drop the failure record, in one transaction. */
  function Committed(cfg: Config, db: Tables, m: Id, f: Fetched): Tables {
    db.(chunks := db.chunks[m := NewRows(cfg, db, m, f)], backoff := db.backoff - {m})
  }

  /** The first embedding error among the texts; the loop stops there. */
  function FirstError(texts: seq<string>, embed: string -> Embedding): Option<bool> {
    if texts == [] then None
    else if embed(texts[0]).EmbedError? then Some(embed(texts[0]).permanent)
    else FirstError(texts[1..], embed)
  }

  function BuildOutcome(cfg: Config, f: Fetched, embed: string -> Embedding, broken: bool): Outcome {
    var texts := cfg.split(f.content);
    if texts == [] then SkippedEmpty
    else if !SingleReuse(cfg, f) && FirstError(texts, embed).Some? then FailedEmbed
    else if broken then FailedUnknown
    else Built
  }

  function AfterBuild(cfg: Config, db: Tables, m: Id, f: Fetched, embed: string -> Embedding,
                      broken: bool, now: int): Tables
  {
    match BuildOutcome(cfg, f, embed, broken)
    case SkippedEmpty => db
    case FailedEmbed => Failed(cfg, db, m, FirstError(cfg.split(f.content), embed) == Some(true), now)
    case FailedUnknown => Failed(cfg, db, m, false, now)
    case Built => Committed(cfg, db, m, f)
  }

  // ---------------------------------------------------------------------------
  // What a build shows afterwards
  // ---------------------------------------------------------------------------

  /** Embedding text `i` fails, and none before it does. */
  ghost predicate FirstFailure(texts: seq<string>, embed: string -> Embedding, i: int) {
    0 <= i < |texts| && embed(texts[i]).EmbedError? && forall j :: 0 <= j < i ==> embed(texts[j]).Vector?
  }

  lemma {:induction false} FirstErrorIsFirst(texts: seq<string>, embed: string -> Embedding)
    ensures FirstError(texts, embed).None? <==> forall i :: 0 <= i < |texts| ==> embed(texts[i]).Vector?
    ensures FirstError(texts, embed).Some? ==>
              exists i :: FirstFailure(texts, embed, i) && FirstError(texts, embed) == Some(embed(texts[i]).permanent)
  {
    if texts != [] && embed(texts[0]).EmbedError? {
      assert FirstFailure(texts, embed, 0);
    } else if texts != [] {
      FirstErrorIsFirst(texts[1..], embed);
      assert texts == [texts[0]] + texts[1..];
      if i :| FirstFailure(texts[1..], embed, i) && FirstError(texts, embed) == Some(embed(texts[1..][i]).permanent) {
        assert FirstFailure(texts, embed, i + 1);
      }
    }
  }

  /** One chunk and an embedding of the memory itself: nothing has to be embedded. */
  ghost predicate NeedsNoEmbedding(texts: seq<string>, f: Fetched) {
    |texts| == 1 && f.hasEmbedding
  }

  /** The rows that belong to the texts, with the fetched hash, or the current one if the embedding was copied. */
  ghost predicate RowsFor(rows: seq<ChunkRow>, texts: seq<string>, f: Fetched, db: Tables, m: Id) {
    if NeedsNoEmbedding(texts, f) && m !in db.memories then rows == []
    else
      && |rows| == |texts|
      && forall i :: 0 <= i < |rows| ==>
           && rows[i].index == i && rows[i].text == texts[i]
           && rows[i].sourceHash == (if NeedsNoEmbedding(texts, f) then db.memories[m].hash else f.hash)
  }

  /** One more failed attempt is on record, to be repeated after its delay unless it was the last. */
  ghost predicate FailureOnRecord(cfg: Config, was: Option<Backoff>, now: int, permanent: bool, b: Option<Backoff>) {
    && b.Some?
    && b.value.attempts == 1 + (if was.Some? then was.value.attempts else 0)
    && b.value.nextAt == now + DelayAfter(b.value.attempts - 1)
    && (b.value.terminal <==> permanent || b.value.attempts >= cfg.maxAttempts)
  }

  /** What building one memory does, case by case; other memories are never touched. */
  ghost predicate BuildShows(cfg: Config, db: Tables, after: Tables, outcome: Outcome, texts: seq<string>, m: Id,
                             f: Fetched, embed: string -> Embedding, broken: bool, now: int)
  {
    && after.memories == db.memories
    && (forall x :: x != m ==> RowsOf(after, x) == RowsOf(db, x) && BackoffOf(after, x) == BackoffOf(db, x))
    && (texts == [] ==> outcome == SkippedEmpty && after == db)
    && (texts != [] && !NeedsNoEmbedding(texts, f) ==>
          forall i :: FirstFailure(texts, embed, i) ==>
            && outcome == FailedEmbed && after.chunks == db.chunks
            && FailureOnRecord(cfg, BackoffOf(db, m), now, embed(texts[i]).permanent, BackoffOf(after, m)))
    && (texts != [] && (NeedsNoEmbedding(texts, f) || forall i :: 0 <= i < |texts| ==> embed(texts[i]).Vector?) ==>
          if broken then
            && outcome == FailedUnknown && after.chunks == db.chunks
            && FailureOnRecord(cfg, BackoffOf(db, m), now, false, BackoffOf(after, m))
          else
            outcome == Built && RowsFor(RowsOf(after, m), texts, f, db, m) && BackoffOf(after, m) == None)
  }

  lemma {:induction false} FirstFailureIsUnique(texts: seq<string>, embed: string -> Embedding, i: int, j: int)
    requires FirstFailure(texts, embed, i) && FirstFailure(texts, embed, j)
    ensures i == j
  {
  }

  lemma {:induction false} FailureShows(cfg: Config, db: Tables, m: Id, permanent: bool, now: int)
    ensures FailureOnRecord(cfg, BackoffOf(db, m), now, permanent, BackoffOf(Failed(cfg, db, m, permanent, now), m))
  {
  }

  /**
   A build skips a memory without chunks; records a failure, of the kind of the first embed call that
   fails, or of no special kind if the insert fails; and otherwise leaves the memory's numbered
   chunks and no failure record.
   */
  lemma {:induction false} BuildIsAsTold(cfg: Config, db: Tables, m: Id, f: Fetched, embed: string -> Embedding,
                                         broken: bool, now: int)
    ensures BuildShows(cfg, db, AfterBuild(cfg, db, m, f, embed, broken, now), BuildOutcome(cfg, f, embed, broken),
                       cfg.split(f.content), m, f, embed, broken, now)
  {
    var texts, after := cfg.split(f.content), AfterBuild(cfg, db, m, f, embed, broken, now);
    FirstErrorIsFirst(texts, embed);
    forall i | FirstFailure(texts, embed, i)
      ensures FirstError(texts, embed) == Some(embed(texts[i]).permanent)
    {
      var j :| FirstFailure(texts, embed, j) && FirstError(texts, embed) == Some(embed(texts[j]).permanent);
      FirstFailureIsUnique(texts, embed, i, j);
    }
    FailureShows(cfg, db, m, FirstError(texts, embed) == Some(true), now);
    FailureShows(cfg, db, m, false, now);
    if BuildOutcome(cfg, f, embed, broken) == Built {
      assert RowsOf(after, m) == NewRows(cfg, db, m, f);
    }
  }

  class ChunkStore {
    const cfg: Config
    var memories: map<Id, Memory>
    var chunks: map<Id, seq<ChunkRow>>
    var backoff: map<Id, Backoff>

    ghost function View(): Tables
      reads this
    {
      Tables(memories, chunks, backoff)
    }

    /** The chunker is the one of this project. */
    ghost predicate Valid() {
      forall c :: cfg.split(c) == Chunks(c)
    }

    constructor (hash: string -> string, maxAttempts: int, db: Tables)
      ensures Valid() && View() == db && cfg.hash == hash && cfg.maxAttempts == maxAttempts
    {
      cfg := Config(c => Chunks(c), hash, maxAttempts);
      memories, chunks, backoff := db.memories, db.chunks, db.backoff;
    }

    method RecordFailure(m: Id, permanent: bool, now: int)
      modifies this`backoff
      ensures View() == Failed(cfg, old(View()), m, permanent, now)
    {
      if m !in backoff {
        backoff := backoff[m := Backoff(1, now + 5 * MINUTE, permanent || 1 >= cfg.maxAttempts)];
      } else {
        var s := backoff[m];
        backoff := backoff[m := Backoff(s.attempts + 1, now + DelayAfter(s.attempts),
                                        permanent || s.attempts + 1 >= cfg.maxAttempts)];
      }
    }

    static method EmbedAll(texts: seq<string>, embed: string -> Embedding) returns (error: Option<bool>)
      ensures error == FirstError(texts, embed)
      ensures error.None? <==> forall i :: 0 <= i < |texts| ==> embed(texts[i]).Vector?
      ensures error.Some? ==> exists i :: FirstFailure(texts, embed, i) && error == Some(embed(texts[i]).permanent)
    {
      FirstErrorIsFirst(texts, embed);
      assert texts[0..] == texts;
      for k := 0 to |texts|
        invariant FirstError(texts, embed) == FirstError(texts[k..], embed)
      {
        assert texts[k..][0] == texts[k] && texts[k..][1..] == texts[k + 1..];
        var e := embed(texts[k]);
        if e.EmbedError? {
          return Some(e.permanent);
        }
      }
      return None;
    }

    /** The insert loop. */
    static method NumberAll(texts: seq<string>, hash: string) returns (rows: seq<ChunkRow>)
      ensures rows == Numbered(texts, hash)
    {
      rows := [];
      for i := 0 to |texts|
        invariant rows == Numbered(texts[..i], hash)
      {
        rows := rows + [ChunkRow(i, texts[i], hash)];
      }
      assert texts[..|texts|] == texts;
    }

    /** One memory; `broken` says that the insert transaction fails. */
    method BuildChunksForMemory(m: Id, f: Fetched, embed: string -> Embedding, broken: bool, now: int)
      returns (outcome: Outcome)
      requires Valid()
      modifies this
      ensures outcome == BuildOutcome(cfg, f, embed, broken)
      ensures View() == AfterBuild(cfg, old(View()), m, f, embed, broken, now)
      ensures BuildShows(cfg, old(View()), View(), outcome, Chunks(f.content), m, f, embed, broken, now)
    {
      BuildIsAsTold(cfg, View(), m, f, embed, broken, now);
      assert cfg.split(f.content) == Chunks(f.content);
      var texts := SplitIntoChunks(f.content);
      assert texts == cfg.split(f.content);
      if texts == [] {
        return SkippedEmpty;
      }
      var single := |texts| == 1 && f.hasEmbedding;
      if !single {
        var error := EmbedAll(texts, embed);
        if error.Some? {
          RecordFailure(m, error.value, now);
          return FailedEmbed;
        }
      }
      if broken {
        RecordFailure(m, false, now);
        return FailedUnknown;
      }
      var rows;
      if single {
        rows := if m in memories then [ChunkRow(0, texts[0], memories[m].hash)] else [];
      } else {
        rows := NumberAll(texts, f.hash);
      }
      chunks := chunks[m := rows];
      backoff := backoff - {m};
      return Built;
    }

    /** Build one memory and count its outcome. */
    method BuildOne(m: Id, f: Fetched, tally0: Tally, embed: string -> Embedding, broken: bool, now: int)
      returns (tally: Tally)
      requires Valid()
      modifies this
      ensures tally == Counted(tally0, BuildOutcome(cfg, f, embed, broken))
      ensures View() == AfterBuild(cfg, old(View()), m, f, embed, broken, now)
    {
      var outcome := BuildChunksForMemory(m, f, embed, broken, now);
      tally := Counted(tally0, outcome);
    }

    /** `ORDER BY created_at LIMIT ...` over the candidates. */
    method FetchCandidates(limit: nat, now: int) returns (batch: seq<Id>)
      ensures Oldest(View(), batch, limit, now)
    {
      var db := Tables(memories, chunks, backoff);
      var left := set m | m in memories && Candidate(db, m, now);
      batch := [];
      while |batch| < limit && left != {}
        invariant |batch| <= limit && Sorted(db, batch, left)
        invariant forall x :: Candidate(db, x, now) <==> x in batch || x in left
        decreases left
      {
        ghost var some := OldestExists(db, left);
        var x :| x in left && IsOldest(db, left, x);
        SortedSnoc(db, batch, left, x);
        batch, left := batch + [x], left - {x};
      }
    }

    /** One whole pass: fetch the oldest candidates, then build each of them. */
    method RunChunkBuild(limit: nat, embed: string -> Embedding, broken: set<Id>, now: int)
      returns (tally: Tally, ghost batch: seq<Id>)
      requires Valid()
      modifies this
      ensures Oldest(old(View()), batch, limit, now)
      ensures forall m :: AloneFor(cfg, old(View()), View(), batch, m, embed, broken, now)
      ensures tally.processed == |batch| == tally.built + tally.skipped + tally.failedEmbed + tally.failedUnknown
      ensures Tells(cfg, old(View()), tally, batch, embed, broken, now)
    {
      var fetched := FetchCandidates(limit, now);
      batch := fetched;
      tally := RunPass(fetched, embed, broken, now);
    }

    /**
     One pass over fetched candidates: each gets what building it alone would have given it,
     whatever the order, and nothing else changes.
     */
    method RunPass(batch: seq<Id>, embed: string -> Embedding, broken: set<Id>, now: int) returns (tally: Tally)
      requires Valid()
      requires forall k :: 0 <= k < |batch| ==> Candidate(View(), batch[k], now)
      requires forall i, j :: 0 <= i < j < |batch| ==> batch[i] != batch[j]
      modifies this
      ensures forall m :: AloneFor(cfg, old(View()), View(), batch, m, embed, broken, now)
      ensures tally.processed == |batch| == tally.built + tally.skipped + tally.failedEmbed + tally.failedUnknown
      ensures Tells(cfg, old(View()), tally, batch, embed, broken, now)
    {
      ghost var db0 := View();
      var read := memories;
      tally := Tally(|batch|, 0, 0, 0, 0);
      for k := 0 to |batch|
        invariant Progress(cfg, db0, View(), tally, |batch|, batch[..k], embed, broken, now)
      {
        var m := batch[k];
        assert Candidate(db0, m, now);
        var f := Fetched(read[m].content, read[m].hash, read[m].hasEmbedding, now);
        ProgressNext(cfg, db0, View(), tally, batch, k, embed, broken, now);
        tally := BuildOne(m, f, tally, embed, m in broken, now);
      }
      assert batch[..|batch|] == batch;
      TallyAddsUp(cfg, db0, tally, batch, embed, broken, now);
    }
  }

  datatype Tally = Tally(processed: nat, built: nat, skipped: nat, failedEmbed: nat, failedUnknown: nat)

  function Counted(t: Tally, o: Outcome): Tally {
    match o
    case Built => t.(built := t.built + 1)
    case SkippedEmpty => t.(skipped := t.skipped + 1)
    case FailedEmbed => t.(failedEmbed := t.failedEmbed + 1)
    case FailedUnknown => t.(failedUnknown := t.failedUnknown + 1)
  }

  /** How many memories of the batch have the outcome. */
  ghost function Times(cfg: Config, db: Tables, batch: seq<Id>, embed: string -> Embedding, broken: set<Id>, now: int,
                       o: Outcome): nat
  {
    if batch == [] then 0
    else
      var front, m := batch[..|batch| - 1], batch[|batch| - 1];
      Times(cfg, db, front, embed, broken, now, o)
      + if m in db.memories && BuildOutcome(cfg, Fetch(db, m, now), embed, m in broken) == o then 1 else 0
  }

  /** Each field counts the memories with its own outcome. */
  ghost predicate Tells(cfg: Config, db: Tables, t: Tally, batch: seq<Id>, embed: string -> Embedding, broken: set<Id>,
                        now: int)
  {
    && t.built == Times(cfg, db, batch, embed, broken, now, Built)
    && t.skipped == Times(cfg, db, batch, embed, broken, now, SkippedEmpty)
    && t.failedEmbed == Times(cfg, db, batch, embed, broken, now, FailedEmbed)
    && t.failedUnknown == Times(cfg, db, batch, embed, broken, now, FailedUnknown)
  }

  lemma {:induction false} TellsNext(cfg: Config, db: Tables, t: Tally, batch: seq<Id>, m: Id,
                                     embed: string -> Embedding, broken: set<Id>, now: int)
    requires m in db.memories && Tells(cfg, db, t, batch, embed, broken, now)
    ensures Tells(cfg, db, Counted(t, BuildOutcome(cfg, Fetch(db, m, now), embed, m in broken)), batch + [m],
                  embed, broken, now)
  {
    assert (batch + [m])[..|batch|] == batch;
  }

  /** The memories in `done` are built and counted, the others are as they were. */
  ghost predicate Progress(cfg: Config, db0: Tables, db: Tables, t: Tally, n: nat, done: seq<Id>,
                           embed: string -> Embedding, broken: set<Id>, now: int)
  {
    && t.processed == n && Tells(cfg, db0, t, done, embed, broken, now)
    && forall m :: AloneFor(cfg, db0, db, done, m, embed, broken, now)
  }

  lemma {:induction false} ProgressNext(cfg: Config, db0: Tables, db: Tables, t: Tally, batch: seq<Id>, k: nat,
                                        embed: string -> Embedding, broken: set<Id>, now: int)
    requires NoDuplicates(batch) && k < |batch| && batch[k] in db0.memories
    requires Progress(cfg, db0, db, t, |batch|, batch[..k], embed, broken, now)
    ensures Progress(cfg, db0,
                     AfterBuild(cfg, db, batch[k], Fetch(db0, batch[k], now), embed, batch[k] in broken, now),
                     Counted(t, BuildOutcome(cfg, Fetch(db0, batch[k], now), embed, batch[k] in broken)),
                     |batch|, batch[..k + 1], embed, broken, now)
  {
    var m := batch[k];
    assert batch[..k + 1] == batch[..k] + [m];
    TellsNext(cfg, db0, t, batch[..k], m, embed, broken, now);
    PassStep(cfg, db0, db, batch[..k], m, embed, broken, now);
  }

  /** The outcomes add up to the batch. */
  lemma {:induction false} TallyAddsUp(cfg: Config, db: Tables, t: Tally, batch: seq<Id>, embed: string -> Embedding,
                                       broken: set<Id>, now: int)
    requires Tells(cfg, db, t, batch, embed, broken, now) && forall m :: m in batch ==> m in db.memories
    ensures t.built + t.skipped + t.failedEmbed + t.failedUnknown == |batch|
    decreases |batch|
  {
    if batch != [] {
      var front := batch[..|batch| - 1];
      var before := Tally(0, Times(cfg, db, front, embed, broken, now, Built),
                          Times(cfg, db, front, embed, broken, now, SkippedEmpty),
                          Times(cfg, db, front, embed, broken, now, FailedEmbed),
                          Times(cfg, db, front, embed, broken, now, FailedUnknown));
      TallyAddsUp(cfg, db, before, front, embed, broken, now);
      assert batch[|batch| - 1] in batch;
    }
  }

  /** The two agree on everything about one memory. */
  ghost predicate SameFor(a: Tables, b: Tables, m: Id) {
    && (m in a.memories <==> m in b.memories) && (m in a.memories ==> a.memories[m] == b.memories[m])
    && RowsOf(a, m) == RowsOf(b, m)
    && BackoffOf(a, m) == BackoffOf(b, m)
  }

  /** What became of one memory is what building it alone would have done, if it is in the batch. */
  ghost predicate AloneFor(cfg: Config, db0: Tables, db: Tables, batch: seq<Id>, m: Id,
                           embed: string -> Embedding, broken: set<Id>, now: int)
  {
    if m in batch && m in db0.memories
    then SameFor(db, AfterBuild(cfg, db0, m, Fetch(db0, m, now), embed, m in broken, now), m)
    else SameFor(db, db0, m)
  }

  /** Building a memory touches nothing of another. */
  lemma {:induction false} BuildKeepsOthers(cfg: Config, db: Tables, m: Id, f: Fetched,
                                            embed: string -> Embedding, broken: bool, now: int, other: Id)
    requires other != m
    ensures SameFor(AfterBuild(cfg, db, m, f, embed, broken, now), db, other)
  {
  }

  lemma {:induction false} CommitReadsOwn(cfg: Config, a: Tables, b: Tables, m: Id, f: Fetched)
    requires SameFor(a, b, m)
    ensures SameFor(Committed(cfg, a, m, f), Committed(cfg, b, m, f), m)
  {
  }

  lemma {:induction false} FailReadsOwn(cfg: Config, a: Tables, b: Tables, m: Id, permanent: bool, now: int)
    requires SameFor(a, b, m)
    ensures SameFor(Failed(cfg, a, m, permanent, now), Failed(cfg, b, m, permanent, now), m)
  {
  }

  /** Building a memory reads nothing of another. */
  lemma {:induction false} BuildReadsOwn(cfg: Config, a: Tables, b: Tables, m: Id, f: Fetched,
                                         embed: string -> Embedding, broken: bool, now: int)
    requires SameFor(a, b, m)
    ensures SameFor(AfterBuild(cfg, a, m, f, embed, broken, now), AfterBuild(cfg, b, m, f, embed, broken, now), m)
  {
    match BuildOutcome(cfg, f, embed, broken)
    case SkippedEmpty =>
    case Built => CommitReadsOwn(cfg, a, b, m, f);
    case FailedUnknown => FailReadsOwn(cfg, a, b, m, false, now);
    case FailedEmbed => FailReadsOwn(cfg, a, b, m, FirstError(cfg.split(f.content), embed) == Some(true), now);
  }

  lemma {:induction false} PassStep(cfg: Config, db0: Tables, db1: Tables, done: seq<Id>, m: Id,
                                    embed: string -> Embedding, broken: set<Id>, now: int)
    requires m in db0.memories && m !in done
    requires forall x :: AloneFor(cfg, db0, db1, done, x, embed, broken, now)
    ensures var db2, more := AfterBuild(cfg, db1, m, Fetch(db0, m, now), embed, m in broken, now), done + [m];
            forall x :: AloneFor(cfg, db0, db2, more, x, embed, broken, now)
  {
    var f, more := Fetch(db0, m, now), done + [m];
    var db2 := AfterBuild(cfg, db1, m, f, embed, m in broken, now);
    forall x
      ensures AloneFor(cfg, db0, db2, more, x, embed, broken, now)
    {
      assert AloneFor(cfg, db0, db1, done, x, embed, broken, now);
      if x == m {
        BuildReadsOwn(cfg, db1, db0, m, f, embed, m in broken, now);
      } else {
        BuildKeepsOthers(cfg, db1, m, f, embed, m in broken, now, x);
      }
    }
  }

  // ---------------------------------------------------------------------------
  // A handled candidate leaves the queue
  // ---------------------------------------------------------------------------

  lemma {:induction false} DelayIsPositive(previous: nat)
    ensures DelayAfter(previous) > 0
  {
    var n := if previous < 7 then previous else 7;
    assert Pow2(n) >= 1 by { Pow2Positive(n); }
  }

  lemma {:induction false} Pow2Positive(n: nat)
    ensures Pow2(n) >= 1
  {
    if n > 0 {
      Pow2Positive(n - 1);
    }
  }

  /**
   A candidate that a pass has handled is a candidate no longer, unless its content has no
   chunks at all: such a memory is selected again by every pass.
   */
  lemma {:induction false} HandledLeavesQueue(cfg: Config, db: Tables, m: Id, embed: string -> Embedding,
                                              broken: bool, now: int)
    requires Candidate(db, m, now)
    ensures Candidate(AfterBuild(cfg, db, m, Fetch(db, m, now), embed, broken, now), m, now)
       <==> cfg.split(db.memories[m].content) == []
  {
    var f := Fetch(db, m, now);
    var db' := AfterBuild(cfg, db, m, f, embed, broken, now);
    match BuildOutcome(cfg, f, embed, broken)
    case SkippedEmpty =>
    case Built =>
      assert RowsOf(db', m) == NewRows(cfg, db, m, f);
      assert RowsOf(db', m)[0].sourceHash == db.memories[m].hash;
    case _ =>
      DelayIsPositive(if BackoffOf(db, m).Some? then BackoffOf(db, m).value.attempts else 0);
  }
}
