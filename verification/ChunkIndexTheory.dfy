/**
 The chunk index over whole runs of writes, updates and build passes, in which content may
 change between a pass's fetch and its commit: when the rows of a memory belong to a content
 it had, what freshness means, and how failures are spaced.
 */
module ChunkIndexTheory {
  import opened Wrappers
  import opened ChunkIndex
  import Chunking
  import ContentHash
  import opened Text

  /** One failed build: when it was fetched, when its failure was recorded, and of which kind. */
  datatype Try = Try(fetchedAt: int, failedAt: int, permanent: bool)

  /**
   The tables and the clock; the candidates a pass has fetched and not handled yet; and two
   histories: the contents each memory had, and its failed builds since the last success.
   */
  datatype System = System(db: Tables, now: int, inFlight: map<Id, Fetched>,
                           contents: map<Id, set<string>>, tries: map<Id, seq<Try>>)

  datatype Event =
    | Write(m: Id, content: string, embedded: bool)
    | Update(m: Id, content: string, embedded: bool)
    | SetLive(m: Id, live: bool)
    | Tick(to: int)
    | Select(m: Id)
    | Skip(m: Id)
    | Fail(m: Id, permanent: bool)
    | Commit(m: Id)
    | Drop(m: Id)

  /** Passes do not overlap: a memory is fetched again only after its build has ended. */
  ghost predicate Enabled(cfg: Config, s: System, e: Event) {
    match e
    case Write(m, _, _) => m !in s.db.memories
    case Update(m, _, _) => m in s.db.memories
    case SetLive(m, _) => m in s.db.memories
    case Tick(to) => s.now <= to
    case Select(m) => Candidate(s.db, m, s.now) && m !in s.inFlight
    case Skip(m) => m in s.inFlight && cfg.split(s.inFlight[m].content) == []
    case Fail(m, _) => m in s.inFlight && cfg.split(s.inFlight[m].content) != []
    case Commit(m) => m in s.inFlight && cfg.split(s.inFlight[m].content) != []
    case Drop(m) => m in s.inFlight
  }

  ghost function ContentsOf(s: System, m: Id): set<string> {
    if m in s.contents then s.contents[m] else {}
  }

  ghost function TriesOf(s: System, m: Id): seq<Try> {
    if m in s.tries then s.tries[m] else []
  }

  ghost function Store(cfg: Config, s: System, m: Id, content: string, embedded: bool,
                       live: bool, createdAt: int): System
  {
    s.(db := s.db.(memories := s.db.memories[m := Memory(content, cfg.hash(content), embedded, live, createdAt)]),
       contents := s.contents[m := ContentsOf(s, m) + {content}])
  }

  ghost function Apply(cfg: Config, s: System, e: Event): System
    requires Enabled(cfg, s, e)
  {
    match e
    case Write(m, c, emb) => Store(cfg, s, m, c, emb, true, s.now)
    case Update(m, c, emb) => Store(cfg, s, m, c, emb, s.db.memories[m].live, s.db.memories[m].createdAt)
    case SetLive(m, b) => s.(db := s.db.(memories := s.db.memories[m := s.db.memories[m].(live := b)]))
    case Tick(to) => s.(now := to)
    case Select(m) => s.(inFlight := s.inFlight[m := Fetch(s.db, m, s.now)])
    case Skip(m) => s.(inFlight := s.inFlight - {m})
    case Fail(m, permanent) =>
      s.(db := Failed(cfg, s.db, m, permanent, s.now), inFlight := s.inFlight - {m},
         tries := s.tries[m := TriesOf(s, m) + [Try(s.inFlight[m].at, s.now, permanent)]])
    case Commit(m) =>
      s.(db := Committed(cfg, s.db, m, s.inFlight[m]), inFlight := s.inFlight - {m},
         tries := s.tries[m := []])
    case Drop(m) => s.(inFlight := s.inFlight - {m})
  }

  /** The event that a build with this outcome stands for. */
  ghost predicate StandsFor(o: Outcome, e: Event, m: Id) {
    match o
    case SkippedEmpty => e == Skip(m)
    case Built => e == Commit(m)
    case FailedUnknown => e == Fail(m, false)
    case FailedEmbed => e.Fail? && e.m == m
  }

  /**
   Building a fetched memory is a step of this system: what it leaves in the tables is what the event
   of its outcome leaves, and a failure is permanent exactly if the first embed call that fails is.
   */
  lemma {:induction false} BuildIsStep(cfg: Config, s: System, m: Id, embed: string -> Embedding, broken: bool)
    returns (e: Event)
    requires m in s.inFlight
    ensures StandsFor(BuildOutcome(cfg, s.inFlight[m], embed, broken), e, m) && Enabled(cfg, s, e)
    ensures Apply(cfg, s, e).db == AfterBuild(cfg, s.db, m, s.inFlight[m], embed, broken, s.now)
    ensures e.Fail? ==>
              (e.permanent <==> exists i :: FirstFailure(cfg.split(s.inFlight[m].content), embed, i)
                                            && embed(cfg.split(s.inFlight[m].content)[i]).permanent
                                            && !SingleReuse(cfg, s.inFlight[m]))
  {
    var f := s.inFlight[m];
    var texts := cfg.split(f.content);
    FirstErrorIsFirst(texts, embed);
    match BuildOutcome(cfg, f, embed, broken)
    case SkippedEmpty => e := Skip(m);
    case Built => e := Commit(m);
    case FailedUnknown => e := Fail(m, false);
    case FailedEmbed =>
      e := Fail(m, FirstError(texts, embed) == Some(true));
      var i :| FirstFailure(texts, embed, i) && FirstError(texts, embed) == Some(embed(texts[i]).permanent);
      forall j | FirstFailure(texts, embed, j)
        ensures j == i
      {
        FirstFailureIsUnique(texts, embed, i, j);
      }
  }

  // ---------------------------------------------------------------------------
  // The index
  // ---------------------------------------------------------------------------

  /** The memory's rows are the numbered chunks of the content `c`, tagged with its hash. */
  ghost predicate SplitFrom(cfg: Config, s: System, m: Id, c: string) {
    RowsOf(s.db, m) == Numbered(cfg.split(c), cfg.hash(c))
  }

  /** No chunk rows, or those of one content the memory had. */
  ghost predicate IndexOk(cfg: Config, s: System, m: Id) {
    RowsOf(s.db, m) == [] || exists c :: c in ContentsOf(s, m) && SplitFrom(cfg, s, m, c)
  }

  /** Hashes belong to contents, and what was fetched was once stored. */
  ghost predicate SourceOk(cfg: Config, s: System, m: Id) {
    && (m in s.db.memories ==>
          && s.db.memories[m].hash == cfg.hash(s.db.memories[m].content)
          && s.db.memories[m].content in ContentsOf(s, m))
    && (m in s.inFlight ==>
          && m in s.db.memories
          && s.inFlight[m].hash == cfg.hash(s.inFlight[m].content)
          && s.inFlight[m].content in ContentsOf(s, m))
  }

  ghost predicate SourcesOk(cfg: Config, s: System) {
    forall m :: SourceOk(cfg, s, m)
  }

  lemma {:induction false} StepKeepsSources(cfg: Config, s: System, e: Event)
    requires SourcesOk(cfg, s) && Enabled(cfg, s, e)
    ensures SourcesOk(cfg, Apply(cfg, s, e))
  {
    forall m
      ensures SourceOk(cfg, Apply(cfg, s, e), m)
    {
      assert SourceOk(cfg, s, m);
    }
  }

  /** A commit on the fast path after the memory's hash has changed since the fetch. */
  ghost predicate Races(cfg: Config, s: System, e: Event) {
    && e.Commit? && e.m in s.inFlight && e.m in s.db.memories
    && SingleReuse(cfg, s.inFlight[e.m]) && s.db.memories[e.m].hash != s.inFlight[e.m].hash
  }

  /** Some content the memory had has the current hash and the chunks that were fetched. */
  ghost predicate Excused(cfg: Config, s: System, m: Id)
    requires m in s.inFlight && m in s.db.memories
  {
    exists c :: c in ContentsOf(s, m) && cfg.hash(c) == s.db.memories[m].hash
                && cfg.split(c) == cfg.split(s.inFlight[m].content)
  }

  /** A race that leaves rows which belong to no content of the memory. */
  ghost predicate HarmfulRace(cfg: Config, s: System, e: Event) {
    Races(cfg, s, e) && !Excused(cfg, s, e.m)
  }

  lemma {:induction false} NumberedInjective(a: seq<string>, h: string, b: seq<string>, k: string)
    requires a != []
    ensures Numbered(a, h) == Numbered(b, k) <==> a == b && h == k
  {
    if Numbered(a, h) == Numbered(b, k) {
      assert |a| == |Numbered(a, h)| == |b|;
      forall i | 0 <= i < |a|
        ensures a[i] == b[i] && h == k
      {
        assert Numbered(a, h)[i] == ChunkRow(i, a[i], h) && Numbered(b, k)[i] == ChunkRow(i, b[i], k);
      }
      assert h == k by {
        assert Numbered(a, h)[0] == ChunkRow(0, a[0], h) && Numbered(b, k)[0] == ChunkRow(0, b[0], k);
      }
    }
  }

  /** What a commit writes: the fetched chunks, tagged with the current hash on the fast path. */
  lemma {:induction false} CommitWrites(cfg: Config, s: System, m: Id)
    requires SourcesOk(cfg, s) && Enabled(cfg, s, Commit(m))
    ensures m in s.db.memories
    ensures RowsOf(Apply(cfg, s, Commit(m)).db, m)
         == Numbered(cfg.split(s.inFlight[m].content),
                     if SingleReuse(cfg, s.inFlight[m]) then s.db.memories[m].hash else s.inFlight[m].hash)
  {
    assert SourceOk(cfg, s, m);
    var f := s.inFlight[m];
    if SingleReuse(cfg, f) {
      assert NewRows(cfg, s.db, m, f) == Numbered(cfg.split(f.content), s.db.memories[m].hash);
    }
  }

  /**
   A commit leaves the index in order exactly if it does not race with an update, or some content
   the memory had has the current hash and the fetched chunks.
   */
  lemma {:induction false} CommitKeepsIndexExactly(cfg: Config, s: System, m: Id)
    requires SourcesOk(cfg, s) && Enabled(cfg, s, Commit(m))
    ensures IndexOk(cfg, Apply(cfg, s, Commit(m)), m) <==> !HarmfulRace(cfg, s, Commit(m))
  {
    CommitWrites(cfg, s, m);
    assert SourceOk(cfg, s, m);
    var f, t := s.inFlight[m], Apply(cfg, s, Commit(m));
    var texts := cfg.split(f.content);
    var tag := if SingleReuse(cfg, f) then s.db.memories[m].hash else f.hash;
    assert |RowsOf(t.db, m)| == |texts| > 0;
    forall c
      ensures SplitFrom(cfg, t, m, c) <==> cfg.split(c) == texts && cfg.hash(c) == tag
    {
      NumberedInjective(texts, tag, cfg.split(c), cfg.hash(c));
    }
    assert ContentsOf(t, m) == ContentsOf(s, m);
    if !Races(cfg, s, Commit(m)) {
      assert SplitFrom(cfg, t, m, f.content);
    }
  }

  lemma {:induction false} StepKeepsIndex(cfg: Config, s: System, e: Event, m: Id)
    requires SourcesOk(cfg, s) && Enabled(cfg, s, e) && IndexOk(cfg, s, m) && !HarmfulRace(cfg, s, e)
    ensures IndexOk(cfg, Apply(cfg, s, e), m)
  {
    var t := Apply(cfg, s, e);
    if e.Commit? && e.m == m {
      CommitKeepsIndexExactly(cfg, s, m);
    } else if RowsOf(s.db, m) != [] {
      var c :| c in ContentsOf(s, m) && SplitFrom(cfg, s, m, c);
      assert c in ContentsOf(t, m) && SplitFrom(cfg, t, m, c);
    }
  }

  // ---------------------------------------------------------------------------
  // Whole runs
  // ---------------------------------------------------------------------------

  ghost predicate StepAt(cfg: Config, ss: seq<System>, es: seq<Event>, i: nat)
    requires i < |es| && i + 1 < |ss|
  {
    Enabled(cfg, ss[i], es[i]) && ss[i + 1] == Apply(cfg, ss[i], es[i])
  }

  ghost predicate Run(cfg: Config, ss: seq<System>, es: seq<Event>) {
    && |ss| == |es| + 1
    && ss[0] == System(Tables(map[], map[], map[]), 0, map[], map[], map[])
    && forall i :: 0 <= i < |es| ==> StepAt(cfg, ss, es, i)
  }

  ghost predicate NoHarmfulRaces(cfg: Config, ss: seq<System>, es: seq<Event>)
    requires Run(cfg, ss, es)
  {
    forall i :: 0 <= i < |es| ==> !HarmfulRace(cfg, ss[i], es[i])
  }

  lemma {:induction false} SourcesAlways(cfg: Config, ss: seq<System>, es: seq<Event>, n: nat)
    requires Run(cfg, ss, es) && n < |ss|
    ensures SourcesOk(cfg, ss[n])
  {
    if n == 0 {
      assert forall m :: SourceOk(cfg, ss[0], m);
    } else {
      SourcesAlways(cfg, ss, es, n - 1);
      assert StepAt(cfg, ss, es, n - 1);
      StepKeepsSources(cfg, ss[n - 1], es[n - 1]);
    }
  }

  /** In every run without such races the index is in order for every memory. */
  lemma {:induction false} IndexAlwaysOk(cfg: Config, ss: seq<System>, es: seq<Event>, n: nat, m: Id)
    requires Run(cfg, ss, es) && NoHarmfulRaces(cfg, ss, es) && n < |ss|
    ensures IndexOk(cfg, ss[n], m)
  {
    if n > 0 {
      IndexAlwaysOk(cfg, ss, es, n - 1, m);
      SourcesAlways(cfg, ss, es, n - 1);
      assert StepAt(cfg, ss, es, n - 1);
      assert !HarmfulRace(cfg, ss[n - 1], es[n - 1]);
      StepKeepsIndex(cfg, ss[n - 1], es[n - 1], m);
    }
  }

  /**
   With the content hash of the write path: rows that are treated as fresh were split from a
   content the memory had, whose normal form is that of the current content.
   */
  lemma {:induction false} FreshMeansSameNormalForm(cfg: Config, h: ContentHash.Hasher,
                                                    ss: seq<System>, es: seq<Event>, n: nat, m: Id) returns (c: string)
    requires Run(cfg, ss, es) && NoHarmfulRaces(cfg, ss, es) && n < |ss|
    requires ContentHash.CollisionFree(h) && forall x :: cfg.hash(x) == ContentHash.HashContent(h, x)
    requires Fresh(ss[n].db, m)
    ensures c in ContentsOf(ss[n], m) && SplitFrom(cfg, ss[n], m, c)
    ensures ContentHash.NormalizeForHash(h, c) == ContentHash.NormalizeForHash(h, ss[n].db.memories[m].content)
  {
    var s := ss[n];
    IndexAlwaysOk(cfg, ss, es, n, m);
    SourcesAlways(cfg, ss, es, n);
    assert SourceOk(cfg, s, m);
    var i :| 0 <= i < |RowsOf(s.db, m)| && RowsOf(s.db, m)[i].sourceHash == s.db.memories[m].hash;
    c :| c in ContentsOf(s, m) && SplitFrom(cfg, s, m, c);
    assert cfg.hash(c) == cfg.hash(s.db.memories[m].content);
    ContentHash.HashIsNormalForm(h, c, s.db.memories[m].content);
  }

  /**
   A content update makes fresh rows stale exactly if it changes the hash; if it does not, the
   rows that stay are those of the new content exactly if the chunks are the same.
   */
  lemma {:induction false} UpdateNoticedExactly(cfg: Config, s: System, m: Id, c: string, embedded: bool, from: string)
    requires m in s.db.memories && Fresh(s.db, m) && SplitFrom(cfg, s, m, from)
    ensures var t := Apply(cfg, s, Update(m, c, embedded));
            && (Fresh(t.db, m) <==> cfg.hash(c) == s.db.memories[m].hash)
            && (Fresh(t.db, m) ==> (SplitFrom(cfg, t, m, c) <==> cfg.split(c) == cfg.split(from)))
  {
    var t := Apply(cfg, s, Update(m, c, embedded));
    var rows := RowsOf(s.db, m);
    assert RowsOf(t.db, m) == rows;
    assert |rows| == |cfg.split(from)|;
    assert rows[0] == ChunkRow(0, cfg.split(from)[0], cfg.hash(from));
    var i :| 0 <= i < |rows| && rows[i].sourceHash == s.db.memories[m].hash;
    assert cfg.hash(from) == s.db.memories[m].hash;
    assert Fresh(t.db, m) <==> cfg.hash(c) == cfg.hash(from) by {
      if cfg.hash(c) == cfg.hash(from) {
        assert RowsOf(t.db, m)[0].sourceHash == t.db.memories[m].hash;
      }
    }
    NumberedInjective(cfg.split(from), cfg.hash(from), cfg.split(c), cfg.hash(c));
  }

  /** An update that is noticed makes a live memory a candidate again, unless it is backing off or given up. */
  lemma {:induction false} NoticedUpdateIsQueued(cfg: Config, s: System, m: Id, c: string, embedded: bool, from: string)
    requires m in s.db.memories && s.db.memories[m].live && Fresh(s.db, m) && SplitFrom(cfg, s, m, from)
    ensures Candidate(Apply(cfg, s, Update(m, c, embedded)).db, m, s.now)
       <==> cfg.hash(c) != s.db.memories[m].hash && !Waiting(BackoffOf(s.db, m), s.now)
  {
    UpdateNoticedExactly(cfg, s, m, c, embedded, from);
  }

  ghost predicate Reachable(cfg: Config, s: System) {
    exists ss, es :: Run(cfg, ss, es) && s == ss[|es|]
  }

  lemma {:induction false} ReachInitial(cfg: Config)
    ensures Reachable(cfg, System(Tables(map[], map[], map[]), 0, map[], map[], map[]))
  {
    var s := System(Tables(map[], map[], map[]), 0, map[], map[], map[]);
    assert Run(cfg, [s], []);
    assert s == [s][0];
  }

  lemma {:induction false} ReachStep(cfg: Config, s: System, e: Event)
    requires Reachable(cfg, s) && Enabled(cfg, s, e)
    ensures Reachable(cfg, Apply(cfg, s, e))
  {
    var ss, es :| Run(cfg, ss, es) && s == ss[|es|];
    var t := Apply(cfg, s, e);
    var ss', es' := ss + [t], es + [e];
    forall i | 0 <= i < |es'|
      ensures StepAt(cfg, ss', es', i)
    {
      if i < |es| {
        assert StepAt(cfg, ss, es, i);
      }
    }
    assert Run(cfg, ss', es') && t == ss'[|es'|];
  }

  /**
   A race leaves the old text in the index, tagged with the new hash: the memory counts as
   fresh, so no later pass repairs it.
   */
  lemma {:induction false} RaceLeavesWrongText(cfg: Config, before: string, after: string) returns (s: System)
    requires |cfg.split(before)| == 1 && cfg.split(after) != cfg.split(before) && cfg.hash(before) != cfg.hash(after)
    ensures Reachable(cfg, s)
    ensures 1 in s.db.memories && s.db.memories[1].content == after
    ensures RowsOf(s.db, 1) == Numbered(cfg.split(before), cfg.hash(after))
    ensures forall now :: !Candidate(s.db, 1, now)
  {
    ReachInitial(cfg);
    var s0 := System(Tables(map[], map[], map[]), 0, map[], map[], map[]);
    var s1 := Apply(cfg, s0, Write(1, before, true));
    ReachStep(cfg, s0, Write(1, before, true));
    var s2 := Apply(cfg, s1, Select(1));
    ReachStep(cfg, s1, Select(1));
    var s3 := Apply(cfg, s2, Update(1, after, true));
    ReachStep(cfg, s2, Update(1, after, true));
    s := Apply(cfg, s3, Commit(1));
    ReachStep(cfg, s3, Commit(1));
    assert RowsOf(s.db, 1)[0].sourceHash == s.db.memories[1].hash;
  }

  /** An update that keeps the normal form keeps the old rows: fresh does not mean current text. */
  lemma {:induction false} FreshMayBeOldText(cfg: Config, before: string, after: string) returns (s: System)
    requires cfg.split(before) != [] && cfg.split(after) != cfg.split(before) && cfg.hash(before) == cfg.hash(after)
    ensures Reachable(cfg, s)
    ensures 1 in s.db.memories && s.db.memories[1].content == after && Fresh(s.db, 1)
    ensures RowsOf(s.db, 1) == Numbered(cfg.split(before), cfg.hash(after))
  {
    ReachInitial(cfg);
    var s0 := System(Tables(map[], map[], map[]), 0, map[], map[], map[]);
    var s1 := Apply(cfg, s0, Write(1, before, false));
    ReachStep(cfg, s0, Write(1, before, false));
    var s2 := Apply(cfg, s1, Select(1));
    ReachStep(cfg, s1, Select(1));
    var s3 := Apply(cfg, s2, Commit(1));
    ReachStep(cfg, s2, Commit(1));
    s := Apply(cfg, s3, Update(1, after, false));
    ReachStep(cfg, s3, Update(1, after, false));
    assert RowsOf(s.db, 1)[0].sourceHash == s.db.memories[1].hash;
  }

  /** A race between texts with the same chunks is harmless: the rows are those of the current content. */
  lemma {:induction false} HarmlessRace(cfg: Config, before: string, after: string) returns (s: System)
    requires |cfg.split(before)| == 1 && cfg.split(after) == cfg.split(before) && cfg.hash(before) != cfg.hash(after)
    ensures Reachable(cfg, s) && 1 in s.inFlight && Races(cfg, s, Commit(1)) && !HarmfulRace(cfg, s, Commit(1))
    ensures Enabled(cfg, s, Commit(1)) && SplitFrom(cfg, Apply(cfg, s, Commit(1)), 1, after)
  {
    ReachInitial(cfg);
    s := System(Tables(map[], map[], map[]), 0, map[], map[], map[]);
    ReachStep(cfg, s, Write(1, before, true));
    s := Apply(cfg, s, Write(1, before, true));
    ReachStep(cfg, s, Select(1));
    s := Apply(cfg, s, Select(1));
    ReachStep(cfg, s, Update(1, after, true));
    s := Apply(cfg, s, Update(1, after, true));
    assert after in ContentsOf(s, 1);
    assert Excused(cfg, s, 1);
    var rows := RowsOf(Apply(cfg, s, Commit(1)).db, 1);
    assert rows == Numbered(cfg.split(after), cfg.hash(after));
  }

  const PLAIN := ContentHash.Hasher(s => s, s => s, s => s)

  /** Such contents exist: with plain hashing, doubling a space inside a text changes only its chunks. */
  lemma {:induction false} SpaceEditKeepsHash()
    ensures ContentHash.CollisionFree(PLAIN)
    ensures ContentHash.HashContent(PLAIN, "a b") == ContentHash.HashContent(PLAIN, "a  b")
    ensures Chunking.Chunks("a b") == ["a b"] && Chunking.Chunks("a  b") == ["a  b"]
  {
    assert Strip("a b") == "a b" && Strip("a  b") == "a  b";
    ContentHash.CollapseFixes("a b");
    var t := "a  b";
    assert t[1..] == "  b" && RunEnd("  b", 1) == 2 && "  b"[2..] == "b";
    ContentHash.CollapseFixes("b");
    assert ContentHash.Collapse("  b") == " b";
  }

  /** Normalisation leaves the two texts as they are, and lower-casing makes them equal. */
  ghost predicate FoldsCase(h: ContentHash.Hasher) {
    h.nfkc("A b") == "A b" && h.nfkc("a b") == "a b" && h.lower("A b") == h.lower("a b")
  }

  /** And with any such lower-casing: an edit of case changes only the chunks. */
  lemma {:induction false} CaseEditKeepsHash(h: ContentHash.Hasher)
    requires FoldsCase(h)
    ensures ContentHash.HashContent(h, "A b") == ContentHash.HashContent(h, "a b")
    ensures Chunking.Chunks("A b") == ["A b"] && Chunking.Chunks("a b") == ["a b"]
  {
    assert Strip("A b") == "A b" && Strip("a b") == "a b";
  }

  // ---------------------------------------------------------------------------
  // Failures
  // ---------------------------------------------------------------------------

  /** The documented delay after the k-th failure: five minutes doubled each time, at most six hours. */
  function Delay(k: nat): int
    requires k >= 1
  {
    if 5 * Pow2(k - 1) < 360 then 5 * Pow2(k - 1) * MINUTE else 360 * MINUTE
  }

  lemma {:induction false} Pow2Grows(n: nat)
    requires n >= 7
    ensures Pow2(n) >= 128
  {
    if n > 7 {
      Pow2Grows(n - 1);
    } else {
      assert Pow2(1) == 2 && Pow2(2) == 4 && Pow2(3) == 8 && Pow2(4) == 16;
      assert Pow2(5) == 32 && Pow2(6) == 64 && Pow2(7) == 128;
    }
  }

  /** The exponent clamp never changes the delay. */
  lemma {:induction false} ClampIsHarmless(k: nat)
    requires k >= 1
    ensures DelayAfter(k - 1) == Delay(k)
  {
    if k - 1 >= 7 {
      Pow2Grows(7);
      Pow2Grows(k - 1);
    } else if k == 1 {
      assert Pow2(0) == 1;
    }
  }

  function MaxTries(cfg: Config): nat {
    if cfg.maxAttempts < 1 then 1 else cfg.maxAttempts
  }

  /** Try number `i` was not permanent, and the next one started no sooner than its delay allows. */
  ghost predicate NextTryWaits(ts: seq<Try>, i: nat)
    requires 0 < i < |ts|
  {
    ts[i].fetchedAt >= ts[i - 1].failedAt + Delay(i) && !ts[i - 1].permanent
  }

  /** Tries are spaced by the delay of their number, and only the last can be permanent. */
  ghost predicate Spaced(ts: seq<Try>) {
    && (forall i :: 0 <= i < |ts| ==> ts[i].fetchedAt <= ts[i].failedAt)
    && (forall i :: 0 < i < |ts| ==> NextTryWaits(ts, i))
  }

  ghost predicate TriesOk(cfg: Config, s: System, m: Id) {
    var ts := TriesOf(s, m);
    && Spaced(ts) && |ts| <= MaxTries(cfg)
    && (m in s.db.backoff <==> ts != [])
    && (ts != [] ==>
          var b, last := s.db.backoff[m], ts[|ts| - 1];
          && b.attempts == |ts| && b.nextAt == last.failedAt + Delay(|ts|)
          && (b.terminal <==> last.permanent || |ts| >= cfg.maxAttempts))
    && (m in s.inFlight ==>
          && s.inFlight[m].at <= s.now
          && (ts != [] ==> !s.db.backoff[m].terminal && s.inFlight[m].at >= s.db.backoff[m].nextAt))
  }

  lemma {:induction false} SpacedSnoc(ts: seq<Try>, t: Try)
    requires Spaced(ts) && t.fetchedAt <= t.failedAt
    requires ts != [] ==> t.fetchedAt >= ts[|ts| - 1].failedAt + Delay(|ts|) && !ts[|ts| - 1].permanent
    ensures Spaced(ts + [t])
  {
    var us := ts + [t];
    forall i | 0 < i < |us|
      ensures NextTryWaits(us, i)
    {
      if i < |ts| {
        assert NextTryWaits(ts, i);
        assert us[i] == ts[i] && us[i - 1] == ts[i - 1];
      }
    }
  }

  lemma {:induction false} FailKeepsTries(cfg: Config, s: System, m: Id, permanent: bool)
    requires Enabled(cfg, s, Fail(m, permanent)) && TriesOk(cfg, s, m)
    ensures TriesOk(cfg, Apply(cfg, s, Fail(m, permanent)), m)
  {
    var ts := TriesOf(s, m);
    var t := Try(s.inFlight[m].at, s.now, permanent);
    SpacedSnoc(ts, t);
    ClampIsHarmless(|ts| + 1);
  }

  lemma {:induction false} StepKeepsTries(cfg: Config, s: System, e: Event, m: Id)
    requires Enabled(cfg, s, e) && TriesOk(cfg, s, m)
    ensures TriesOk(cfg, Apply(cfg, s, e), m)
  {
    if e.Fail? && e.m == m {
      FailKeepsTries(cfg, s, m, e.permanent);
    }
  }

  /**
   In every run, between two successes a memory is tried at most the configured number of
   times, nothing follows a permanent failure, and try k+1 starts no sooner than the delay of
   the k-th failure after it was recorded.
   */
  lemma {:induction false} FailuresAreSpaced(cfg: Config, ss: seq<System>, es: seq<Event>, n: nat, m: Id)
    requires Run(cfg, ss, es) && n < |ss|
    ensures TriesOk(cfg, ss[n], m)
    ensures Spaced(TriesOf(ss[n], m)) && |TriesOf(ss[n], m)| <= MaxTries(cfg)
  {
    if n > 0 {
      FailuresAreSpaced(cfg, ss, es, n - 1, m);
      assert StepAt(cfg, ss, es, n - 1);
      StepKeepsTries(cfg, ss[n - 1], es[n - 1], m);
    }
  }

  /** The tries so far do not stand in the way of another one. */
  ghost predicate MayTryAgain(cfg: Config, ts: seq<Try>, now: int) {
    ts == [] ||
    (&& !ts[|ts| - 1].permanent && |ts| < cfg.maxAttempts
     && now >= ts[|ts| - 1].failedAt + Delay(|ts|))
  }

  /**
   In every run a memory is a candidate exactly if it is live, no row of it carries the hash of its
   content, and its tries since the last success leave another one: none of them, or the last neither
   permanent nor the last allowed, and its delay over.
   */
  lemma {:induction false} CandidateExactly(cfg: Config, ss: seq<System>, es: seq<Event>, n: nat, m: Id)
    requires Run(cfg, ss, es) && n < |ss|
    ensures Candidate(ss[n].db, m, ss[n].now)
       <==> && m in ss[n].db.memories && ss[n].db.memories[m].live
            && (forall i :: 0 <= i < |RowsOf(ss[n].db, m)| ==>
                  RowsOf(ss[n].db, m)[i].sourceHash != cfg.hash(ss[n].db.memories[m].content))
            && MayTryAgain(cfg, TriesOf(ss[n], m), ss[n].now)
  {
    FailuresAreSpaced(cfg, ss, es, n, m);
    SourcesAlways(cfg, ss, es, n);
    assert SourceOk(cfg, ss[n], m);
  }

  /** Terminal, and not being built. */
  ghost predicate GivenUp(s: System, m: Id) {
    m in s.db.backoff && s.db.backoff[m].terminal && m !in s.inFlight
  }

  /** A memory that has been given up is never selected again, whatever its content becomes. */
  lemma {:induction false} GivenUpForEver(cfg: Config, ss: seq<System>, es: seq<Event>, i: nat, j: nat, m: Id)
    requires Run(cfg, ss, es) && i <= j < |ss| && GivenUp(ss[i], m)
    ensures GivenUp(ss[j], m) && !Candidate(ss[j].db, m, ss[j].now)
    decreases j
  {
    if i < j {
      GivenUpForEver(cfg, ss, es, i, j - 1, m);
      assert StepAt(cfg, ss, es, j - 1);
    }
  }

  /**
   A permanent failure and a later edit: the memory is live, its new content has chunks, none of
   them are in the index, and no pass will ever select it.
   */
  lemma {:induction false} EditedMemoryStaysGivenUp(cfg: Config, before: string, after: string) returns (s: System)
    requires cfg.split(before) != [] && cfg.split(after) != [] && cfg.hash(before) != cfg.hash(after)
    ensures Reachable(cfg, s) && GivenUp(s, 1)
    ensures 1 in s.db.memories && s.db.memories[1].content == after && s.db.memories[1].live
    ensures RowsOf(s.db, 1) == [] && !Fresh(s.db, 1)
    ensures forall now :: !Candidate(s.db, 1, now)
  {
    ReachInitial(cfg);
    s := System(Tables(map[], map[], map[]), 0, map[], map[], map[]);
    ReachStep(cfg, s, Write(1, before, false));
    s := Apply(cfg, s, Write(1, before, false));
    ReachStep(cfg, s, Select(1));
    s := Apply(cfg, s, Select(1));
    ReachStep(cfg, s, Fail(1, true));
    s := Apply(cfg, s, Fail(1, true));
    ReachStep(cfg, s, Update(1, after, false));
    s := Apply(cfg, s, Update(1, after, false));
  }
}
