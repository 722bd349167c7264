/**
 When the cap on chunks can bite: the least length of a text that loses content to it, with a text
 of exactly that length.
 */
module ChunkCap {
  import opened Wrappers
  import opened Text
  import opened Chunking
  import opened ChunkTheory

  // ---------------------------------------------------------------------------
  // What units cost in characters of text
  // ---------------------------------------------------------------------------

  /** A unit costs its characters and one separator, or its characters alone if it may be a hard-wrapped piece. */
  function UnitCost(u: string): nat {
    if |u| >= CHUNK_MAX_CHARS then |u| else |u| + 1
  }

  function Cost(units: seq<string>): nat {
    if units == [] then 0 else UnitCost(units[0]) + Cost(units[1..])
  }

  lemma {:induction false} CostConcat(a: seq<string>, b: seq<string>)
    ensures Cost(a + b) == Cost(a) + Cost(b)
  {
    if a == [] {
      assert a + b == b;
    } else {
      assert (a + b)[0] == a[0] && (a + b)[1..] == a[1..] + b;
      CostConcat(a[1..], b);
    }
  }

  lemma {:induction false} CostOne(u: string)
    ensures Cost([u]) == UnitCost(u)
  {
    assert [u][1..] == [];
  }

  lemma {:induction false} WrapCost(s: string)
    ensures Cost(Wrap(s)) <= |s| + 1
  {
    if |s| > CHUNK_MAX_CHARS {
      var head, tail := s[..CHUNK_MAX_CHARS], s[CHUNK_MAX_CHARS..];
      WrapCost(tail);
      CostConcat([head], Wrap(tail));
      CostOne(head);
    } else if s != [] {
      CostOne(s);
    }
  }

  lemma {:induction false} WrapAllCost(ss: seq<string>)
    ensures Cost(WrapAll(ss)) <= PaddedLength(Sentence, ss)
  {
    if ss != [] {
      WrapCost(ss[0]);
      WrapAllCost(ss[1..]);
      CostConcat(Wrap(ss[0]), WrapAll(ss[1..]));
    }
  }

  lemma {:induction false} ParagraphCost(paragraph: string)
    ensures Cost(ParagraphUnits(paragraph)) <= |paragraph| + 1
  {
    var p := Strip(paragraph);
    StripKeeps(paragraph);
    if |p| > CHUNK_MAX_CHARS {
      WrapAllCost(Split(Sentence, p));
      SplitFits(Sentence, p, 0, 0);
    } else if p != [] {
      CostOne(p);
    }
  }

  lemma {:induction false} UnitsOfCost(ps: seq<string>)
    ensures Cost(UnitsOf(ps)) + |ps| <= PaddedLength(Paragraph, ps)
  {
    if ps != [] {
      ParagraphCost(ps[0]);
      UnitsOfCost(ps[1..]);
      CostConcat(ParagraphUnits(ps[0]), UnitsOf(ps[1..]));
    }
  }

  /** Across all three levels of splitting the units cost at most the text and one separator. */
  lemma {:induction false} UnitsCost(text: string)
    ensures Cost(Units(text)) <= |text| + 1
  {
    UnitsOfCost(Split(Paragraph, text));
    SplitFits(Paragraph, text, 0, 0);
    SplitAlternates(Paragraph, text, 0, 0);
  }

  lemma {:induction false} ChargeWithinCost(units: seq<string>)
    requires Sized(units)
    ensures 2 * Charge(units) <= 3 * Cost(units)
  {
    if units != [] {
      assert 0 < |units[0]| <= CHUNK_MAX_CHARS;
      ChargeWithinCost(units[1..]);
    }
  }

  /** What packing charges is at most one and a half times the text. */
  lemma {:induction false} UnitsCharge(text: string)
    ensures 2 * Charge(Units(text)) <= 3 * (|text| + 1)
  {
    GroupsAreSizedAndFeasible(text);
    ChargeWithinCost(Units(text));
    UnitsCost(text);
  }

  // ---------------------------------------------------------------------------
  // What groups cost
  // ---------------------------------------------------------------------------

  /** No group can take in the first unit of the next one. */
  ghost predicate Tight(gs: seq<seq<string>>) {
    && (forall i :: 0 <= i < |gs| ==> gs[i] != [])
    && (forall i :: 0 < i < |gs| ==> Overflows(gs[i - 1], gs[i][0]))
  }

  lemma {:induction false} TightCons(g: seq<string>, gs: seq<seq<string>>)
    requires Tight(gs) && g != [] && (gs != [] ==> Overflows(g, gs[0][0]))
    ensures Tight([g] + gs)
  {
    var all := [g] + gs;
    forall i | 0 < i < |all|
      ensures Overflows(all[i - 1], all[i][0])
    {
      if i > 1 {
        assert all[i - 1] == gs[i - 2] && all[i] == gs[i - 1];
        assert Overflows(gs[i - 1 - 1], gs[i - 1][0]);
      }
    }
  }

  lemma {:induction false} TightTail(gs: seq<seq<string>>)
    requires Tight(gs) && gs != []
    ensures Tight(gs[1..])
  {
    var tail := gs[1..];
    forall i | 0 < i < |tail|
      ensures Overflows(tail[i - 1], tail[i][0])
    {
      assert tail[i - 1] == gs[i] && tail[i] == gs[i + 1];
      assert Overflows(gs[i + 1 - 1], gs[i + 1][0]);
    }
  }

  /** A group is closed only when the next unit would take it over the target. */
  lemma {:induction false} PackIsTight(current: seq<string>, units: seq<string>)
    ensures Tight(Pack(current, units))
    ensures current != [] ==> Pack(current, units) != [] && current <= Pack(current, units)[0]
    decreases |units|
  {
    if units != [] {
      if Overflows(current, units[0]) {
        PackIsTight([units[0]], units[1..]);
        TightCons(current, Pack([units[0]], units[1..]));
      } else {
        PackIsTight(current + [units[0]], units[1..]);
      }
    }
  }

  /** What counts of a charge: up to one more than the target. */
  function Capped(n: nat): nat {
    if n > CHUNK_TARGET_CHARS then CHUNK_TARGET_CHARS + 1 else n
  }

  /** Units within the target cost at least half of what they are charged. */
  lemma {:induction false} SmallUnitsCost(units: seq<string>)
    requires Sized(units) && Charge(units) <= CHUNK_TARGET_CHARS
    ensures 2 * Cost(units) >= Charge(units)
  {
    if units != [] {
      assert 0 < |units[0]|;
      SmallUnitsCost(units[1..]);
    }
  }

  lemma {:induction false} GroupCost(g: seq<string>)
    requires Feasible(g) && Sized(g)
    ensures 2 * Cost(g) + 2 >= Capped(|g[0]| + 2) + Capped(Charge(g))
    ensures Capped(Charge(g)) >= 3
  {
    assert 0 < |g[0]| <= CHUNK_MAX_CHARS;
    if |g| == 1 {
      assert g[1..] == [];
    } else {
      SmallUnitsCost(g[1..]);
    }
  }

  /** Every further group costs 599 and a half characters more. */
  lemma {:induction false} GroupsCost(gs: seq<seq<string>>)
    requires gs != [] && Tight(gs) && AllFeasible(gs) && forall i :: 0 <= i < |gs| ==> Sized(gs[i])
    ensures 2 * Cost(Ungroup(gs)) >= 1199 * (|gs| - 1) + Capped(|gs[0][0]| + 2) + 1
  {
    GroupCost(gs[0]);
    CostConcat(gs[0], Ungroup(gs[1..]));
    if |gs| > 1 {
      TightTail(gs);
      assert Overflows(gs[1 - 1], gs[1][0]);
      GroupsCost(gs[1..]);
    }
  }

  /** How many groups a text of a given length can need. */
  lemma {:induction false} ChunkCount(text: string)
    requires Groups(text) != []
    ensures 1199 * (|Groups(text)| - 1) + 4 <= 2 * (|text| + 1)
  {
    GroupsAreSizedAndFeasible(text);
    PackIsTight([], Units(text));
    GroupsCost(Groups(text));
    UnitsCost(text);
    assert Sized(Groups(text)[0]);
  }

  /** No text of at most 76,736 characters loses content to the cap. */
  lemma {:induction false} CapNeedsLongText(content: string)
    requires |Strip(content)| <= 76736
    ensures |AllChunks(content)| <= MAX_CHUNKS_PER_MEMORY
    ensures NonSpace(Flatten(Chunks(content))) == NonSpace(content)
  {
    var text := Strip(content);
    if |text| > CHUNK_MAX_CHARS && Groups(text) != [] {
      ChunkCount(text);
    }
    ChunksKeepContent(content);
  }

  lemma {:induction false} FlattenLength(ss: seq<string>)
    requires Sized(ss)
    ensures |Flatten(ss)| <= CHUNK_MAX_CHARS * |ss|
  {
    if ss != [] {
      FlattenLength(ss[1..]);
    }
  }

  /** Content with more than 256,000 non-whitespace characters always loses some of it. */
  lemma {:induction false} LongTextLosesContent(content: string)
    requires |NonSpace(content)| > CHUNK_MAX_CHARS * MAX_CHUNKS_PER_MEMORY
    ensures |AllChunks(content)| > MAX_CHUNKS_PER_MEMORY
    ensures NonSpace(Flatten(Chunks(content))) < NonSpace(content)
  {
    ChunkSizes(content);
    FlattenLength(Chunks(content));
    NonSpaceLength(Flatten(Chunks(content)));
    ChunksKeepContent(content);
  }

  // ---------------------------------------------------------------------------
  // The shortest text that loses content
  // ---------------------------------------------------------------------------

  /** A sentence of 1196 characters: with one of a single character it is just over the target. */
  function LongSentence(): string {
    seq(1195, _ => 'a') + "."
  }

  /** The long text up to its next one-character sentence. */
  function Round(): string {
    ". " + LongSentence() + " "
  }

  function Long(m: nat): string {
    if m == 0 then "." else Round() + Long(m - 1)
  }

  /** One-character sentences alternating with `m` long ones. */
  function Sentences(m: nat): seq<string> {
    if m == 0 then ["."] else [".", LongSentence()] + Sentences(m - 1)
  }

  lemma {:induction false} LongLength(m: nat)
    ensures |Long(m)| == 1199 * m + 1 && Long(m)[0] == '.' && Long(m)[|Long(m)| - 1] == '.'
    ensures forall i :: 0 <= i < |Long(m)| ==> Long(m)[i] != '\n'
  {
    if m > 0 {
      LongLength(m - 1);
    }
  }

  /** Inside a word nothing is split off. */
  lemma {:induction false} SkipWord(t: string, start: nat, i: nat, e: nat)
    requires start <= i <= e <= |t| && forall k :: i <= k < e ==> !IsSpace(t[k])
    ensures SplitFrom(Sentence, t, start, i) == SplitFrom(Sentence, t, start, e)
    decreases e - i
  {
    if i < e {
      assert MatchEnd(Sentence, t, i) == i;
      SkipWord(t, start, i + 1, e);
    }
  }

  /** A word that ends a sentence and is followed by one space is a piece. */
  lemma {:induction false} CutWord(t: string, i: nat, e: nat)
    requires i < e && e + 1 < |t| && forall k :: i <= k < e ==> !IsSpace(t[k])
    requires t[e - 1] in {'.', '!', '?'} && t[e] == ' ' && !IsSpace(t[e + 1])
    ensures SplitFrom(Sentence, t, i, i) == [t[i..e]] + SplitFrom(Sentence, t, e + 1, e + 1)
  {
    SkipWord(t, i, i, e);
    assert RunEnd(t, e + 1) == e + 1;
    assert MatchEnd(Sentence, t, e) == e + 1;
  }

  lemma {:induction false} RoundIs()
    ensures |Round()| == 1199 && Round()[..1] == "." && Round()[1] == ' '
    ensures Round()[2..1198] == LongSentence() && Round()[1197] == '.' && Round()[1198] == ' '
    ensures forall k :: 2 <= k < 1198 ==> !IsSpace(Round()[k])
  {
    assert |LongSentence()| == 1196 && LongSentence()[1195] == '.';
  }

  lemma {:induction false} TailSplits(t: string, i: nat, x: string, y: string)
    requires i <= |t| && t[i..] == x + y
    ensures i + |x| <= |t| && t[i + |x|..] == y && forall k :: 0 <= k < |x| ==> t[i + k] == x[k]
  {
    forall k | 0 <= k < |x|
      ensures t[i + k] == x[k]
    {
      assert t[i + k] == t[i..][k];
    }
    assert t[i + |x|..] == t[i..][|x|..];
  }

  lemma {:induction false} WordsOfLong(t: string, i: nat)
    requires i + 1199 < |t| && !IsSpace(t[i + 1199])
    requires forall k :: 0 <= k < 1199 ==> |Round()| == 1199 && t[i + k] == Round()[k]
    ensures SplitFrom(Sentence, t, i, i) == [".", LongSentence()] + SplitFrom(Sentence, t, i + 1199, i + 1199)
  {
    var long, rest := LongSentence(), SplitFrom(Sentence, t, i + 1199, i + 1199);
    RoundIs();
    assert t[i + 0] == Round()[0] && t[i + 1] == ' ' && t[i + 2] == Round()[2];
    assert t[i + 1197] == '.' && t[i + 1198] == ' ';
    assert t[i..i + 1] == ".";
    assert t[i + 2..i + 1198] == Round()[2..1198];
    forall k | i + 2 <= k < i + 1198
      ensures !IsSpace(t[k])
    {
      assert t[i + (k - i)] == Round()[k - i];
    }
    CutWord(t, i, i + 1);
    CutWord(t, i + 2, i + 1198);
    assert ["."] + ([long] + rest) == [".", long] + rest;
  }

  lemma {:induction false} SplitLong(t: string, i: nat, m: nat)
    requires i <= |t| && t[i..] == Long(m)
    ensures SplitFrom(Sentence, t, i, i) == Sentences(m)
    decreases m
  {
    if m == 0 {
      assert t[i] == t[i..][0] == '.';
      SkipWord(t, i, i, i + 1);
    } else {
      assert Long(m) == Round() + Long(m - 1);
      RoundIs();
      TailSplits(t, i, Round(), Long(m - 1));
      LongLength(m - 1);
      assert t[i + 1199] == t[i + 1199..][0];
      WordsOfLong(t, i);
      SplitLong(t, i + 1199, m - 1);
    }
  }

  lemma {:induction false} OneParagraph(t: string, start: nat, i: nat)
    requires start <= i <= |t| && forall k :: 0 <= k < |t| ==> t[k] != '\n'
    ensures SplitFrom(Paragraph, t, start, i) == [t[start..]]
    decreases |t| - i
  {
    if i < |t| {
      OneParagraph(t, start, i + 1);
    }
  }

  lemma {:induction false} WrapSentences(m: nat)
    ensures WrapAll(Sentences(m)) == Sentences(m)
  {
    var long := LongSentence();
    assert Wrap(".") == ["."] && Wrap(long) == [long];
    if m == 0 {
      WrapAllOne(".");
    } else {
      WrapSentences(m - 1);
      WrapAllConcat([".", long], Sentences(m - 1));
      assert [".", long] == ["."] + [long];
      WrapAllConcat(["."], [long]);
      WrapAllOne(".");
      WrapAllOne(long);
    }
  }

  lemma {:induction false} LongUnits(m: nat)
    requires m >= 2
    ensures Strip(Long(m)) == Long(m) && Units(Long(m)) == Sentences(m)
  {
    var t := Long(m);
    LongLength(m);
    assert !IsSpace('.');
    assert Strip(t) == t;
    OneParagraph(t, 0, 0);
    assert t[0..] == t;
    UnitsOfOne(t);
    SplitLong(t, 0, m);
    WrapSentences(m);
  }

  /** Every sentence becomes a group of its own, the last one a single character. */
  lemma {:induction false} PackLong(m: nat)
    ensures |Pack(["."], Sentences(m)[1..])| == 2 * m + 1
    ensures Pack(["."], Sentences(m)[1..])[2 * m] == ["."]
  {
    if m == 0 {
      assert Sentences(0)[1..] == [];
    } else {
      var long, rest := LongSentence(), Sentences(m - 1);
      assert rest[0] == ".";
      assert Sentences(m)[1..] == [long] + rest;
      assert ([long] + rest)[1..] == rest && rest == ["."] + rest[1..];
      assert [long][1..] == [] && ["."][1..] == [];
      assert Charge(["."]) == 3 && Charge([long]) == 1198;
      assert Pack(["."], [long] + rest) == [["."]] + Pack([long], rest);
      assert Pack([long], rest) == [[long]] + Pack(["."], rest[1..]);
      PackLong(m - 1);
    }
  }

  lemma {:induction false} LongChunks(m: nat)
    requires m >= 2
    ensures |AllChunks(Long(m))| == 2 * m + 1 && AllChunks(Long(m))[2 * m] == "."
  {
    LongUnits(m);
    LongLength(m);
    PackLong(m);
    var units := Sentences(m);
    assert units[0] == "." && [] + ["."] == ["."];
    assert Groups(Long(m)) == Pack(["."], units[1..]);
  }

  /** A chunk beyond the cap that is not blank is lost. */
  lemma {:induction false} ChunkIsLost(content: string)
    requires |AllChunks(content)| == MAX_CHUNKS_PER_MEMORY + 1 && AllChunks(content)[MAX_CHUNKS_PER_MEMORY] == "."
    ensures NonSpace(Flatten(Chunks(content))) < NonSpace(content)
  {
    var all := AllChunks(content);
    var kept := all[..MAX_CHUNKS_PER_MEMORY];
    AllChunksKeepContent(content);
    assert all == kept + ["."];
    FlattenConcat(kept, ["."]);
    FlattenOne(".");
    NonSpaceConcat(Flatten(kept), ".");
    assert "."[1..] == [] && NonSpace(".") == ".";
  }

  /** 65 one-character sentences around 64 of 1196 characters: 76,737 characters that lose the last one. */
  lemma {:induction false} ShortestLoss()
    ensures |Strip(Long(64))| == 76737
    ensures NonSpace(Flatten(Chunks(Long(64)))) < NonSpace(Long(64))
  {
    LongUnits(64);
    LongLength(64);
    LongChunks(64);
    ChunkIsLost(Long(64));
  }

  ghost predicate KeptUpTo(n: nat) {
    forall content :: |Strip(content)| <= n ==> NonSpace(Flatten(Chunks(content))) == NonSpace(content)
  }

  /** Contents of up to `n` characters are guaranteed to be kept whole exactly if `n` is at most 76,736. */
  lemma {:induction false} CapThreshold(n: nat)
    ensures KeptUpTo(n) <==> n <= 76736
  {
    if n <= 76736 {
      forall content | |Strip(content)| <= n
        ensures NonSpace(Flatten(Chunks(content))) == NonSpace(content)
      {
        CapNeedsLongText(content);
      }
    } else {
      ShortestLoss();
    }
  }
}
