/**
 What the chunker promises for every content: nothing but whitespace is lost before the
 cap, chunk sizes are bounded, and packing uses as few chunks as the packing rule allows.
 */
module ChunkTheory {
  import opened Text
  import opened Chunking

  // ---------------------------------------------------------------------------
  // Nothing is dropped or reordered
  // ---------------------------------------------------------------------------

  lemma {:induction false} WrapKeeps(s: string)
    ensures Flatten(Wrap(s)) == s
  {
    if |s| > CHUNK_MAX_CHARS {
      var head, tail := s[..CHUNK_MAX_CHARS], s[CHUNK_MAX_CHARS..];
      WrapKeeps(tail);
      FlattenCons(head, Wrap(tail));
      assert s == head + tail;
    } else if s != [] {
      FlattenOne(s);
    }
  }

  lemma {:induction false} WrapAllKeeps(ss: seq<string>)
    ensures Flatten(WrapAll(ss)) == Flatten(ss)
  {
    if ss != [] {
      WrapKeeps(ss[0]);
      WrapAllKeeps(ss[1..]);
      FlattenConcat(Wrap(ss[0]), WrapAll(ss[1..]));
    }
  }

  lemma {:induction false} ParagraphUnitsKeep(paragraph: string)
    ensures NonSpace(Flatten(ParagraphUnits(paragraph))) == NonSpace(paragraph)
  {
    var p := Strip(paragraph);
    StripKeeps(paragraph);
    if |p| > CHUNK_MAX_CHARS {
      WrapAllKeeps(Split(Sentence, p));
      SplitKeeps(Sentence, p, 0, 0);
      assert p[0..] == p;
    } else if p != [] {
      FlattenOne(p);
    }
  }

  lemma {:induction false} UnitsOfKeep(ps: seq<string>)
    ensures NonSpace(Flatten(UnitsOf(ps))) == NonSpace(Flatten(ps))
  {
    if ps != [] {
      ParagraphUnitsKeep(ps[0]);
      UnitsOfKeep(ps[1..]);
      FlattenConcat(ParagraphUnits(ps[0]), UnitsOf(ps[1..]));
      NonSpaceConcat(Flatten(ParagraphUnits(ps[0])), Flatten(UnitsOf(ps[1..])));
      NonSpaceConcat(ps[0], Flatten(ps[1..]));
    }
  }

  lemma {:induction false} UnitsKeep(text: string)
    ensures NonSpace(Flatten(Units(text))) == NonSpace(text)
  {
    UnitsOfKeep(Split(Paragraph, text));
    SplitKeeps(Paragraph, text, 0, 0);
    assert text[0..] == text;
  }

  /** The units of a list of groups, in order. */
  ghost function Ungroup(groups: seq<seq<string>>): seq<string> {
    if groups == [] then [] else groups[0] + Ungroup(groups[1..])
  }

  lemma {:induction false} UngroupCons(g: seq<string>, gs: seq<seq<string>>)
    ensures Ungroup([g] + gs) == g + Ungroup(gs)
  {
    assert ([g] + gs)[1..] == gs;
  }

  lemma {:induction false} PackKeepsUnits(current: seq<string>, units: seq<string>)
    ensures Ungroup(Pack(current, units)) == current + units
    decreases |units|
  {
    if units == [] {
      UngroupCons(current, []);
      assert [current] + [] == [current] && current + [] == current;
    } else if Overflows(current, units[0]) {
      PackKeepsUnits([units[0]], units[1..]);
      UngroupCons(current, Pack([units[0]], units[1..]));
      assert units == [units[0]] + units[1..];
    } else {
      PackKeepsUnits(current + [units[0]], units[1..]);
      assert (current + [units[0]]) + units[1..] == current + units;
    }
  }

  lemma {:induction false} JoinKeeps(g: seq<string>)
    ensures NonSpace(Join(g)) == NonSpace(Flatten(g))
  {
    if |g| == 1 {
      FlattenOne(g[0]);
      assert g == [g[0]];
    } else if g != [] {
      JoinKeeps(g[1..]);
      NonSpaceConcat(g[0] + SEPARATOR, Join(g[1..]));
      NonSpaceConcat(g[0], SEPARATOR);
      NonSpaceOfSpace(SEPARATOR);
      NonSpaceConcat(g[0], Flatten(g[1..]));
    }
  }

  lemma {:induction false} JoinAllKeeps(gs: seq<seq<string>>)
    ensures NonSpace(Flatten(JoinAll(gs))) == NonSpace(Flatten(Ungroup(gs)))
  {
    if gs != [] {
      JoinAllKeeps(gs[1..]);
      assert JoinAll(gs) == [Join(gs[0])] + JoinAll(gs[1..]);
      FlattenCons(Join(gs[0]), JoinAll(gs[1..]));
      JoinKeeps(gs[0]);
      NonSpaceConcat(Join(gs[0]), Flatten(JoinAll(gs[1..])));
      FlattenConcat(gs[0], Ungroup(gs[1..]));
      NonSpaceConcat(Flatten(gs[0]), Flatten(Ungroup(gs[1..])));
    }
  }

  /** Before the cap, the chunks hold exactly the content's non-whitespace characters, in order. */
  lemma {:induction false} AllChunksKeepContent(content: string)
    ensures NonSpace(Flatten(AllChunks(content))) == NonSpace(content)
  {
    var text := Strip(content);
    StripKeeps(content);
    if 0 < |text| <= CHUNK_MAX_CHARS {
      FlattenOne(text);
    } else if text != [] {
      UnitsKeep(text);
      PackKeepsUnits([], Units(text));
      assert [] + Units(text) == Units(text);
      JoinAllKeeps(Groups(text));
    }
  }

  /** The chunks hold the content's non-whitespace characters; a prefix of them if the cap is reached. */
  lemma {:induction false} ChunksKeepContent(content: string)
    ensures NonSpace(Flatten(Chunks(content))) <= NonSpace(content)
    ensures |AllChunks(content)| <= MAX_CHUNKS_PER_MEMORY
        ==> NonSpace(Flatten(Chunks(content))) == NonSpace(content)
  {
    AllChunksKeepContent(content);
    var all := AllChunks(content);
    if |all| > MAX_CHUNKS_PER_MEMORY {
      var kept, lost := all[..MAX_CHUNKS_PER_MEMORY], all[MAX_CHUNKS_PER_MEMORY..];
      assert all == kept + lost;
      FlattenConcat(kept, lost);
      NonSpaceConcat(Flatten(kept), Flatten(lost));
    }
  }

  // ---------------------------------------------------------------------------
  // Sizes
  // ---------------------------------------------------------------------------

  ghost predicate Sized(units: seq<string>) {
    forall i :: 0 <= i < |units| ==> 0 < |units[i]| <= CHUNK_MAX_CHARS
  }

  lemma {:induction false} WrapSized(s: string)
    ensures Sized(Wrap(s))
  {
    if |s| > CHUNK_MAX_CHARS {
      WrapSized(s[CHUNK_MAX_CHARS..]);
    }
  }

  lemma {:induction false} WrapAllSized(ss: seq<string>)
    ensures Sized(WrapAll(ss))
  {
    if ss != [] {
      WrapSized(ss[0]);
      WrapAllSized(ss[1..]);
    }
  }

  lemma {:induction false} UnitsOfSized(ps: seq<string>)
    ensures Sized(UnitsOf(ps))
  {
    if ps != [] {
      WrapAllSized(Split(Sentence, Strip(ps[0])));
      UnitsOfSized(ps[1..]);
    }
  }

  /** A group that packing may form: a single unit, or units whose charge is within the target. */
  ghost predicate Feasible(g: seq<string>) {
    g != [] && (|g| == 1 || Charge(g) <= CHUNK_TARGET_CHARS)
  }

  ghost predicate AllFeasible(gs: seq<seq<string>>) {
    forall i :: 0 <= i < |gs| ==> Feasible(gs[i])
  }

  lemma {:induction false} PackFeasible(current: seq<string>, units: seq<string>)
    requires current == [] || Feasible(current)
    ensures AllFeasible(Pack(current, units))
    decreases |units|
  {
    if units != [] {
      if Overflows(current, units[0]) {
        PackFeasible([units[0]], units[1..]);
      } else {
        ChargeSnoc(current, units[0]);
        PackFeasible(current + [units[0]], units[1..]);
      }
    }
  }

  lemma {:induction false} JoinLength(g: seq<string>)
    requires g != []
    ensures |Join(g)| == Charge(g) - 2
  {
    if |g| > 1 {
      JoinLength(g[1..]);
    } else {
      assert g[1..] == [];
    }
  }

  lemma {:induction false} UngroupedSized(gs: seq<seq<string>>, i: nat)
    requires Sized(Ungroup(gs)) && i < |gs|
    ensures Sized(gs[i])
  {
    var all := Ungroup(gs);
    var head, tail := gs[0], Ungroup(gs[1..]);
    assert forall k :: 0 <= k < |head| ==> head[k] == all[k];
    assert forall k :: 0 <= k < |tail| ==> tail[k] == all[|head| + k];
    if i > 0 {
      UngroupedSized(gs[1..], i - 1);
    }
  }

  lemma {:induction false} GroupsAreSizedAndFeasible(text: string)
    ensures Ungroup(Groups(text)) == Units(text)
    ensures Sized(Units(text))
    ensures AllFeasible(Groups(text))
    ensures forall i :: 0 <= i < |Groups(text)| ==> Sized(Groups(text)[i])
  {
    PackKeepsUnits([], Units(text));
    assert [] + Units(text) == Units(text);
    UnitsOfSized(Split(Paragraph, text));
    PackFeasible([], Units(text));
    forall i | 0 <= i < |Groups(text)|
      ensures Sized(Groups(text)[i])
    {
      UngroupedSized(Groups(text), i);
    }
  }

  lemma {:induction false} FeasibleJoinLength(g: seq<string>)
    requires Feasible(g) && Sized(g)
    ensures 0 < |Join(g)| <= CHUNK_MAX_CHARS
    ensures |g| >= 2 ==> |Join(g)| <= CHUNK_TARGET_CHARS - 2
  {
    JoinLength(g);
    if |g| == 1 {
      assert g[1..] == [];
    } else {
      assert Charge(g) >= |g[0]| + 2;
    }
  }

  /** Every chunk is non-empty and within the hard limit; one of several units is below the target. */
  lemma {:induction false} ChunkSizes(content: string)
    ensures Sized(Chunks(content))
    ensures |Chunks(content)| <= MAX_CHUNKS_PER_MEMORY
    ensures |Strip(content)| > CHUNK_MAX_CHARS ==>
              forall i :: 0 <= i < |Chunks(content)| ==>
                i < |Groups(Strip(content))| && Chunks(content)[i] == Join(Groups(Strip(content))[i])
                && (|Groups(Strip(content))[i]| >= 2 ==> |Chunks(content)[i]| <= 1198)
  {
    var text := Strip(content);
    if |text| > CHUNK_MAX_CHARS {
      GroupsAreSizedAndFeasible(text);
      var gs := Groups(text);
      forall i | 0 <= i < |gs|
        ensures 0 < |Join(gs[i])| <= CHUNK_MAX_CHARS && (|gs[i]| >= 2 ==> |Join(gs[i])| <= 1198)
      {
        FeasibleJoinLength(gs[i]);
      }
    }
  }

  // ---------------------------------------------------------------------------
  // Short and blank contents
  // ---------------------------------------------------------------------------

  /** A short content is one chunk: the stripped text, whatever blank lines it holds. */
  lemma {:induction false} ShortContentIsOneChunk(content: string)
    requires 0 < |Strip(content)| <= 2000
    ensures Chunks(content) == [Strip(content)]
  {
  }

  lemma {:induction false} NonSpaceExists(s: string)
    ensures NonSpace(s) == [] <==> AllSpace(s)
  {
    if s != [] {
      NonSpaceExists(s[1..]);
      assert s == [s[0]] + s[1..];
    }
  }

  /** Exactly the blank contents have no chunk. */
  lemma {:induction false} NoChunksExactly(content: string)
    ensures Chunks(content) == [] <==> AllSpace(content)
  {
    NonSpaceExists(content);
    NonSpaceExists(Strip(content));
    StripKeeps(content);
    AllChunksKeepContent(content);
    if AllSpace(content) {
      var a, b := StripIsExact(content);
    }
  }

  /** Units are joined by one blank line. */
  lemma {:induction false} JoinConcat(a: seq<string>, b: seq<string>)
    requires a != [] && b != []
    ensures Join(a + b) == Join(a) + "\n\n" + Join(b)
  {
    assert (a + b)[0] == a[0] && (a + b)[1..] == a[1..] + b;
    if |a| == 1 {
      assert (a + b)[1..] == b;
    } else {
      JoinConcat(a[1..], b);
    }
  }

  // ---------------------------------------------------------------------------
  // Greedy packing is optimal
  // ---------------------------------------------------------------------------

  /** Greedy fills its first group as far as the target allows. */
  lemma {:induction false} PackFirstGroup(current: seq<string>, units: seq<string>) returns (k: nat)
    requires current != []
    ensures k <= |units|
    ensures Pack(current, units) == [current + units[..k]] + Pack([], units[k..])
    ensures forall m :: k < m <= |units| ==> Charge(current + units[..m]) > CHUNK_TARGET_CHARS
    decreases |units|
  {
    if units == [] {
      k := 0;
      assert current + [] == current;
    } else if Overflows(current, units[0]) {
      k := 0;
      assert current + units[..0] == current && units[0..] == units && [] + [units[0]] == [units[0]];
      forall m | k < m <= |units|
        ensures Charge(current + units[..m]) > CHUNK_TARGET_CHARS
      {
        ChargeConcat(current, units[..m]);
      }
    } else {
      var j := PackFirstGroup(current + [units[0]], units[1..]);
      k := j + 1;
      assert units[..k] == [units[0]] + units[1..][..j] && units[k..] == units[1..][j..];
      assert (current + [units[0]]) + units[1..][..j] == current + units[..k];
      forall m | k < m <= |units|
        ensures Charge(current + units[..m]) > CHUNK_TARGET_CHARS
      {
        assert (current + [units[0]]) + units[1..][..m - 1] == current + units[..m];
      }
    }
  }

  lemma {:induction false} PackFirst(units: seq<string>) returns (k: nat)
    requires units != []
    ensures 1 <= k <= |units|
    ensures |Pack([], units)| == 1 + |Pack([], units[k..])|
    ensures forall m :: 1 <= m <= |units| && Feasible(units[..m]) ==> m <= k
  {
    assert [] + [units[0]] == [units[0]];
    var j := PackFirstGroup([units[0]], units[1..]);
    k := j + 1;
    assert units[k..] == units[1..][j..];
    forall m | 1 <= m <= |units| && Feasible(units[..m])
      ensures m <= k
    {
      assert [units[0]] + units[1..][..m - 1] == units[..m];
    }
  }

  lemma {:induction false} FeasibleSuffix(g: seq<string>, d: nat)
    requires Feasible(g) && d < |g|
    ensures Feasible(g[d..])
  {
    assert g == g[..d] + g[d..];
    ChargeConcat(g[..d], g[d..]);
  }

  /** Greedy packing of any suffix needs no more groups than any feasible grouping of the whole. */
  lemma {:induction false} SuffixOptimal(units: seq<string>, d: nat, gs: seq<seq<string>>)
    requires Ungroup(gs) == units && AllFeasible(gs) && d <= |units|
    ensures |Pack([], units[d..])| <= |gs|
    decreases |gs|
  {
    var rest := units[d..];
    if rest != [] {
      var head, later := gs[0], Ungroup(gs[1..]);
      if |head| <= d {
        SuffixOptimal(later, d - |head|, gs[1..]);
        assert rest == later[d - |head|..];
      } else {
        var m := |head| - d;
        var k := PackFirst(rest);
        FeasibleSuffix(head, d);
        assert rest[..m] == head[d..];
        SuffixOptimal(later, k - m, gs[1..]);
        assert rest[k..] == later[k - m..];
      }
    }
  }

  /**
   Before the cap, no order-preserving grouping of the units into single units and groups
   within the target uses fewer chunks.
   */
  lemma {:induction false} PackingIsOptimal(units: seq<string>, gs: seq<seq<string>>)
    requires Ungroup(gs) == units && AllFeasible(gs)
    ensures |Pack([], units)| <= |gs|
    ensures Ungroup(Pack([], units)) == units && AllFeasible(Pack([], units))
  {
    assert units[0..] == units;
    SuffixOptimal(units, 0, gs);
    PackKeepsUnits([], units);
    assert [] + units == units;
    PackFeasible([], units);
  }

  // ---------------------------------------------------------------------------
  // Where the text is cut
  // ---------------------------------------------------------------------------

  /** Hard wrapping cuts as late as it can: every piece but the last has the maximal size. */
  lemma {:induction false} WrapCutsLate(s: string, k: nat)
    requires k < |Wrap(s)|
    ensures k + 1 < |Wrap(s)| ==> |Wrap(s)[k]| == CHUNK_MAX_CHARS
    ensures IsSlice(Wrap(s)[k], s)
  {
    if |s| > CHUNK_MAX_CHARS {
      var tail := s[CHUNK_MAX_CHARS..];
      if k == 0 {
        assert Wrap(s)[0] == s[0..CHUNK_MAX_CHARS];
      } else {
        WrapCutsLate(tail, k - 1);
        assert tail == s[CHUNK_MAX_CHARS..|s|];
        SliceTrans(Wrap(tail)[k - 1], tail, s);
      }
    } else {
      assert s == s[0..|s|];
    }
  }

  lemma {:induction false} WrapAllSlices(ss: seq<string>, k: nat) returns (j: nat)
    requires k < |WrapAll(ss)|
    ensures j < |ss| && IsSlice(WrapAll(ss)[k], ss[j])
  {
    var first := Wrap(ss[0]);
    if k < |first| {
      WrapCutsLate(ss[0], k);
      j := 0;
    } else {
      var i := WrapAllSlices(ss[1..], k - |first|);
      j := i + 1;
    }
  }

  /**
   A paragraph that fits is kept whole; a longer one is cut, and no piece of it reaches across
   the end of a sentence.
   */
  lemma {:induction false} ParagraphCuts(paragraph: string, k: nat)
    requires k < |ParagraphUnits(paragraph)|
    ensures IsSlice(ParagraphUnits(paragraph)[k], paragraph)
    ensures if |Strip(paragraph)| <= CHUNK_MAX_CHARS then ParagraphUnits(paragraph)[k] == Strip(paragraph)
            else !HoldsSeparator(Sentence, ParagraphUnits(paragraph)[k])
  {
    var p := Strip(paragraph);
    StripIsSlice(paragraph);
    if |p| > CHUNK_MAX_CHARS {
      var sentences := Split(Sentence, p);
      var j := WrapAllSlices(sentences, k);
      PieceIsSlice(Sentence, p, 0, 0, j);
      PiecesHoldNoSeparator(Sentence, p, 0, 0, j);
      SliceHoldsNoSeparator(Sentence, WrapAll(sentences)[k], sentences[j]);
      SliceTrans(WrapAll(sentences)[k], sentences[j], p);
      SliceTrans(WrapAll(sentences)[k], p, paragraph);
    }
  }

  lemma {:induction false} UnitFromParagraph(ps: seq<string>, k: nat) returns (j: nat)
    requires k < |UnitsOf(ps)|
    ensures j < |ps| && IsSlice(UnitsOf(ps)[k], ps[j])
  {
    var first := ParagraphUnits(ps[0]);
    if k < |first| {
      ParagraphCuts(ps[0], k);
      j := 0;
    } else {
      var i := UnitFromParagraph(ps[1..], k - |first|);
      j := i + 1;
    }
  }

  /** No unit reaches across a blank line. */
  lemma {:induction false} NoUnitCrossesBlankLine(text: string, k: nat)
    requires k < |Units(text)|
    ensures !HoldsSeparator(Paragraph, Units(text)[k])
  {
    var ps := Split(Paragraph, text);
    var j := UnitFromParagraph(ps, k);
    PiecesHoldNoSeparator(Paragraph, text, 0, 0, j);
    SliceHoldsNoSeparator(Paragraph, Units(text)[k], ps[j]);
  }
}
