/**
 The deterministic chunker: paragraphs, sentences and hard-wrapped pieces become units,
 and consecutive units are packed greedily into chunks.
 */
module Chunking {
  import opened Wrappers
  import opened Text

  const CHUNK_TARGET_CHARS: nat := 1200
  const CHUNK_MAX_CHARS: nat := 2000
  const MAX_CHUNKS_PER_MEMORY: nat := 128

  const SEPARATOR: string := "\n\n"

  // ---------------------------------------------------------------------------
  // Units
  // ---------------------------------------------------------------------------

  /** One sentence, cut into pieces of the maximal size when it is too long. */
  function Wrap(sentence: string): seq<string> {
    if |sentence| > CHUNK_MAX_CHARS then [sentence[..CHUNK_MAX_CHARS]] + Wrap(sentence[CHUNK_MAX_CHARS..])
    else if sentence == [] then []
    else [sentence]
  }

  function WrapAll(sentences: seq<string>): seq<string> {
    if sentences == [] then [] else Wrap(sentences[0]) + WrapAll(sentences[1..])
  }

  function ParagraphUnits(paragraph: string): seq<string> {
    var p := Strip(paragraph);
    if p == [] then []
    else if |p| > CHUNK_MAX_CHARS then WrapAll(Split(Sentence, p))
    else [p]
  }

  function UnitsOf(paragraphs: seq<string>): seq<string> {
    if paragraphs == [] then [] else ParagraphUnits(paragraphs[0]) + UnitsOf(paragraphs[1..])
  }

  /** The units of a stripped text. */
  function Units(text: string): seq<string> {
    UnitsOf(Split(Paragraph, text))
  }

  lemma {:induction false} WrapAllConcat(a: seq<string>, b: seq<string>)
    ensures WrapAll(a + b) == WrapAll(a) + WrapAll(b)
  {
    if a == [] {
      assert a + b == b;
    } else {
      assert (a + b)[0] == a[0] && (a + b)[1..] == a[1..] + b;
      WrapAllConcat(a[1..], b);
    }
  }

  lemma {:induction false} UnitsOfConcat(a: seq<string>, b: seq<string>)
    ensures UnitsOf(a + b) == UnitsOf(a) + UnitsOf(b)
  {
    if a == [] {
      assert a + b == b;
    } else {
      assert (a + b)[0] == a[0] && (a + b)[1..] == a[1..] + b;
      UnitsOfConcat(a[1..], b);
    }
  }

  lemma {:induction false} WrapAllOne(x: string)
    ensures WrapAll([x]) == Wrap(x)
  {
    assert [x][1..] == [];
  }

  lemma {:induction false} UnitsOfOne(x: string)
    ensures UnitsOf([x]) == ParagraphUnits(x)
  {
    assert [x][1..] == [];
  }

  /** The hard-wrap loop for one sentence. */
  method WrapSentence(sentence0: string) returns (pieces: seq<string>)
    ensures pieces == Wrap(sentence0)
  {
    pieces := [];
    var sentence := sentence0;
    assert [] + Wrap(sentence) == Wrap(sentence);
    while |sentence| > CHUNK_MAX_CHARS
      invariant Wrap(sentence0) == pieces + Wrap(sentence)
      decreases |sentence|
    {
      assert pieces + ([sentence[..CHUNK_MAX_CHARS]] + Wrap(sentence[CHUNK_MAX_CHARS..]))
          == (pieces + [sentence[..CHUNK_MAX_CHARS]]) + Wrap(sentence[CHUNK_MAX_CHARS..]);
      pieces := pieces + [sentence[..CHUNK_MAX_CHARS]];
      sentence := sentence[CHUNK_MAX_CHARS..];
    }
    if sentence != [] {
      pieces := pieces + [sentence];
    } else {
      assert pieces + [] == pieces;
    }
  }

  method SplitOversizeParagraph(paragraph: string) returns (pieces: seq<string>)
    ensures pieces == WrapAll(Split(Sentence, paragraph))
  {
    pieces := [];
    var sentences := Split(Sentence, paragraph);
    for k := 0 to |sentences|
      invariant pieces == WrapAll(sentences[..k])
    {
      var wrapped := WrapSentence(sentences[k]);
      assert sentences[..k + 1] == sentences[..k] + [sentences[k]];
      WrapAllConcat(sentences[..k], [sentences[k]]);
      WrapAllOne(sentences[k]);
      pieces := pieces + wrapped;
    }
    assert sentences[..|sentences|] == sentences;
  }

  // ---------------------------------------------------------------------------
  // Packing
  // ---------------------------------------------------------------------------

  /** What a run of units costs: its characters plus two per unit. */
  function Charge(units: seq<string>): nat {
    if units == [] then 0 else |units[0]| + 2 + Charge(units[1..])
  }

  /** Adding `unit` to the group `current` would go over the target. */
  predicate Overflows(current: seq<string>, unit: string) {
    current != [] && Charge(current) + |unit| + 2 > CHUNK_TARGET_CHARS
  }

  /** The groups that packing produces when `current` is being filled. */
  function Pack(current: seq<string>, units: seq<string>): seq<seq<string>>
    decreases |units|
  {
    if units == [] then (if current == [] then [] else [current])
    else if Overflows(current, units[0]) then [current] + Pack([units[0]], units[1..])
    else Pack(current + [units[0]], units[1..])
  }

  function Join(units: seq<string>): string {
    if units == [] then []
    else if |units| == 1 then units[0]
    else units[0] + SEPARATOR + Join(units[1..])
  }

  function JoinAll(groups: seq<seq<string>>): seq<string> {
    seq(|groups|, i requires 0 <= i < |groups| => Join(groups[i]))
  }

  function Groups(text: string): seq<seq<string>> {
    Pack([], Units(text))
  }

  /** The chunks before the cap. */
  function AllChunks(content: string): seq<string> {
    var text := Strip(content);
    if text == [] then []
    else if |text| <= CHUNK_MAX_CHARS then [text]
    else JoinAll(Groups(text))
  }

  function Chunks(content: string): seq<string> {
    var all := AllChunks(content);
    if |all| <= MAX_CHUNKS_PER_MEMORY then all else all[..MAX_CHUNKS_PER_MEMORY]
  }

  lemma {:induction false} ChargeConcat(a: seq<string>, b: seq<string>)
    ensures Charge(a + b) == Charge(a) + Charge(b)
  {
    if a == [] {
      assert a + b == b;
    } else {
      assert (a + b)[0] == a[0] && (a + b)[1..] == a[1..] + b;
      ChargeConcat(a[1..], b);
    }
  }

  lemma {:induction false} ChargeSnoc(a: seq<string>, x: string)
    ensures Charge(a + [x]) == Charge(a) + |x| + 2
  {
    ChargeConcat(a, [x]);
    assert [x][1..] == [];
  }

  lemma {:induction false} JoinAllSnoc(groups: seq<seq<string>>, g: seq<string>)
    ensures JoinAll(groups + [g]) == JoinAll(groups) + [Join(g)]
  {
  }

  lemma {:induction false} PackStep(done: seq<seq<string>>, current: seq<string>, units: seq<string>, k: nat)
    requires k < |units|
    ensures done + Pack(current, units[k..])
         == if Overflows(current, units[k]) then (done + [current]) + Pack([units[k]], units[k + 1..])
            else done + Pack(current + [units[k]], units[k + 1..])
  {
    assert units[k..][0] == units[k] && units[k..][1..] == units[k + 1..];
    ConcatAssociative(done, [current], Pack([units[k]], units[k + 1..]));
  }

  /** The packing loop. */
  method PackUnits(units: seq<string>) returns (chunks: seq<string>)
    ensures chunks == JoinAll(Pack([], units))
  {
    chunks := [];
    var current: seq<string>, currentLen := [], 0;
    ghost var done: seq<seq<string>> := [];
    assert units[0..] == units && [] + Pack([], units) == Pack([], units);
    for k := 0 to |units|
      invariant chunks == JoinAll(done) && currentLen == Charge(current)
      invariant Pack([], units) == done + Pack(current, units[k..])
    {
      var unit := units[k];
      PackStep(done, current, units, k);
      if current != [] && currentLen + |unit| + 2 > CHUNK_TARGET_CHARS {
        JoinAllSnoc(done, current);
        chunks := chunks + [Join(current)];
        done := done + [current];
        current, currentLen := [], 0;
        assert [] + [unit] == [unit];
      }
      ChargeSnoc(current, unit);
      current, currentLen := current + [unit], currentLen + |unit| + 2;
    }
    assert units[|units|..] == [];
    if current != [] {
      JoinAllSnoc(done, current);
      chunks := chunks + [Join(current)];
    } else {
      assert done + [] == done;
    }
  }

  method SplitIntoChunks(content: string) returns (chunks: seq<string>)
    ensures chunks == Chunks(content)
  {
    var text := Strip(content);
    if text == [] {
      return [];
    }
    if |text| <= CHUNK_MAX_CHARS {
      return [text];
    }
    var units: seq<string> := [];
    var paragraphs := Split(Paragraph, text);
    for k := 0 to |paragraphs|
      invariant units == UnitsOf(paragraphs[..k])
    {
      assert paragraphs[..k + 1] == paragraphs[..k] + [paragraphs[k]];
      UnitsOfConcat(paragraphs[..k], [paragraphs[k]]);
      UnitsOfOne(paragraphs[k]);
      var paragraph := Strip(paragraphs[k]);
      if paragraph == [] {
        assert units + [] == units;
        continue;
      }
      if |paragraph| > CHUNK_MAX_CHARS {
        var pieces := SplitOversizeParagraph(paragraph);
        units := units + pieces;
      } else {
        units := units + [paragraph];
      }
    }
    assert paragraphs[..|paragraphs|] == paragraphs;
    chunks := PackUnits(units);
    if |chunks| > MAX_CHUNKS_PER_MEMORY {
      chunks := chunks[..MAX_CHUNKS_PER_MEMORY];
    }
  }
}
