/**
 The content hash: normalise, then digest.  Unicode normalisation, lower-casing and the
 digest are parameters; stripping and collapsing whitespace are concrete.
 */
module ContentHash {
  import opened Text

  datatype Hasher = Hasher(nfkc: string -> string, lower: string -> string, digest: string -> string)

  /** `\s+` replaced by one space. */
  function Collapse(t: string): string
    decreases |t|
  {
    if t == [] then []
    else if IsSpace(t[0]) then
      RunEndSpans(t, 0);
      [' '] + Collapse(t[RunEnd(t, 1)..])
    else [t[0]] + Collapse(t[1..])
  }

  function NormalizeForHash(h: Hasher, text: string): string {
    Collapse(h.lower(Strip(h.nfkc(text))))
  }

  function HashContent(h: Hasher, text: string): string {
    h.digest(NormalizeForHash(h, text))
  }

  ghost predicate CollisionFree(h: Hasher) {
    forall a, b :: h.digest(a) == h.digest(b) ==> a == b
  }

  /** Equal hashes mean equal normal forms, and the other way round. */
  lemma {:induction false} HashIsNormalForm(h: Hasher, a: string, b: string)
    requires CollisionFree(h)
    ensures HashContent(h, a) == HashContent(h, b) <==> NormalizeForHash(h, a) == NormalizeForHash(h, b)
    ensures h.lower(Strip(h.nfkc(a))) == h.lower(Strip(h.nfkc(b))) ==> HashContent(h, a) == HashContent(h, b)
  {
  }

  /** Collapsing touches whitespace only. */
  lemma {:induction false} CollapseKeeps(t: string)
    ensures NonSpace(Collapse(t)) == NonSpace(t)
    decreases |t|
  {
    if t != [] {
      if IsSpace(t[0]) {
        RunEndSpans(t, 0);
        var e := RunEnd(t, 1);
        assert e == RunEnd(t, 0);
        CollapseKeeps(t[e..]);
        assert t == t[0..e] + t[e..];
        NonSpaceConcat(t[0..e], t[e..]);
        NonSpaceOfSpace(t[0..e]);
        NonSpaceConcat([' '], Collapse(t[e..]));
        NonSpaceOfSpace([' ']);
      } else {
        CollapseKeeps(t[1..]);
        assert ([t[0]] + Collapse(t[1..]))[1..] == Collapse(t[1..]);
      }
    }
  }

  /** The normal form has no two adjacent whitespace characters, and only plain spaces. */
  ghost predicate SingleSpaced(t: string) {
    forall i :: 0 <= i < |t| && IsSpace(t[i]) ==> t[i] == ' ' && (i + 1 < |t| ==> !IsSpace(t[i + 1]))
  }

  lemma {:induction false} CollapseSingleSpaces(t: string)
    ensures SingleSpaced(Collapse(t))
    ensures t != [] ==> Collapse(t) != [] && (IsSpace(Collapse(t)[0]) <==> IsSpace(t[0]))
    decreases |t|
  {
    if t != [] {
      if IsSpace(t[0]) {
        RunEndSpans(t, 0);
        CollapseSingleSpaces(t[RunEnd(t, 1)..]);
      } else {
        CollapseSingleSpaces(t[1..]);
      }
    }
  }

  /** A single-spaced text is its own collapsed form. */
  lemma {:induction false} CollapseFixes(t: string)
    requires SingleSpaced(t)
    ensures Collapse(t) == t
    decreases |t|
  {
    if t != [] {
      assert SingleSpaced(t[1..]) by {
        forall i | 0 <= i < |t[1..]| && IsSpace(t[1..][i])
          ensures t[1..][i] == ' ' && (i + 1 < |t[1..]| ==> !IsSpace(t[1..][i + 1]))
        {
          assert t[1..][i] == t[i + 1];
        }
      }
      CollapseFixes(t[1..]);
      if IsSpace(t[0]) {
        assert t[0] == ' ';
        assert RunEnd(t, 1) == 1;
      }
      assert [t[0]] + t[1..] == t;
    }
  }

  /** Collapsing twice is collapsing once. */
  lemma {:induction false} CollapseIdempotent(t: string)
    ensures Collapse(Collapse(t)) == Collapse(t)
  {
    CollapseSingleSpaces(t);
    CollapseFixes(Collapse(t));
  }

  /** Texts with the same hash have the same non-whitespace characters once folded. */
  lemma {:induction false} SameHashSameCharacters(h: Hasher, a: string, b: string)
    requires CollisionFree(h) && HashContent(h, a) == HashContent(h, b)
    ensures NonSpace(h.lower(Strip(h.nfkc(a)))) == NonSpace(h.lower(Strip(h.nfkc(b))))
  {
    HashIsNormalForm(h, a, b);
    CollapseKeeps(h.lower(Strip(h.nfkc(a))));
    CollapseKeeps(h.lower(Strip(h.nfkc(b))));
  }

  /** The maximal runs of non-whitespace characters, in order. */
  ghost function Words(t: string): (ws: seq<string>)
    ensures t != [] && !IsSpace(t[0]) ==> ws != []
  {
    if t == [] then []
    else if IsSpace(t[0]) then Words(t[1..])
    else if |t| == 1 || IsSpace(t[1]) then [[t[0]]] + Words(t[1..])
    else
      var ws := Words(t[1..]);
      [[t[0]] + ws[0]] + ws[1..]
  }

  lemma {:induction false} WordsSkipRun(t: string, i: nat)
    requires i <= |t|
    ensures RunEnd(t, i) <= |t| && Words(t[i..]) == Words(t[RunEnd(t, i)..])
    decreases |t| - i
  {
    if i < |t| && IsSpace(t[i]) {
      WordsSkipRun(t, i + 1);
      assert t[i..][1..] == t[i + 1..];
    }
  }

  /** Collapsing keeps the words. */
  lemma {:induction false} CollapseKeepsWords(t: string)
    ensures Words(Collapse(t)) == Words(t)
    decreases |t|
  {
    if t != [] {
      if IsSpace(t[0]) {
        RunEndSpans(t, 0);
        var rest := t[RunEnd(t, 1)..];
        CollapseKeepsWords(rest);
        WordsSkipRun(t, 1);
        assert ([' '] + Collapse(rest))[1..] == Collapse(rest);
      } else {
        CollapseKeepsWords(t[1..]);
        CollapseSingleSpaces(t[1..]);
        assert ([t[0]] + Collapse(t[1..]))[1..] == Collapse(t[1..]);
      }
    }
  }

  /** Texts with the same hash have the same words once normalised, stripped and lower-cased. */
  lemma {:induction false} SameHashSameWords(h: Hasher, a: string, b: string)
    requires CollisionFree(h) && HashContent(h, a) == HashContent(h, b)
    ensures Words(h.lower(Strip(h.nfkc(a)))) == Words(h.lower(Strip(h.nfkc(b))))
  {
    HashIsNormalForm(h, a, b);
    CollapseKeepsWords(h.lower(Strip(h.nfkc(a))));
    CollapseKeepsWords(h.lower(Strip(h.nfkc(b))));
  }
}
