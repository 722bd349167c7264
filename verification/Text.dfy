/**
 Text operations shared by the chunker and the content hash: whitespace stripping, the two
 separator patterns of the chunker, and `re.split` over them.
 */
module Text {

  /** The characters that `str.strip` removes and that `\s` matches in a `str` pattern. */
  predicate IsSpace(c: char) {
    var n := c as int;
    || 0x09 <= n <= 0x0D || 0x1C <= n <= 0x20 || n == 0x85 || n == 0xA0 || n == 0x1680
    || 0x2000 <= n <= 0x200A || n == 0x2028 || n == 0x2029 || n == 0x202F || n == 0x205F || n == 0x3000
  }

  predicate AllSpace(s: string) {
    forall i :: 0 <= i < |s| ==> IsSpace(s[i])
  }

  /** The characters of `s` that are not whitespace, in order. */
  ghost function NonSpace(s: string): string {
    if s == [] then []
    else (if IsSpace(s[0]) then [] else [s[0]]) + NonSpace(s[1..])
  }

  lemma {:induction false} NonSpaceConcat(a: string, b: string)
    ensures NonSpace(a + b) == NonSpace(a) + NonSpace(b)
  {
    if a == [] {
      assert a + b == b;
    } else {
      var first := if IsSpace(a[0]) then [] else [a[0]];
      NonSpaceConcat(a[1..], b);
      assert (a + b)[0] == a[0] && (a + b)[1..] == a[1..] + b;
      assert first + (NonSpace(a[1..]) + NonSpace(b)) == (first + NonSpace(a[1..])) + NonSpace(b);
    }
  }

  lemma {:induction false} NonSpaceOfSpace(s: string)
    requires AllSpace(s)
    ensures NonSpace(s) == []
  {
    if s != [] {
      NonSpaceOfSpace(s[1..]);
    }
  }

  lemma {:induction false} NonSpaceLength(s: string)
    ensures |NonSpace(s)| <= |s|
  {
    if s != [] {
      NonSpaceLength(s[1..]);
    }
  }

  // ---------------------------------------------------------------------------
  // strip
  // ---------------------------------------------------------------------------

  function Lstrip(s: string): string {
    if s != [] && IsSpace(s[0]) then Lstrip(s[1..]) else s
  }

  function Rstrip(s: string): string {
    if s != [] && IsSpace(s[|s| - 1]) then Rstrip(s[..|s| - 1]) else s
  }

  function Strip(s: string): string {
    Rstrip(Lstrip(s))
  }

  lemma {:induction false} LstripKeeps(s: string)
    ensures NonSpace(Lstrip(s)) == NonSpace(s) && |Lstrip(s)| <= |s|
  {
    if s != [] && IsSpace(s[0]) {
      LstripKeeps(s[1..]);
    }
  }

  lemma {:induction false} RstripKeeps(s: string)
    ensures NonSpace(Rstrip(s)) == NonSpace(s) && |Rstrip(s)| <= |s|
  {
    if s != [] && IsSpace(s[|s| - 1]) {
      var front, last := s[..|s| - 1], [s[|s| - 1]];
      RstripKeeps(front);
      assert s == front + last;
      NonSpaceConcat(front, last);
      NonSpaceOfSpace(last);
    }
  }

  lemma {:induction false} StripKeeps(s: string)
    ensures NonSpace(Strip(s)) == NonSpace(s) && |Strip(s)| <= |s|
  {
    LstripKeeps(s);
    RstripKeeps(Lstrip(s));
  }

  // ---------------------------------------------------------------------------
  // Separator patterns
  // ---------------------------------------------------------------------------

  /** `\n\s*\n`, and `\s+` preceded by one of `.!?`. */
  datatype Separator = Paragraph | Sentence

  function MinLength(sep: Separator): nat {
    match sep case Paragraph => 2 case Sentence => 1
  }

  predicate EndsSentence(c: char) {
    c == '.' || c == '!' || c == '?'
  }

  /** The pattern matches exactly `t[i..e]` at position `i`. */
  predicate Matches(sep: Separator, t: string, i: nat, e: nat) {
    && i + MinLength(sep) <= e <= |t|
    && AllSpace(t[i..e])
    && match sep
       case Paragraph => t[i] == '\n' && t[e - 1] == '\n'
       case Sentence => i > 0 && EndsSentence(t[i - 1])
  }

  /** End of the whitespace run that starts at `i`. */
  function RunEnd(t: string, i: nat): nat
    requires i <= |t|
    decreases |t| - i
  {
    if i < |t| && IsSpace(t[i]) then RunEnd(t, i + 1) else i
  }

  /** The position just after the last newline of `t[lo..hi]`, or `lo` if there is none. */
  function AfterLastNewline(t: string, lo: nat, hi: nat): nat
    requires lo <= hi <= |t|
  {
    if hi == lo then lo
    else if t[hi - 1] == '\n' then hi
    else AfterLastNewline(t, lo, hi - 1)
  }

  /** Where the match at `i` ends when the pattern is matched greedily; `i` if there is no match. */
  function MatchEnd(sep: Separator, t: string, i: nat): nat
    requires i <= |t|
  {
    match sep
    case Paragraph =>
      if i < |t| && t[i] == '\n' then
        RunEndSpans(t, i + 1);
        var e := AfterLastNewline(t, i + 1, RunEnd(t, i + 1));
        if e > i + 1 then e else i
      else i
    case Sentence =>
      if 0 < i && EndsSentence(t[i - 1]) then RunEnd(t, i) else i
  }

  lemma {:induction false} RunEndSpans(t: string, i: nat)
    requires i <= |t|
    ensures i <= RunEnd(t, i) <= |t|
    ensures AllSpace(t[i..RunEnd(t, i)])
    ensures RunEnd(t, i) < |t| ==> !IsSpace(t[RunEnd(t, i)])
    decreases |t| - i
  {
    if i < |t| && IsSpace(t[i]) {
      RunEndSpans(t, i + 1);
      assert t[i..RunEnd(t, i)] == [t[i]] + t[i + 1..RunEnd(t, i)];
    }
  }

  lemma {:induction false} LastNewlineSpans(t: string, lo: nat, hi: nat)
    requires lo <= hi <= |t|
    ensures lo <= AfterLastNewline(t, lo, hi) <= hi
    ensures AfterLastNewline(t, lo, hi) > lo ==> t[AfterLastNewline(t, lo, hi) - 1] == '\n'
    ensures forall k :: AfterLastNewline(t, lo, hi) <= k < hi ==> t[k] != '\n'
  {
    if hi != lo && t[hi - 1] != '\n' {
      LastNewlineSpans(t, lo, hi - 1);
    }
  }

  lemma {:induction false} AllSpaceAt(t: string, i: nat, e: nat, k: nat)
    requires i <= k < e <= |t| && AllSpace(t[i..e])
    ensures IsSpace(t[k])
  {
    assert t[i..e][k - i] == t[k];
  }

  lemma {:induction false} AllSpaceSlice(t: string, i: nat, e: nat)
    requires i <= e <= |t| && forall k :: i <= k < e ==> IsSpace(t[k])
    ensures AllSpace(t[i..e])
  {
    forall k | 0 <= k < e - i
      ensures IsSpace(t[i..e][k])
    {
      assert t[i..e][k] == t[i + k];
    }
  }

  /** A match never extends past the whitespace run. */
  lemma {:induction false} MatchWithinRun(t: string, i: nat, e: nat, from: nat)
    requires i <= from <= e <= |t| && AllSpace(t[i..e])
    ensures e <= RunEnd(t, from)
  {
    RunEndSpans(t, from);
    if RunEnd(t, from) < e {
      AllSpaceAt(t, i, e, RunEnd(t, from));
    }
  }

  /** `MatchEnd` is the longest match at `i`, and reports a match whenever there is one. */
  lemma {:induction false} MatchEndIsLongest(sep: Separator, t: string, i: nat)
    requires i <= |t|
    ensures MatchEnd(sep, t, i) > i ==> Matches(sep, t, i, MatchEnd(sep, t, i))
    ensures forall e: nat :: Matches(sep, t, i, e) ==> e <= MatchEnd(sep, t, i)
    ensures i <= MatchEnd(sep, t, i) <= |t|
  {
    match sep
    case Paragraph =>
      if i < |t| && t[i] == '\n' {
        var run := RunEnd(t, i + 1);
        RunEndSpans(t, i + 1);
        LastNewlineSpans(t, i + 1, run);
        var e := AfterLastNewline(t, i + 1, run);
        forall k | i <= k < e
          ensures IsSpace(t[k])
        {
          if k > i { AllSpaceAt(t, i + 1, run, k); }
        }
        AllSpaceSlice(t, i, e);
        forall e': nat | Matches(sep, t, i, e')
          ensures e' <= MatchEnd(sep, t, i)
        {
          MatchWithinRun(t, i, e', i + 1);
        }
      }
    case Sentence =>
      RunEndSpans(t, i);
      forall e': nat | Matches(sep, t, i, e')
        ensures e' <= MatchEnd(sep, t, i)
      {
        MatchWithinRun(t, i, e', i);
      }
  }

  // ---------------------------------------------------------------------------
  // re.split
  // ---------------------------------------------------------------------------

  /** Leftmost matches from `i` on; the piece being collected starts at `start`. */
  function SplitFrom(sep: Separator, t: string, start: nat, i: nat): seq<string>
    requires start <= i <= |t|
    decreases |t| - i
  {
    MatchEndIsLongest(sep, t, i);
    if i == |t| then [t[start..]]
    else
      var e := MatchEnd(sep, t, i);
      if e > i then [t[start..i]] + SplitFrom(sep, t, e, e)
      else SplitFrom(sep, t, start, i + 1)
  }

  function Split(sep: Separator, t: string): seq<string> {
    SplitFrom(sep, t, 0, 0)
  }

  function Flatten(ss: seq<string>): string {
    if ss == [] then [] else ss[0] + Flatten(ss[1..])
  }

  lemma {:induction false} FlattenConcat(a: seq<string>, b: seq<string>)
    ensures Flatten(a + b) == Flatten(a) + Flatten(b)
  {
    if a == [] {
      assert a + b == b;
    } else {
      assert (a + b)[0] == a[0] && (a + b)[1..] == a[1..] + b;
      FlattenConcat(a[1..], b);
    }
  }

  lemma {:induction false} FlattenCons(x: string, b: seq<string>)
    ensures Flatten([x] + b) == x + Flatten(b)
  {
    assert ([x] + b)[1..] == b;
  }

  lemma {:induction false} FlattenOne(x: string)
    ensures Flatten([x]) == x
  {
    assert [x][1..] == [] && x + [] == x;
  }

  /** Cutting a whitespace stretch `t[i..e]` out of `t[start..]` keeps the other characters. */
  lemma {:induction false} CutKeeps(t: string, start: nat, i: nat, e: nat, rest: string)
    requires start <= i <= e <= |t| && AllSpace(t[i..e])
    requires NonSpace(rest) == NonSpace(t[e..])
    ensures NonSpace(t[start..i] + rest) == NonSpace(t[start..])
  {
    assert t[start..] == t[start..i] + (t[i..e] + t[e..]);
    NonSpaceConcat(t[start..i], t[i..e] + t[e..]);
    NonSpaceConcat(t[i..e], t[e..]);
    NonSpaceOfSpace(t[i..e]);
    NonSpaceConcat(t[start..i], rest);
  }

  /** Splitting drops only whitespace. */
  lemma {:induction false} SplitKeeps(sep: Separator, t: string, start: nat, i: nat)
    requires start <= i <= |t|
    ensures NonSpace(Flatten(SplitFrom(sep, t, start, i))) == NonSpace(t[start..])
    decreases |t| - i
  {
    MatchEndIsLongest(sep, t, i);
    if i == |t| {
      FlattenOne(t[start..]);
    } else if MatchEnd(sep, t, i) > i {
      var e := MatchEnd(sep, t, i);
      SplitKeeps(sep, t, e, e);
      FlattenCons(t[start..i], SplitFrom(sep, t, e, e));
      CutKeeps(t, start, i, e, Flatten(SplitFrom(sep, t, e, e)));
    } else {
      SplitKeeps(sep, t, start, i + 1);
    }
  }

  /** Length of the pieces, each counted with one shortest separator. */
  ghost function PaddedLength(sep: Separator, ss: seq<string>): nat {
    if ss == [] then 0 else |ss[0]| + MinLength(sep) + PaddedLength(sep, ss[1..])
  }

  /** Pieces and the separators between them fit in the text. */
  lemma {:induction false} SplitFits(sep: Separator, t: string, start: nat, i: nat)
    requires start <= i <= |t|
    ensures PaddedLength(sep, SplitFrom(sep, t, start, i)) <= |t| - start + MinLength(sep)
    decreases |t| - i
  {
    if i < |t| {
      MatchEndIsLongest(sep, t, i);
      var e := MatchEnd(sep, t, i);
      if e > i {
        SplitFits(sep, t, e, e);
        assert ([t[start..i]] + SplitFrom(sep, t, e, e))[1..] == SplitFrom(sep, t, e, e);
      } else {
        SplitFits(sep, t, start, i + 1);
      }
    }
  }

  /** No separator starts at any of the positions from `start` to `i`. */
  ghost predicate Clear(sep: Separator, t: string, start: nat, i: nat)
    requires start <= i <= |t|
  {
    forall j :: start <= j < i ==> MatchEnd(sep, t, j) == j
  }

  ghost predicate HoldsSeparator(sep: Separator, p: string) {
    exists j: nat, e: nat :: Matches(sep, p, j, e)
  }

  lemma {:induction false} SliceOfSlice(t: string, start: nat, i: nat, j: nat, e: nat)
    requires start <= i <= |t| && j <= e <= i - start
    ensures t[start..i][j..e] == t[start + j..start + e]
  {
    var p, a, b := t[start..i], t[start..i][j..e], t[start + j..start + e];
    assert |a| == |b|;
    forall k | 0 <= k < |a|
      ensures a[k] == b[k]
    {
      assert a[k] == p[j + k] && p[j + k] == t[start + (j + k)] && b[k] == t[(start + j) + k];
    }
  }

  lemma {:induction false} ClearPiece(sep: Separator, t: string, start: nat, i: nat)
    requires start <= i <= |t| && Clear(sep, t, start, i)
    ensures !HoldsSeparator(sep, t[start..i])
  {
    var p := t[start..i];
    forall j: nat, e: nat | Matches(sep, p, j, e)
      ensures false
    {
      SliceOfSlice(t, start, i, j, e);
      assert Matches(sep, t, start + j, start + e);
      MatchEndIsLongest(sep, t, start + j);
    }
  }

  /** No piece of a split holds a separator any more. */
  lemma {:induction false} PiecesHoldNoSeparator(sep: Separator, t: string, start: nat, i: nat, k: nat)
    requires start <= i <= |t| && Clear(sep, t, start, i)
    requires k < |SplitFrom(sep, t, start, i)|
    ensures !HoldsSeparator(sep, SplitFrom(sep, t, start, i)[k])
    decreases |t| - i
  {
    MatchEndIsLongest(sep, t, i);
    var e := MatchEnd(sep, t, i);
    if i == |t| {
      ClearPiece(sep, t, start, i);
      assert t[start..i] == t[start..];
    } else if e == i {
      PiecesHoldNoSeparator(sep, t, start, i + 1, k);
    } else if k == 0 {
      ClearPiece(sep, t, start, i);
    } else {
      PiecesHoldNoSeparator(sep, t, e, e, k - 1);
    }
  }

  /** From `start` on, `t` reads: a piece, a longest separator, a piece, and so on. */
  ghost predicate Alternates(sep: Separator, t: string, start: nat, ps: seq<string>)
    requires start <= |t|
    decreases |ps|
  {
    && ps != [] && start + |ps[0]| <= |t| && ps[0] == t[start..start + |ps[0]|]
    && var i := start + |ps[0]|;
       if |ps| == 1 then i == |t|
       else MatchEnd(sep, t, i) > i && MatchEnd(sep, t, i) <= |t| && Alternates(sep, t, MatchEnd(sep, t, i), ps[1..])
  }

  /** A split cuts at separators only, and removes nothing but them. */
  lemma {:induction false} SplitAlternates(sep: Separator, t: string, start: nat, i: nat)
    requires start <= i <= |t|
    ensures Alternates(sep, t, start, SplitFrom(sep, t, start, i))
    decreases |t| - i
  {
    MatchEndIsLongest(sep, t, i);
    var e := MatchEnd(sep, t, i);
    if i == |t| {
      assert t[start..] == t[start..|t|];
    } else if e == i {
      SplitAlternates(sep, t, start, i + 1);
    } else {
      SplitAlternates(sep, t, e, e);
      var ps := [t[start..i]] + SplitFrom(sep, t, e, e);
      assert ps[1..] == SplitFrom(sep, t, e, e);
    }
  }

  // ---------------------------------------------------------------------------
  // Slices
  // ---------------------------------------------------------------------------

  ghost predicate IsSlice(u: string, t: string) {
    exists a: nat, b: nat :: a <= b <= |t| && u == t[a..b]
  }

  lemma {:induction false} SliceTrans(u: string, t: string, s: string)
    requires IsSlice(u, t) && IsSlice(t, s)
    ensures IsSlice(u, s)
  {
    var a: nat, b: nat :| a <= b <= |t| && u == t[a..b];
    var c: nat, d: nat :| c <= d <= |s| && t == s[c..d];
    SliceOfSlice(s, c, d, a, b);
    assert u == s[c + a..c + b];
  }

  /** Stripping removes exactly the whitespace at both ends. */
  lemma {:induction false} StripIsExact(s: string) returns (a: nat, b: nat)
    ensures a <= b <= |s| && Strip(s) == s[a..b]
    ensures AllSpace(s[..a]) && AllSpace(s[b..])
    ensures a < b ==> !IsSpace(s[a]) && !IsSpace(s[b - 1])
  {
    a := LstripIsExact(s);
    var n := RstripIsExact(s[a..]);
    b := a + n;
    SliceOfSlice(s, a, |s|, 0, n);
    SliceOfSlice(s, a, |s|, n, |s| - a);
    assert s[a..|s|] == s[a..] && s[b..] == s[b..|s|];
    assert s[a..][..n] == s[a..][0..n] && s[a..][n..] == s[a..][n..|s| - a];
  }

  lemma {:induction false} LstripIsExact(s: string) returns (a: nat)
    ensures a <= |s| && Lstrip(s) == s[a..] && AllSpace(s[..a]) && (a < |s| ==> !IsSpace(s[a]))
  {
    if s != [] && IsSpace(s[0]) {
      var k := LstripIsExact(s[1..]);
      a := k + 1;
      assert s[a..] == s[1..][k..] && s[..a] == [s[0]] + s[1..][..k];
    } else {
      a := 0;
    }
  }

  lemma {:induction false} RstripIsExact(s: string) returns (b: nat)
    ensures b <= |s| && Rstrip(s) == s[..b] && AllSpace(s[b..]) && (b > 0 ==> !IsSpace(s[b - 1]))
  {
    if s != [] && IsSpace(s[|s| - 1]) {
      var front := s[..|s| - 1];
      b := RstripIsExact(front);
      assert s[..b] == front[..b] && s[b..] == front[b..] + [s[|s| - 1]];
    } else {
      b := |s|;
      assert s[..b] == s;
    }
  }

  lemma {:induction false} StripIsSlice(s: string)
    ensures IsSlice(Strip(s), s)
  {
    var a, b := StripIsExact(s);
  }

  lemma {:induction false} PieceIsSlice(sep: Separator, t: string, start: nat, i: nat, k: nat)
    requires start <= i <= |t| && k < |SplitFrom(sep, t, start, i)|
    ensures IsSlice(SplitFrom(sep, t, start, i)[k], t)
    decreases |t| - i
  {
    MatchEndIsLongest(sep, t, i);
    var e := MatchEnd(sep, t, i);
    if i == |t| {
      assert t[start..] == t[start..|t|];
    } else if e == i {
      PieceIsSlice(sep, t, start, i + 1, k);
    } else if k == 0 {
      assert SplitFrom(sep, t, start, i)[0] == t[start..i];
    } else {
      PieceIsSlice(sep, t, e, e, k - 1);
    }
  }

  /** A slice of a text without separators has none either. */
  lemma {:induction false} SliceHoldsNoSeparator(sep: Separator, u: string, t: string)
    requires IsSlice(u, t) && !HoldsSeparator(sep, t)
    ensures !HoldsSeparator(sep, u)
  {
    var a: nat, b: nat :| a <= b <= |t| && u == t[a..b];
    forall j: nat, e: nat | Matches(sep, u, j, e)
      ensures false
    {
      SliceOfSlice(t, a, b, j, e);
      assert Matches(sep, t, a + j, a + e);
    }
  }
}
