/**
 User search by partial email or display name: the pattern built from operator text, and
 what it matches under LIKE with backslash as the escape character
 (section 9.7.1 of the PostgreSQL manual).
 */
module LikePattern {
  import opened Wrappers
  import opened Text

  // ---------------------------------------------------------------------------
  // The pattern
  // ---------------------------------------------------------------------------

  /** `s.replace(c, rep)` for a one-character needle. */
  function Replace(s: string, c: char, rep: string): string {
    if s == [] then [] else (if s[0] == c then rep else [s[0]]) + Replace(s[1..], c, rep)
  }

  function EscapeLike(raw: string): string {
    Replace(Replace(Replace(raw, '\\', "\\\\"), '%', "\\%"), '_', "\\_")
  }

  function ContainsPattern(query: string): string {
    "%" + EscapeLike(query) + "%"
  }

  predicate IsMeta(c: char) {
    c == '\\' || c == '%' || c == '_'
  }

  /** Every metacharacter gets one backslash, in a single pass. */
  function EscapeEach(raw: string): string {
    if raw == [] then [] else (if IsMeta(raw[0]) then ['\\', raw[0]] else [raw[0]]) + EscapeEach(raw[1..])
  }

  lemma {:induction false} ReplaceConcat(a: string, b: string, c: char, rep: string)
    ensures Replace(a + b, c, rep) == Replace(a, c, rep) + Replace(b, c, rep)
  {
    if a == [] {
      assert a + b == b;
    } else {
      assert (a + b)[0] == a[0] && (a + b)[1..] == a[1..] + b;
      ReplaceConcat(a[1..], b, c, rep);
    }
  }

  lemma {:induction false} ReplaceOne(x: char, c: char, rep: string)
    ensures Replace([x], c, rep) == if x == c then rep else [x]
  {
    assert [x][1..] == [];
  }

  lemma {:induction false} ReplaceTwo(x: char, y: char, c: char, rep: string)
    requires x != c && y != c
    ensures Replace([x, y], c, rep) == [x, y]
  {
    ReplaceConcat([x], [y], c, rep);
    ReplaceOne(x, c, rep);
    ReplaceOne(y, c, rep);
    assert [x] + [y] == [x, y];
  }

  /** One character through the three replacements. */
  lemma {:induction false} EscapeChar(x: char)
    ensures EscapeLike([x]) == if IsMeta(x) then ['\\', x] else [x]
  {
    ReplaceOne(x, '\\', "\\\\");
    if x == '\\' {
      ReplaceTwo('\\', '\\', '%', "\\%");
      ReplaceTwo('\\', '\\', '_', "\\_");
    } else {
      ReplaceOne(x, '%', "\\%");
      if x == '%' {
        ReplaceTwo('\\', '%', '_', "\\_");
      } else {
        ReplaceOne(x, '_', "\\_");
      }
    }
  }

  lemma {:induction false} EscapeConcat(a: string, b: string)
    ensures EscapeLike(a + b) == EscapeLike(a) + EscapeLike(b)
  {
    ReplaceConcat(a, b, '\\', "\\\\");
    var a1, b1 := Replace(a, '\\', "\\\\"), Replace(b, '\\', "\\\\");
    ReplaceConcat(a1, b1, '%', "\\%");
    ReplaceConcat(Replace(a1, '%', "\\%"), Replace(b1, '%', "\\%"), '_', "\\_");
  }

  /** The three sequential replacements are one simultaneous per-character map. */
  lemma {:induction false} EscapeIsSimultaneous(raw: string)
    ensures EscapeLike(raw) == EscapeEach(raw)
  {
    if raw != [] {
      EscapeIsSimultaneous(raw[1..]);
      EscapeConcat([raw[0]], raw[1..]);
      EscapeChar(raw[0]);
      assert [raw[0]] + raw[1..] == raw;
    }
  }

  // ---------------------------------------------------------------------------
  // LIKE
  // ---------------------------------------------------------------------------

  /** `s LIKE p ESCAPE '\'`; a pattern that ends in a lone backslash is an error, taken as no match. */
  predicate Like(p: string, s: string)
    decreases |p| + |s|
  {
    if p == [] then s == []
    else if p[0] == '%' then Like(p[1..], s) || (s != [] && Like(p, s[1..]))
    else if p[0] == '_' then s != [] && Like(p[1..], s[1..])
    else if p[0] == '\\' then |p| >= 2 && s != [] && p[1] == s[0] && Like(p[2..], s[1..])
    else s != [] && p[0] == s[0] && Like(p[1..], s[1..])
  }

  ghost predicate OccursAt(q: string, s: string, k: nat) {
    k <= |s| && q <= s[k..]
  }

  ghost predicate Occurs(q: string, s: string) {
    exists k: nat :: OccursAt(q, s, k)
  }

  lemma {:induction false} TrailingPercent(s: string)
    ensures Like("%", s)
  {
    assert "%"[1..] == [];
    if s != [] {
      TrailingPercent(s[1..]);
    }
  }

  /** An escaped text followed by `%` matches exactly the strings it is a prefix of. */
  lemma {:induction false} EscapedPrefix(q: string, s: string)
    ensures Like(EscapeEach(q) + "%", s) <==> q <= s
  {
    var p := EscapeEach(q) + "%";
    if q == [] {
      assert p == "%";
      TrailingPercent(s);
    } else {
      var rest := EscapeEach(q[1..]) + "%";
      var c := q[0];
      if s != [] {
        EscapedPrefix(q[1..], s[1..]);
        assert q <= s <==> c == s[0] && q[1..] <= s[1..];
      }
      if IsMeta(c) {
        assert p == ['\\', c] + rest;
        assert p[2..] == rest;
      } else {
        assert p == [c] + rest;
        assert p[1..] == rest;
      }
    }
  }

  lemma {:induction false} EscapedAnywhere(q: string, s: string)
    ensures Like("%" + (EscapeEach(q) + "%"), s) <==> Occurs(q, s)
    decreases |s|
  {
    var p := "%" + (EscapeEach(q) + "%");
    assert p[1..] == EscapeEach(q) + "%";
    EscapedPrefix(q, s);
    if q <= s {
      assert s[0..] == s;
      assert OccursAt(q, s, 0);
    }
    if s != [] {
      EscapedAnywhere(q, s[1..]);
      if k: nat :| OccursAt(q, s[1..], k) {
        assert s[k + 1..] == s[1..][k..];
        assert OccursAt(q, s, k + 1);
      }
      if k: nat :| OccursAt(q, s, k) && k > 0 {
        assert s[k..] == s[1..][k - 1..];
        assert OccursAt(q, s[1..], k - 1);
      }
    }
    if k: nat :| OccursAt(q, s, k) && k == 0 {
      assert s[0..] == s;
    }
  }

  /** The pattern built from any text matches exactly the strings that contain that text. */
  lemma {:induction false} PatternIsSubstring(q: string, s: string)
    ensures Like(ContainsPattern(q), s) <==> Occurs(q, s)
  {
    EscapeIsSimultaneous(q);
    EscapedAnywhere(q, s);
    assert "%" + EscapeEach(q) + "%" == "%" + (EscapeEach(q) + "%");
  }

  // ---------------------------------------------------------------------------
  // ILIKE
  // ---------------------------------------------------------------------------

  function MapChars(fold: char -> char, s: string): string {
    seq(|s|, i requires 0 <= i < |s| => fold(s[i]))
  }

  /** A case folding leaves the metacharacters alone and maps nothing else onto them. */
  ghost predicate CaseFolding(fold: char -> char) {
    forall c :: if IsMeta(c) then fold(c) == c else !IsMeta(fold(c))
  }

  /** ILIKE folds the pattern and the text, then matches. */
  predicate ILike(fold: char -> char, p: string, s: string) {
    Like(MapChars(fold, p), MapChars(fold, s))
  }

  lemma {:induction false} MapCharsConcat(fold: char -> char, a: string, b: string)
    ensures MapChars(fold, a + b) == MapChars(fold, a) + MapChars(fold, b)
  {
  }

  lemma {:induction false} EscapeCommutes(fold: char -> char, q: string)
    requires CaseFolding(fold)
    ensures MapChars(fold, EscapeEach(q)) == EscapeEach(MapChars(fold, q))
  {
    if q != [] {
      var head := if IsMeta(q[0]) then ['\\', q[0]] else [q[0]];
      EscapeCommutes(fold, q[1..]);
      MapCharsConcat(fold, head, EscapeEach(q[1..]));
      assert IsMeta('\\');
      assert MapChars(fold, q)[0] == fold(q[0]);
      assert MapChars(fold, q)[1..] == MapChars(fold, q[1..]);
      assert IsMeta(q[0]) ==> MapChars(fold, head) == ['\\', q[0]];
      assert !IsMeta(q[0]) ==> MapChars(fold, head) == [fold(q[0])];
    }
  }

  /** Case-insensitive search is substring search up to case folding. */
  lemma {:induction false} ILikeIsSubstring(fold: char -> char, q: string, s: string)
    requires CaseFolding(fold)
    ensures ILike(fold, ContainsPattern(q), s) <==> Occurs(MapChars(fold, q), MapChars(fold, s))
  {
    EscapeIsSimultaneous(q);
    EscapeIsSimultaneous(MapChars(fold, q));
    EscapeCommutes(fold, q);
    MapCharsConcat(fold, "%" + EscapeLike(q), "%");
    MapCharsConcat(fold, "%", EscapeLike(q));
    assert IsMeta('%');
    assert MapChars(fold, "%") == "%";
    PatternIsSubstring(MapChars(fold, q), MapChars(fold, s));
  }

  // ---------------------------------------------------------------------------
  // The search
  // ---------------------------------------------------------------------------

  const MIN_QUERY_LEN: nat := 2

  /** The columns the search looks at; the display name may be NULL. */
  datatype User = User(email: string, displayName: Option<string>, createdAt: int)

  datatype Search = TooShort | Hits(users: seq<User>)

  predicate Selected(fold: char -> char, pattern: string, u: User) {
    ILike(fold, pattern, u.email) || (u.displayName.Some? && ILike(fold, pattern, u.displayName.value))
  }

  function Select(fold: char -> char, pattern: string, users: seq<User>): seq<User> {
    if users == [] then []
    else (if Selected(fold, pattern, users[0]) then [users[0]] else []) + Select(fold, pattern, users[1..])
  }

  const LIMIT_MIN: int := 1
  const LIMIT_MAX: int := 100
  const LIMIT_DEFAULT: int := 20

  function ClampLimit(limit: Option<int>): nat {
    if limit.None? then LIMIT_DEFAULT
    else if limit.value < LIMIT_MIN then LIMIT_MIN
    else if limit.value > LIMIT_MAX then LIMIT_MAX
    else limit.value
  }

  function Insert(u: User, sorted: seq<User>): seq<User> {
    if sorted == [] || u.createdAt >= sorted[0].createdAt then [u] + sorted
    else [sorted[0]] + Insert(u, sorted[1..])
  }

  /** `ORDER BY created_at DESC`; equal times stay in the order in which the rows came. */
  function NewestFirst(users: seq<User>): seq<User> {
    if users == [] then [] else Insert(users[0], NewestFirst(users[1..]))
  }

  function Limited(users: seq<User>, n: nat): seq<User> {
    if |users| <= n then users else users[..n]
  }

  function FindUsers(fold: char -> char, query: string, limit: Option<int>, users: seq<User>): Search {
    var cleaned := Strip(query);
    if |cleaned| < MIN_QUERY_LEN then TooShort
    else Hits(Limited(NewestFirst(Select(fold, ContainsPattern(cleaned), users)), ClampLimit(limit)))
  }

  /** `text` shows up in the email or in a display name that is present, whatever the case. */
  ghost predicate Mentions(fold: char -> char, text: string, u: User) {
    || Occurs(MapChars(fold, text), MapChars(fold, u.email))
    || (u.displayName.Some? && Occurs(MapChars(fold, text), MapChars(fold, u.displayName.value)))
  }

  ghost function Mentioning(fold: char -> char, text: string, users: seq<User>): seq<User> {
    if users == [] then []
    else (if Mentions(fold, text, users[0]) then [users[0]] else []) + Mentioning(fold, text, users[1..])
  }

  lemma {:induction false} SelectsMentions(fold: char -> char, text: string, users: seq<User>)
    requires CaseFolding(fold)
    ensures Select(fold, ContainsPattern(text), users) == Mentioning(fold, text, users)
  {
    if users != [] {
      var u := users[0];
      ILikeIsSubstring(fold, text, u.email);
      if u.displayName.Some? {
        ILikeIsSubstring(fold, text, u.displayName.value);
      }
      SelectsMentions(fold, text, users[1..]);
    }
  }

  ghost predicate Descending(users: seq<User>) {
    forall i, j :: 0 <= i < j < |users| ==> users[i].createdAt >= users[j].createdAt
  }

  ghost predicate NoneNewer(users: seq<User>, t: int) {
    forall i :: 0 <= i < |users| ==> users[i].createdAt <= t
  }

  lemma {:induction false} InsertAdds(u: User, sorted: seq<User>)
    ensures multiset(Insert(u, sorted)) == multiset(sorted) + multiset{u}
  {
    if sorted != [] && u.createdAt < sorted[0].createdAt {
      InsertAdds(u, sorted[1..]);
      assert sorted == [sorted[0]] + sorted[1..];
    }
  }

  lemma {:induction false} InsertSorts(u: User, sorted: seq<User>)
    requires Descending(sorted)
    ensures Descending(Insert(u, sorted))
    ensures forall t :: u.createdAt <= t && (sorted != [] ==> sorted[0].createdAt <= t) ==>
                          NoneNewer(Insert(u, sorted), t)
  {
    if sorted != [] && u.createdAt < sorted[0].createdAt {
      InsertSorts(u, sorted[1..]);
      assert NoneNewer(Insert(u, sorted[1..]), sorted[0].createdAt);
    }
  }

  lemma {:induction false} NewestFirstSorts(users: seq<User>)
    ensures Descending(NewestFirst(users)) && multiset(NewestFirst(users)) == multiset(users)
  {
    if users != [] {
      NewestFirstSorts(users[1..]);
      InsertSorts(users[0], NewestFirst(users[1..]));
      InsertAdds(users[0], NewestFirst(users[1..]));
      assert users == [users[0]] + users[1..];
    }
  }

  /** `hits` are `n` newest rows of `all`, or all of them, newest first: `rest` completes the ordering. */
  ghost predicate NewestOf(hits: seq<User>, all: seq<User>, n: nat) {
    && |hits| == (if |all| < n then |all| else n)
    && exists rest :: Descending(hits + rest) && multiset(hits + rest) == multiset(all)
  }

  lemma {:induction false} LimitedIsNewest(all: seq<User>, n: nat)
    ensures NewestOf(Limited(NewestFirst(all), n), all, n)
  {
    var sorted := NewestFirst(all);
    var hits := Limited(sorted, n);
    NewestFirstSorts(all);
    assert |sorted| == |multiset(sorted)| == |multiset(all)| == |all|;
    assert sorted == hits + sorted[|hits|..];
  }

  /**
   A search rejects a stripped query under two characters; otherwise it returns the newest users, as
   many as the limit clamped to 1..100 allows, of exactly those that mention the stripped query.
   */
  lemma {:induction false} SearchIsSubstringSearch(fold: char -> char, query: string, limit: Option<int>,
                                                   users: seq<User>)
    requires CaseFolding(fold)
    ensures FindUsers(fold, query, limit, users).TooShort? <==> |Strip(query)| < 2
    ensures |Strip(query)| >= 2 ==>
              NewestOf(FindUsers(fold, query, limit, users).users, Mentioning(fold, Strip(query), users),
                       if limit.None? then 20
                       else if limit.value < 1 then 1
                       else if limit.value > 100 then 100
                       else limit.value)
  {
    SelectsMentions(fold, Strip(query), users);
    LimitedIsNewest(Mentioning(fold, Strip(query), users), ClampLimit(limit));
  }

  // ---------------------------------------------------------------------------
  // Why the order of the replacements matters
  // ---------------------------------------------------------------------------

  /** With the backslash replaced last, the search for a percent sign finds text without one. */
  lemma {:induction false} BackslashLastIsWrong()
    ensures var p := "%" + Replace(Replace("%", '%', "\\%"), '\\', "\\\\") + "%";
            Like(p, "\\") && !Occurs("%", "\\")
  {
    ReplaceOne('%', '%', "\\%");
    ReplaceConcat("\\", "%", '\\', "\\\\");
    ReplaceOne('\\', '\\', "\\\\");
    ReplaceOne('%', '\\', "\\\\");
    assert "\\" + "%" == "\\%" && "\\\\" + "%" == "\\\\%";
    var p := "%" + "\\\\%" + "%";
    assert p == "%\\\\%%";
    assert p[1..] == "\\\\%%" && p[1..][2..] == "%%" && "%%"[1..] == "%";
    TrailingPercent([]);
    assert "\\"[1..] == [];
    assert Like("%%", []);
    assert Like("\\\\%%", "\\");
  }
}
