/**
 The in-memory limiter of the dynamic client registration endpoint (section 3 of RFC 7591):
 one counting window per key, opened by the first call that finds none running.
 */
module WindowLimiter {
  import opened Wrappers

  datatype Window = Window(count: int, start: real)

  /** The limit on admissions and the length of a window, fixed per endpoint. */
  datatype Rule = Rule(limit: int, length: real)

  /** The call finds no running window and opens one. */
  predicate Opens(r: Rule, w: Option<Window>, now: real) {
    w.None? || now - w.value.start >= r.length
  }

  predicate Admits(r: Rule, w: Option<Window>, now: real) {
    Opens(r, w, now) || w.value.count < r.limit
  }

  function Next(r: Rule, w: Option<Window>, now: real): Option<Window> {
    if Opens(r, w, now) then Some(Window(1, now))
    else if w.value.count >= r.limit then w
    else Some(w.value.(count := w.value.count + 1))
  }

  function Lookup(m: map<string, Window>, key: string): Option<Window> {
    if key in m then Some(m[key]) else None
  }

  class InMemoryRateLimiter {
    var buckets: map<string, Window>

    constructor ()
      ensures buckets == map[]
    {
      buckets := map[];
    }

    /** The outcome and the new window depend only on this key; other keys are untouched. */
    method CheckAndConsume(key: string, r: Rule, now: real) returns (ok: bool)
      modifies this
      ensures ok == Admits(r, Lookup(old(buckets), key), now)
      ensures Lookup(buckets, key) == Next(r, Lookup(old(buckets), key), now)
      ensures forall other :: other != key ==> Lookup(buckets, other) == Lookup(old(buckets), other)
      ensures key !in old(buckets) || now >= old(buckets)[key].start + r.length ==>
                ok && buckets == old(buckets)[key := Window(1, now)]
      ensures key in old(buckets) && now < old(buckets)[key].start + r.length ==>
                var w := old(buckets)[key];
                && (ok <==> w.count < r.limit)
                && buckets == if ok then old(buckets)[key := Window(w.count + 1, w.start)] else old(buckets)
    {
      if key !in buckets || now - buckets[key].start >= r.length {
        buckets := buckets[key := Window(1, now)];
        return true;
      }
      var bucket := buckets[key];
      if bucket.count >= r.limit {
        return false;
      }
      buckets := buckets[key := bucket.(count := bucket.count + 1)];
      return true;
    }
  }

  // ---------------------------------------------------------------------------
  // Runs of calls on one key
  // ---------------------------------------------------------------------------

  ghost predicate Monotone(times: seq<real>) {
    forall i, j :: 0 <= i < j < |times| ==> times[i] <= times[j]
  }

  ghost predicate NotBefore(times: seq<real>, t: real) {
    forall i :: 0 <= i < |times| ==> t <= times[i]
  }

  /** The times of the admitted calls. */
  ghost function Admissions(r: Rule, w: Option<Window>, times: seq<real>): seq<real>
    decreases |times|
  {
    if times == [] then []
    else (if Admits(r, w, times[0]) then [times[0]] else [])
         + Admissions(r, Next(r, w, times[0]), times[1..])
  }

  ghost function WindowAfter(r: Rule, w: Option<Window>, times: seq<real>): Option<Window>
    decreases |times|
  {
    if times == [] then w else WindowAfter(r, Next(r, w, times[0]), times[1..])
  }

  /** How many of the times lie in the half-open interval from `a` to `b`. */
  ghost function CountIn(times: seq<real>, a: real, b: real): nat {
    if times == [] then 0 else (if a <= times[0] < b then 1 else 0) + CountIn(times[1..], a, b)
  }

  /** A window admits the call that opens it whatever the limit says. */
  function PerWindow(r: Rule): nat {
    if r.limit < 1 then 1 else r.limit
  }

  ghost predicate Sound(r: Rule, w: Window) {
    1 <= w.count <= PerWindow(r)
  }

  lemma {:induction false} CountConcat(x: seq<real>, y: seq<real>, a: real, b: real)
    ensures CountIn(x + y, a, b) == CountIn(x, a, b) + CountIn(y, a, b)
  {
    if x == [] {
      assert x + y == y;
    } else {
      assert (x + y)[0] == x[0] && (x + y)[1..] == x[1..] + y;
      CountConcat(x[1..], y, a, b);
    }
  }

  lemma {:induction false} CountStep(r: Rule, w: Option<Window>, times: seq<real>, a: real, b: real)
    requires times != []
    ensures CountIn(Admissions(r, w, times), a, b)
         == (if Admits(r, w, times[0]) && a <= times[0] < b then 1 else 0)
            + CountIn(Admissions(r, Next(r, w, times[0]), times[1..]), a, b)
  {
    var t := times[0];
    var first := if Admits(r, w, t) then [t] else [];
    CountConcat(first, Admissions(r, Next(r, w, t), times[1..]), a, b);
    assert [t][1..] == [];
  }

  lemma {:induction false} TailMonotone(times: seq<real>)
    requires times != [] && Monotone(times)
    ensures Monotone(times[1..]) && NotBefore(times[1..], times[0])
  {
  }

  lemma {:induction false} NextSound(r: Rule, w: Option<Window>, now: real)
    requires w.Some? ==> Sound(r, w.value)
    ensures Next(r, w, now).Some? && Sound(r, Next(r, w, now).value)
  {
  }

  /** Nothing is admitted before the first call. */
  lemma {:induction false} NoneEarlier(r: Rule, w: Option<Window>, times: seq<real>, a: real, b: real)
    requires NotBefore(times, b)
    ensures CountIn(Admissions(r, w, times), a, b) == 0
    decreases |times|
  {
    if times != [] {
      CountStep(r, w, times, a, b);
      NoneEarlier(r, Next(r, w, times[0]), times[1..], a, b);
    }
  }

  /** Before its end a running window admits only what is left of the limit. */
  lemma {:induction false} RestOfWindow(r: Rule, w: Window, times: seq<real>, a: real, b: real)
    requires Sound(r, w) && Monotone(times) && b <= w.start + r.length
    ensures CountIn(Admissions(r, Some(w), times), a, b) <= PerWindow(r) - w.count
    decreases |times|
  {
    if times != [] {
      var t, next := times[0], Next(r, Some(w), times[0]);
      CountStep(r, Some(w), times, a, b);
      TailMonotone(times);
      if t - w.start >= r.length {
        NoneEarlier(r, next, times[1..], a, b);
      } else {
        NextSound(r, Some(w), t);
        RestOfWindow(r, next.value, times[1..], a, b);
      }
    }
  }

  /** One window admits at most the limit, the opening call included. */
  lemma {:induction false} WindowAdmitsLimit(r: Rule, w: Option<Window>, times: seq<real>)
    requires times != [] && Monotone(times) && Opens(r, w, times[0])
    ensures CountIn(Admissions(r, w, times), times[0], times[0] + r.length) <= PerWindow(r)
  {
    var t := times[0];
    CountStep(r, w, times, t, t + r.length);
    TailMonotone(times);
    RestOfWindow(r, Window(1, t), times[1..], t, t + r.length);
  }

  /** Calls that all lie at or after `a`: the running window and one more. */
  lemma {:induction false} FromInside(r: Rule, w: Window, times: seq<real>, a: real)
    requires Sound(r, w) && Monotone(times) && NotBefore(times, a)
    ensures CountIn(Admissions(r, Some(w), times), a, a + r.length) <= 2 * PerWindow(r) - w.count
    decreases |times|
  {
    if times != [] {
      var t, next := times[0], Next(r, Some(w), times[0]);
      CountStep(r, Some(w), times, a, a + r.length);
      TailMonotone(times);
      NextSound(r, Some(w), t);
      if Opens(r, Some(w), t) {
        RestOfWindow(r, next.value, times[1..], a, a + r.length);
      } else {
        FromInside(r, next.value, times[1..], a);
      }
    }
  }

  /**
   On a clock that does not go back, any half-open interval of one window length holds at
   most twice the limit, less one, admissions of one key.
   */
  lemma {:induction false} IntervalBound(r: Rule, w: Option<Window>, times: seq<real>, a: real)
    requires Monotone(times)
    requires w.Some? ==> Sound(r, w.value)
    ensures CountIn(Admissions(r, w, times), a, a + r.length) <= 2 * PerWindow(r) - 1
    decreases |times|
  {
    if times != [] {
      var t, next := times[0], Next(r, w, times[0]);
      TailMonotone(times);
      NextSound(r, w, t);
      CountStep(r, w, times, a, a + r.length);
      if t < a {
        IntervalBound(r, next, times[1..], a);
      } else if Opens(r, w, t) {
        RestOfWindow(r, next.value, times[1..], a, a + r.length);
      } else {
        assert NotBefore(times, a);
        FromInside(r, w.value, times, a);
      }
    }
  }

  // ---------------------------------------------------------------------------
  // Limits below one
  // ---------------------------------------------------------------------------

  /** A limit below one behaves like a limit of one on every run. */
  lemma {:induction false} LimitBelowOneActsAsOne(r: Rule, w: Option<Window>, times: seq<real>)
    requires r.limit < 1 && (w.Some? ==> w.value.count >= 1)
    ensures Admissions(r, w, times) == Admissions(Rule(1, r.length), w, times)
    decreases |times|
  {
    if times != [] {
      LimitBelowOneActsAsOne(r, Next(r, w, times[0]), times[1..]);
    }
  }

  /** No window of the run that starts with these calls admits more than the limit. */
  ghost predicate WithinLimit(r: Rule, w: Option<Window>, times: seq<real>)
    requires times != []
  {
    CountIn(Admissions(r, w, times), times[0], times[0] + r.length) <= r.limit
  }

  /** Every window keeps to the limit exactly if the limit is at least one. */
  lemma {:induction false} LimitIsKeptExactly(r: Rule)
    requires r.length > 0.0
    ensures r.limit >= 1
       <==> forall w, times ::
              times != [] && Monotone(times) && Opens(r, w, times[0]) ==> WithinLimit(r, w, times)
  {
    forall w: Option<Window>, times: seq<real> | r.limit >= 1 && times != [] && Monotone(times) && Opens(r, w, times[0])
      ensures WithinLimit(r, w, times)
    {
      WindowAdmitsLimit(r, w, times);
    }
    if r.limit < 1 {
      var once := [0.0];
      CountStep(r, None, once, 0.0, r.length);
      assert once[1..] == [];
      assert Monotone(once) && !WithinLimit(r, None, once);
    }
  }

  // ---------------------------------------------------------------------------
  // The bound is attained
  // ---------------------------------------------------------------------------

  function Repeat(t: real, n: nat): seq<real> {
    if n == 0 then [] else [t] + Repeat(t, n - 1)
  }

  lemma {:induction false} RepeatCount(t: real, n: nat, a: real, b: real)
    requires a <= t < b
    ensures CountIn(Repeat(t, n), a, b) == n
  {
    if n > 0 {
      RepeatCount(t, n - 1, a, b);
      assert ([t] + Repeat(t, n - 1))[1..] == Repeat(t, n - 1);
    }
  }

  lemma {:induction false} RepeatAt(t: real, n: nat, i: nat)
    requires i < |Repeat(t, n)|
    ensures Repeat(t, n)[i] == t
  {
    if i > 0 {
      RepeatAt(t, n - 1, i - 1);
    }
  }

  /** A running window admits repeated calls until the limit. */
  lemma {:induction false} RepeatAdmitted(r: Rule, w: Window, t: real, n: nat)
    requires t - w.start < r.length && w.count + n <= r.limit
    ensures Admissions(r, Some(w), Repeat(t, n)) == Repeat(t, n)
    ensures WindowAfter(r, Some(w), Repeat(t, n)) == Some(Window(w.count + n, w.start))
    decreases n
  {
    if n > 0 {
      assert Repeat(t, n)[0] == t && Repeat(t, n)[1..] == Repeat(t, n - 1);
      RepeatAdmitted(r, w.(count := w.count + 1), t, n - 1);
    }
  }

  lemma {:induction false} AdmissionsConcat(r: Rule, w: Option<Window>, x: seq<real>, y: seq<real>)
    ensures Admissions(r, w, x + y) == Admissions(r, w, x) + Admissions(r, WindowAfter(r, w, x), y)
    decreases |x|
  {
    if x == [] {
      assert x + y == y;
    } else {
      assert (x + y)[0] == x[0] && (x + y)[1..] == x[1..] + y;
      AdmissionsConcat(r, Next(r, w, x[0]), x[1..], y);
    }
  }

  /** One call, the rest of the limit half a window later, and a full limit when the window ends. */
  function Burst(r: Rule): seq<real>
    requires r.limit >= 1
  {
    ([0.0] + Repeat(r.length / 2.0, r.limit - 1)) + ([r.length] + Repeat(r.length, r.limit - 1))
  }

  lemma {:induction false} FillsWindow(r: Rule, w: Option<Window>, t0: real, t: real)
    requires r.limit >= 1 && Opens(r, w, t0) && t0 <= t < t0 + r.length
    ensures Admissions(r, w, [t0] + Repeat(t, r.limit - 1)) == [t0] + Repeat(t, r.limit - 1)
    ensures WindowAfter(r, w, [t0] + Repeat(t, r.limit - 1)) == Some(Window(r.limit, t0))
  {
    assert ([t0] + Repeat(t, r.limit - 1))[1..] == Repeat(t, r.limit - 1);
    RepeatAdmitted(r, Window(1, t0), t, r.limit - 1);
  }

  lemma {:induction false} BurstMonotone(r: Rule)
    requires r.limit >= 1 && r.length > 0.0
    ensures Monotone(Burst(r))
  {
    var x, y := [0.0] + Repeat(r.length / 2.0, r.limit - 1), [r.length] + Repeat(r.length, r.limit - 1);
    forall i | 0 <= i < |x|
      ensures if i == 0 then x[i] == 0.0 else x[i] == r.length / 2.0
    {
      if i > 0 { RepeatAt(r.length / 2.0, r.limit - 1, i - 1); }
    }
    forall i | 0 <= i < |y|
      ensures y[i] == r.length
    {
      if i > 0 { RepeatAt(r.length, r.limit - 1, i - 1); }
    }
  }

  /** For every limit and window length some run reaches the bound. */
  lemma {:induction false} BoundIsAttained(r: Rule)
    requires r.limit >= 1 && r.length > 0.0
    ensures Monotone(Burst(r))
    ensures CountIn(Admissions(r, None, Burst(r)), r.length / 2.0, r.length / 2.0 + r.length) == 2 * r.limit - 1
  {
    var half, n := r.length / 2.0, r.limit - 1;
    var x, y := [0.0] + Repeat(half, n), [r.length] + Repeat(r.length, n);
    var a, b := half, half + r.length;
    BurstMonotone(r);
    FillsWindow(r, None, 0.0, half);
    FillsWindow(r, Some(Window(r.limit, 0.0)), r.length, r.length);
    AdmissionsConcat(r, None, x, y);
    CountConcat(x, y, a, b);
    CountConcat([0.0], Repeat(half, n), a, b);
    CountConcat([r.length], Repeat(r.length, n), a, b);
    RepeatCount(half, n, a, b);
    RepeatCount(r.length, n, a, b);
    assert [0.0][1..] == [] && [r.length][1..] == [];
  }

  // ---------------------------------------------------------------------------
  // Several keys
  // ---------------------------------------------------------------------------

  datatype Call = Call(key: string, now: real)

  ghost function Step(r: Rule, m: map<string, Window>, c: Call): map<string, Window> {
    m[c.key := Next(r, Lookup(m, c.key), c.now).value]
  }

  /** Times of the admitted calls of `key` in a run over all keys. */
  ghost function AdmissionsOf(r: Rule, m: map<string, Window>, calls: seq<Call>, key: string): seq<real>
    decreases |calls|
  {
    if calls == [] then []
    else
      var c := calls[0];
      (if c.key == key && Admits(r, Lookup(m, key), c.now) then [c.now] else [])
      + AdmissionsOf(r, Step(r, m, c), calls[1..], key)
  }

  ghost function TimesOf(calls: seq<Call>, key: string): seq<real> {
    if calls == [] then []
    else (if calls[0].key == key then [calls[0].now] else []) + TimesOf(calls[1..], key)
  }

  /** What happens to one key is what would happen if the other keys were never used. */
  lemma {:induction false} KeysAreIndependent(r: Rule, m: map<string, Window>, calls: seq<Call>, key: string)
    ensures AdmissionsOf(r, m, calls, key) == Admissions(r, Lookup(m, key), TimesOf(calls, key))
    decreases |calls|
  {
    if calls != [] {
      var c := calls[0];
      KeysAreIndependent(r, Step(r, m, c), calls[1..], key);
      if c.key == key {
        assert TimesOf(calls, key)[1..] == TimesOf(calls[1..], key);
      } else {
        assert TimesOf(calls, key) == TimesOf(calls[1..], key);
        assert AdmissionsOf(r, m, calls, key) == AdmissionsOf(r, Step(r, m, c), calls[1..], key);
      }
    }
  }

  ghost predicate ClockForward(calls: seq<Call>) {
    forall i, j :: 0 <= i < j < |calls| ==> calls[i].now <= calls[j].now
  }

  lemma {:induction false} TimesAreCalls(calls: seq<Call>, key: string, t: real)
    requires forall i :: 0 <= i < |calls| ==> t <= calls[i].now
    ensures NotBefore(TimesOf(calls, key), t)
  {
    if calls != [] {
      TimesAreCalls(calls[1..], key, t);
    }
  }

  lemma {:induction false} TimesMonotone(calls: seq<Call>, key: string)
    requires ClockForward(calls)
    ensures Monotone(TimesOf(calls, key))
  {
    if calls != [] {
      TimesMonotone(calls[1..], key);
      TimesAreCalls(calls[1..], key, calls[0].now);
    }
  }

  /** The interval bound for one key in any run of calls over any keys, from an empty limiter. */
  lemma {:induction false} EveryKeyBounded(r: Rule, calls: seq<Call>, key: string, a: real)
    requires ClockForward(calls)
    ensures CountIn(AdmissionsOf(r, map[], calls, key), a, a + r.length) <= 2 * PerWindow(r) - 1
  {
    KeysAreIndependent(r, map[], calls, key);
    TimesMonotone(calls, key);
    IntervalBound(r, None, TimesOf(calls, key), a);
  }
}
