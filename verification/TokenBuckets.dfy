/**
 The per-minute token bucket, over exact real arithmetic.  Clock readings are parameters
 and may be arbitrary: a reading that is not ahead of the last one refills nothing.
 */
module TokenBuckets {

  datatype Limits = Limits(capacity: nat, rate: real)

  /** What a bucket remembers; `last` is the highest clock reading so far. */
  datatype Level = Level(tokens: real, last: real)

  datatype Wait = Seconds(wait: real) | DivisionByZero

  function Min(a: real, b: real): real { if a <= b then a else b }

  function Max(a: real, b: real): real { if a <= b then b else a }

  /** What the rate yields between two clock readings. */
  function Earned(c: Limits, from: real, to: real): real {
    (to - from) * c.rate
  }

  function Refill(c: Limits, b: Level, now: real): Level {
    if now > b.last then Level(Min(b.tokens + Earned(c, b.last, now), c.capacity as real), now) else b
  }

  predicate CanTake(c: Limits, b: Level, now: real, n: nat) {
    Refill(c, b, now).tokens >= n as real
  }

  function Take(c: Limits, b: Level, now: real, n: nat): Level {
    var r := Refill(c, b, now);
    if r.tokens >= n as real then r.(tokens := r.tokens - n as real) else r
  }

  function TimeToNext(c: Limits, b: Level, now: real, n: nat): Wait {
    var r := Refill(c, b, now);
    if r.tokens >= n as real then Seconds(0.0)
    else if c.rate == 0.0 then DivisionByZero
    else Seconds((n as real - r.tokens) / c.rate)
  }

  ghost predicate Sane(c: Limits, b: Level) {
    c.rate >= 0.0 && 0.0 <= b.tokens <= c.capacity as real
  }

  class TokenBucket {
    const capacity: nat
    const rate: real
    var tokens: real
    var lastUpdate: real

    ghost function Limit(): Limits { Limits(capacity, rate) }

    ghost function Now(): Level
      reads this
    {
      Level(tokens, lastUpdate)
    }

    ghost predicate Valid()
      reads this
    {
      Sane(Limit(), Now())
    }

    constructor (capacity: nat, rate: real, now: real)
      requires rate >= 0.0
      ensures Valid() && Limit() == Limits(capacity, rate) && Now() == Level(capacity as real, now)
    {
      this.capacity, this.rate := capacity, rate;
      tokens, lastUpdate := capacity as real, now;
    }

    method RefillTo(now: real)
      requires Valid()
      modifies this`tokens, this`lastUpdate
      ensures Valid() && Now() == Refill(Limit(), old(Now()), now)
      ensures now <= old(lastUpdate) ==> tokens == old(tokens) && lastUpdate == old(lastUpdate)
      ensures now > old(lastUpdate) ==> lastUpdate == now
      ensures now > old(lastUpdate) ==> tokens == Min(capacity as real, old(tokens) + (now - old(lastUpdate)) * rate)
    {
      RefillSane(Limit(), Now(), now);
      var elapsed := now - lastUpdate;
      if elapsed > 0.0 {
        var newTokens := tokens + elapsed * rate;
        tokens := if newTokens <= capacity as real then newTokens else capacity as real;
        lastUpdate := now;
      }
    }

    method TryTake(n: nat, now: real) returns (ok: bool)
      requires Valid()
      modifies this`tokens, this`lastUpdate
      ensures Valid() && Now() == Take(Limit(), old(Now()), now, n)
      ensures ok == old(CanTake(Limit(), Now(), now, n))
      ensures ok <==> old(Refill(Limit(), Now(), now)).tokens >= n as real
      ensures tokens == old(Refill(Limit(), Now(), now)).tokens - (if ok then n as real else 0.0)
      ensures lastUpdate == old(Refill(Limit(), Now(), now)).last
    {
      RefillTo(now);
      if tokens >= n as real {
        tokens := tokens - n as real;
        return true;
      }
      return false;
    }

    method TimeUntil(n: nat, now: real) returns (w: Wait)
      requires Valid()
      modifies this`tokens, this`lastUpdate
      ensures Valid() && Now() == Refill(Limit(), old(Now()), now)
      ensures w == old(TimeToNext(Limit(), Now(), now, n))
    {
      RefillTo(now);
      if tokens >= n as real {
        return Seconds(0.0);
      }
      if rate == 0.0 {
        return DivisionByZero;
      }
      var needed := n as real - tokens;
      return Seconds(needed / rate);
    }
  }

  // ---------------------------------------------------------------------------
  // Refilling
  // ---------------------------------------------------------------------------

  lemma {:induction false} EarnedNonNegative(c: Limits, from: real, to: real)
    requires from <= to && c.rate >= 0.0
    ensures Earned(c, from, to) >= 0.0
  {
  }

  lemma {:induction false} EarnedNothing(c: Limits, t: real)
    ensures Earned(c, t, t) == 0.0
  {
    var zero := t - t;
    assert zero == 0.0 && zero * c.rate == 0.0;
  }

  lemma {:induction false} EarnedAdds(c: Limits, x: real, y: real, z: real)
    ensures Earned(c, x, z) == Earned(c, x, y) + Earned(c, y, z)
  {
  }

  lemma {:induction false} RefillSane(c: Limits, b: Level, now: real)
    requires Sane(c, b)
    ensures Sane(c, Refill(c, b, now))
    ensures Refill(c, b, now).tokens >= b.tokens && Refill(c, b, now).last == Max(b.last, now)
  {
    if now > b.last {
      EarnedNonNegative(c, b.last, now);
    }
  }

  /** Two refills are one refill to the later reading. */
  lemma {:induction false} RefillTwice(c: Limits, b: Level, t1: real, t2: real)
    requires Sane(c, b)
    ensures Refill(c, Refill(c, b, t1), t2) == Refill(c, b, Max(t1, t2))
  {
    if b.last < t1 < t2 {
      EarnedNonNegative(c, t1, t2);
      EarnedAdds(c, b.last, t1, t2);
    }
  }

  function RefillAll(c: Limits, b: Level, readings: seq<real>): Level
    decreases |readings|
  {
    if readings == [] then b else RefillAll(c, Refill(c, b, readings[0]), readings[1..])
  }

  function MaxOf(readings: seq<real>): real
    requires readings != []
  {
    if |readings| == 1 then readings[0] else Max(readings[0], MaxOf(readings[1..]))
  }

  /** Any number of refills, in any order, equals one refill to the highest reading. */
  lemma {:induction false} ManyRefillsAreOne(c: Limits, b: Level, readings: seq<real>)
    requires Sane(c, b) && readings != []
    ensures RefillAll(c, b, readings) == Refill(c, b, MaxOf(readings))
    decreases |readings|
  {
    var b1 := Refill(c, b, readings[0]);
    if |readings| == 1 {
      assert readings[1..] == [];
    } else {
      RefillSane(c, b, readings[0]);
      ManyRefillsAreOne(c, b1, readings[1..]);
      RefillTwice(c, b, readings[0], MaxOf(readings[1..]));
    }
  }

  // ---------------------------------------------------------------------------
  // Whole runs
  // ---------------------------------------------------------------------------

  /** One call; asking for the waiting time acts on the bucket like taking nothing. */
  datatype Call = Call(now: real, n: nat)

  ghost function After(c: Limits, b: Level, calls: seq<Call>): Level
    decreases |calls|
  {
    if calls == [] then b else After(c, Take(c, b, calls[0].now, calls[0].n), calls[1..])
  }

  ghost function Admitted(c: Limits, b: Level, calls: seq<Call>): nat
    decreases |calls|
  {
    if calls == [] then 0
    else Granted(c, b, calls[0]) + Admitted(c, Take(c, b, calls[0].now, calls[0].n), calls[1..])
  }

  lemma {:induction false} WaitingIsTakingNothing(c: Limits, b: Level, now: real)
    requires Sane(c, b)
    ensures Take(c, b, now, 0) == Refill(c, b, now)
  {
    RefillSane(c, b, now);
  }

  lemma {:induction false} TakeSane(c: Limits, b: Level, now: real, n: nat)
    requires Sane(c, b)
    ensures Sane(c, Take(c, b, now, n))
  {
    RefillSane(c, b, now);
  }

  /** The level stays between empty and capacity, whatever the clock does. */
  lemma {:induction false} LevelStaysInRange(c: Limits, b: Level, calls: seq<Call>)
    requires Sane(c, b)
    ensures Sane(c, After(c, b, calls))
    decreases |calls|
  {
    if calls != [] {
      TakeSane(c, b, calls[0].now, calls[0].n);
      LevelStaysInRange(c, Take(c, b, calls[0].now, calls[0].n), calls[1..]);
    }
  }

  /** Handing out `got` tokens on the way from `b` to `b1` is covered. */
  ghost predicate Covered(c: Limits, b: Level, b1: Level, got: nat) {
    got as real + b1.tokens <= b.tokens + Earned(c, b.last, b1.last)
  }

  function Granted(c: Limits, b: Level, call: Call): nat {
    if CanTake(c, b, call.now, call.n) then call.n else 0
  }

  lemma {:induction false} TakeCovered(c: Limits, b: Level, call: Call)
    requires Sane(c, b)
    ensures Covered(c, b, Take(c, b, call.now, call.n), Granted(c, b, call))
  {
  }

  lemma {:induction false} CoveredAdds(c: Limits, b: Level, b1: Level, b2: Level, x: nat, y: nat)
    requires Covered(c, b, b1, x) && Covered(c, b1, b2, y)
    ensures Covered(c, b, b2, x + y)
  {
    EarnedAdds(c, b.last, b1.last, b2.last);
  }

  /** Tokens handed out plus tokens left never exceed what was there plus what was refilled. */
  lemma {:induction false} Conservation(c: Limits, b: Level, calls: seq<Call>)
    requires Sane(c, b)
    ensures Covered(c, b, After(c, b, calls), Admitted(c, b, calls))
    decreases |calls|
  {
    if calls != [] {
      var b1 := Take(c, b, calls[0].now, calls[0].n);
      TakeSane(c, b, calls[0].now, calls[0].n);
      TakeCovered(c, b, calls[0]);
      Conservation(c, b1, calls[1..]);
      CoveredAdds(c, b, b1, After(c, b1, calls[1..]), Granted(c, b, calls[0]), Admitted(c, b1, calls[1..]));
    }
  }

  // ---------------------------------------------------------------------------
  // Nothing is lost but what the capacity cuts off
  // ---------------------------------------------------------------------------

  /** What a refill to this reading would put above the capacity. */
  ghost function Overflow(c: Limits, b: Level, now: real): real {
    if now > b.last then Max(b.tokens + Earned(c, b.last, now) - c.capacity as real, 0.0) else 0.0
  }

  /** What the capacity cuts off over a run. */
  ghost function CutOff(c: Limits, b: Level, calls: seq<Call>): real
    decreases |calls|
  {
    if calls == [] then 0.0
    else Overflow(c, b, calls[0].now) + CutOff(c, Take(c, b, calls[0].now, calls[0].n), calls[1..])
  }

  lemma {:induction false} TakeBalances(c: Limits, b: Level, call: Call)
    requires Sane(c, b)
    ensures var b1 := Take(c, b, call.now, call.n);
            Granted(c, b, call) as real + b1.tokens
            == b.tokens + Earned(c, b.last, b1.last) - Overflow(c, b, call.now)
  {
    EarnedNothing(c, b.last);
  }

  /**
   Tokens handed out and tokens left are exactly what was there and what was earned, less what the
   capacity cut off.
   */
  lemma {:induction false} ExactConservation(c: Limits, b: Level, calls: seq<Call>)
    requires Sane(c, b)
    ensures Admitted(c, b, calls) as real + After(c, b, calls).tokens
         == b.tokens + Earned(c, b.last, After(c, b, calls).last) - CutOff(c, b, calls)
    decreases |calls|
  {
    if calls == [] {
      EarnedNothing(c, b.last);
    } else {
      var b1 := Take(c, b, calls[0].now, calls[0].n);
      TakeSane(c, b, calls[0].now, calls[0].n);
      TakeBalances(c, b, calls[0]);
      ExactConservation(c, b1, calls[1..]);
      EarnedAdds(c, b.last, b1.last, After(c, b1, calls[1..]).last);
    }
  }

  ghost function Requested(calls: seq<Call>): nat {
    if calls == [] then 0 else calls[0].n + Requested(calls[1..])
  }

  ghost predicate AllGranted(c: Limits, b: Level, calls: seq<Call>)
    decreases |calls|
  {
    calls == [] ||
    (CanTake(c, b, calls[0].now, calls[0].n) && AllGranted(c, Take(c, b, calls[0].now, calls[0].n), calls[1..]))
  }

  /** The requests so far are covered by what was there and what was earned and not cut off. */
  ghost predicate WithinMeans(c: Limits, b: Level, calls: seq<Call>) {
    Requested(calls) as real <= b.tokens + Earned(c, b.last, After(c, b, calls).last) - CutOff(c, b, calls)
  }

  lemma {:induction false} GrantedIsRequested(c: Limits, b: Level, calls: seq<Call>)
    ensures Admitted(c, b, calls) <= Requested(calls)
    ensures AllGranted(c, b, calls) ==> Admitted(c, b, calls) == Requested(calls)
    decreases |calls|
  {
    if calls != [] {
      GrantedIsRequested(c, Take(c, b, calls[0].now, calls[0].n), calls[1..]);
    }
  }

  /** The first call is granted exactly if it is within means. */
  lemma {:induction false} FirstWithinMeans(c: Limits, b: Level, call: Call)
    requires Sane(c, b)
    ensures WithinMeans(c, b, [call]) <==> CanTake(c, b, call.now, call.n)
  {
    var b1 := Take(c, b, call.now, call.n);
    assert [call][1..] == [];
    assert Requested([call]) == call.n;
    assert After(c, b, [call]) == b1 && CutOff(c, b, [call]) == Overflow(c, b, call.now);
    TakeBalances(c, b, call);
    EarnedNothing(c, b.last);
  }

  /** After a granted call the rest is within means exactly if the whole is. */
  lemma {:induction false} RestWithinMeans(c: Limits, b: Level, calls: seq<Call>)
    requires Sane(c, b) && calls != [] && CanTake(c, b, calls[0].now, calls[0].n)
    ensures WithinMeans(c, b, calls) <==> WithinMeans(c, Take(c, b, calls[0].now, calls[0].n), calls[1..])
  {
    var b1 := Take(c, b, calls[0].now, calls[0].n);
    TakeBalances(c, b, calls[0]);
    EarnedAdds(c, b.last, b1.last, After(c, b1, calls[1..]).last);
  }

  /** A run is granted in full exactly if every beginning of it is within means. */
  lemma {:induction false} AllGrantedExactly(c: Limits, b: Level, calls: seq<Call>)
    requires Sane(c, b)
    ensures AllGranted(c, b, calls) <==> forall k :: 0 < k <= |calls| ==> WithinMeans(c, b, calls[..k])
    decreases |calls|
  {
    if calls != [] {
      var b1, rest := Take(c, b, calls[0].now, calls[0].n), calls[1..];
      assert calls[..1] == [calls[0]];
      FirstWithinMeans(c, b, calls[0]);
      TakeSane(c, b, calls[0].now, calls[0].n);
      AllGrantedExactly(c, b1, rest);
      forall k | 0 < k <= |rest| && CanTake(c, b, calls[0].now, calls[0].n)
        ensures WithinMeans(c, b1, rest[..k]) <==> WithinMeans(c, b, calls[..k + 1])
      {
        assert calls[..k + 1][0] == calls[0] && calls[..k + 1][1..] == rest[..k];
        RestWithinMeans(c, b, calls[..k + 1]);
      }
      if AllGranted(c, b, calls) {
        forall k | 0 < k <= |calls|
          ensures WithinMeans(c, b, calls[..k])
        {
          if k > 1 {
            assert WithinMeans(c, b1, rest[..k - 1]);
          }
        }
      }
      if forall k :: 0 < k <= |calls| ==> WithinMeans(c, b, calls[..k]) {
        assert WithinMeans(c, b, calls[..1]);
        forall k | 0 < k <= |rest|
          ensures WithinMeans(c, b1, rest[..k])
        {
          assert WithinMeans(c, b, calls[..k + 1]);
        }
      }
    }
  }

  lemma {:induction false} StandingClock(c: Limits, b: Level, calls: seq<Call>)
    requires Sane(c, b) && forall i :: 0 <= i < |calls| ==> calls[i].now <= b.last
    ensures After(c, b, calls).last == b.last && CutOff(c, b, calls) == 0.0
    decreases |calls|
  {
    if calls != [] {
      TakeSane(c, b, calls[0].now, calls[0].n);
      StandingClock(c, Take(c, b, calls[0].now, calls[0].n), calls[1..]);
    }
  }

  lemma {:induction false} RequestedPrefix(calls: seq<Call>, k: nat)
    requires k <= |calls|
    ensures Requested(calls[..k]) <= Requested(calls)
  {
    if k > 0 {
      assert calls[..k][1..] == calls[1..][..k - 1];
      RequestedPrefix(calls[1..], k - 1);
    }
  }

  /** At one reading all requests are granted whose sum the bucket holds. */
  lemma {:induction false} BurstIsGranted(c: Limits, b: Level, calls: seq<Call>)
    requires Sane(c, b) && forall i :: 0 <= i < |calls| ==> calls[i].now <= b.last
    requires Requested(calls) as real <= b.tokens
    ensures AllGranted(c, b, calls)
    ensures After(c, b, calls).tokens == b.tokens - Requested(calls) as real
  {
    forall k | 0 < k <= |calls|
      ensures WithinMeans(c, b, calls[..k])
    {
      StandingClock(c, b, calls[..k]);
      EarnedNothing(c, b.last);
      RequestedPrefix(calls, k);
    }
    AllGrantedExactly(c, b, calls);
    GrantedIsRequested(c, b, calls);
    StandingClock(c, b, calls);
    ExactConservation(c, b, calls);
    EarnedNothing(c, b.last);
  }

  /** Refilling first does not change what a run of calls does. */
  lemma {:induction false} RefillFirst(c: Limits, b: Level, calls: seq<Call>)
    requires Sane(c, b) && calls != []
    ensures var b0 := Refill(c, b, calls[0].now);
            Admitted(c, b0, calls) == Admitted(c, b, calls) && After(c, b0, calls) == After(c, b, calls)
  {
    RefillTwice(c, b, calls[0].now, calls[0].now);
  }

  lemma {:induction false} WindowFrom(c: Limits, start: Level, window: seq<Call>)
    requires Sane(c, start) && window != []
    ensures Admitted(c, start, window) as real
         <= c.capacity as real + Earned(c, Max(start.last, window[0].now), After(c, start, window).last)
  {
    var b0 := Refill(c, start, window[0].now);
    RefillFirst(c, start, window);
    RefillSane(c, start, window[0].now);
    Conservation(c, b0, window);
    LevelStaysInRange(c, b0, window);
  }

  /**
   Between any two calls of any run, the tokens admitted are at most the capacity plus the
   rate times the advance of the highest clock reading from the first call to the last.
   */
  lemma {:induction false} WindowBound(c: Limits, b: Level, calls: seq<Call>, i: nat, j: nat, start: Level, end: Level)
    requires Sane(c, b) && i < j <= |calls|
    requires start == After(c, b, calls[..i]) && end == After(c, start, calls[i..j])
    ensures Admitted(c, start, calls[i..j]) as real
         <= c.capacity as real + Earned(c, Max(start.last, calls[i].now), end.last)
  {
    LevelStaysInRange(c, b, calls[..i]);
    WindowFrom(c, start, calls[i..j]);
  }

  /** The clock part of the level is the highest reading so far. */
  lemma {:induction false} LastIsHighWater(c: Limits, b: Level, calls: seq<Call>, k: nat)
    requires Sane(c, b) && k < |calls|
    ensures After(c, b, calls).last >= calls[k].now && After(c, b, calls).last >= b.last
    ensures After(c, b, calls).last == b.last || exists m :: 0 <= m < |calls| && After(c, b, calls).last == calls[m].now
    decreases |calls|
  {
    var b1 := Take(c, b, calls[0].now, calls[0].n);
    var rest := calls[1..];
    TakeSane(c, b, calls[0].now, calls[0].n);
    if rest == [] {
      assert After(c, b, calls) == b1;
    } else {
      LastIsHighWater(c, b1, rest, if k == 0 then 0 else k - 1);
      if m :| 0 <= m < |rest| && After(c, b1, rest).last == rest[m].now {
        assert calls[m + 1] == rest[m];
      }
    }
  }

  // ---------------------------------------------------------------------------
  // Waiting
  // ---------------------------------------------------------------------------

  /** Dividing by the rate inverts earning. */
  lemma {:induction false} EarnsEnough(c: Limits, x: real, from: real, d: real)
    requires c.rate > 0.0
    ensures Earned(c, from, from + d) >= x <==> d >= x / c.rate
  {
    var q := x / c.rate;
    assert q * c.rate == x;
    assert Earned(c, from, from + d) == d * c.rate;
    if d >= q {
      assert (d - q) * c.rate >= 0.0;
    } else {
      assert (q - d) * c.rate > 0.0;
    }
    assert (d - q) * c.rate == d * c.rate - x;
  }

  /** After `d` more seconds the level has grown by what the rate yields, up to the capacity. */
  lemma {:induction false} LevelLater(c: Limits, r: Level, d: real)
    requires Sane(c, r) && d >= 0.0
    ensures Refill(c, r, r.last + d).tokens == Min(r.tokens + Earned(c, r.last, r.last + d), c.capacity as real)
  {
    EarnedNothing(c, r.last);
    assert d == 0.0 ==> r.last + d == r.last;
  }

  /**
   For a request within the capacity, waiting the reported time is enough, and any shorter
   wait is not.
   */
  lemma {:induction false} WaitIsExact(c: Limits, b: Level, now: real, n: nat, d: real)
    requires Sane(c, b) && c.rate > 0.0 && n <= c.capacity && d >= 0.0
    ensures TimeToNext(c, b, now, n).Seconds?
    ensures var r := Refill(c, b, now);
            CanTake(c, r, r.last + d, n) <==> d >= TimeToNext(c, b, now, n).wait
  {
    var r := Refill(c, b, now);
    RefillSane(c, b, now);
    LevelLater(c, r, d);
    EarnsEnough(c, n as real - r.tokens, r.last, d);
    EarnedNonNegative(c, r.last, r.last + d);
  }

  /**
   For every request: the wait is zero if the bucket holds enough, and otherwise what the rate needs
   for the missing tokens, which is a division by zero exactly at rate zero.
   */
  lemma {:induction false} WaitIsShortfall(c: Limits, b: Level, now: real, n: nat)
    requires Sane(c, b)
    ensures TimeToNext(c, b, now, n).DivisionByZero? <==> c.rate == 0.0 && !CanTake(c, b, now, n)
    ensures CanTake(c, b, now, n) ==> TimeToNext(c, b, now, n) == Seconds(0.0)
    ensures c.rate > 0.0 && !CanTake(c, b, now, n) ==>
              TimeToNext(c, b, now, n).wait * c.rate == n as real - Refill(c, b, now).tokens
  {
  }

  lemma {:induction false} ShortfallWait(c: Limits, b: Level, now: real, n: nat)
    requires Sane(c, b) && c.rate > 0.0
    ensures TimeToNext(c, b, now, n).Seconds? && TimeToNext(c, b, now, n).wait >= 0.0
    ensures !CanTake(c, b, now, n) ==> TimeToNext(c, b, now, n).wait > 0.0
  {
    var short := n as real - Refill(c, b, now).tokens;
    EarnsEnough(c, short, 0.0, 0.0);
    EarnedNothing(c, 0.0);
  }

  /** A request above the capacity is never granted, although a finite wait is reported for it. */
  lemma {:induction false} OverCapacityNeverGranted(c: Limits, b: Level, now: real, n: nat)
    requires Sane(c, b) && n > c.capacity
    ensures !CanTake(c, b, now, n)
    ensures c.rate > 0.0 ==> TimeToNext(c, b, now, n).Seconds? && TimeToNext(c, b, now, n).wait > 0.0
  {
    RefillSane(c, b, now);
    if c.rate > 0.0 {
      ShortfallWait(c, b, now, n);
    }
  }

  /** With a positive rate, a request is granted at some later reading exactly if it fits the capacity. */
  lemma {:induction false} GrantableExactly(c: Limits, b: Level, n: nat)
    requires Sane(c, b) && c.rate > 0.0
    ensures n <= c.capacity <==> exists later :: later >= b.last && CanTake(c, b, later, n)
  {
    if n <= c.capacity {
      var d := TimeToNext(c, b, b.last, n).wait;
      ShortfallWait(c, b, b.last, n);
      WaitIsExact(c, b, b.last, n, d);
      assert b.last + d >= b.last && CanTake(c, b, b.last + d, n);
    } else {
      forall later
        ensures !CanTake(c, b, later, n)
      {
        OverCapacityNeverGranted(c, b, later, n);
      }
    }
  }

  /** On a clock that does not go back, a refused request leaves no trace. */
  lemma {:induction false} RefusalIsInvisible(c: Limits, b: Level, now: real, n: nat, later: real, m: nat)
    requires Sane(c, b) && !CanTake(c, b, now, n) && now <= later
    ensures var b1 := Take(c, b, now, n);
            CanTake(c, b1, later, m) == CanTake(c, b, later, m) && Take(c, b1, later, m) == Take(c, b, later, m)
  {
    RefillTwice(c, b, now, later);
  }
}
