/** The fixed-window rate limiter: its table, the sweep that keeps the table small, and how much a key can get
    through. Instants are nanoseconds. */
module Throttle {
  import opened Prelude

  const SWEEP_THRESHOLD: nat := 4096
  const WINDOW: nat := 60_000_000_000

  type Instant = nat

  datatype Counter = Counter(since: Instant, requests: nat)

  datatype Request = Request(key: string, now: Instant)

  /** `duration_since`, which saturates at zero. */
  function Elapsed(now: Instant, since: Instant): nat {
    if now >= since then now - since else 0
  }

  function Sweep(seen: map<string, Counter>, now: Instant): map<string, Counter> {
    if |seen| > SWEEP_THRESHOLD
    then map key | key in seen && Elapsed(now, seen[key].since) < WINDOW :: seen[key]
    else seen
  }

  /** The counter of a key after one more request. */
  function Touch(counter: Option<Counter>, now: Instant): Counter {
    if counter.None? || Elapsed(now, counter.value.since) >= WINDOW
    then Counter(now, 1)
    else counter.value.(requests := counter.value.requests + 1)
  }

  function Lookup(seen: map<string, Counter>, key: string): Option<Counter> {
    if key in seen then Some(seen[key]) else None
  }

  /** The table after one call to `allows`. */
  function Recorded(seen: map<string, Counter>, r: Request): map<string, Counter> {
    var swept := Sweep(seen, r.now);
    swept[r.key := Touch(Lookup(swept, r.key), r.now)]
  }

  // ------------------------------------------------------------------ a limiter that never forgets

  /** The counter a limiter devoted to one key holds after that key's requests, in order. */
  function Remembered(times: seq<Instant>): Option<Counter> {
    if times == [] then None else Some(Touch(Remembered(times[..|times| - 1]), times[|times| - 1]))
  }

  /** Its verdict on the last of them. */
  predicate Admits(quota: nat, times: seq<Instant>)
    requires times != []
  {
    quota == 0 || Remembered(times).value.requests <= quota
  }

  function TimesOf(key: string, history: seq<Request>): seq<Instant> {
    if history == [] then []
    else
      var last := history[|history| - 1];
      TimesOf(key, history[..|history| - 1]) + (if last.key == key then [last.now] else [])
  }

  /** The shared table after a whole history. */
  function Table(history: seq<Request>): map<string, Counter> {
    if history == [] then map[] else Recorded(Table(history[..|history| - 1]), history[|history| - 1])
  }

  ghost predicate InOrder(times: seq<Instant>) {
    forall i, j | 0 <= i <= j < |times| :: times[i] <= times[j]
  }

  ghost predicate Ordered(history: seq<Request>) {
    forall i, j | 0 <= i <= j < |history| :: history[i].now <= history[j].now
  }

  /** What the table says of a key is what was remembered of it, unless the window it forgot is over. */
  ghost predicate Agrees(seen: Option<Counter>, remembered: Option<Counter>, now: Instant) {
    seen == remembered || (seen.None? && remembered.Some? && Elapsed(now, remembered.value.since) >= WINDOW)
  }

  lemma {:induction false} TableAgrees(history: seq<Request>, key: string, now: Instant)
    requires Ordered(history) && (history != [] ==> history[|history| - 1].now <= now)
    ensures Agrees(Lookup(Table(history), key), Remembered(TimesOf(key, history)), now)
  {
    if history != [] {
      var before, last := history[..|history| - 1], history[|history| - 1];
      TableAgrees(before, key, last.now);
      var swept := Sweep(Table(before), last.now);
      assert Agrees(Lookup(swept, key), Remembered(TimesOf(key, before)), last.now);
      if last.key == key {
        assert TimesOf(key, history)[..|TimesOf(key, before)|] == TimesOf(key, before);
      } else {
        assert TimesOf(key, history) == TimesOf(key, before);
      }
    }
  }

  /** The sweep, and every other key, are invisible: over any history in time order the verdict on each request is
      that of a limiter which serves its key alone and forgets nothing. */
  lemma {:induction false} SweepIsInvisible(quota: nat, history: seq<Request>)
    requires Ordered(history) && history != [] && quota > 0
    ensures var r := history[|history| - 1];
            && TimesOf(r.key, history) != []
            && (Table(history)[r.key].requests <= quota <==> Admits(quota, TimesOf(r.key, history)))
  {
    var r := history[|history| - 1];
    TableAgrees(history, r.key, r.now);
    assert Table(history)[r.key] == Touch(Lookup(Sweep(Table(history[..|history| - 1]), r.now), r.key), r.now);
    assert r.key in Table(history);
  }

  // ------------------------------------------------------------------ how much gets through

  /** Requests admitted in the span of one window that opens at `start`. */
  function Admitted(quota: nat, times: seq<Instant>, start: Instant): nat {
    if times == [] then 0
    else
      var last := times[|times| - 1];
      Admitted(quota, times[..|times| - 1], start)
      + (if start <= last < start + WINDOW && Admits(quota, times) then 1 else 0)
  }

  /** Requests made, admitted or not, from `start` on. */
  function Made(times: seq<Instant>, start: int): nat {
    if times == [] then 0
    else Made(times[..|times| - 1], start) + (if start <= times[|times| - 1] then 1 else 0)
  }

  function Capped(requests: nat, quota: nat): nat {
    if requests <= quota then requests else quota
  }

  /** The count by where the current window opened: before the span, inside it, or after it. */
  lemma {:induction false} SpanCount(quota: nat, times: seq<Instant>, start: Instant)
    requires quota > 0 && InOrder(times)
    ensures times == [] || times[|times| - 1] < start ==> Admitted(quota, times, start) == 0
    ensures times != [] ==>
              var c := Remembered(times).value;
              && 1 <= c.requests && c.since <= times[|times| - 1]
              && (c.since < start ==> Admitted(quota, times, start) < Capped(c.requests, quota))
              && (start <= c.since < start + WINDOW ==>
                    Admitted(quota, times, start) < quota + Capped(c.requests, quota))
              && (start + WINDOW <= c.since ==> Admitted(quota, times, start) < 2 * quota)
  {
    if times != [] {
      SpanCount(quota, times[..|times| - 1], start);
    }
  }

  /** Any half-open span of sixty seconds admits at most `2 * quota - 1` requests of a key: the request that opened
      the earlier window always lies outside. */
  lemma SpanBound(quota: nat, times: seq<Instant>, start: Instant)
    requires quota > 0 && InOrder(times)
    ensures Admitted(quota, times, start) <= 2 * quota - 1
  {
    SpanCount(quota, times, start);
  }

  function Repeat(t: Instant, n: nat): seq<Instant> {
    seq(n, _ => t)
  }

  /** A burst at one instant, all within the quota. */
  lemma {:induction false} Burst(quota: nat, times: seq<Instant>, t: Instant, n: nat, start: Instant)
    requires n > 0 && start <= t < start + WINDOW
    requires Touch(Remembered(times), t).requests + n - 1 <= quota
    ensures Admitted(quota, times + Repeat(t, n), start) == Admitted(quota, times, start) + n
    ensures Remembered(times + Repeat(t, n))
            == Some(Touch(Remembered(times), t).(requests := Touch(Remembered(times), t).requests + n - 1))
    decreases n
  {
    var all := times + Repeat(t, n);
    var before := times + Repeat(t, n - 1);
    assert all[..|all| - 1] == before && all[|all| - 1] == t;
    if n == 1 {
      assert before == times;
    } else {
      Burst(quota, times, t, n - 1, start);
    }
  }

  /** The bound is reached, for every quota. */
  lemma SpanBoundIsTight(quota: nat) returns (times: seq<Instant>, start: Instant)
    requires quota > 0
    ensures InOrder(times) && Admitted(quota, times, start) == 2 * quota - 1
  {
    start := WINDOW - 1;
    var opening := [0];
    assert opening[..0] == [];
    assert Remembered(opening) == Some(Counter(0, 1)) && Admitted(quota, opening, start) == 0;
    var filled := opening + Repeat(start, quota - 1);
    if quota > 1 {
      Burst(quota, opening, start, quota - 1, start);
    } else {
      assert filled == opening;
    }
    Burst(quota, filled, WINDOW, quota, start);
    times := filled + Repeat(WINDOW, quota);
  }

  lemma {:induction false} WindowIsMade(times: seq<Instant>, start: int)
    requires times != [] && InOrder(times) && start <= Remembered(times).value.since
    ensures Remembered(times).value.since <= times[|times| - 1]
    ensures Remembered(times).value.requests <= Made(times, start)
  {
    var before := times[..|times| - 1];
    if before != [] && Elapsed(times[|times| - 1], Remembered(before).value.since) < WINDOW {
      WindowIsMade(before, start);
    }
  }

  /** A key that made no more than its quota in the last sixty seconds is never refused. */
  lemma QuietKeysPass(quota: nat, times: seq<Instant>)
    requires times != [] && InOrder(times)
    requires Made(times, times[|times| - 1] - WINDOW + 1) <= quota
    ensures Admits(quota, times)
  {
    WindowIsMade(times, times[|times| - 1] - WINDOW + 1);
  }

  // ------------------------------------------------------------------ the limiter

  class Throttle {
    const quota: nat
    var seen: map<string, Counter>
    /** Every request counted so far. */
    ghost var history: seq<Request>

    ghost predicate Valid()
      reads this
    {
      quota > 0 ==> seen == Table(history)
    }

    constructor PerMinute(quota: nat)
      ensures this.quota == quota && history == [] && Valid()
    {
      this.quota, seen, history := quota, map[], [];
    }

    /** Counts the request and rules on it. With the clock read in the order of the calls, the verdict is that of a
        limiter that serves this key alone and forgets nothing. */
    method Allows(key: string, now: Instant) returns (ok: bool)
      requires Valid()
      modifies this
      ensures Valid() && history == old(history) + [Request(key, now)]
      ensures quota == 0 ==> ok && seen == old(seen)
      ensures quota > 0 ==> seen == Recorded(old(seen), Request(key, now)) && ok == (seen[key].requests <= quota)
      ensures Ordered(history) ==> TimesOf(key, history) != [] && ok == Admits(quota, TimesOf(key, history))
    {
      history := history + [Request(key, now)];
      assert history[..|history| - 1] == old(history);
      if quota == 0 {
        return true;
      }
      if |seen| > SWEEP_THRESHOLD {
        seen := map k | k in seen && Elapsed(now, seen[k].since) < WINDOW :: seen[k];
      }
      ghost var swept := seen;
      assert swept == Sweep(old(seen), now);
      if key !in seen {
        seen := seen[key := Counter(now, 0)];
      }
      if Elapsed(now, seen[key].since) >= WINDOW {
        seen := seen[key := Counter(now, 0)];
      }
      seen := seen[key := seen[key].(requests := seen[key].requests + 1)];
      ok := seen[key].requests <= quota;
      assert seen == swept[key := Touch(Lookup(swept, key), now)];
      if Ordered(history) {
        SweepIsInvisible(quota, history);
      }
    }
  }
}
