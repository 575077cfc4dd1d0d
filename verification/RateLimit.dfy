/** The fixed-window limiter (internal/core/middleware/ratelimit.go).

    Times and windows are whole nanoseconds. A request reads the clock and increments its counter in one step; setting
    the expiry is a step of its own, which may come late or never. Expired counters are absent. */
module RateLimit {
  import opened Wrappers

  type Key = string
  type Time = nat

  const SECOND := 1_000_000_000

  /** One counter per key and bucket. */
  datatype Slot = Slot(key: Key, bucket: nat)

  datatype Counter = Counter(count: nat, expiresAt: Option<Time>)

  type Counters = map<Slot, Counter>

  datatype Admission = Admission(key: Key, time: Time)

  /** A limit of at least one and a window of at least one second. */
  datatype Config = Config(limit: nat, window: nat)

  predicate Works(c: Config) {
    c.limit >= 1 && c.window >= SECOND
  }

  /** The window in whole seconds, the fraction dropped. */
  function Seconds(window: nat): nat {
    window / SECOND
  }

  function Bucket(now: Time, window: nat): nat
    requires window >= SECOND
  {
    (now / SECOND) / Seconds(window)
  }

  predicate Alive(counters: Counters, slot: Slot, now: Time) {
    slot in counters && (counters[slot].expiresAt == None || now < counters[slot].expiresAt.value)
  }

  /** `Incr`: the new counter of the slot. */
  function Incremented(counters: Counters, slot: Slot, now: Time): Counter {
    if Alive(counters, slot, now) then counters[slot].(count := counters[slot].count + 1) else Counter(1, None)
  }

  /** `Expire`: does nothing when the key is gone. */
  function Expiring(counters: Counters, slot: Slot, now: Time, lasts: nat): Counters {
    if Alive(counters, slot, now) then counters[slot := counters[slot].(expiresAt := Some(now + lasts))] else counters
  }

  // ---------- the protocol ----------

  /** `pending`: the counters whose first request has yet to set the expiry. `log`: the requests let through. */
  datatype State = State(clock: Time, counters: Counters, pending: set<Slot>, log: seq<Admission>)

  const INITIAL := State(0, map[], {}, [])

  datatype Step = Hit(key: Key, now: Time) | Expire(slot: Slot, now: Time)

  predicate Enabled(s: State, step: Step) {
    s.clock <= step.now && (step.Expire? ==> step.slot in s.pending)
  }

  function Next(c: Config, s: State, step: Step): State
    requires Works(c) && Enabled(s, step)
  {
    match step
    case Hit(key, now) =>
      var slot := Slot(key, Bucket(now, c.window));
      var counter := Incremented(s.counters, slot, now);
      State(now, s.counters[slot := counter],
            if counter.count == 1 then s.pending + {slot} else s.pending,
            if counter.count <= c.limit then s.log + [Admission(key, now)] else s.log)
    case Expire(slot, now) =>
      State(now, Expiring(s.counters, slot, now, 2 * c.window), s.pending - {slot}, s.log)
  }

  ghost function Reach(c: Config, trace: seq<Step>): Option<State>
    requires Works(c)
  {
    if trace == [] then Some(INITIAL)
    else
      var before := Reach(c, trace[..|trace| - 1]);
      var step := trace[|trace| - 1];
      if before.Some? && Enabled(before.value, step) then Some(Next(c, before.value, step)) else None
  }

  /** A request counts once, is let through iff the count is within the limit, and is due to set the expiry iff it is the first. */
  lemma HitCounts(c: Config, s: State, key: Key, now: Time)
    requires Works(c) && Enabled(s, Hit(key, now))
    ensures var slot, t := Slot(key, Bucket(now, c.window)), Next(c, s, Hit(key, now));
            && slot in t.counters && t.counters[slot].count == (if Alive(s.counters, slot, now) then s.counters[slot].count + 1 else 1)
            && t.log == s.log + (if t.counters[slot].count <= c.limit then [Admission(key, now)] else [])
            && (Alive(s.counters, slot, now) && s.counters[slot].count > 0 ==> t.pending == s.pending)
            && (!Alive(s.counters, slot, now) ==> t.pending == s.pending + {slot} && t.counters[slot].expiresAt == None)
            && forall other :: other != slot ==>
                 (other in t.counters <==> other in s.counters)
                 && (other in s.counters ==> t.counters[other] == s.counters[other])
  {
  }

  /** Setting the expiry ends a counter two windows later, leaves every other counter alone, and is done once. */
  lemma ExpiryIsTwoWindows(c: Config, s: State, slot: Slot, now: Time)
    requires Works(c) && Enabled(s, Expire(slot, now))
    ensures var t := Next(c, s, Expire(slot, now));
            && (Alive(s.counters, slot, now) ==>
                  && slot in t.counters && t.counters[slot].count == s.counters[slot].count
                  && forall later: Time :: Alive(t.counters, slot, later) <==> later < now + 2 * c.window)
            && (!Alive(s.counters, slot, now) ==> t.counters == s.counters)
            && (forall other :: other != slot ==>
                  (other in t.counters <==> other in s.counters)
                  && (other in s.counters ==> t.counters[other] == s.counters[other]))
            && forall later: Time :: !Enabled(t, Expire(slot, later))
  {
  }

  // ---------- buckets ----------

  /** The length of a bucket. */
  function Span(window: nat): nat {
    Seconds(window) * SECOND
  }

  function Start(bucket: nat, window: nat): nat {
    bucket * Span(window)
  }

  lemma StartOfNext(bucket: nat, window: nat)
    ensures Start(bucket + 1, window) == Start(bucket, window) + Span(window)
  {
  }

  lemma StartsGrow(a: nat, b: nat, window: nat)
    requires a <= b
    ensures Start(a, window) <= Start(b, window)
  {
    assert b * Span(window) == a * Span(window) + (b - a) * Span(window);
  }

  lemma WithinQuotient(n: nat, d: nat)
    requires d > 0
    ensures n / d * d <= n < n / d * d + d
  {
  }

  lemma Regroup(bucket: nat, seconds: nat)
    ensures bucket * (seconds * SECOND) == bucket * seconds * SECOND
  {
  }

  /** A time lies in its own bucket. */
  lemma InOwnBucket(now: Time, window: nat)
    requires window >= SECOND
    ensures Start(Bucket(now, window), window) <= now < Start(Bucket(now, window) + 1, window)
    ensures SECOND <= Span(window) <= window < Span(window) + SECOND
  {
    var seconds, b := now / SECOND, Bucket(now, window);
    WithinQuotient(now, SECOND);
    WithinQuotient(window, SECOND);
    WithinQuotient(seconds, Seconds(window));
    Regroup(b, Seconds(window));
    StartOfNext(b, window);
  }

  lemma BucketsFollowTime(a: Time, b: Time, window: nat)
    requires window >= SECOND && a <= b
    ensures Bucket(a, window) <= Bucket(b, window)
  {
    InOwnBucket(a, window);
    InOwnBucket(b, window);
    if Bucket(b, window) + 1 <= Bucket(a, window) {
      StartsGrow(Bucket(b, window) + 1, Bucket(a, window), window);
    }
  }

  /** An interval as long as the window spans two buckets, or three when the window has a fraction of a second. */
  lemma IntervalSpans(a: Time, b: Time, window: nat)
    requires window >= SECOND && a <= b <= a + window
    ensures Bucket(b, window) <= Bucket(a, window) + if window % SECOND == 0 then 1 else 2
  {
    InOwnBucket(a, window);
    InOwnBucket(b, window);
    var first := Bucket(a, window);
    StartOfNext(first, window);
    StartOfNext(first + 1, window);
    StartOfNext(first + 2, window);
    if Bucket(b, window) >= first + 3 {
      StartsGrow(first + 3, Bucket(b, window), window);
    }
    if Bucket(b, window) >= first + 2 {
      StartsGrow(first + 2, Bucket(b, window), window);
      WithinQuotient(window, SECOND);
    }
  }

  // ---------- what every step keeps ----------

  function Matches(a: Admission, key: Key, from: Time, to: Time): bool {
    a.key == key && from <= a.time <= to
  }

  /** How many requests of `key` were let through between two times. */
  function Admitted(log: seq<Admission>, key: Key, from: Time, to: Time): nat {
    if log == [] then 0
    else Admitted(log[..|log| - 1], key, from, to) + if Matches(log[|log| - 1], key, from, to) then 1 else 0
  }

  function AdmittedIn(log: seq<Admission>, slot: Slot, window: nat): nat
    requires window >= SECOND
  {
    if log == [] then 0
    else
      var last := log[|log| - 1];
      AdmittedIn(log[..|log| - 1], slot, window)
      + if last.key == slot.key && Bucket(last.time, window) == slot.bucket then 1 else 0
  }

  /** In its own bucket a counter counts every request, so it has let through the first `limit` of them. */
  ghost predicate CountsRight(c: Config, s: State, slot: Slot)
    requires Works(c)
  {
    && AdmittedIn(s.log, slot, c.window) <= c.limit
    && (slot.bucket >= Bucket(s.clock, c.window) ==>
          AdmittedIn(s.log, slot, c.window) <= if slot in s.counters then s.counters[slot].count else 0)
  }

  /** A counter outlives its bucket. */
  ghost predicate Outlives(c: Config, s: State, slot: Slot)
    requires Works(c)
  {
    slot in s.counters ==>
      && slot.bucket <= Bucket(s.clock, c.window)
      && (s.counters[slot].expiresAt.Some? ==> Start(slot.bucket + 1, c.window) <= s.counters[slot].expiresAt.value)
  }

  ghost predicate Consistent(c: Config, s: State)
    requires Works(c)
  {
    forall slot :: CountsRight(c, s, slot) && Outlives(c, s, slot)
  }

  /** The expiry never takes a counter away while its bucket is current. */
  lemma CurrentCounterIsAlive(c: Config, s: State, slot: Slot, now: Time)
    requires Works(c) && Consistent(c, s) && slot in s.counters && slot.bucket == Bucket(now, c.window)
    ensures Alive(s.counters, slot, now)
  {
    assert Outlives(c, s, slot);
    InOwnBucket(now, c.window);
  }

  lemma AdmittedMore(log: seq<Admission>, a: Admission, slot: Slot, window: nat)
    requires window >= SECOND
    ensures AdmittedIn(log + [a], slot, window)
         == AdmittedIn(log, slot, window) + if a.key == slot.key && Bucket(a.time, window) == slot.bucket then 1 else 0
  {
    hide Bucket;
    assert (log + [a])[..|log|] == log;
  }

  lemma HitKeepsSlot(c: Config, s: State, step: Step, slot: Slot)
    requires Works(c) && Enabled(s, step) && step.Hit? && CountsRight(c, s, slot) && Outlives(c, s, slot)
    requires Bucket(s.clock, c.window) <= Bucket(step.now, c.window)
    requires slot == Slot(step.key, Bucket(step.now, c.window)) && slot in s.counters ==> Alive(s.counters, slot, step.now)
    ensures CountsRight(c, Next(c, s, step), slot) && Outlives(c, Next(c, s, step), slot)
  {
    AdmittedMore(s.log, Admission(step.key, step.now), slot, c.window);
    hide Bucket, Start, Seconds, AdmittedIn;
  }

  lemma HitKeeps(c: Config, s: State, step: Step)
    requires Works(c) && Consistent(c, s) && Enabled(s, step) && step.Hit?
    ensures Consistent(c, Next(c, s, step))
  {
    hide Bucket, Start, Seconds, Next, CountsRight, Outlives, Alive, AdmittedIn;
    BucketsFollowTime(s.clock, step.now, c.window);
    forall slot ensures CountsRight(c, Next(c, s, step), slot) && Outlives(c, Next(c, s, step), slot) {
      if slot == Slot(step.key, Bucket(step.now, c.window)) && slot in s.counters {
        CurrentCounterIsAlive(c, s, slot, step.now);
      }
      HitKeepsSlot(c, s, step, slot);
    }
  }

  lemma ExpireKeeps(c: Config, s: State, step: Step)
    requires Works(c) && Consistent(c, s) && Enabled(s, step) && step.Expire?
    ensures Consistent(c, Next(c, s, step))
  {
    var t := Next(c, s, step);
    BucketsFollowTime(s.clock, step.now, c.window);
    if step.slot in s.counters {
      assert Outlives(c, s, step.slot);
      InOwnBucket(step.now, c.window);
      StartsGrow(step.slot.bucket, Bucket(step.now, c.window), c.window);
      StartOfNext(step.slot.bucket, c.window);
    }
    hide Bucket, Start, Seconds;
    forall slot ensures CountsRight(c, t, slot) && Outlives(c, t, slot) {
      assert CountsRight(c, s, slot) && Outlives(c, s, slot);
    }
  }

  lemma {:induction false} AlwaysConsistent(c: Config, trace: seq<Step>)
    requires Works(c) && Reach(c, trace).Some?
    ensures Consistent(c, Reach(c, trace).value)
    decreases |trace|
  {
    hide Consistent, Next;
    if trace == [] {
      InitialConsistent(c);
    } else {
      AlwaysConsistent(c, trace[..|trace| - 1]);
      var s, step := Reach(c, trace[..|trace| - 1]).value, trace[|trace| - 1];
      if step.Hit? {
        HitKeeps(c, s, step);
      } else {
        ExpireKeeps(c, s, step);
      }
    }
  }

  lemma InitialConsistent(c: Config)
    requires Works(c)
    ensures Consistent(c, INITIAL)
  {
    forall slot ensures CountsRight(c, INITIAL, slot) && Outlives(c, INITIAL, slot) {
    }
  }

  // ---------- the bound ----------

  lemma {:induction false} IntervalIsCovered(log: seq<Admission>, key: Key, from: Time, to: Time, window: nat)
    requires window >= SECOND && from <= to <= from + window
    ensures var first := Bucket(from, window);
            Admitted(log, key, from, to) <=
              AdmittedIn(log, Slot(key, first), window) + AdmittedIn(log, Slot(key, first + 1), window)
              + if window % SECOND == 0 then 0 else AdmittedIn(log, Slot(key, first + 2), window)
    decreases |log|
  {
    hide Bucket;
    if log != [] {
      IntervalIsCovered(log[..|log| - 1], key, from, to, window);
      var last := log[|log| - 1];
      if Matches(last, key, from, to) {
        BucketsFollowTime(from, last.time, window);
        IntervalSpans(from, last.time, window);
      }
    }
  }

  /** Any interval as long as the window lets through at most twice the limit, or three times when the window is not
      a whole number of seconds. */
  lemma AtMostTwiceTheLimit(c: Config, trace: seq<Step>, key: Key, from: Time, to: Time)
    requires Works(c) && Reach(c, trace).Some? && from <= to <= from + c.window
    ensures Admitted(Reach(c, trace).value.log, key, from, to) <= (if c.window % SECOND == 0 then 2 else 3) * c.limit
  {
    hide Bucket;
    AlwaysConsistent(c, trace);
    var s := Reach(c, trace).value;
    var first := Bucket(from, c.window);
    IntervalIsCovered(s.log, key, from, to, c.window);
    assert CountsRight(c, s, Slot(key, first)) && CountsRight(c, s, Slot(key, first + 1)) && CountsRight(c, s, Slot(key, first + 2));
  }

  // ---------- windows with a fraction of a second ----------

  ghost predicate Leads(c: Config, trace: seq<Step>, s: State)
    requires Works(c)
  {
    Reach(c, trace) == Some(s)
  }

  /** `n` requests at one time, in a bucket nobody has used. */
  lemma {:induction false} HitsHappen(c: Config, trace: seq<Step>, s: State, key: Key, now: Time, n: nat)
    returns (more: seq<Step>, t: State)
    requires Works(c) && Leads(c, trace, s) && s.clock <= now && n <= c.limit
    requires forall slot :: slot in s.counters ==> slot.bucket < Bucket(now, c.window)
    ensures Leads(c, more, t) && (n > 0 ==> t.clock == now)
    ensures n == 0 ==> t == s
    ensures forall slot :: slot in t.counters ==>
              slot in s.counters || (slot == Slot(key, Bucket(now, c.window)) && t.counters[slot] == Counter(n, None))
    ensures n > 0 ==> Slot(key, Bucket(now, c.window)) in t.counters
    ensures forall from: Time, to: Time :: from <= now <= to ==> Admitted(t.log, key, from, to) == Admitted(s.log, key, from, to) + n
    decreases n
  {
    hide Bucket;
    more, t := trace, s;
    if n > 0 {
      more, t := HitsHappen(c, trace, s, key, now, n - 1);
      var step := Hit(key, now);
      assert Enabled(t, step);
      assert (more + [step])[..|more|] == more;
      more, t := more + [step], Next(c, t, step);
    }
  }

  /** No interval as long as the window lets through more than `most` requests of a key. */
  ghost predicate NeverOver(c: Config, most: nat)
    requires Works(c)
  {
    forall trace, key, from: Time, to: Time :: Reach(c, trace).Some? && from <= to <= from + c.window ==>
      Admitted(Reach(c, trace).value.log, key, from, to) <= most
  }

  lemma FractionAdmitsThrice(c: Config, key: Key) returns (trace: seq<Step>, s: State, from: Time)
    requires Works(c) && c.window % SECOND != 0
    ensures Leads(c, trace, s) && Admitted(s.log, key, from, from + c.window) == 3 * c.limit
  {
    var span := Span(c.window);
    InOwnBucket(0, c.window);
    BucketsOfCorners(c.window);
    from := span - 1;
    WithinQuotient(c.window, SECOND);
    hide Bucket, Span;
    trace, s := HitsHappen(c, [], INITIAL, key, span - 1, c.limit);
    trace, s := HitsHappen(c, trace, s, key, span, c.limit);
    trace, s := HitsHappen(c, trace, s, key, 2 * span, c.limit);
  }

  /** Twice the limit does get through within a window, for every configuration: half before a bucket ends, half after. */
  lemma TwiceIsAdmitted(c: Config, key: Key) returns (trace: seq<Step>, s: State, from: Time)
    requires Works(c)
    ensures Leads(c, trace, s) && Admitted(s.log, key, from, from + c.window) == 2 * c.limit
  {
    var span := Span(c.window);
    InOwnBucket(0, c.window);
    BucketsOfCorners(c.window);
    from := span - 1;
    hide Bucket, Span;
    trace, s := HitsHappen(c, [], INITIAL, key, span - 1, c.limit);
    trace, s := HitsHappen(c, trace, s, key, span, c.limit);
  }

  lemma BucketsOfCorners(window: nat)
    requires window >= SECOND
    ensures Bucket(Span(window) - 1, window) == 0 && Bucket(Span(window), window) == 1 && Bucket(2 * Span(window), window) == 2
  {
    BucketIs(0, Span(window) - 1, window);
    BucketIs(1, Span(window), window);
    BucketIs(2, 2 * Span(window), window);
  }

  lemma BucketIs(b: nat, now: Time, window: nat)
    requires window >= SECOND && Start(b, window) <= now < Start(b, window) + Span(window)
    ensures Bucket(now, window) == b
  {
    hide Bucket;
    InOwnBucket(now, window);
    StartOfNext(b, window);
    if Bucket(now, window) < b {
      StartsGrow(Bucket(now, window) + 1, b, window);
    } else if Bucket(now, window) > b {
      StartsGrow(b + 1, Bucket(now, window), window);
    }
  }

  /** The most that one window lets through is exactly twice the limit, or three times with a fraction of a second. */
  lemma MostInOneWindow(c: Config, most: nat)
    requires Works(c)
    ensures NeverOver(c, most) <==> most >= (if c.window % 1_000_000_000 == 0 then 2 else 3) * c.limit
  {
    if NeverOver(c, most) {
      if c.window % SECOND == 0 {
        var trace, s, from := TwiceIsAdmitted(c, "");
        assert Reach(c, trace).value == s;
      } else {
        var trace, s, from := FractionAdmitsThrice(c, "");
        assert Reach(c, trace).value == s;
      }
    }
    forall trace, key, from: Time, to: Time | Reach(c, trace).Some? && from <= to <= from + c.window
      ensures Admitted(Reach(c, trace).value.log, key, from, to) <= (if c.window % SECOND == 0 then 2 else 3) * c.limit
    {
      AtMostTwiceTheLimit(c, trace, key, from, to);
    }
  }

  /** The bound of twice the limit holds, whatever the requests, iff the window is a whole number of seconds. */
  lemma TwiceTheLimitIffWholeSeconds(c: Config)
    requires Works(c)
    ensures NeverOver(c, 2 * c.limit) <==> c.window % 1_000_000_000 == 0
  {
    MostInOneWindow(c, 2 * c.limit);
  }

  // ---------- the middleware ----------

  /** `Panics`: a window under one second divides by zero. */
  datatype Verdict = Allowed | Limited | Panics

  class Limiter {
    const config: Config
    var clock: Time
    var counters: Counters
    ghost var pending: set<Slot>
    ghost var log: seq<Admission>
    ghost var trace: seq<Step>

    ghost predicate Tracked()
      reads this
    {
      Works(config) ==> Reach(config, trace) == Some(State(clock, counters, pending, log))
    }

    constructor (limit: nat, window: nat)
      ensures Tracked() && config == Config(limit, window) && trace == [] && log == []
    {
      config := Config(limit, window);
      clock, counters, pending, log, trace := 0, map[], {}, [], [];
    }

    ghost method Record(before: State, step: Step)
      requires Works(config) && Reach(config, trace) == Some(before) && Enabled(before, step)
      requires var s := Next(config, before, step); clock == s.clock && counters == s.counters
      modifies this`pending, this`log, this`trace
      ensures Tracked() && trace == old(trace) + [step]
      ensures State(clock, counters, pending, log) == Next(config, before, step)
    {
      var s := Next(config, before, step);
      pending, log := s.pending, s.log;
      assert (trace + [step])[..|trace|] == trace;
      trace := trace + [step];
    }

    method Incr(slot: Slot) returns (count: nat)
      modifies this`counters
      ensures counters == old(counters)[slot := Incremented(old(counters), slot, clock)] && count == counters[slot].count
    {
      if slot in counters && (counters[slot].expiresAt == None || clock < counters[slot].expiresAt.value) {
        counters := counters[slot := counters[slot].(count := counters[slot].count + 1)];
      } else {
        counters := counters[slot := Counter(1, None)];
      }
      count := counters[slot].count;
    }

    /** Other requests, and time passing; they leave the expiry of this request's counter to it. */
    method Others(ghost slot: Slot)
      requires Tracked()
      modifies this
      ensures Tracked() && old(trace) <= trace && old(clock) <= clock && old(log) <= log
      ensures slot in old(pending) ==> slot in pending
    {
    }

    /** One request. It fails open: with no counter, a limit that is not positive, or a counter that does not answer,
        the request is allowed and counted nowhere. Otherwise it is allowed iff its own step lets it through, and the
        first request of a counter sets the expiry. */
    method Handle(configured: bool, key: Key, answers: bool, expireOk: bool) returns (verdict: Verdict)
      requires Tracked()
      modifies this
      ensures Tracked() && old(trace) <= trace
      ensures verdict.Panics? <==> configured && config.limit > 0 && config.window < 1_000_000_000
      ensures !configured || config.limit == 0 || (!answers && config.window >= 1_000_000_000) ==> verdict.Allowed? && trace == old(trace)
      ensures configured && Works(config) && answers ==>
                && |trace| > |old(trace)| && trace[|old(trace)|] == Hit(key, old(clock))
                && (verdict.Allowed? <==> old(log) + [Admission(key, old(clock))] <= log)
      ensures configured && Works(config) && answers && expireOk ==>
                var slot := Slot(key, Bucket(old(clock), config.window));
                !Alive(old(counters), slot, old(clock)) ==> trace[|trace| - 1] == Expire(slot, clock)
    {
      if !configured || config.limit == 0 {
        return Allowed;
      }
      if config.window < SECOND {
        return Panics;
      }
      if !answers {
        return Allowed;
      }
      var slot := Slot(key, Bucket(clock, config.window));
      ghost var before := State(clock, counters, pending, log);
      var count := Incr(slot);
      Record(before, Hit(key, clock));
      verdict := if count > config.limit then Limited else Allowed;
      if count == 1 {
        Others(slot);
        if expireOk {
          before := State(clock, counters, pending, log);
          counters := Expiring(counters, slot, clock, 2 * config.window);
          Record(before, Expire(slot, clock));
        }
      }
    }
  }
}
