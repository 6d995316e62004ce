/** The fixed-window rate limiter, with its sweep of expired buckets and its cap on keys. */
module RateLimit {
  import opened Outcomes

  // Times are whole nanoseconds.

  const SWEEP_ABOVE: nat := 10000
  const MAX_KEYS: nat := 200000
  const SECOND: int := 1_000_000_000

  datatype Bucket = Bucket(start: int, count: nat)

  datatype Config = Config(max: int, window: int)

  type Buckets = map<string, Bucket>

  datatype State = State(buckets: Buckets, lastSweep: Option<int>)

  datatype Event = Event(key: string, time: int)

  // ---- One call, as a value ----

  predicate IsExpired(b: Bucket, now: int, c: Config) {
    now - b.start >= c.window
  }

  function Live(m: Buckets, now: int, c: Config): Buckets {
    map k | k in m && !IsExpired(m[k], now, c) :: m[k]
  }

  function Swept(s: State, now: int, c: Config): State {
    if |s.buckets| > SWEEP_ABOVE && (s.lastSweep.None? || now - s.lastSweep.value >= SECOND)
    then State(Live(s.buckets, now, c), Some(now))
    else s
  }

  /** The bucket that counts an event: the key's own while it lasts, a new one otherwise. */
  function Counted(m: Buckets, e: Event, c: Config): Bucket {
    if e.key in m && !IsExpired(m[e.key], e.time, c) then m[e.key].(count := m[e.key].count + 1) else Bucket(e.time, 1)
  }

  /** A new key while the map is full. */
  predicate IsRefused(s: State, e: Event, c: Config) {
    var m := Swept(s, e.time, c).buckets;
    e.key !in m && |m| >= MAX_KEYS
  }

  function After(s: State, e: Event, c: Config): State {
    var swept := Swept(s, e.time, c);
    if IsRefused(s, e, c) then swept else swept.(buckets := swept.buckets[e.key := Counted(swept.buckets, e, c)])
  }

  predicate IsAllowed(s: State, e: Event, c: Config) {
    !IsRefused(s, e, c) && Counted(Swept(s, e.time, c).buckets, e, c).count <= c.max
  }

  // ---- The limiter itself ----

  class Limiter {
    const max: int
    const window: int
    var buckets: Buckets
    var lastSweep: Option<int>

    ghost function Contents(): State
      reads this
    {
      State(buckets, lastSweep)
    }

    ghost function Settings(): Config {
      Config(max, window)
    }

    constructor (limit: int, window: int)
      ensures Contents() == State(map[], None) && Settings() == Config(limit, window)
    {
      max, this.window := limit, window;
      buckets, lastSweep := map[], None;
    }

    method Allow(key: string, now: int) returns (allowed: bool)
      modifies this
      ensures Contents() == After(old(Contents()), Event(key, now), Settings())
      ensures allowed == IsAllowed(old(Contents()), Event(key, now), Settings())
    {
      if |buckets| > SWEEP_ABOVE && (lastSweep.None? || now - lastSweep.value >= SECOND) {
        lastSweep := Some(now);
        Sweep(now);
      }
      if key !in buckets && |buckets| >= MAX_KEYS {
        return false;
      }
      var b := Bucket(now, 0);
      if key in buckets && now - buckets[key].start < window {
        b := buckets[key];
      }
      b := b.(count := b.count + 1);
      buckets := buckets[key := b];
      return b.count <= max;
    }

    /** Deletes expired buckets while walking the map. */
    method Sweep(now: int)
      modifies this`buckets
      ensures buckets == Live(old(buckets), now, Settings())
    {
      var todo := buckets.Keys;
      while todo != {}
        invariant forall k :: k in buckets ==> k in old(buckets) && buckets[k] == old(buckets)[k]
        invariant forall k :: k in todo ==> k in buckets
        invariant forall k :: k in old(buckets) && k !in buckets ==> IsExpired(old(buckets)[k], now, Settings())
        invariant forall k :: k in buckets && k !in todo ==> !IsExpired(buckets[k], now, Settings())
        decreases todo
      {
        var k :| k in todo;
        todo := todo - {k};
        if now - buckets[k].start >= window {
          buckets := buckets - {k};
        }
      }
      assert buckets == Live(old(buckets), now, Settings());
    }
  }

  // ---- Whole runs ----

  ghost predicate InOrder(events: seq<Event>) {
    forall i, j :: 0 <= i < j < |events| ==> events[i].time <= events[j].time
  }

  function Run(events: seq<Event>, c: Config): State {
    if events == [] then State(map[], None) else After(Run(events[..|events|-1], c), events[|events|-1], c)
  }

  /** The answer given to event i of a run. */
  predicate Answer(events: seq<Event>, i: nat, c: Config)
    requires i < |events|
  {
    IsAllowed(Run(events[..i], c), events[i], c)
  }

  /** The limiter that never deletes a bucket, fed the events the cap did not refuse. */
  function Track(events: seq<Event>, c: Config): Buckets {
    if events == [] then map[]
    else
      var rest, e := events[..|events|-1], events[|events|-1];
      if IsRefused(Run(rest, c), e, c) then Track(rest, c) else Track(rest, c)[e.key := Counted(Track(rest, c), e, c)]
  }

  /** Deletion only ever forgets buckets that have expired for good. */
  ghost predicate Agrees(s: State, track: Buckets, now: int, c: Config) {
    && (forall k :: k in s.buckets ==> k in track && s.buckets[k] == track[k])
    && (forall k :: k in track && k !in s.buckets ==> IsExpired(track[k], now, c))
    && (forall k :: k in track ==> track[k].start <= now)
    && |s.buckets| <= MAX_KEYS
  }

  /** No bucket started a window or more before the last sweep. */
  ghost predicate SweptLately(s: State, now: int, c: Config) {
    && (s.lastSweep.Some? ==> s.lastSweep.value <= now && forall k :: k in s.buckets ==> s.lastSweep.value - s.buckets[k].start < c.window)
    && (s.lastSweep.None? ==> |s.buckets| <= 10001)
  }

  lemma SweepIsRecent(s: State, now: int, c: Config)
    requires exists before :: before <= now && SweptLately(s, before, c)
    ensures var t := Swept(s, now, c);
      && SweptLately(t, now, c)
      && (|t.buckets| > 10000 ==> t.lastSweep.Some? && now - t.lastSweep.value < 1_000_000_000)
      && (t.lastSweep.None? ==> |t.buckets| <= 10000)
  {
  }

  lemma {:induction false} RunIsSwept(events: seq<Event>, c: Config)
    requires InOrder(events) && c.window > 0
    ensures SweptLately(Run(events, c), if events == [] then 0 else events[|events|-1].time, c)
    decreases |events|
  {
    hide Swept, Counted;
    if events != [] {
      var rest, e := events[..|events|-1], events[|events|-1];
      RunIsSwept(rest, c);
      var s := Run(rest, c);
      if rest == [] {
        assert SweptLately(s, e.time, c);
      }
      SweepIsRecent(s, e.time, c);
      CountedIsRecent(Swept(s, e.time, c), e, c);
    }
  }

  lemma CountedIsRecent(t: State, e: Event, c: Config)
    requires SweptLately(t, e.time, c) && (t.lastSweep.None? ==> |t.buckets| <= 10000) && c.window > 0
    ensures SweptLately(t.(buckets := t.buckets[e.key := Counted(t.buckets, e, c)]), e.time, c)
  {
    assert t.buckets[e.key := Counted(t.buckets, e, c)].Keys == t.buckets.Keys + {e.key};
  }

  /** A key is refused for the cap's sake only while 200,000 others are remembered, each of which started its
      window less than the window and a second ago; a key that is remembered is not. */
  lemma RefusedWhenCrowded(events: seq<Event>, e: Event, c: Config)
    requires InOrder(events + [e]) && c.window > 0 && IsRefused(Run(events, c), e, c)
    ensures var m := Run(events + [e], c).buckets;
      && e.key !in m && |m| >= 200000 && forall k :: k in m ==> e.time - m[k].start < c.window + 1_000_000_000
  {
    hide Swept, Run;
    var all := events + [e];
    assert forall i :: 0 <= i < |events| ==> events[i] == all[i];
    RunIsSwept(events, c);
    var s := Run(events, c);
    if events == [] {
      NothingRun(c);
      assert SweptLately(s, e.time, c);
    } else {
      assert all[|events|-1].time <= all[|events|].time && events[|events|-1] == all[|events|-1];
      assert SweptLately(s, events[|events|-1].time, c);
    }
    SweepIsRecent(s, e.time, c);
    OneMoreRun(events, e, c);
  }

  lemma NothingRun(c: Config)
    ensures Run([], c) == State(map[], None) && forall now :: SweptLately(Run([], c), now, c)
  {
  }

  lemma OneMoreRun(events: seq<Event>, e: Event, c: Config)
    ensures Run(events + [e], c) == After(Run(events, c), e, c)
  {
    assert (events + [e])[..|events|] == events;
  }

  lemma AgreeLater(s: State, track: Buckets, before: int, now: int, c: Config)
    requires Agrees(s, track, before, c) && before <= now
    ensures Agrees(Swept(s, now, c), track, now, c)
  {
    var swept := Swept(s, now, c).buckets;
    assert s.buckets.Keys == swept.Keys + (s.buckets.Keys - swept.Keys);
  }

  lemma OneMoreBucket(s: State, track: Buckets, key: string, b: Bucket, now: int, c: Config)
    requires Agrees(s, track, now, c) && b.start <= now && (key in s.buckets || |s.buckets| < MAX_KEYS)
    ensures Agrees(s.(buckets := s.buckets[key := b]), track[key := b], now, c)
  {
    assert s.buckets[key := b].Keys == s.buckets.Keys + {key};
  }

  lemma CountedAlike(s: State, track: Buckets, e: Event, c: Config)
    requires Agrees(s, track, e.time, c)
    ensures Counted(s.buckets, e, c) == Counted(track, e, c) && Counted(track, e, c).start <= e.time
  {
  }

  lemma StepAgrees(s: State, track: Buckets, before: int, e: Event, c: Config)
    requires Agrees(s, track, before, c) && before <= e.time
    ensures Counted(Swept(s, e.time, c).buckets, e, c) == Counted(track, e, c)
    ensures Agrees(After(s, e, c), if IsRefused(s, e, c) then track else track[e.key := Counted(track, e, c)], e.time, c)
  {
    hide Swept, Agrees, Counted;
    AgreeLater(s, track, before, e.time, c);
    var swept := Swept(s, e.time, c);
    CountedAlike(swept, track, e, c);
    if !IsRefused(s, e, c) {
      OneMoreBucket(swept, track, e.key, Counted(track, e, c), e.time, c);
    }
  }

  function LastTime(events: seq<Event>): int
    requires events != []
  {
    events[|events|-1].time
  }

  /** The cap holds, and the map is the never-deleting one less some expired buckets. */
  lemma {:induction false} RunAgrees(events: seq<Event>, now: int, c: Config)
    requires InOrder(events) && (events != [] ==> LastTime(events) <= now)
    ensures Agrees(Swept(Run(events, c), now, c), Track(events, c), now, c)
    ensures exists t :: t <= now && Agrees(Run(events, c), Track(events, c), t, c)
    decreases |events|
  {
    hide Agrees, Swept, After, IsRefused, Counted;
    if events == [] {
      assert Agrees(State(map[], None), map[], now, c) by { NothingAgrees(now, c); }
      AgreeLater(Run(events, c), Track(events, c), now, now, c);
    } else {
      var rest, e := events[..|events|-1], events[|events|-1];
      RunAgrees(rest, e.time, c);
      var t :| t <= e.time && Agrees(Run(rest, c), Track(rest, c), t, c);
      StepAgrees(Run(rest, c), Track(rest, c), t, e, c);
      AgreeLater(Run(events, c), Track(events, c), e.time, now, c);
    }
  }

  lemma NothingAgrees(now: int, c: Config)
    ensures Agrees(State(map[], None), map[], now, c)
  {
  }

  lemma KeysAreCapped(events: seq<Event>, c: Config)
    requires InOrder(events)
    ensures |Run(events, c).buckets| <= 200000
  {
    if events != [] {
      RunAgrees(events, LastTime(events), c);
      var t :| t <= LastTime(events) && Agrees(Run(events, c), Track(events, c), t, c);
    }
  }

  // ---- Sweeping is invisible ----

  /** A limiter that keeps every bucket and refuses nobody for want of room. */
  function Reference(events: seq<Event>, c: Config): Buckets {
    if events == [] then map[]
    else
      var rest, e := events[..|events|-1], events[|events|-1];
      Reference(rest, c)[e.key := Counted(Reference(rest, c), e, c)]
  }

  ghost predicate NobodyRefused(events: seq<Event>, c: Config) {
    forall i :: 0 <= i < |events| ==> !IsRefused(Run(events[..i], c), events[i], c)
  }

  lemma {:induction false} TrackIsReference(events: seq<Event>, c: Config)
    requires NobodyRefused(events, c)
    ensures Track(events, c) == Reference(events, c)
    decreases |events|
  {
    hide IsRefused, Counted, Run;
    if events != [] {
      var rest := events[..|events|-1];
      assert forall i :: 0 <= i < |rest| ==> rest[..i] == events[..i] && rest[i] == events[i];
      TrackIsReference(rest, c);
    }
  }

  /** Where the cap refuses nobody, every answer is that of the limiter that never deletes. */
  lemma SweepingIsInvisible(events: seq<Event>, i: nat, c: Config)
    requires InOrder(events) && NobodyRefused(events, c) && i < |events|
    ensures Answer(events, i, c) <==> Counted(Reference(events[..i], c), events[i], c).count <= c.max
  {
    hide Counted, IsRefused, Agrees;
    var before := events[..i];
    assert forall j :: 0 <= j < i ==> before[..j] == events[..j];
    TrackIsReference(before, c);
    RunAgrees(before, events[i].time, c);
    var t :| t <= events[i].time && Agrees(Run(before, c), Track(before, c), t, c);
    StepAgrees(Run(before, c), Track(before, c), t, events[i], c);
  }

  // ---- Fewer than twice the limit in any window ----

  /** Allowed events of a key with lo <= time < hi. */
  function Allowed(events: seq<Event>, key: string, lo: int, hi: int, c: Config): nat {
    if events == [] then 0
    else
      var n := |events| - 1;
      var e := events[n];
      Allowed(events[..n], key, lo, hi, c) +
      (if e.key == key && lo <= e.time < hi && Answer(events, n, c) then 1 else 0)
  }

  lemma {:induction false} AllowedSplits(events: seq<Event>, key: string, lo: int, mid: int, hi: int, c: Config)
    requires lo <= mid <= hi
    ensures Allowed(events, key, lo, hi, c) == Allowed(events, key, lo, mid, c) + Allowed(events, key, mid, hi, c)
    decreases |events|
  {
    hide Answer;
    if events != [] {
      AllowedSplits(events[..|events|-1], key, lo, mid, hi, c);
    }
  }

  lemma {:induction false} AllowedEmpty(events: seq<Event>, key: string, lo: int, hi: int, c: Config)
    requires hi <= lo
    ensures Allowed(events, key, lo, hi, c) == 0
    decreases |events|
  {
    hide Answer;
    if events != [] {
      AllowedEmpty(events[..|events|-1], key, lo, hi, c);
    }
  }

  function Most(c: Config): nat {
    if c.max < 0 then 0 else c.max
  }

  function OneLess(c: Config): nat {
    if Most(c) == 0 then 0 else Most(c) - 1
  }

  function AtMost(count: nat, c: Config): nat {
    if count <= Most(c) then count else Most(c)
  }

  /** How the allowed events of a key lie around its bucket b. */
  ghost predicate Spread(events: seq<Event>, key: string, b: Bucket, c: Config) {
    && (forall lo, hi :: b.start + c.window <= lo ==> Allowed(events, key, lo, hi, c) == 0)
    && Allowed(events, key, b.start, b.start + c.window, c) <= AtMost(b.count, c)
    && (Most(c) > 0 ==> Allowed(events, key, b.start, b.start + 1, c) > 0)
    && (forall lo :: b.start - c.window < lo ==> Allowed(events, key, lo, b.start, c) <= OneLess(c))
    && (forall lo, hi :: hi == lo + c.window ==> Allowed(events, key, lo, hi, c) <= Most(c) + OneLess(c))
  }

  ghost predicate Fair(events: seq<Event>, key: string, c: Config) {
    if key in Track(events, c) then Spread(events, key, Track(events, c)[key], c)
    else forall lo, hi :: Allowed(events, key, lo, hi, c) == 0
  }

  /** What one more event of the key adds to a count. */
  ghost predicate Adds(before: seq<Event>, after: seq<Event>, key: string, t: int, allowed: bool, c: Config) {
    forall lo, hi :: Allowed(after, key, lo, hi, c) == Allowed(before, key, lo, hi, c) + (if allowed && lo <= t < hi then 1 else 0)
  }

  lemma SameBucketIsFair(before: seq<Event>, after: seq<Event>, key: string, b: Bucket, t: int, c: Config)
    requires c.window > 0 && Spread(before, key, b, c) && b.start <= t < b.start + c.window
    requires Adds(before, after, key, t, b.count + 1 <= c.max, c)
    ensures Spread(after, key, b.(count := b.count + 1), c)
  {
    hide Allowed;
    var s, w := b.start, c.window;
    forall lo, hi | hi == lo + w
      ensures Allowed(after, key, lo, hi, c) <= Most(c) + OneLess(c)
    {
      if lo <= t < hi {
        if lo <= s {
          AllowedSplits(after, key, lo, s, hi, c);
          AllowedSplits(after, key, s, hi, s + w, c);
        } else {
          AllowedSplits(after, key, s, lo, s + w, c);
          AllowedSplits(after, key, lo, s + w, hi, c);
        }
      }
    }
  }

  lemma NewBucketIsFair(before: seq<Event>, after: seq<Event>, key: string, b: Bucket, t: int, c: Config)
    requires c.window > 0 && Spread(before, key, b, c) && b.start + c.window <= t
    requires Adds(before, after, key, t, 1 <= c.max, c)
    ensures Spread(after, key, Bucket(t, 1), c)
  {
    hide Allowed;
    var s, w := b.start, c.window;
    forall lo | t - w < lo <= t
      ensures Allowed(before, key, lo, t, c) <= OneLess(c)
    {
      AllowedSplits(before, key, s, s + 1, t, c);
      AllowedSplits(before, key, s + 1, lo, t, c);
      AllowedSplits(before, key, s, s + w, t, c);
    }
    forall lo | t < lo
      ensures Allowed(before, key, lo, t, c) == 0
    {
      AllowedEmpty(before, key, lo, t, c);
    }
    forall lo, hi | hi == lo + w
      ensures Allowed(after, key, lo, hi, c) <= Most(c) + OneLess(c)
    {
      if lo <= t < hi {
        AllowedSplits(before, key, lo, t, hi, c);
      }
    }
  }

  lemma FirstBucketIsFair(before: seq<Event>, after: seq<Event>, key: string, t: int, c: Config)
    requires c.window > 0 && forall lo, hi :: Allowed(before, key, lo, hi, c) == 0
    requires Adds(before, after, key, t, 1 <= c.max, c)
    ensures Spread(after, key, Bucket(t, 1), c)
  {
  }

  lemma {:induction false} RunIsFair(events: seq<Event>, key: string, c: Config)
    requires InOrder(events) && c.window > 0
    ensures Fair(events, key, c)
    decreases |events|
  {
    if events != [] {
      var n := |events| - 1;
      var rest, e := events[..n], events[n];
      RunIsFair(rest, key, c);
      RunAgrees(rest, e.time, c);
      var t :| t <= e.time && Agrees(Run(rest, c), Track(rest, c), t, c);
      StepAgrees(Run(rest, c), Track(rest, c), t, e, c);
      StepIsFair(events, key, c);
    }
  }

  lemma StepIsFair(events: seq<Event>, key: string, c: Config)
    requires events != [] && c.window > 0
    requires var rest, e := events[..|events|-1], events[|events|-1];
      && Fair(rest, key, c)
      && (forall k :: k in Track(rest, c) ==> Track(rest, c)[k].start <= e.time)
      && Counted(Swept(Run(rest, c), e.time, c).buckets, e, c) == Counted(Track(rest, c), e, c)
    ensures Fair(events, key, c)
  {
    hide Spread, Swept, IsRefused, Run;
    var n := |events| - 1;
    var rest, e := events[..n], events[n];
    if e.key == key && !IsRefused(Run(rest, c), e, c) {
      var b := Counted(Track(rest, c), e, c);
      assert Answer(events, n, c) <==> b.count <= c.max;
      assert Adds(rest, events, key, e.time, b.count <= c.max, c);
      if key in Track(rest, c) {
        var known := Track(rest, c)[key];
        if IsExpired(known, e.time, c) {
          NewBucketIsFair(rest, events, key, known, e.time, c);
        } else {
          SameBucketIsFair(rest, events, key, known, e.time, c);
        }
      } else {
        FirstBucketIsFair(rest, events, key, e.time, c);
      }
    } else {
      assert Adds(rest, events, key, e.time, false, c);
      NothingAdded(rest, events, key, e.time, c);
    }
  }

  lemma NothingAdded(before: seq<Event>, after: seq<Event>, key: string, t: int, c: Config)
    requires Adds(before, after, key, t, false, c)
    ensures forall b :: Spread(before, key, b, c) ==> Spread(after, key, b, c)
  {
  }

  /** With a clock that never runs backwards, fewer than twice the limit of a key's events are allowed
      in any half-open interval as long as the window, through sweeps and refusals: an interval that
      reaches into a second bucket misses the event that opened the first. */
  lemma FewerThanTwiceTheLimit(events: seq<Event>, key: string, lo: int, c: Config)
    requires InOrder(events)
    ensures Allowed(events, key, lo, lo + c.window, c) <= if c.max <= 0 then 0 else 2 * c.max - 1
  {
    if c.window <= 0 {
      AllowedEmpty(events, key, lo, lo + c.window, c);
    } else {
      RunIsFair(events, key, c);
    }
  }

  // ---- The bound is reached ----

  /** One event of a key opens its bucket, some more come just before it expires, and some right after. */
  function Burst(before: nat, after: nat, c: Config): (events: seq<Event>)
    ensures |events| == 1 + before + after
    decreases before + after
  {
    if after > 0 then Burst(before, after - 1, c) + [Event("k", c.window)]
    else if before > 0 then Burst(before - 1, 0, c) + [Event("k", c.window - 1)]
    else [Event("k", 0)]
  }

  function BurstBucket(before: nat, after: nat, c: Config): Bucket {
    if after > 0 then Bucket(c.window, after) else Bucket(0, before + 1)
  }

  lemma OneKeyStep(b: Bucket, time: int, c: Config)
    requires c.window >= 2
    ensures var s, e := State(map["k" := b], None), Event("k", time);
      && After(s, e, c) == State(map["k" := Counted(s.buckets, e, c)], None)
      && (IsAllowed(s, e, c) <==> Counted(s.buckets, e, c).count <= c.max)
  {
    assert map["k" := b]["k" := Bucket(time, 1)] == map["k" := Bucket(time, 1)];
  }

  lemma OneMoreEvent(rest: seq<Event>, e: Event, lo: int, hi: int, c: Config)
    requires rest != [] && InOrder(rest) && LastTime(rest) <= e.time && lo <= e.time < hi
    ensures InOrder(rest + [e]) && LastTime(rest + [e]) == e.time && Run(rest + [e], c) == After(Run(rest, c), e, c)
    ensures Allowed(rest + [e], e.key, lo, hi, c) == Allowed(rest, e.key, lo, hi, c) + if IsAllowed(Run(rest, c), e, c) then 1 else 0
  {
    hide After, IsAllowed;
    assert (rest + [e])[..|rest|] == rest;
  }

  lemma {:induction false} BurstRuns(before: nat, after: nat, c: Config)
    requires c.window >= 2 && before < c.max && after <= c.max
    ensures var events := Burst(before, after, c);
      && InOrder(events) && LastTime(events) == (if after > 0 then c.window else if before > 0 then c.window - 1 else 0)
      && Run(events, c) == State(map["k" := BurstBucket(before, after, c)], None)
      && Allowed(events, "k", c.window - 1, 2 * c.window - 1, c) == before + after
    decreases before + after
  {
    hide After, IsAllowed, Run, Allowed, InOrder;
    var lo, hi := c.window - 1, 2 * c.window - 1;
    if after > 0 {
      BurstRuns(before, after - 1, c);
      OneKeyStep(BurstBucket(before, after - 1, c), c.window, c);
      OneMoreEvent(Burst(before, after - 1, c), Event("k", c.window), lo, hi, c);
    } else if before > 0 {
      BurstRuns(before - 1, 0, c);
      OneKeyStep(BurstBucket(before - 1, 0, c), c.window - 1, c);
      OneMoreEvent(Burst(before - 1, 0, c), Event("k", c.window - 1), lo, hi, c);
    } else {
      FirstOfBurst(c);
    }
  }

  lemma FirstOfBurst(c: Config)
    requires c.window >= 2 && c.max >= 1
    ensures Run([Event("k", 0)], c) == State(map["k" := Bucket(0, 1)], None)
    ensures Allowed([Event("k", 0)], "k", c.window - 1, 2 * c.window - 1, c) == 0 && InOrder([Event("k", 0)])
  {
    var e := Event("k", 0);
    assert [e][..0] == [];
    assert map[]["k" := Bucket(0, 1)] == map["k" := Bucket(0, 1)];
  }

  /** For every limit, and every window of at least two ticks, a run that reaches the bound. */
  lemma BoundIsReached(c: Config)
    requires c.max >= 1 && c.window >= 2
    ensures var events, lo := Burst(c.max - 1, c.max, c), c.window - 1;
      InOrder(events) && Allowed(events, "k", lo, lo + c.window, c) == 2 * c.max - 1
  {
    hide After, IsAllowed, Run, Allowed, InOrder, Burst;
    BurstRuns(c.max - 1, c.max, c);
  }
}
