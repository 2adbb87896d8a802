/** The token-bucket limiter in front of the API: one bucket per client, and a sweep
    that drops full buckets. Times are seconds of a clock that never runs backwards. */
module Limiting {
  import opened Bytes

  type Client = Text

  datatype Bucket = Bucket(tokens: real, last: real)

  /** The tracked-client count that triggers a sweep. */
  const PRUNE_AT: nat := 4096

  function Min(a: real, b: real): real {
    if a <= b then a else b
  }

  /** math.Ceil. */
  function Ceil(x: real): int {
    -((-x).Floor)
  }

  // ---- the closed form ------------------------------------------------------------------

  ghost predicate NotAfter(times: seq<real>, t: real) {
    forall i :: 0 <= i < |times| ==> times[i] <= t
  }

  /** From the earlier admission i on, this one included, no more than burst plus what accrued since. */
  ghost predicate Within(rate: real, burst: real, admissions: seq<real>, t: real, i: nat)
    requires i < |admissions|
  {
    (|admissions| - i + 1) as real <= burst + rate * (t - admissions[i])
  }

  /** A request at t, the client's earlier admissions being the given ones. */
  ghost predicate Admissible(rate: real, burst: real, admissions: seq<real>, t: real) {
    forall i :: 0 <= i < |admissions| ==> Within(rate, burst, admissions, t, i)
  }

  /** What is in a bucket that has seen these admissions and nothing else. */
  ghost function Level(rate: real, burst: real, admissions: seq<real>, t: real): real {
    if admissions == [] then burst
    else
      var last := admissions[|admissions| - 1];
      Min(burst, Level(rate, burst, admissions[..|admissions| - 1], last) - 1.0 + rate * (t - last))
  }

  ghost predicate Reaches(rate: real, burst: real, admissions: seq<real>, t: real, x: real, i: nat)
    requires i < |admissions|
  {
    x <= burst + rate * (t - admissions[i]) - (|admissions| - i) as real
  }

  lemma Distribute(rate: real, a: real, b: real)
    ensures rate * a + rate * b == rate * (a + b)
  {
  }

  /** Accrual up to `last` and from there to t, as one inequality moved to the other side. */
  lemma MoveAccrual(rate: real, burst: real, from: real, last: real, t: real, x: real, m: real)
    ensures x + 1.0 - rate * (t - last) <= burst + rate * (last - from) - (m - 1.0)
            <==> x <= burst + rate * (t - from) - m
  {
    Distribute(rate, last - from, t - last);
    assert (last - from) + (t - last) == t - from;
  }

  lemma ReachesBefore(rate: real, burst: real, admissions: seq<real>, last: real, t: real, x: real, y: real, i: nat)
    requires i < |admissions| && y == x + 1.0 - rate * (t - last)
    ensures Reaches(rate, burst, admissions, last, y, i) <==> Reaches(rate, burst, admissions + [last], t, x, i)
  {
    var m := (|admissions| + 1 - i) as real;
    assert (|admissions| - i) as real == m - 1.0;
    MoveAccrual(rate, burst, admissions[i], last, t, x, m);
  }

  ghost predicate ReachesAll(rate: real, burst: real, admissions: seq<real>, t: real, x: real) {
    x <= burst && forall i :: 0 <= i < |admissions| ==> Reaches(rate, burst, admissions, t, x, i)
  }

  lemma ReachesStep(rate: real, burst: real, admissions: seq<real>, last: real, t: real, x: real, y: real)
    requires y == x + 1.0 - rate * (t - last)
    ensures ReachesAll(rate, burst, admissions + [last], t, x)
            <==> x <= burst && ReachesAll(rate, burst, admissions, last, y)
  {
    var n := |admissions|;
    forall i | 0 <= i < n
      ensures Reaches(rate, burst, admissions, last, y, i) <==> Reaches(rate, burst, admissions + [last], t, x, i)
    {
      ReachesBefore(rate, burst, admissions, last, t, x, y, i);
    }
    assert Reaches(rate, burst, admissions + [last], t, x, n) <==> y <= burst;
    if ReachesAll(rate, burst, admissions + [last], t, x) {
      forall i | 0 <= i < n
        ensures Reaches(rate, burst, admissions, last, y, i)
      {
        assert Reaches(rate, burst, admissions + [last], t, x, i);
      }
    }
    if x <= burst && ReachesAll(rate, burst, admissions, last, y) {
      forall i | 0 <= i < n
        ensures Reaches(rate, burst, admissions + [last], t, x, i)
      {
        assert Reaches(rate, burst, admissions, last, y, i);
      }
    }
  }

  lemma {:induction false} LevelStep(rate: real, burst: real, admissions: seq<real>, last: real, t: real, x: real,
                                     y: real)
    requires y == x + 1.0 - rate * (t - last)
    ensures x <= Level(rate, burst, admissions + [last], t) <==> x <= burst && y <= Level(rate, burst, admissions, last)
  {
    assert (admissions + [last])[..|admissions|] == admissions;
  }

  /** The level is the least of burst and, for every admission, what is left of the
      tokens since then. */
  lemma {:induction false} LevelReaches(rate: real, burst: real, admissions: seq<real>, t: real, x: real)
    ensures x <= Level(rate, burst, admissions, t) <==> ReachesAll(rate, burst, admissions, t, x)
    decreases |admissions|
  {
    if admissions != [] {
      var before := admissions[..|admissions| - 1];
      var last := admissions[|admissions| - 1];
      var y := x + 1.0 - rate * (t - last);
      assert before + [last] == admissions;
      LevelReaches(rate, burst, before, last, y);
      LevelStep(rate, burst, before, last, t, x, y);
      ReachesStep(rate, burst, before, last, t, x, y);
    }
  }

  /** A bucket holds a token exactly when the closed form admits. */
  lemma {:induction false} LevelAdmits(rate: real, burst: real, admissions: seq<real>, t: real)
    requires 1.0 <= burst
    ensures 1.0 <= Level(rate, burst, admissions, t) <==> Admissible(rate, burst, admissions, t)
  {
    LevelReaches(rate, burst, admissions, t, 1.0);
    forall i | 0 <= i < |admissions|
      ensures Within(rate, burst, admissions, t, i) <==> Reaches(rate, burst, admissions, t, 1.0, i)
    {
    }
  }

  /** Refilling in two steps is refilling in one: a refused request changes nothing. */
  lemma {:induction false} LevelAdvances(rate: real, burst: real, admissions: seq<real>, u: real, t: real)
    requires 0.0 < rate && NotAfter(admissions, u) && u <= t
    ensures Level(rate, burst, admissions, t) == Min(burst, Level(rate, burst, admissions, u) + rate * (t - u))
  {
    Grows(rate, t - u);
    if admissions != [] {
      var last := admissions[|admissions| - 1];
      var left := Level(rate, burst, admissions[..|admissions| - 1], last) - 1.0;
      Distribute(rate, u - last, t - u);
      assert (u - last) + (t - u) == t - last;
      CappedTwice(burst, left, rate * (u - last), rate * (t - u), rate * (t - last));
    }
  }

  lemma CappedTwice(burst: real, left: real, a: real, b: real, both: real)
    requires both == a + b && 0.0 <= b
    ensures Min(burst, left + both) == Min(burst, Min(burst, left + a) + b)
  {
  }

  lemma Grows(rate: real, d: real)
    requires 0.0 < rate && 0.0 <= d
    ensures 0.0 <= rate * d
  {
  }

  lemma {:induction false} LevelAfter(rate: real, burst: real, admissions: seq<real>, t: real)
    requires Level(rate, burst, admissions, t) <= burst
    ensures Level(rate, burst, admissions + [t], t) == Level(rate, burst, admissions, t) - 1.0
  {
    LevelAppend(rate, burst, admissions, t, t, 0.0);
    Distribute(rate, t - t, 0.0);
  }

  lemma {:induction false} LevelAppend(rate: real, burst: real, admissions: seq<real>, last: real, t: real,
                                       passed: real)
    requires passed == t - last
    ensures Level(rate, burst, admissions + [last], t)
            == Min(burst, Level(rate, burst, admissions, last) - 1.0 + rate * passed)
  {
    assert (admissions + [last])[..|admissions|] == admissions;
  }

  /** A request d whole seconds after `now`, with none in between. */
  ghost predicate AdmissibleIn(rate: real, burst: real, admissions: seq<real>, now: real, d: nat) {
    Admissible(rate, burst, admissions, now + d as real)
  }

  /** Whole seconds until a bucket holds a token. */
  function WaitFor(rate: real, level: real): int
    requires 0.0 < rate
  {
    Ceil((1.0 - level) / rate)
  }

  lemma ScaleLe(rate: real, a: real, b: real)
    requires 0.0 < rate
    ensures a <= b <==> rate * a <= rate * b
  {
    Distribute(rate, a, b - a);
    assert a + (b - a) == b;
    if a <= b {
      Grows(rate, b - a);
    } else {
      Strictly(rate, a - b);
      Distribute(rate, b, a - b);
      assert b + (a - b) == a;
    }
  }

  lemma CeilAtMost(x: real, d: int)
    ensures Ceil(x) <= d <==> x <= d as real
  {
  }

  lemma Waiting(rate: real, level: real, d: nat)
    requires 0.0 < rate
    ensures WaitFor(rate, level) <= d <==> 1.0 <= level + rate * d as real
  {
    var wait := (1.0 - level) / rate;
    assert rate * wait == 1.0 - level;
    CeilAtMost(wait, d);
    ScaleLe(rate, wait, d as real);
  }

  lemma Strictly(rate: real, d: real)
    requires 0.0 < rate && 0.0 < d
    ensures 0.0 < rate * d
  {
  }

  lemma {:induction false} LevelLater(rate: real, burst: real, admissions: seq<real>, now: real, d: nat)
    requires 0.0 < rate && NotAfter(admissions, now)
    ensures Level(rate, burst, admissions, now + d as real)
            == Min(burst, Level(rate, burst, admissions, now) + rate * d as real)
  {
    LevelAdvances(rate, burst, admissions, now, now + d as real);
    assert (now + d as real) - now == d as real;
  }

  /** The announced delay is the least after which an idle client is admitted. */
  lemma {:induction false} RetryIsLeast(rate: real, burst: real, admissions: seq<real>, now: real, level: real, d: nat)
    requires 0.0 < rate && 1.0 <= burst && NotAfter(admissions, now) && level == Level(rate, burst, admissions, now)
    ensures AdmissibleIn(rate, burst, admissions, now, d) <==> WaitFor(rate, level) <= d
  {
    LevelAdmits(rate, burst, admissions, now + d as real);
    LevelLater(rate, burst, admissions, now, d);
    Waiting(rate, level, d);
  }

  // ---- runs ------------------------------------------------------------------------------------

  datatype Request = Request(client: Client, time: real)

  /** When a client was admitted over a run of requests, by the closed form. */
  ghost function AdmissionsOf(rate: real, burst: real, log: seq<Request>, client: Client): seq<real> {
    if log == [] then []
    else
      var (last, before) := (log[|log| - 1], AdmissionsOf(rate, burst, log[..|log| - 1], client));
      if last.client == client && Admissible(rate, burst, before, last.time) then before + [last.time] else before
  }

  /** Request i of the run is admitted. */
  ghost predicate Admits(rate: real, burst: real, log: seq<Request>, i: nat)
    requires i < |log|
  {
    Admissible(rate, burst, AdmissionsOf(rate, burst, log[..i], log[i].client), log[i].time)
  }

  lemma {:induction false} AdmissionsAppend(rate: real, burst: real, log: seq<Request>, r: Request, client: Client)
    ensures AdmissionsOf(rate, burst, log + [r], client) ==
            var before := AdmissionsOf(rate, burst, log, client);
            if r.client == client && Admissible(rate, burst, before, r.time) then before + [r.time] else before
  {
    assert (log + [r])[..|log|] == log;
  }

  /** A request that was refused, or came from another client, leaves no trace: without it
      in the run the client's admissions are the same. */
  lemma {:induction false} NoTrace(rate: real, burst: real, before: seq<Request>, r: Request, after: seq<Request>,
                                   client: Client)
    requires r.client != client || !Admissible(rate, burst, AdmissionsOf(rate, burst, before, client), r.time)
    ensures AdmissionsOf(rate, burst, before + [r] + after, client) == AdmissionsOf(rate, burst, before + after, client)
    decreases |after|
  {
    if after == [] {
      assert before + [r] + after == before + [r] && before + after == before;
      AdmissionsAppend(rate, burst, before, r, client);
    } else {
      var (init, last) := (after[..|after| - 1], after[|after| - 1]);
      NoTrace(rate, burst, before, r, init, client);
      assert before + [r] + after == (before + [r] + init) + [last];
      assert before + after == (before + init) + [last];
      AdmissionsAppend(rate, burst, before + [r] + init, last, client);
      AdmissionsAppend(rate, burst, before + init, last, client);
    }
  }

  lemma {:induction false} EachAdmissible(rate: real, burst: real, log: seq<Request>, client: Client, n: nat)
    requires n < |AdmissionsOf(rate, burst, log, client)|
    ensures var times := AdmissionsOf(rate, burst, log, client); Admissible(rate, burst, times[..n], times[n])
  {
    if log != [] {
      var (init, last) := (log[..|log| - 1], log[|log| - 1]);
      var (before, times) := (AdmissionsOf(rate, burst, init, client), AdmissionsOf(rate, burst, log, client));
      if n < |before| {
        EachAdmissible(rate, burst, init, client, n);
        assert times[..n] == before[..n];
      } else {
        assert times[..n] == before;
      }
    }
  }

  /** Over every run, any stretch of a client's admissions fits burst plus what accrues over it. */
  lemma {:induction false} WindowBound(rate: real, burst: real, log: seq<Request>, client: Client, i: nat, j: nat)
    requires 1.0 <= burst && i <= j < |AdmissionsOf(rate, burst, log, client)|
    ensures var times := AdmissionsOf(rate, burst, log, client);
            (j - i + 1) as real <= burst + rate * (times[j] - times[i])
  {
    EachAdmissible(rate, burst, log, client, j);
    if i < j {
      var times := AdmissionsOf(rate, burst, log, client);
      assert Within(rate, burst, times[..j], times[j], i);
    }
  }

  // ---- the limiter -------------------------------------------------------------------------

  /** A kept bucket holds the level of its client's admissions. */
  ghost predicate Kept(rate: real, burst: real, b: Bucket, admissions: seq<real>, clock: real) {
    && NotAfter(admissions, b.last) && b.last <= clock
    && b.tokens == Level(rate, burst, admissions, b.last)
  }

  /** A client without a bucket is at burst. */
  ghost predicate Full(rate: real, burst: real, admissions: seq<real>, clock: real) {
    NotAfter(admissions, clock) && Level(rate, burst, admissions, clock) == burst
  }

  lemma StaysFull(rate: real, burst: real, admissions: seq<real>, clock: real, now: real)
    requires 0.0 < rate && Full(rate, burst, admissions, clock) && clock <= now
    ensures Full(rate, burst, admissions, now)
  {
    LevelAdvances(rate, burst, admissions, clock, now);
    Grows(rate, now - clock);
  }

  /** What a bucket holds at `now`. */
  function Refilled(rate: real, burst: real, b: Bucket, now: real): real {
    Min(burst, b.tokens + (now - b.last) * rate)
  }

  lemma {:induction false} RefilledIsLevel(rate: real, burst: real, b: Bucket, admissions: seq<real>, clock: real,
                                           now: real)
    requires 0.0 < rate && Kept(rate, burst, b, admissions, clock) && clock <= now
    ensures Refilled(rate, burst, b, now) == Level(rate, burst, admissions, now) <= burst
    ensures NotAfter(admissions, now)
  {
    LevelAdvances(rate, burst, admissions, b.last, now);
  }

  /** Refills a bucket and takes one token out of it if there is one. */
  method Spend(rate: real, burst: real, b: Bucket, ghost admissions: seq<real>, now: real)
    returns (next: Bucket, retryAfter: int, ok: bool)
    requires 0.0 < rate && 1.0 <= burst && Kept(rate, burst, b, admissions, now)
    ensures ok <==> Admissible(rate, burst, admissions, now)
    ensures Kept(rate, burst, next, if ok then admissions + [now] else admissions, now)
    ensures ok ==> retryAfter == 0
    ensures !ok ==> forall d: nat :: AdmissibleIn(rate, burst, admissions, now, d) <==> retryAfter <= d
  {
    RefilledIsLevel(rate, burst, b, admissions, now, now);
    var tokens := Refilled(rate, burst, b, now);
    LevelAdmits(rate, burst, admissions, now);
    ok := 1.0 <= tokens;
    if !ok {
      forall d: nat
        ensures AdmissibleIn(rate, burst, admissions, now, d) <==> WaitFor(rate, tokens) <= d
      {
        RetryIsLeast(rate, burst, admissions, now, tokens, d);
      }
      return Bucket(tokens, now), WaitFor(rate, tokens), false;
    }
    LevelAfter(rate, burst, admissions, now);
    next, retryAfter := Bucket(tokens - 1.0, now), 0;
  }

  class Limiter {
    const perSecond: real
    const burst: real
    var buckets: map<Client, Bucket>
    ghost var log: seq<Request>
    ghost var clock: real

    ghost function Admitted(client: Client): seq<real>
      reads this
    {
      AdmissionsOf(perSecond, burst, log, client)
    }

    ghost predicate Sound(client: Client)
      reads this
    {
      if client in buckets then Kept(perSecond, burst, buckets[client], Admitted(client), clock)
      else Full(perSecond, burst, Admitted(client), clock)
    }

    ghost predicate Valid()
      reads this
    {
      0.0 < perSecond && 1.0 <= burst && forall client :: Sound(client)
    }

    constructor (perMinute: int, burst: int, ghost start: real)
      requires 0 < perMinute && 0 < burst
      ensures Valid() && buckets == map[] && log == [] && clock == start
      ensures perSecond == perMinute as real / 60.0 && this.burst == burst as real
    {
      perSecond := perMinute as real / 60.0;
      this.burst := burst as real;
      buckets := map[];
      log := [];
      clock := start;
    }

    /** Drops exactly the buckets that have refilled to full, and no client's level changes. */
    method Prune(now: real)
      requires Valid() && clock == now
      modifies this`buckets
      ensures Valid()
      ensures forall client :: client in buckets <==>
                client in old(buckets) && Refilled(perSecond, burst, old(buckets)[client], now) < burst
      ensures forall client :: client in buckets ==> buckets[client] == old(buckets)[client]
    {
      var rest := buckets.Keys;
      while rest != {}
        invariant rest <= buckets.Keys <= old(buckets).Keys && Valid()
        invariant forall c :: c in buckets ==> buckets[c] == old(buckets)[c]
        invariant forall c :: c in old(buckets) && c !in rest ==>
                    (c in buckets <==> Refilled(perSecond, burst, old(buckets)[c], now) < burst)
        decreases rest
      {
        var client :| client in rest;
        assert Sound(client);
        RefilledIsLevel(perSecond, burst, buckets[client], Admitted(client), clock, now);
        if Refilled(perSecond, burst, buckets[client], now) >= burst {
          label Before:
          buckets := buckets - {client};
          forall c
            ensures Sound(c)
          {
            assert old@Before(Sound(c));
          }
        }
        rest := rest - {client};
      }
    }

    /** Time passes. */
    ghost method Advance(now: real)
      requires Valid() && clock <= now
      modifies this`clock
      ensures Valid() && clock == now
    {
      forall client
        ensures if client in buckets then Kept(perSecond, burst, buckets[client], Admitted(client), now)
                else Full(perSecond, burst, Admitted(client), now)
      {
        assert Sound(client);
        if client !in buckets {
          StaysFull(perSecond, burst, Admitted(client), clock, now);
        }
      }
      clock := now;
    }

    /** The client's bucket; an unknown client gets a full one, after a sweep if there are many. */
    method Track(client: Client, now: real) returns (b: Bucket)
      requires Valid() && clock == now
      modifies this`buckets
      ensures Valid() && client in buckets && b == buckets[client]
    {
      if client !in buckets {
        if |buckets| >= PRUNE_AT {
          Prune(now);
        }
        assert Sound(client);
        label Fresh:
        buckets := buckets[client := Bucket(burst, now)];
        forall c
          ensures Sound(c)
        {
          assert old@Fresh(Sound(c));
        }
      }
      b := buckets[client];
    }

    /** Spends one token of the client's, or says how many whole seconds until there is one.
        Over every run admission is the closed form over the client's own admissions, whatever
        other clients did, however often it was refused, and whichever buckets were swept. */
    method Take(client: Client, now: real) returns (retryAfter: int, ok: bool)
      requires Valid() && clock <= now
      modifies this
      ensures Valid() && clock == now && log == old(log) + [Request(client, now)]
      ensures ok <==> Admits(perSecond, burst, log, |log| - 1)
      ensures ok ==> retryAfter == 0
      ensures !ok ==> forall d: nat :: AdmissibleIn(perSecond, burst, Admitted(client), now, d) <==> retryAfter <= d
    {
      Advance(now);
      var b := Track(client, now);
      assert Sound(client);
      b, retryAfter, ok := Spend(perSecond, burst, b, Admitted(client), now);
      AdmissionsAppend(perSecond, burst, log, Request(client, now), client);
      Store(client, b);
      assert log[..|log| - 1] == old(log);
    }

    /** Puts the client's bucket back, and the request into the log. */
    method Store(client: Client, b: Bucket)
      requires Valid()
      requires Kept(perSecond, burst, b, AdmissionsOf(perSecond, burst, log + [Request(client, clock)], client), clock)
      modifies this`buckets, this`log
      ensures Valid() && log == old(log) + [Request(client, clock)]
    {
      buckets := buckets[client := b];
      log := log + [Request(client, clock)];
      forall c
        ensures Sound(c)
      {
        assert old(Sound(c));
        AdmissionsAppend(perSecond, burst, old(log), Request(client, clock), c);
      }
    }
  }
}
