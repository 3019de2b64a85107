/**
 * The in-memory fixed-window limiter (backend-rs/src/ratelimit.rs), whose map of buckets
 * is swept now and then. Times are in microseconds.
 */
module RateLimiter {
  import opened Wrappers

  const SWEEP_EVERY := 10_000_000
  const SWEEP_ABOVE := 10_000
  const HOUR := 3_600_000_000
  const U32 := 0x1_0000_0000

  /** Requests counted since a window began. */
  datatype Entry = Entry(count: nat, started: int)

  datatype Request = Request(now: int, bucket: string, limit: nat, window: int)

  datatype Counters = Counters(buckets: map<string, Entry>, lastSweep: Option<int>)

  const EMPTY := Counters(map[], None)

  /** The bucket's entry after the request is counted; the counter is 32 bits wide. */
  function Counted(buckets: map<string, Entry>, r: Request): (e: Entry)
    ensures e.count < U32
  {
    var e := if r.bucket in buckets then buckets[r.bucket] else Entry(0, r.now);
    var current := if r.now - e.started >= r.window then Entry(0, r.now) else e;
    current.(count := (current.count + 1) % U32)
  }

  function Swept(buckets: map<string, Entry>, now: int): map<string, Entry> {
    map b | b in buckets && now - buckets[b].started < HOUR :: buckets[b]
  }

  predicate SweepDue(c: Counters, now: int) {
    |c.buckets| > SWEEP_ABOVE && (c.lastSweep.None? || now - c.lastSweep.value >= SWEEP_EVERY)
  }

  function After(c: Counters, r: Request): Counters {
    var counted := c.(buckets := c.buckets[r.bucket := Counted(c.buckets, r)]);
    if SweepDue(counted, r.now) then Counters(Swept(counted.buckets, r.now), Some(r.now)) else counted
  }

  predicate Allows(c: Counters, r: Request) { Counted(c.buckets, r).count <= r.limit }

  class Limiter {
    var buckets: map<string, Entry>
    var lastSweep: Option<int>

    function Value(): Counters reads this { Counters(buckets, lastSweep) }

    constructor ()
      ensures Value() == EMPTY
    {
      buckets, lastSweep := map[], None;
    }

    /** `Limiter::check`. */
    method Check(now: int, bucket: string, limit: nat, window: int) returns (allowed: bool)
      modifies this
      ensures allowed == Allows(old(Value()), Request(now, bucket, limit, window))
      ensures Value() == After(old(Value()), Request(now, bucket, limit, window))
    {
      var entry := if bucket in buckets then buckets[bucket] else Entry(0, now);
      if now - entry.started >= window { entry := Entry(0, now); }
      entry := entry.(count := (entry.count + 1) % U32);
      buckets := buckets[bucket := entry];
      allowed := entry.count <= limit;
      var due := lastSweep.None? || now - lastSweep.value >= SWEEP_EVERY;
      if |buckets| > SWEEP_ABOVE && due {
        lastSweep := Some(now);
        buckets := map b | b in buckets && now - buckets[b].started < HOUR :: buckets[b];
      }
    }
  }

  // ----- Runs -------------------------------------------------------------------------------

  predicate Ordered(rs: seq<Request>) { forall i, j :: 0 <= i < j < |rs| ==> rs[i].now <= rs[j].now }

  /** The counters before request `n`. */
  function At(rs: seq<Request>, n: nat): Counters
    requires n <= |rs|
  {
    if n == 0 then EMPTY else After(At(rs, n - 1), rs[n - 1])
  }

  predicate Allowed(rs: seq<Request>, n: nat)
    requires n < |rs|
  {
    Allows(At(rs, n), rs[n])
  }

  /** The same, for a limiter that never sweeps. */
  function Kept(rs: seq<Request>, n: nat): map<string, Entry>
    requires n <= |rs|
  {
    if n == 0 then map[]
    else
      var before := Kept(rs, n - 1);
      before[rs[n - 1].bucket := Counted(before, rs[n - 1])]
  }

  predicate AllowedUnswept(rs: seq<Request>, n: nat)
    requires n < |rs|
  {
    Counted(Kept(rs, n), rs[n]).count <= rs[n].limit
  }

  // ----- Sweeping is not observable -----------------------------------------------------------

  /** The swept map has the full one's entry for `b`, or an hour has passed over it. */
  predicate Simulates(swept: map<string, Entry>, full: map<string, Entry>, b: string, now: int) {
    && (b in swept ==> b in full && full[b] == swept[b])
    && (b in full && b !in swept ==> full[b].started + HOUR <= now)
  }

  lemma SameEntry(swept: map<string, Entry>, full: map<string, Entry>, r: Request, now: int)
    requires Simulates(swept, full, r.bucket, now) && now <= r.now && r.window <= HOUR
    ensures Counted(swept, r) == Counted(full, r)
  {
  }

  lemma StepSimulates(c: Counters, full: map<string, Entry>, r: Request, b: string, now: int)
    requires Simulates(c.buckets, full, b, now) && now <= r.now && (r.bucket == b ==> r.window <= HOUR)
    ensures Simulates(After(c, r).buckets, full[r.bucket := Counted(full, r)], b, r.now)
  {
    hide Counted;
    if r.bucket == b { SameEntry(c.buckets, full, r, now); }
  }

  /** The bucket's windows are at most an hour. */
  predicate WithinHour(rs: seq<Request>, b: string) {
    forall i :: 0 <= i < |rs| && rs[i].bucket == b ==> rs[i].window <= HOUR
  }

  lemma {:induction false} RunSimulates(rs: seq<Request>, n: nat, b: string, now: int)
    requires Ordered(rs) && n <= |rs| && WithinHour(rs, b)
    requires forall i :: 0 <= i < n ==> rs[i].now <= now
    ensures Simulates(At(rs, n).buckets, Kept(rs, n), b, now)
  {
    hide Counted, After;
    if n > 0 {
      RunSimulates(rs, n - 1, b, rs[n - 1].now);
      StepSimulates(At(rs, n - 1), Kept(rs, n - 1), rs[n - 1], b, rs[n - 1].now);
    }
  }

  /** With windows of at most an hour for its bucket, whatever the others have, a request is decided
      as if nothing were ever swept. */
  lemma SweepIsInvisible(rs: seq<Request>, n: nat)
    requires Ordered(rs) && n < |rs| && WithinHour(rs, rs[n].bucket)
    ensures Allowed(rs, n) == AllowedUnswept(rs, n)
  {
    hide Counted;
    RunSimulates(rs, n, rs[n].bucket, rs[n].now);
    SameEntry(At(rs, n).buckets, Kept(rs, n), rs[n], rs[n].now);
  }

  // ----- Sweeping keeps the map small ------------------------------------------------------------

  /** A map over the threshold was swept lately, and a sweep leaves only windows begun in the last hour. */
  ghost predicate Tidy(c: Counters, now: int) {
    && (|c.buckets| > SWEEP_ABOVE ==> c.lastSweep.Some? && now - c.lastSweep.value < SWEEP_EVERY)
    && (c.lastSweep.Some? ==>
          c.lastSweep.value <= now && forall b :: b in c.buckets ==> c.buckets[b].started > c.lastSweep.value - HOUR)
  }

  lemma StepIsTidy(c: Counters, r: Request, now: int)
    requires Tidy(c, now) && now <= r.now
    ensures Tidy(After(c, r), r.now)
  {
  }

  lemma {:induction false} RunIsTidy(rs: seq<Request>, n: nat)
    requires Ordered(rs) && 0 < n <= |rs|
    ensures Tidy(At(rs, n), rs[n - 1].now)
  {
    hide After, Tidy;
    assert At(rs, n) == After(At(rs, n - 1), rs[n - 1]);
    if n == 1 {
      assert Tidy(At(rs, 0), rs[0].now) by { EmptyIsTidy(rs[0].now); }
    } else {
      RunIsTidy(rs, n - 1);
    }
    StepIsTidy(At(rs, n - 1), rs[n - 1], if n == 1 then rs[0].now else rs[n - 2].now);
  }

  lemma EmptyIsTidy(now: int)
    ensures Tidy(EMPTY, now)
  {
  }

  /** Whenever more than ten thousand buckets are held, none of their windows began more than an hour
      and ten seconds ago. */
  lemma OldBucketsGo(rs: seq<Request>, n: nat, b: string)
    requires Ordered(rs) && 0 < n <= |rs| && |At(rs, n).buckets| > SWEEP_ABOVE && b in At(rs, n).buckets
    ensures rs[n - 1].now - At(rs, n).buckets[b].started < HOUR + SWEEP_EVERY
  {
    RunIsTidy(rs, n);
    hide At;
  }

  // ----- Twice the limit -----------------------------------------------------------------------

  predicate Within(r: Request, bucket: string, t: int, w: int) { r.bucket == bucket && t <= r.now <= t + w }

  /** Requests for the bucket that were allowed in the interval, among the first `n`. */
  function AllowedWithin(rs: seq<Request>, n: nat, bucket: string, t: int, w: int): nat
    requires n <= |rs|
  {
    if n == 0 then 0
    else
      var more := if Within(rs[n - 1], bucket, t, w) && Allowed(rs, n - 1) then 1 else 0;
      AllowedWithin(rs, n - 1, bucket, t, w) + more
  }

  predicate OneWindow(rs: seq<Request>, bucket: string, limit: nat, w: int) {
    forall i :: 0 <= i < |rs| && rs[i].bucket == bucket ==> rs[i].limit == limit && rs[i].window == w
  }

  function Min(a: int, b: int): int { if a < b then a else b }

  /** What the count in the interval can be, given the bucket's entry. */
  predicate Budget(e: Entry, limit: nat, t: int, w: int, allowed: nat) {
    if e.started <= t then allowed <= Min(e.count, limit) && (allowed > 0 ==> t < e.started + w)
    else if e.started <= t + w then allowed <= limit + Min(e.count, limit)
    else allowed <= 2 * limit
  }

  lemma BudgetStep(buckets: map<string, Entry>, r: Request, t: int, allowed: nat)
    requires r.window > 0
    requires r.bucket in buckets ==>
               var e := buckets[r.bucket];
               && e.started <= r.now && Budget(e, r.limit, t, r.window, allowed)
               && (r.now - e.started < r.window ==> e.count + 1 < U32)
    requires r.bucket !in buckets ==> allowed == 0
    ensures var e := Counted(buckets, r);
            Budget(e, r.limit, t, r.window,
                   allowed + if t <= r.now <= t + r.window && e.count <= r.limit then 1 else 0)
  {
  }

  /** Requests for the bucket in the window that begins at `from`, among the first `n`. */
  function InWindow(rs: seq<Request>, n: nat, bucket: string, from: int, w: int): nat
    requires n <= |rs|
  {
    if n == 0 then 0
    else
      var r := rs[n - 1];
      InWindow(rs, n - 1, bucket, from, w) + (if r.bucket == bucket && from <= r.now < from + w then 1 else 0)
  }

  lemma {:induction false} InWindowGrows(rs: seq<Request>, m: nat, n: nat, bucket: string, from: int, w: int)
    requires m <= n <= |rs|
    ensures InWindow(rs, m, bucket, from, w) <= InWindow(rs, n, bucket, from, w)
    decreases n
  {
    if m < n { InWindowGrows(rs, m, n - 1, bucket, from, w); }
  }

  /** No window of the bucket holds more than `m` requests. */
  ghost predicate AtMost(rs: seq<Request>, bucket: string, w: int, m: int) {
    forall from :: InWindow(rs, |rs|, bucket, from, w) <= m
  }

  /** Nor so many that its 32-bit counter wraps. */
  ghost predicate Countable(rs: seq<Request>, bucket: string, w: int) { AtMost(rs, bucket, w, U32 - 1) }

  /** The bucket's entry and the count so far, after `n` requests that ended by `now`. */
  ghost predicate Tracks(rs: seq<Request>, n: nat, bucket: string, limit: nat, t: int, w: int, now: int)
    requires n <= |rs|
  {
    var kept, allowed := Kept(rs, n), AllowedWithin(rs, n, bucket, t, w);
    if bucket in kept then
      var e := kept[bucket];
      e.count <= InWindow(rs, n, bucket, e.started, w) && e.started <= now && Budget(e, limit, t, w, allowed)
    else allowed == 0
  }

  /** Counting a request keeps the entry's count within its window's requests. */
  lemma CountedBounds(rs: seq<Request>, n: nat, bucket: string, w: int)
    requires n < |rs| && w > 0 && rs[n].bucket == bucket && rs[n].window == w && Countable(rs, bucket, w)
    requires var kept := Kept(rs, n);
             bucket in kept ==>
               && kept[bucket].count <= InWindow(rs, n, bucket, kept[bucket].started, w)
               && kept[bucket].started <= rs[n].now
    ensures var kept, r := Kept(rs, n), rs[n]; var e := Counted(kept, r);
            && e.started <= r.now && e.count <= InWindow(rs, n + 1, bucket, e.started, w)
            && (bucket in kept && r.now - kept[bucket].started < w ==> kept[bucket].count + 1 < U32)
  {
    var kept, r := Kept(rs, n), rs[n];
    if bucket in kept && r.now - kept[bucket].started < w {
      InWindowGrows(rs, n + 1, |rs|, bucket, kept[bucket].started, w);
    }
  }

  /** Requests for other buckets change nothing. */
  lemma TracksOther(rs: seq<Request>, n: nat, bucket: string, limit: nat, t: int, w: int, now: int)
    requires n < |rs| && now <= rs[n].now && Tracks(rs, n, bucket, limit, t, w, now) && rs[n].bucket != bucket
    ensures Tracks(rs, n + 1, bucket, limit, t, w, rs[n].now)
  {
    hide Counted, Budget;
  }

  lemma TracksStep(rs: seq<Request>, n: nat, bucket: string, limit: nat, t: int, w: int, now: int)
    requires n < |rs| && w > 0 && OneWindow(rs, bucket, limit, w) && Countable(rs, bucket, w)
    requires now <= rs[n].now && Tracks(rs, n, bucket, limit, t, w, now)
    requires rs[n].bucket == bucket ==> Allowed(rs, n) == AllowedUnswept(rs, n)
    ensures Tracks(rs, n + 1, bucket, limit, t, w, rs[n].now)
  {
    hide Counted, Budget, Countable, InWindow, Allowed;
    if rs[n].bucket != bucket {
      TracksOther(rs, n, bucket, limit, t, w, now);
    } else {
      CountedBounds(rs, n, bucket, w);
      BudgetStep(Kept(rs, n), rs[n], t, AllowedWithin(rs, n, bucket, t, w));
    }
  }

  lemma {:induction false} RunTracks(rs: seq<Request>, n: nat, bucket: string, limit: nat, t: int, w: int, now: int)
    requires Ordered(rs) && n <= |rs| && w > 0 && OneWindow(rs, bucket, limit, w) && Countable(rs, bucket, w)
    requires w <= HOUR && forall i :: 0 <= i < n ==> rs[i].now <= now
    ensures Tracks(rs, n, bucket, limit, t, w, now)
  {
    hide Allowed, AllowedUnswept, Counted, Budget, Countable, InWindow;
    if n > 0 {
      RunTracks(rs, n - 1, bucket, limit, t, w, rs[n - 1].now);
      if rs[n - 1].bucket == bucket { SweepIsInvisible(rs, n - 1); }
      TracksStep(rs, n - 1, bucket, limit, t, w, rs[n - 1].now);
    }
  }

  /** An interval as long as the window, both ends included, admits at most twice the limit. */
  lemma AtMostTwiceTheLimit(rs: seq<Request>, bucket: string, limit: nat, t: int, w: int)
    requires Ordered(rs) && 0 < w <= HOUR && OneWindow(rs, bucket, limit, w) && Countable(rs, bucket, w)
    ensures AllowedWithin(rs, |rs|, bucket, t, w) <= 2 * limit
  {
    hide Allowed, AllowedUnswept, Counted, Countable, InWindow;
    if rs != [] { RunTracks(rs, |rs|, bucket, limit, t, w, rs[|rs| - 1].now); }
  }

  // ----- Light traffic passes ---------------------------------------------------------------------

  /** The bucket's entry counts at most the requests since its window began. */
  ghost predicate CountsAtMost(rs: seq<Request>, n: nat, bucket: string, w: int, now: int)
    requires n <= |rs|
  {
    var kept := Kept(rs, n);
    bucket in kept ==>
      kept[bucket].started <= now && kept[bucket].count <= InWindow(rs, n, bucket, kept[bucket].started, w)
  }

  lemma CountsStep(rs: seq<Request>, n: nat, bucket: string, w: int, now: int)
    requires n < |rs| && w > 0 && now <= rs[n].now && CountsAtMost(rs, n, bucket, w, now)
    requires rs[n].bucket == bucket ==> rs[n].window == w
    ensures CountsAtMost(rs, n + 1, bucket, w, rs[n].now)
    ensures rs[n].bucket == bucket ==>
              var e := Counted(Kept(rs, n), rs[n]);
              e.started <= rs[n].now < e.started + w && e.count <= InWindow(rs, n + 1, bucket, e.started, w)
  {
  }

  lemma {:induction false} RunCounts(rs: seq<Request>, n: nat, bucket: string, limit: nat, w: int)
    requires Ordered(rs) && n < |rs| && w > 0 && OneWindow(rs, bucket, limit, w)
    ensures CountsAtMost(rs, n, bucket, w, rs[n].now)
  {
    hide Counted, InWindow, Kept;
    if n > 0 {
      RunCounts(rs, n - 1, bucket, limit, w);
      CountsStep(rs, n - 1, bucket, w, rs[n - 1].now);
      LaterStill(rs, n, bucket, w, rs[n - 1].now, rs[n].now);
    } else {
      NothingKept(rs);
    }
  }

  lemma NothingKept(rs: seq<Request>)
    ensures Kept(rs, 0) == map[]
  {
  }

  lemma LaterStill(rs: seq<Request>, n: nat, bucket: string, w: int, now: int, later: int)
    requires n <= |rs| && CountsAtMost(rs, n, bucket, w, now) && now <= later
    ensures CountsAtMost(rs, n, bucket, w, later)
  {
  }

  /** A window that begins earlier, and has not ended, holds no fewer. */
  lemma {:induction false} InWindowWidens(rs: seq<Request>, n: nat, bucket: string, from: int, earlier: int, w: int)
    requires n <= |rs| && earlier <= from && forall i :: 0 <= i < n ==> rs[i].now < earlier + w
    ensures InWindow(rs, n, bucket, from, w) <= InWindow(rs, n, bucket, earlier, w)
  {
    if n > 0 { InWindowWidens(rs, n - 1, bucket, from, earlier, w); }
  }

  /** A request is allowed if it and those of its bucket in the window before it are within the limit. */
  lemma LightTrafficPasses(rs: seq<Request>, n: nat)
    requires Ordered(rs) && n < |rs|
    requires var r := rs[n];
             && 0 < r.window <= HOUR && OneWindow(rs, r.bucket, r.limit, r.window)
             && InWindow(rs, n + 1, r.bucket, r.now - r.window + 1, r.window) <= r.limit
    ensures Allowed(rs, n)
  {
    hide Counted, InWindow, Kept, At;
    var r := rs[n];
    RunCounts(rs, n, r.bucket, r.limit, r.window);
    CountsStep(rs, n, r.bucket, r.window, r.now);
    var e := Counted(Kept(rs, n), r);
    InWindowWidens(rs, n + 1, r.bucket, e.started, r.now - r.window + 1, r.window);
    SweepIsInvisible(rs, n);
  }

  // ----- A counter that wraps -------------------------------------------------------------------

  /** 2^32 requests for one bucket at one moment, and `limit` more when their window is over. */
  function Surge(bucket: string, limit: nat, w: int): (rs: seq<Request>)
    ensures |rs| == U32 + limit
    ensures forall i :: 0 <= i < |rs| ==> rs[i] == Request(if i < U32 then 0 else w, bucket, limit, w)
  {
    seq(U32 + limit, i => Request(if i < U32 then 0 else w, bucket, limit, w))
  }

  function Max(a: int, b: int): int { if a > b then a else b }

  /** How many of the first `n` are allowed: up to the limit, one when the counter is back at zero,
      and up to the limit again in the new window. */
  function SurgeAllowed(n: nat, limit: nat): int {
    if n < U32 then Min(n, limit) else limit + 1 + (n - U32)
  }

  /** The counters meanwhile. */
  function Surging(n: nat, bucket: string, w: int): Counters {
    if n == 0 then EMPTY
    else Counters(map[bucket := if n <= U32 then Entry(n % U32, 0) else Entry(n - U32, w)], None)
  }

  lemma SurgeStep(n: nat, bucket: string, limit: nat, w: int)
    requires 0 < w && n < U32 + limit && limit < U32
    ensures var r := Request(if n < U32 then 0 else w, bucket, limit, w);
            && After(Surging(n, bucket, w), r) == Surging(n + 1, bucket, w)
            && SurgeAllowed(n + 1, limit) ==
                 SurgeAllowed(n, limit) + (if Allows(Surging(n, bucket, w), r) then 1 else 0)
  {
    var r := Request(if n < U32 then 0 else w, bucket, limit, w);
    var c := Surging(n, bucket, w);
    var e := if n + 1 <= U32 then Entry((n + 1) % U32, 0) else Entry(n + 1 - U32, w);
    SurgeCounts(n, bucket, limit, w);
    assert c.buckets[bucket := e] == map[bucket := e] && |map[bucket := e]| == 1;
  }

  lemma SurgeCounts(n: nat, bucket: string, limit: nat, w: int)
    requires 0 < w && n < U32 + limit && limit < U32
    ensures Counted(Surging(n, bucket, w).buckets, Request(if n < U32 then 0 else w, bucket, limit, w))
         == if n + 1 <= U32 then Entry((n + 1) % U32, 0) else Entry(n + 1 - U32, w)
  {
    assert n < U32 ==> n % U32 == n;
  }

  lemma {:induction false} SurgeRuns(n: nat, bucket: string, limit: nat, w: int)
    requires n <= U32 + limit && 0 < w && limit < U32
    ensures var rs := Surge(bucket, limit, w);
            At(rs, n) == Surging(n, bucket, w) && AllowedWithin(rs, n, bucket, 0, w) == SurgeAllowed(n, limit)
  {
    hide After, Allows, Surging, SurgeAllowed;
    if n > 0 {
      SurgeRuns(n - 1, bucket, limit, w);
      SurgeStep(n - 1, bucket, limit, w);
    } else {
      SurgeBegins(bucket, limit, w);
    }
  }

  lemma SurgeBegins(bucket: string, limit: nat, w: int)
    ensures Surging(0, bucket, w) == EMPTY && SurgeAllowed(0, limit) == 0
  {
  }

  /** Each window sees one of the two bursts. */
  lemma {:induction false} SurgeWindows(n: nat, bucket: string, limit: nat, from: int, w: int)
    requires n <= U32 + limit && 0 < w
    ensures InWindow(Surge(bucket, limit, w), n, bucket, from, w) <=
            if from <= 0 then Min(n, U32) else Max(n - U32, 0)
  {
    if n > 0 { SurgeWindows(n - 1, bucket, limit, from, w); }
  }

  /** With 2^32 requests in one window, and no more in any, one more than twice the limit gets through. */
  lemma WrappingAdmitsMore(bucket: string, limit: nat, w: int) returns (rs: seq<Request>)
    requires 0 < w && limit < U32
    ensures Ordered(rs) && OneWindow(rs, bucket, limit, w) && AtMost(rs, bucket, w, U32)
    ensures AllowedWithin(rs, |rs|, bucket, 0, w) == 2 * limit + 1
  {
    rs := Surge(bucket, limit, w);
    SurgeRuns(|rs|, bucket, limit, w);
    forall from ensures InWindow(rs, |rs|, bucket, from, w) <= U32 {
      SurgeWindows(|rs|, bucket, limit, from, w);
    }
  }

  /** Twice the limit is kept by every run whose windows hold at most `m` requests. */
  ghost predicate Bounded(bucket: string, limit: nat, w: int, m: int) {
    forall rs: seq<Request>, t ::
      Ordered(rs) && OneWindow(rs, bucket, limit, w) && AtMost(rs, bucket, w, m) ==>
        AllowedWithin(rs, |rs|, bucket, t, w) <= 2 * limit
  }

  /** The bound holds up to 2^32 - 1 requests in a window, and no further. */
  lemma ThresholdExactly(bucket: string, limit: nat, w: int, m: int)
    requires 0 < w <= HOUR && limit < U32
    ensures Bounded(bucket, limit, w, m) <==> m < U32
  {
    hide Ordered, OneWindow, AllowedWithin, InWindow;
    if m < U32 {
      forall rs: seq<Request>, t | Ordered(rs) && OneWindow(rs, bucket, limit, w) && AtMost(rs, bucket, w, m)
        ensures AllowedWithin(rs, |rs|, bucket, t, w) <= 2 * limit
      {
        AtMostTwiceTheLimit(rs, bucket, limit, t, w);
      }
    } else {
      var rs := WrappingAdmitsMore(bucket, limit, w);
      assert AtMost(rs, bucket, w, m);
      assert AllowedWithin(rs, |rs|, bucket, 0, w) > 2 * limit;
    }
  }
}
