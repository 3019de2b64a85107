/**
 * The write-behind count of viewer seconds (backend-rs/src/hls.rs), one entry per
 * organisation and month. Every lock section and every SQL statement is a step, so
 * recording, warming and flushing interleave anywhere between them. A warm-up works out
 * the month anew at each of its three steps, and the month may turn in between.
 */
module ViewerUsage {
  import opened Wrappers

  /** An organisation and a month, months being counted from some first one. */
  type Key = (string, nat)

  function Get(m: map<Key, int>, k: Key): int { if k in m then m[k] else 0 }

  function Add(m: map<Key, int>, k: Key, n: int): (r: map<Key, int>)
    ensures forall j :: Get(r, j) == Get(m, j) + (if j == k then n else 0)
  {
    m[k := Get(m, k) + n]
  }

  /** Both maps, added key by key. */
  function Sum(a: map<Key, int>, b: map<Key, int>): (r: map<Key, int>)
    ensures forall j :: Get(r, j) == Get(a, j) + Get(b, j)
  {
    map k | k in a.Keys + b.Keys :: Get(a, k) + Get(b, k)
  }

  function Without(m: map<Key, int>, k: Key): (r: map<Key, int>)
    ensures forall j :: Get(r, j) == if j == k then 0 else Get(m, j)
  {
    map j | j in m && j != k :: m[j]
  }

  const I32_MAX := 0x7FFF_FFFF

  /** What the table held for a key when it was asked. */
  datatype Warm = Warm(key: Key, seconds: int)

  /**
   * `stored` is the table; `flight` is what the current flush has drained and not yet
   * written; `posting` is a written total on its way into the cache; `asking` are warm-ups
   * that found nothing cached and have yet to query the table, `warms` those that have. `recorded` and `lost` only
   * keep account.
   */
  datatype State = State(
    month: nat, stored: map<Key, int>, pending: map<Key, int>, cached: map<Key, int>, flight: map<Key, int>,
    posting: Option<Warm>, asking: seq<string>, warms: seq<Warm>, recorded: map<Key, int>, lost: map<Key, int>)

  /** How a write can end: done, refused, or done with the answer lost on the way back. */
  datatype Outcome = Written | Refused | AnswerLost

  datatype Step =
    | Turn(month: nat)
    | Record(org: string)
    | FindNothing(org: string)
    | ReadStored(index: nat, failed: bool)
    | StoreCached(index: nat)
    | Drain
    | Write(key: Key, outcome: Outcome)
    | Post

  /** The increment bound to the statement: an `i32`, clamped. */
  function Bound(delta: int): int { if delta > I32_MAX then I32_MAX else delta }

  predicate Enabled(s: State, step: Step) {
    match step
    case Turn(_) => true
    case Record(_) => true
    case FindNothing(org) => (org, s.month) !in s.cached
    case ReadStored(i, _) => i < |s.asking|
    case StoreCached(i) => i < |s.warms|
    case Drain => s.flight == map[] && s.posting.None?
    case Write(k, outcome) =>
      && k in s.flight && s.posting.None?
      && (s.flight[k] > 0 && !outcome.Refused? ==> Get(s.stored, k) + Bound(s.flight[k]) <= I32_MAX)
    case Post => s.posting.Some?
  }

  /** The key a warm-up caches its figure under: the month is that of the storing. */
  function Target(s: State, w: Warm): Key { (w.key.0, s.month) }

  /** One round of the flush loop. */
  function Upsert(s: State, k: Key, outcome: Outcome): State
    requires Enabled(s, Write(k, outcome))
  {
    var delta := s.flight[k];
    var d := Bound(delta);
    if delta <= 0 then s.(flight := Without(s.flight, k))
    else match outcome {
      case Written =>
        s.(stored := Add(s.stored, k, d), flight := Without(s.flight, k),
           posting := Some(Warm(k, Get(s.stored, k) + d)), lost := Add(s.lost, k, delta - d))
      case Refused => s.(flight := map[], lost := Sum(s.lost, s.flight))
      case AnswerLost =>
        s.(stored := Add(s.stored, k, d), flight := map[], lost := Add(Sum(s.lost, s.flight), k, -d))
    }
  }

  function Apply(s: State, step: Step): State
    requires Enabled(s, step)
  {
    match step
    case Turn(month) => s.(month := month)
    case Record(org) =>
      var k := (org, s.month);
      s.(pending := Add(s.pending, k, 1), recorded := Add(s.recorded, k, 1))
    case FindNothing(org) => s.(asking := s.asking + [org])
    case ReadStored(i, failed) =>
      var k := (s.asking[i], s.month);
      s.(asking := s.asking[..i] + s.asking[i + 1..],
         warms := s.warms + [Warm(k, if failed then 0 else Get(s.stored, k))])
    case StoreCached(i) =>
      s.(cached := s.cached[Target(s, s.warms[i]) := s.warms[i].seconds], warms := s.warms[..i] + s.warms[i + 1..])
    case Drain => s.(flight := s.pending, pending := map[])
    case Write(k, outcome) => Upsert(s, k, outcome)
    case Post => s.(cached := s.cached[s.posting.value.key := s.posting.value.seconds], posting := None)
  }

  /** What `cached_viewer_seconds` answers. */
  function Reported(s: State, k: Key): Option<int> {
    if k in s.cached then Some(s.cached[k] + Get(s.pending, k)) else None
  }

  /** What `store_cached_viewer_seconds` answers to a warm-up about to be stored. */
  function Warmed(s: State, w: Warm): int { w.seconds + Get(s.pending, Target(s, w)) }

  /** Before the first request: nothing in memory. */
  predicate Initial(s: State) {
    && s.pending == map[] && s.cached == map[] && s.flight == map[] && s.posting.None?
    && s.asking == [] && s.warms == []
    && s.recorded == map[] && s.lost == map[] && (forall k :: k in s.stored ==> 0 <= s.stored[k] <= I32_MAX)
  }

  ghost predicate Run(trace: seq<State>, steps: seq<Step>) {
    && |trace| == |steps| + 1 && Initial(trace[0])
    && forall i :: 0 <= i < |steps| ==> Enabled(trace[i], steps[i]) && trace[i + 1] == Apply(trace[i], steps[i])
  }

  // ----- Never too much -------------------------------------------------------------------

  ghost predicate NonNegative(m: map<Key, int>) { forall k :: Get(m, k) >= 0 }

  predicate Behind(s: State, w: Warm) { w.seconds <= Get(s.stored, w.key) }

  /** The total on its way into the cache is what the table holds. */
  predicate PostsStored(s: State) {
    s.posting.Some? ==> s.posting.value.seconds == Get(s.stored, s.posting.value.key)
  }

  /** No amount is negative, and every figure read from the table is at most what it holds now. */
  ghost predicate Inv(s: State) {
    && NonNegative(s.stored) && NonNegative(s.pending) && NonNegative(s.flight) && NonNegative(s.lost)
    && PostsStored(s)
    && forall i :: 0 <= i < |s.warms| ==> Behind(s, s.warms[i])
  }

  /** What one round of the flush moves, at any key. */
  lemma UpsertMoves(s: State, k: Key, outcome: Outcome, j: Key)
    requires Enabled(s, Write(k, outcome)) && Get(s.flight, k) >= 0 && Get(s.flight, j) >= 0
    ensures var s' := Upsert(s, k, outcome);
            && Get(s.stored, j) <= Get(s'.stored, j) && Get(s.lost, j) <= Get(s'.lost, j) && Get(s'.flight, j) >= 0
            && Get(s'.stored, j) + Get(s'.flight, j) + Get(s'.lost, j)
               == Get(s.stored, j) + Get(s.flight, j) + Get(s.lost, j)
            && s'.pending == s.pending && s'.recorded == s.recorded
  {
    hide Add, Sum, Without;
    if s.flight[k] > 0 && outcome.AnswerLost? {
      var lost := Sum(s.lost, s.flight);
      assert Get(Add(lost, k, -Bound(s.flight[k])), j) == Get(lost, j) + (if j == k then -Bound(s.flight[k]) else 0);
    }
  }

  lemma StepKeepsAmounts(s: State, step: Step, j: Key)
    requires Inv(s) && Enabled(s, step)
    ensures var s' := Apply(s, step);
            && Get(s.stored, j) <= Get(s'.stored, j)
            && Get(s'.pending, j) >= 0 && Get(s'.flight, j) >= 0 && Get(s'.lost, j) >= 0
  {
    hide Add, Sum, Without, Upsert;
    if step.Write? { UpsertMoves(s, step.key, step.outcome, j); }
  }

  lemma UpsertPosts(s: State, k: Key, outcome: Outcome)
    requires Enabled(s, Write(k, outcome))
    ensures var s' := Upsert(s, k, outcome);
            s'.cached == s.cached && s'.warms == s.warms && PostsStored(s')
  {
    hide Sum, Without, Bound;
    if s.flight[k] > 0 && outcome.Written? {
      var d := Bound(s.flight[k]);
      assert Get(Add(s.stored, k, d), k) == Get(s.stored, k) + d;
    }
  }

  /** A table that only grows keeps every figure read from it behind. */
  lemma StepKeepsBehind(s: State, step: Step)
    requires Inv(s) && Enabled(s, step) && forall k :: Get(s.stored, k) <= Get(Apply(s, step).stored, k)
    ensures var s' := Apply(s, step);
            && PostsStored(s')
            && forall i :: 0 <= i < |s'.warms| ==> Behind(s', s'.warms[i])
  {
    hide Add, Sum, Without, Bound, Upsert;
    var s' := Apply(s, step);
    if step.Write? { UpsertPosts(s, step.key, step.outcome); }
    forall i | 0 <= i < |s'.warms| ensures Behind(s', s'.warms[i]) {
      if step.StoreCached? {
        assert s'.warms[i] == s.warms[if i < step.index then i else i + 1];
      } else if i < |s.warms| {
        assert s'.warms[i] == s.warms[i];
      }
    }
  }

  lemma StepKeepsInv(s: State, step: Step)
    requires Inv(s) && Enabled(s, step)
    ensures Inv(Apply(s, step))
  {
    hide Apply;
    forall j ensures var s' := Apply(s, step);
                     && Get(s.stored, j) <= Get(s'.stored, j)
                     && Get(s'.pending, j) >= 0 && Get(s'.flight, j) >= 0 && Get(s'.lost, j) >= 0
    {
      StepKeepsAmounts(s, step, j);
    }
    StepKeepsBehind(s, step);
  }

  lemma {:induction false} RunKeepsInv(trace: seq<State>, steps: seq<Step>, n: nat)
    requires Run(trace, steps) && n < |trace|
    ensures Inv(trace[n])
  {
    if n > 0 {
      RunKeepsInv(trace, steps, n - 1);
      StepKeepsInv(trace[n - 1], steps[n - 1]);
    }
  }

  // ----- Conservation ---------------------------------------------------------------------

  /** Seconds ever counted for a key: what the table began with plus what was watched. */
  function True(start: State, s: State, k: Key): int { Get(start.stored, k) + Get(s.recorded, k) }

  function Accounted(s: State, k: Key): int {
    Get(s.stored, k) + Get(s.pending, k) + Get(s.flight, k) + Get(s.lost, k)
  }

  lemma StepConserves(s: State, step: Step, k: Key)
    requires Inv(s) && Enabled(s, step)
    ensures var s' := Apply(s, step); Accounted(s', k) - Get(s'.recorded, k) == Accounted(s, k) - Get(s.recorded, k)
  {
    hide Add, Sum, Without, Upsert;
    if step.Write? { UpsertMoves(s, step.key, step.outcome, k); }
  }

  /** Every second is stored, pending, on its way, or counted as lost. */
  lemma {:induction false} NothingDisappears(trace: seq<State>, steps: seq<Step>, n: nat, k: Key)
    requires Run(trace, steps) && n < |trace|
    ensures Accounted(trace[n], k) == True(trace[0], trace[n], k)
  {
    hide Apply, Inv;
    if n > 0 {
      NothingDisappears(trace, steps, n - 1, k);
      RunKeepsInv(trace, steps, n - 1);
      StepConserves(trace[n - 1], steps[n - 1], k);
    }
  }

  /** The report differs from the true count by exactly what is on its way, lost, or newer in the
      table than in the cache. */
  lemma ReportDiffersBy(trace: seq<State>, steps: seq<Step>, n: nat, k: Key)
    requires Run(trace, steps) && n < |trace| && k in trace[n].cached
    ensures var s := trace[n];
            True(trace[0], s, k) - Reported(s, k).value
            == Get(s.flight, k) + Get(s.lost, k) + (Get(s.stored, k) - s.cached[k])
  {
    NothingDisappears(trace, steps, n, k);
  }

  /** A warm-up queried one month and stores under another, which is `k`'s. */
  predicate Crosses(s: State, step: Step, k: Key) {
    && step.StoreCached? && step.index < |s.warms|
    && Target(s, s.warms[step.index]) == k != s.warms[step.index].key
  }

  predicate CachedBehind(s: State, k: Key) { k in s.cached ==> s.cached[k] <= Get(s.stored, k) }

  lemma StepKeepsCachedBehind(s: State, step: Step, k: Key)
    requires Inv(s) && Enabled(s, step) && !Crosses(s, step, k) && CachedBehind(s, k)
    ensures CachedBehind(Apply(s, step), k)
  {
    hide Add, Sum, Without, Upsert;
    StepKeepsAmounts(s, step, k);
    if step.Write? { UpsertPosts(s, step.key, step.outcome); }
  }

  lemma {:induction false} RunKeepsCachedBehind(trace: seq<State>, steps: seq<Step>, n: nat, k: Key)
    requires Run(trace, steps) && n < |trace| && forall i :: 0 <= i < n ==> !Crosses(trace[i], steps[i], k)
    ensures CachedBehind(trace[n], k)
  {
    hide Apply, Inv, Crosses;
    if n > 0 {
      RunKeepsCachedBehind(trace, steps, n - 1, k);
      RunKeepsInv(trace, steps, n - 1);
      StepKeepsCachedBehind(trace[n - 1], steps[n - 1], k);
    }
  }

  /** In every run in which no warm-up stores another month's figure under `k`, what is reported for
      it, or answered to a warm-up that would store its own month's, never exceeds the true count. */
  lemma ReportNeverExceeds(trace: seq<State>, steps: seq<Step>, n: nat, k: Key)
    requires Run(trace, steps) && n < |trace| && forall i :: 0 <= i < n ==> !Crosses(trace[i], steps[i], k)
    ensures var s := trace[n];
            && (Reported(s, k).Some? ==> Reported(s, k).value <= True(trace[0], s, k))
            && forall i :: 0 <= i < |s.warms| && s.warms[i].key == Target(s, s.warms[i]) == k ==>
                 Warmed(s, s.warms[i]) <= True(trace[0], s, k)
  {
    RunKeepsInv(trace, steps, n);
    RunKeepsCachedBehind(trace, steps, n, k);
    NothingDisappears(trace, steps, n, k);
  }

  // ----- When the report is exact -------------------------------------------------------------

  /** The step puts a figure for `k` into the cache. */
  predicate Sets(s: State, step: Step, k: Key) {
    && Enabled(s, step)
    && ((step.StoreCached? && Target(s, s.warms[step.index]) == k) || (step.Post? && s.posting.value.key == k))
  }

  /** The figure a step puts there: the table's own total from the flush, a warm-up's reading otherwise. */
  function Figure(s: State, step: Step, k: Key): int
    requires Sets(s, step, k)
  {
    if step.Post? then Get(s.stored, k) else s.warms[step.index].seconds
  }

  /** A write to `k` goes through and the flush does not hear of it. */
  predicate LosesAnswer(s: State, step: Step, k: Key) {
    step == Write(k, AnswerLost) && k in s.flight && s.flight[k] > 0
  }

  predicate Posts(s: State, k: Key) { s.posting.Some? && s.posting.value.key == k }

  /** The last figure put into the cache before state `n` was put there by step `i`. */
  ghost predicate LastSet(trace: seq<State>, steps: seq<Step>, i: nat, n: nat, k: Key)
    requires Run(trace, steps)
  {
    i < n < |trace| && Sets(trace[i], steps[i], k) && forall j :: i < j < n ==> !Sets(trace[j], steps[j], k)
  }

  lemma {:induction false} LastSetExists(trace: seq<State>, steps: seq<Step>, n: nat, k: Key) returns (i: nat)
    requires Run(trace, steps) && n < |trace| && k in trace[n].cached
    ensures LastSet(trace, steps, i, n, k)
  {
    hide Apply, Sets;
    if Sets(trace[n - 1], steps[n - 1], k) {
      i := n - 1;
    } else {
      CachedBySetting(trace[n - 1], steps[n - 1], k);
      i := LastSetExists(trace, steps, n - 1, k);
    }
  }

  lemma CachedBySetting(s: State, step: Step, k: Key)
    requires Enabled(s, step) && !Sets(s, step, k)
    ensures var s' := Apply(s, step);
            (k in s'.cached <==> k in s.cached) && (k in s.cached ==> s'.cached[k] == s.cached[k])
  {
    hide Upsert;
    if step.Write? { UpsertCaches(s, step.key, step.outcome); }
  }

  lemma UpsertCaches(s: State, k: Key, outcome: Outcome)
    requires Enabled(s, Write(k, outcome))
    ensures Upsert(s, k, outcome).cached == s.cached
  {
    hide Add, Sum, Without;
  }

  /** What a write does to what the table holds for `k`. */
  lemma UpsertRaises(s: State, j: Key, outcome: Outcome, k: Key)
    requires Enabled(s, Write(j, outcome))
    ensures var s' := Upsert(s, j, outcome); var grew := Get(s'.stored, k) > Get(s.stored, k);
            && Get(s'.stored, k) >= Get(s.stored, k)
            && (grew <==> LosesAnswer(s, Write(j, outcome), k) || Posts(s', k))
  {
    hide Sum, Without;
    if s.flight[j] > 0 && !outcome.Refused? {
      var stored := Add(s.stored, j, Bound(s.flight[j]));
      assert Get(stored, k) == Get(s.stored, k) + (if k == j then Bound(s.flight[j]) else 0);
    }
  }

  /** A step that sets nothing for `k`: the cached figure stays, the table's grows exactly when a
      write to `k` goes through, and unless its answer is lost the total is then being posted. */
  lemma QuietStep(s: State, step: Step, k: Key)
    requires Inv(s) && Enabled(s, step) && !Sets(s, step, k) && k in s.cached
    ensures var s' := Apply(s, step); var grew := Get(s'.stored, k) > Get(s.stored, k);
            && k in s'.cached && s'.cached[k] == s.cached[k] && Get(s'.stored, k) >= Get(s.stored, k)
            && (Posts(s, k) ==> Posts(s', k) && !grew)
            && (grew <==> LosesAnswer(s, step, k) || (Posts(s', k) && !Posts(s, k)))
  {
    hide Upsert, Inv;
    CachedBySetting(s, step, k);
    if step.Write? { UpsertRaises(s, step.key, step.outcome, k); }
  }

  /** From the last set on: the figure stays, and the table is raised only by a total being posted
      or by writes whose answers were lost. */
  lemma {:induction false} SinceLastSet(trace: seq<State>, steps: seq<Step>, i: nat, n: nat, k: Key)
    requires Run(trace, steps) && LastSet(trace, steps, i, n, k)
    ensures k in trace[n].cached && trace[n].cached[k] == trace[i + 1].cached[k]
    ensures Get(trace[n].stored, k) >= Get(trace[i].stored, k)
    ensures Posts(trace[n], k) ||
            (Get(trace[n].stored, k) == Get(trace[i].stored, k) <==>
             forall j :: i < j < n ==> !LosesAnswer(trace[j], steps[j], k))
    decreases n
  {
    hide Apply, Inv, LosesAnswer, Posts, Sets;
    if n == i + 1 {
      RunKeepsInv(trace, steps, i);
      SetStep(trace[i], steps[i], k);
    } else {
      SinceLastSet(trace, steps, i, n - 1, k);
      RunKeepsInv(trace, steps, n - 1);
      QuietStep(trace[n - 1], steps[n - 1], k);
    }
  }

  lemma SetStep(s: State, step: Step, k: Key)
    requires Inv(s) && Enabled(s, step) && Sets(s, step, k)
    ensures var s' := Apply(s, step); k in s'.cached && Get(s'.stored, k) == Get(s.stored, k)
    ensures !Crosses(s, step, k) ==> Apply(s, step).cached[k] <= Get(s.stored, k)
    ensures Apply(s, step).cached[k] == Figure(s, step, k)
  {
  }

  /** The report for a cached key exceeds the true count exactly when the last figure cached for it
      was another month's and is more than what is stored, on its way and lost together. */
  lemma ExceedsExactly(trace: seq<State>, steps: seq<Step>, i: nat, n: nat, k: Key)
    requires Run(trace, steps) && LastSet(trace, steps, i, n, k)
    ensures k in trace[n].cached && k in trace[i + 1].cached
    ensures var s := trace[n];
            Reported(s, k).value > True(trace[0], s, k) <==>
              && Crosses(trace[i], steps[i], k)
              && trace[i + 1].cached[k] > Get(s.stored, k) + Get(s.flight, k) + Get(s.lost, k)
  {
    hide Apply, Sets, LosesAnswer, Crosses;
    SinceLastSet(trace, steps, i, n, k);
    RunKeepsInv(trace, steps, i);
    RunKeepsInv(trace, steps, n);
    SetStep(trace[i], steps[i], k);
    ReportDiffersBy(trace, steps, n, k);
  }

  /** So does the answer to a warm-up: only across a month's end, and only by that much. */
  lemma AnswerExceedsExactly(trace: seq<State>, steps: seq<Step>, n: nat, i: nat)
    requires Run(trace, steps) && n < |trace| && i < |trace[n].warms|
    ensures var s := trace[n]; var w := s.warms[i]; var k := Target(s, w);
            Warmed(s, w) > True(trace[0], s, k) <==>
              w.key != k && w.seconds > Get(s.stored, k) + Get(s.flight, k) + Get(s.lost, k)
  {
    var s := trace[n];
    RunKeepsInv(trace, steps, n);
    NothingDisappears(trace, steps, n, Target(s, s.warms[i]));
    assert Behind(s, s.warms[i]);
  }

  /** Between flushes the report for a cached key misses only what was lost exactly when the last
      figure cached was the table's own and no write to the key lost its answer since; or, if it was
      another month's, when the table happens to hold just that. */
  lemma ExactBetweenFlushes(trace: seq<State>, steps: seq<Step>, i: nat, n: nat, k: Key)
    requires Run(trace, steps) && LastSet(trace, steps, i, n, k)
    requires Get(trace[n].flight, k) == 0 && trace[n].posting.None?
    ensures k in trace[n].cached
    ensures Reported(trace[n], k).value == True(trace[0], trace[n], k) - Get(trace[n].lost, k) <==>
              if Crosses(trace[i], steps[i], k) then Figure(trace[i], steps[i], k) == Get(trace[n].stored, k)
              else && Figure(trace[i], steps[i], k) == Get(trace[i].stored, k)
                   && forall j :: i < j < n ==> !LosesAnswer(trace[j], steps[j], k)
  {
    hide Apply, LosesAnswer, Sets, Crosses;
    SinceLastSet(trace, steps, i, n, k);
    RunKeepsInv(trace, steps, i);
    SetStep(trace[i], steps[i], k);
    ReportDiffersBy(trace, steps, n, k);
  }

  /** So after a flush: once its total is posted, and while no write to the key loses its answer, the
      report misses only what was lost. */
  lemma ExactAfterFlush(trace: seq<State>, steps: seq<Step>, i: nat, n: nat, k: Key)
    requires Run(trace, steps) && LastSet(trace, steps, i, n, k) && steps[i].Post?
    requires Get(trace[n].flight, k) == 0 && trace[n].posting.None?
    requires forall j :: i < j < n ==> !LosesAnswer(trace[j], steps[j], k)
    ensures Reported(trace[n], k) == Some(True(trace[0], trace[n], k) - Get(trace[n].lost, k))
  {
    hide Apply, LosesAnswer;
    ExactBetweenFlushes(trace, steps, i, n, k);
  }

  /** A write that can lose seconds: refused, its answer lost, or too large to bind. */
  predicate Fails(s: State, step: Step) {
    && step.Write? && step.key in s.flight && s.flight[step.key] > 0
    && (!step.outcome.Written? || s.flight[step.key] > I32_MAX)
  }

  lemma CleanWrite(s: State, step: Step, k: Key)
    requires Enabled(s, step) && !Fails(s, step) && step.Write?
    ensures Get(Upsert(s, step.key, step.outcome).lost, k) == Get(s.lost, k)
  {
    hide Without, Sum;
  }

  /** A write that goes through stores all of it that the statement can carry, and loses the rest. */
  lemma WriteCarries(s: State, k: Key)
    requires Enabled(s, Write(k, Written)) && s.flight[k] > 0
    ensures var s' := Upsert(s, k, Written); var kept := Get(s'.stored, k) - Get(s.stored, k);
            && kept <= I32_MAX && (s.flight[k] <= I32_MAX ==> kept == s.flight[k])
            && (s.flight[k] > I32_MAX ==> kept == I32_MAX)
            && Get(s'.lost, k) - Get(s.lost, k) == s.flight[k] - kept
  {
    hide Without, Sum;
    var d := Bound(s.flight[k]);
    assert Get(Add(s.stored, k, d), k) == Get(s.stored, k) + d;
    assert Get(Add(s.lost, k, s.flight[k] - d), k) == Get(s.lost, k) + (s.flight[k] - d);
  }

  lemma {:induction false} NothingLost(trace: seq<State>, steps: seq<Step>, n: nat, k: Key)
    requires Run(trace, steps) && n < |trace| && forall j :: 0 <= j < n ==> !Fails(trace[j], steps[j])
    ensures Get(trace[n].lost, k) == 0
  {
    hide Upsert, Fails, Add, Sum, Without;
    if n > 0 {
      NothingLost(trace, steps, n - 1, k);
      if steps[n - 1].Write? { CleanWrite(trace[n - 1], steps[n - 1], k); }
    }
  }

  /** In a run whose writes all succeed, the report after a flush is the true count. */
  lemma CleanRunIsExact(trace: seq<State>, steps: seq<Step>, i: nat, n: nat, k: Key)
    requires Run(trace, steps) && LastSet(trace, steps, i, n, k) && steps[i].Post?
    requires Get(trace[n].flight, k) == 0 && trace[n].posting.None?
    requires forall j :: 0 <= j < n ==> !Fails(trace[j], steps[j])
    ensures Reported(trace[n], k) == Some(True(trace[0], trace[n], k))
  {
    hide Apply;
    NothingLost(trace, steps, n, k);
    forall j | i < j < n ensures !LosesAnswer(trace[j], steps[j], k) { assert !Fails(trace[j], steps[j]); }
    ExactAfterFlush(trace, steps, i, n, k);
  }

  /** Step `j` queried the table for what the warm-up `w` holds: the table's total then, or zero if it failed. */
  ghost predicate ReadAt(trace: seq<State>, steps: seq<Step>, j: nat, w: Warm)
    requires Run(trace, steps) && j < |steps|
  {
    && steps[j].ReadStored? && w.key == (trace[j].asking[steps[j].index], trace[j].month)
    && w.seconds == (if steps[j].failed then 0 else Get(trace[j].stored, w.key))
  }

  /** Every warm-up holds what the table held when it asked. */
  lemma {:induction false} WarmWasRead(trace: seq<State>, steps: seq<Step>, n: nat, i: nat) returns (j: nat)
    requires Run(trace, steps) && n < |trace| && i < |trace[n].warms|
    ensures j < n && ReadAt(trace, steps, j, trace[n].warms[i])
  {
    hide Upsert, Add, Sum, Without;
    var s, step := trace[n - 1], steps[n - 1];
    if step.ReadStored? && i == |s.warms| {
      j := n - 1;
    } else {
      if step.Write? { UpsertPosts(s, step.key, step.outcome); }
      var before := if step.StoreCached? && i >= step.index then i + 1 else i;
      assert trace[n].warms[i] == s.warms[before];
      j := WarmWasRead(trace, steps, n - 1, before);
    }
  }

  // ----- Runs that end short, and one that ends too high ------------------------------------------

  lemma Extend(trace: seq<State>, steps: seq<Step>, step: Step) returns (longer: seq<State>, more: seq<Step>)
    requires Run(trace, steps) && Enabled(trace[|steps|], step)
    ensures Run(longer, more) && longer[0] == trace[0] && more == steps + [step]
    ensures longer[|more|] == Apply(trace[|steps|], step)
  {
    hide Apply, Initial;
    longer, more := trace + [Apply(trace[|steps|], step)], steps + [step];
  }

  function Begin(month: nat, stored: map<Key, int>): State {
    State(month, stored, map[], map[], map[], None, [], [], map[], map[])
  }

  /** Nothing is under way, nothing was lost, and the report misses a second. */
  ghost predicate Short(s: State, start: State, k: Key) {
    && s.flight == map[] && s.posting.None? && Get(s.lost, k) == 0
    && Reported(s, k).Some? && Reported(s, k).value < True(start, s, k)
  }

  /** One second is drained, with a warm-up that read the table before. */
  lemma DrainHappens(org: string, month: nat) returns (trace: seq<State>, steps: seq<Step>)
    ensures Run(trace, steps) && trace[0] == Begin(month, map[])
    ensures var k := (org, month);
            trace[|steps|] ==
            Begin(month, map[]).(flight := map[k := 1], warms := [Warm(k, 0)], recorded := map[k := 1])
    ensures steps == [FindNothing(org), ReadStored(0, false), Record(org), Drain]
  {
    var k, start := (org, month), Begin(month, map[]);
    trace, steps := [start], [];
    trace, steps := Extend(trace, steps, FindNothing(org));
    assert trace[|steps|] == start.(asking := [org]);
    trace, steps := Extend(trace, steps, ReadStored(0, false));
    assert trace[|steps|] == start.(warms := [Warm(k, 0)]);
    trace, steps := Extend(trace, steps, Record(org));
    assert trace[|steps|] == start.(warms := [Warm(k, 0)], pending := map[k := 1], recorded := map[k := 1]);
    trace, steps := Extend(trace, steps, Drain);
  }

  /** A warm-up stores, after a flush, what it read before it. */
  lemma OldWarmUpHappens(org: string, month: nat) returns (trace: seq<State>, steps: seq<Step>)
    ensures Run(trace, steps) && Short(trace[|steps|], trace[0], (org, month))
    ensures steps == [FindNothing(org), ReadStored(0, false), Record(org), Drain,
                      Write((org, month), Written), Post, StoreCached(0)]
  {
    var k := (org, month);
    trace, steps := DrainHappens(org, month);
    var s := trace[|steps|];
    trace, steps := Extend(trace, steps, Write(k, Written));
    var written := s.(stored := map[k := 1], flight := map[], posting := Some(Warm(k, 1)), lost := map[k := 0]);
    assert trace[|steps|] == written;
    trace, steps := Extend(trace, steps, Post);
    assert trace[|steps|] == written.(cached := map[k := 1], posting := None);
    trace, steps := Extend(trace, steps, StoreCached(0));
    assert trace[|steps|].cached == map[k := 0];
  }

  /** A write goes through but its answer does not come back. */
  lemma LostAnswerHappens(org: string, month: nat) returns (trace: seq<State>, steps: seq<Step>)
    ensures Run(trace, steps) && Short(trace[|steps|], trace[0], (org, month))
    ensures steps == [FindNothing(org), ReadStored(0, false), Record(org), Drain,
                      StoreCached(0), Write((org, month), AnswerLost)]
  {
    var k := (org, month);
    trace, steps := DrainHappens(org, month);
    var s := trace[|steps|];
    trace, steps := Extend(trace, steps, StoreCached(0));
    assert trace[|steps|] == s.(cached := map[k := 0], warms := []);
    trace, steps := Extend(trace, steps, Write(k, AnswerLost));
    assert trace[|steps|].cached == map[k := 0] && Get(trace[|steps|].lost, k) == 0;
  }

  /** A warm-up queries at the end of a month and stores in the next, which then begins with the
      whole of the last one's seconds. */
  lemma MonthEndHappens(org: string, month: nat, seconds: int) returns (trace: seq<State>, steps: seq<Step>)
    requires 0 < seconds <= I32_MAX
    ensures Run(trace, steps) && trace[0] == Begin(month, map[(org, month) := seconds])
    ensures steps == [FindNothing(org), ReadStored(0, false), Turn(month + 1), StoreCached(0)]
    ensures var s, k := trace[|steps|], (org, month + 1);
            Reported(s, k) == Some(seconds) && True(trace[0], s, k) == 0
  {
    var start := Begin(month, map[(org, month) := seconds]);
    trace, steps := [start], [];
    trace, steps := Extend(trace, steps, FindNothing(org));
    assert trace[|steps|] == start.(asking := [org]);
    trace, steps := Extend(trace, steps, ReadStored(0, false));
    var read := start.(warms := [Warm((org, month), seconds)]);
    assert trace[|steps|] == read;
    trace, steps := Extend(trace, steps, Turn(month + 1));
    assert trace[|steps|] == read.(month := month + 1);
    trace, steps := Extend(trace, steps, StoreCached(0));
  }
}
