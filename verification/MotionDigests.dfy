/** How often a motion event is counted, exactly what makes a digest count one again, and what
    remains of all faults when no read fails. */
module MotionDigests {
  import opened Wrappers
  import opened MotionCooldown
  import opened MotionEmails

  /** A tick reports a window into which a newer anchor has already been set or claimed. */
  predicate Overlaps(c: int, s: State, step: Step) {
    && step.Judge? && step.emit && Enabled(c, s, step)
    && s.digest.value.Stamp? && !Open(s.digest.value.time, s.digest.at, step.minutes)
    && var r := Report(s.digest.value.time, step.minutes);
       || (s.row.Some? && s.row.value.value.Stamp? && r.anchor != s.row.value.value.time < End(r))
       || (Deciding(s) && s.claim.time < End(r))
  }

  /** A tick ends between its report and its delete, and the anchor it reported is still there. */
  predicate Interrupted(s: State, step: Step) {
    step.TickFails? && s.digest.Closing? && s.digest.emitted
    && s.row.Some? && s.row.value.value == Stamp(s.digest.anchor)
  }

  predicate Repeats(c: int, s: State, step: Step) { Overlaps(c, s, step) || Interrupted(s, step) }

  // ----- Without that, windows do not meet -----------------------------------------------------

  /** A reported window is over, and nothing newer begins before its end. */
  predicate Settled(s: State, r: Report) {
    && End(r) <= s.now
    && (Deciding(s) ==> End(r) <= s.claim.time)
    && (s.digest.Holding? && s.digest.value.Stamp? ==> End(r) <= s.digest.value.time)
    && (s.row.Some? && s.row.value.value.Stamp? ==>
          || End(r) <= s.row.value.value.time
          || (s.digest.Closing? && s.digest.emitted && r.anchor == s.digest.anchor == s.row.value.value.time))
  }

  predicate Apart(s: State) {
    && (forall i :: 0 <= i < |s.digests| ==> Settled(s, s.digests[i]))
    && (forall i, j :: 0 <= i < j < |s.digests| ==> End(s.digests[i]) <= s.digests[j].anchor)
  }

  lemma OldReportStays(c: int, s: State, step: Step, r: Report)
    requires Inv(c, s) && Enabled(c, s, step) && !Repeats(c, s, step) && Settled(s, r)
    ensures Settled(Apply(c, s, step), r)
  {
    hide Open, Window, EmailsInv, RowInv, Readable;
  }

  /** The row a tick holds is no newer than a decided claim. */
  lemma HeldBeforeClaim(c: int, s: State)
    requires Inv(c, s) && s.digest.Holding? && s.digest.value.Stamp? && Deciding(s)
    ensures s.digest.value.time <= s.claim.time
  {
    if s.row.value.value.Stamp? { assert s.row.value.value.time in s.emails; }
  }

  lemma NewReportSettles(c: int, s: State, step: Step)
    requires Inv(c, s) && Enabled(c, s, step) && !Repeats(c, s, step)
    requires step.Judge? && step.emit && s.digest.value.Stamp? && !Open(s.digest.value.time, s.digest.at, step.minutes)
    ensures Settled(Apply(c, s, step), Report(s.digest.value.time, step.minutes))
  {
    hide Open, EmailsInv, RowInv;
    OpenExactly(s.digest.value.time, s.digest.at, step.minutes);
    if Deciding(s) { HeldBeforeClaim(c, s); }
  }

  lemma SettledBeforeHeld(s: State, r: Report)
    requires Settled(s, r) && s.digest.Holding? && s.digest.value.Stamp?
    ensures End(r) <= s.digest.value.time
  {
  }

  lemma StepKeepsApart(c: int, s: State, step: Step)
    requires Inv(c, s) && Enabled(c, s, step) && !Repeats(c, s, step) && Apart(s)
    ensures Apart(Apply(c, s, step))
  {
    hide Open, Window, Settled, Inv, Repeats, End;
    var s' := Apply(c, s, step);
    forall i | 0 <= i < |s'.digests| ensures Settled(s', s'.digests[i]) {
      if i < |s.digests| { OldReportStays(c, s, step, s.digests[i]); } else { NewReportSettles(c, s, step); }
    }
    forall i, j | 0 <= i < j < |s'.digests| ensures End(s'.digests[i]) <= s'.digests[j].anchor {
      if j == |s.digests| { SettledBeforeHeld(s, s.digests[i]); }
    }
  }

  lemma {:induction false} RunKeepsApart(c: int, trace: seq<State>, steps: seq<Step>, n: nat)
    requires Run(c, trace, steps) && Initial(trace[0]) && n < |trace|
    requires forall i :: 0 <= i < n ==> !Repeats(c, trace[i], steps[i])
    ensures Apart(trace[n])
  {
    hide Apply, Inv, Repeats, Settled;
    if n > 0 {
      RunKeepsApart(c, trace, steps, n - 1);
      RunKeepsInv(c, trace, steps, n - 1);
      StepKeepsApart(c, trace[n - 1], steps[n - 1]);
    }
  }

  /** In every run without such a step, at most one digest counts an event. */
  lemma EventCountedOnce(c: int, trace: seq<State>, steps: seq<Step>, n: nat, i: nat, j: nat, event: int)
    requires Run(c, trace, steps) && Initial(trace[0]) && n < |trace|
    requires forall k :: 0 <= k < n ==> !Repeats(c, trace[k], steps[k])
    requires i < |trace[n].digests| && j < |trace[n].digests|
    requires Counts(trace[n].digests[i], event) && Counts(trace[n].digests[j], event)
    ensures i == j
  {
    hide Settled, Repeats, Inv;
    RunKeepsApart(c, trace, steps, n);
  }

  // ----- Every such step can show -------------------------------------------------------------

  /** Some event is counted by two digests. */
  ghost predicate CountedTwice(s: State) {
    exists i, j, event :: 0 <= i < j < |s.digests| && Counts(s.digests[i], event) && Counts(s.digests[j], event)
  }

  lemma Twice(s: State, i: nat, j: nat, event: int)
    requires i < j < |s.digests| && Counts(s.digests[i], event) && Counts(s.digests[j], event)
    ensures CountedTwice(s)
  {
  }

  /** A whole tick that finds the window over and reports it. */
  lemma TickReports(c: int, trace: seq<State>, steps: seq<Step>, minutes: int)
      returns (longer: seq<State>, more: seq<Step>)
    requires Run(c, trace, steps) && Readable(c, minutes) && c >= 1
    requires var s := trace[|steps|];
             && s.digest.Resting? && s.row.Some? && s.row.value.value.Stamp?
             && s.row.value.value.time + Window(minutes) <= s.now
    ensures Run(c, longer, more) && longer[0] == trace[0] && steps <= more
    ensures longer[|more|].digests == trace[|steps|].digests + [Report(trace[|steps|].row.value.value.time, minutes)]
  {
    hide Open, Inv;
    var s := trace[|steps|];
    OpenExactly(s.row.value.value.time, s.now, minutes);
    longer, more := Extend(c, trace, steps, BeginTick);
    longer, more := Extend(c, longer, more, FetchAnchors);
    longer, more := Extend(c, longer, more, Judge(minutes, true));
  }

  lemma InterruptedShows(c: int, s: State) returns (trace: seq<State>, steps: seq<Step>)
    requires Inv(c, s) && Interrupted(s, TickFails)
    ensures Run(c, trace, steps) && trace[0] == s && steps != [] && steps[0] == TickFails
    ensures CountedTwice(trace[|steps|])
  {
    hide CountedTwice;
    var minutes := s.digest.minutes;
    trace, steps := Extend(c, [s], [], TickFails);
    trace, steps := TickReports(c, trace, steps, minutes);
    Twice(trace[|steps|], |s.digests| - 1, |s.digests|, s.digest.anchor + 1);
  }

  /** Once a newer anchor stands in a window already reported, its own report overlaps it. */
  lemma NewerReports(c: int, trace: seq<State>, steps: seq<Step>, k: nat) returns (longer: seq<State>, more: seq<Step>)
    requires Run(c, trace, steps) && c >= 1
    requires var s := trace[|steps|];
             && k < |s.digests| && s.digest.Resting? && s.row.Some? && s.row.value.value.Stamp?
             && s.digests[k].anchor <= s.row.value.value.time < End(s.digests[k]) && s.row.value.value.time <= s.now
    ensures Run(c, longer, more) && longer[0] == trace[0] && steps <= more && CountedTwice(longer[|more|])
  {
    hide CountedTwice, Inv;
    var s := trace[|steps|];
    longer, more := Extend(c, trace, steps, Wait(Window(c)));
    longer, more := TickReports(c, longer, more, c);
    Twice(longer[|more|], k, |s.digests|, s.row.value.value.time + 1);
  }

  /** The reported anchor has been replaced: the delete misses and the newer one stays. */
  lemma ReplacedShows(c: int, trace: seq<State>, steps: seq<Step>, k: nat) returns (longer: seq<State>, more: seq<Step>)
    requires Run(c, trace, steps) && c >= 1
    requires var s := trace[|steps|];
             && k < |s.digests| && s.digest.Closing? && s.row.Some? && s.row.value.value.Stamp?
             && s.digests[k].anchor == s.digest.anchor < s.row.value.value.time < End(s.digests[k])
             && s.row.value.value.time <= s.now
    ensures Run(c, longer, more) && longer[0] == trace[0] && steps <= more && CountedTwice(longer[|more|])
  {
    hide CountedTwice, Inv, Window;
    longer, more := Extend(c, trace, steps, Close);
    longer, more := NewerReports(c, longer, more, k);
  }

  /** A claim decided before the report stores its anchor after it. */
  lemma ClaimShows(c: int, trace: seq<State>, steps: seq<Step>, k: nat) returns (longer: seq<State>, more: seq<Step>)
    requires Run(c, trace, steps) && c >= 1
    requires var s := trace[|steps|];
             && k < |s.digests| && s.digest.Closing? && Deciding(s) && ClaimInv(s) && s.claim.time <= s.now
             && s.row == Some(Row(s.digest.id, Stamp(s.digest.anchor)))
             && s.digests[k].anchor == s.digest.anchor <= s.claim.time < End(s.digests[k])
    ensures Run(c, longer, more) && longer[0] == trace[0] && steps <= more && CountedTwice(longer[|more|])
  {
    hide CountedTwice, Inv, Window;
    var s := trace[|steps|];
    if s.claim.time == s.digest.anchor {
      longer, more := Extend(c, trace, steps, Close);
      longer, more := Extend(c, longer, more, LookUp);
      longer, more := Extend(c, longer, more, Store);
      longer, more := NewerReports(c, longer, more, k);
    } else {
      longer, more := trace, steps;
      if s.claim.Claimed? { longer, more := Extend(c, longer, more, LookUp); }
      longer, more := Extend(c, longer, more, Store);
      longer, more := ReplacedShows(c, longer, more, k);
    }
  }

  lemma OverlapShows(c: int, s: State, step: Step) returns (trace: seq<State>, steps: seq<Step>)
    requires Inv(c, s) && Enabled(c, s, step) && Overlaps(c, s, step)
    ensures Run(c, trace, steps) && trace[0] == s && steps != [] && steps[0] == step
    ensures CountedTwice(trace[|steps|])
  {
    hide CountedTwice, Window, Open;
    trace, steps := Extend(c, [s], [], step);
    assert s.row.value.value.time in s.emails;
    if s.row.value.value.time != s.digest.value.time {
      trace, steps := ReplacedShows(c, trace, steps, |s.digests|);
    } else {
      HeldBeforeClaim(c, s);
      trace, steps := ClaimShows(c, trace, steps, |s.digests|);
    }
  }

  /** Every such step can be followed to an event that two digests count. */
  lemma RepeatShows(c: int, s: State, step: Step) returns (trace: seq<State>, steps: seq<Step>)
    requires Inv(c, s) && Enabled(c, s, step) && Repeats(c, s, step)
    ensures Run(c, trace, steps) && trace[0] == s && steps != [] && steps[0] == step
    ensures CountedTwice(trace[|steps|])
  {
    hide Inv, CountedTwice, Overlaps;
    if Overlaps(c, s, step) {
      trace, steps := OverlapShows(c, s, step);
    } else {
      trace, steps := InterruptedShows(c, s);
    }
  }

  /** A delete that fails after the report went out leaves the anchor to the next tick. */
  lemma FailedDeleteHappens(c: int) returns (trace: seq<State>, steps: seq<Step>)
    requires c >= 1
    ensures Run(c, trace, steps) && Initial(trace[0]) && CountedTwice(trace[|steps|])
    ensures [BeginTick, FetchAnchors, Judge(c, true), TickFails] <= steps
  {
    hide CountedTwice, Open;
    var w := Window(c);
    OpenExactly(0, w, c);
    InitialInv(c, Fresh(w));
    trace, steps := [Fresh(w)], [];
    trace, steps := Extend(c, trace, steps, BeginTick);
    trace, steps := Extend(c, trace, steps, FetchAnchors);
    trace, steps := Extend(c, trace, steps, Judge(c, true));
    RunKeepsInv(c, trace, steps, |steps|);
    var rest, others := InterruptedShows(c, trace[|steps|]);
    trace, steps := Join(c, trace, steps, rest, others);
  }

  // ----- When no read fails ---------------------------------------------------------------------

  predicate ReadsSucceed(c: int, step: Step) {
    && !step.ReadFails?
    && (step.Decide? ==> step.minutes == c) && (step.Judge? ==> step.minutes == c)
  }

  /** A claim knows the anchor it may overwrite and comes after its window; a tick that holds an
      anchor finds it as it was, or re-armed after its window. */
  predicate WellRead(c: int, s: State) {
    && (s.claim.Seen? && s.row.Some? ==> s.claim.value == Some(s.row.value.value))
    && (Deciding(s) && s.row.Some? && s.row.value.value.Stamp? ==>
          s.row.value.value.time + Window(c) <= s.claim.time)
    && (s.digest.Holding? && s.digest.value.Stamp? ==> AsHeld(c, s, s.digest.value.time))
    && (s.digest.Closing? ==> s.digest.minutes == c)
  }

  predicate AsHeld(c: int, s: State, a: int) {
    s.row.Some? && s.row.value.value.Stamp? ==>
      s.row.value.value.time == a || a + Window(c) <= s.row.value.value.time
  }

  lemma StepKeepsWellRead(c: int, s: State, step: Step)
    requires Inv(c, s) && Enabled(c, s, step) && ReadsSucceed(c, step) && WellRead(c, s)
    ensures WellRead(c, Apply(c, s, step))
  {
    hide Open, EmailsInv, RowInv;
    if step.Decide? && s.claim.value.Some? && s.claim.value.value.Stamp? {
      OpenExactly(s.claim.value.value.time, s.now, c);
    }
  }

  lemma {:induction false} RunKeepsWellRead(c: int, trace: seq<State>, steps: seq<Step>, n: nat)
    requires Run(c, trace, steps) && Initial(trace[0]) && n < |trace|
    requires forall i :: 0 <= i < n ==> ReadsSucceed(c, steps[i])
    ensures Inv(c, trace[n]) && WellRead(c, trace[n])
  {
    hide Apply, Inv;
    RunKeepsInv(c, trace, steps, n);
    if n > 0 {
      RunKeepsWellRead(c, trace, steps, n - 1);
      StepKeepsWellRead(c, trace[n - 1], steps[n - 1]);
    } else {
      InitialWellRead(c, trace[0]);
    }
  }

  lemma InitialWellRead(c: int, s: State)
    requires Initial(s)
    ensures WellRead(c, s)
  {
  }

  /** While no read fails, the only harm left to emails is a failed write, a row gone before its
      update, or the drop of an unreadable value that was re-armed; and the only cause of a
      repeated count is a tick that ended between its report and its delete. */
  lemma FaultsWithoutFailedReads(c: int, trace: seq<State>, steps: seq<Step>, n: nat)
    requires Run(c, trace, steps) && Initial(trace[0]) && n < |steps|
    requires forall i :: 0 <= i <= n ==> ReadsSucceed(c, steps[i])
    ensures Harms(c, trace[n], steps[n]) ==> steps[n].Store? || steps[n].StoreFails? || steps[n].Drop?
    ensures Repeats(c, trace[n], steps[n]) ==> Interrupted(trace[n], steps[n])
  {
    hide Open, EmailsInv, RowInv;
    var s, step := trace[n], steps[n];
    RunKeepsWellRead(c, trace, steps, n);
    if step.Decide? && s.claim.value.Some? && s.claim.value.value.Stamp? {
      OpenExactly(s.claim.value.value.time, s.now, c);
    }
    if step.Judge? && s.digest.value.Stamp? {
      OpenExactly(s.digest.value.time, s.digest.at, c);
    }
  }
}
