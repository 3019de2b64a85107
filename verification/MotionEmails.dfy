/** How far apart the immediate emails of a camera are, and exactly what brings them closer. */
module MotionEmails {
  import opened Wrappers
  import opened MotionCooldown

  predicate Spaced(c: int, emails: seq<int>) {
    forall i :: 0 < i < |emails| ==> emails[i - 1] + Window(c) <= emails[i]
  }

  /** A timestamp stands whose window, by the setting, is not over. */
  predicate Standing(c: int, s: State) {
    s.row.Some? && s.row.value.value.Stamp? && s.now < s.row.value.value.time + Window(c)
  }

  /** A claim decides while an anchor stands that it could not read, or by the fallback because it
      could not read the setting, and by that the window is over. */
  predicate Overrides(c: int, s: State, step: Step) {
    && step.Decide? && s.claim.Seen? && Standing(c, s)
    && (s.claim.value.None? || (step.minutes == FALLBACK && s.row.value.value.time + Window(FALLBACK) <= s.now))
  }

  /** Those are exactly the claims that go ahead although an anchor stands. */
  lemma OverridesExactly(c: int, s: State, step: Step)
    requires Inv(c, s) && Enabled(c, s, step) && step.Decide? && Standing(c, s)
    ensures Overrides(c, s, step) <==> Apply(c, s, step).claim.Claimed?
  {
    hide Open, EmailsInv, RowInv, DigestInv;
    OpenExactly(s.row.value.value.time, s.now, step.minutes);
  }

  /** A claim is silenced exactly when it read a timestamp whose window, as it measures it, is not over;
      and the digest of that window counts the event, unless it fell on the anchor's own instant. */
  lemma SilencedExactly(c: int, s: State, step: Step)
    requires c >= 1 && Enabled(c, s, step) && step.Decide?
    ensures Apply(c, s, step).claim.Claimed? || Apply(c, s, step).claim.Idle?
    ensures Apply(c, s, step).claim.Idle? <==>
              s.claim.value.Some? && s.claim.value.value.Stamp? &&
              s.now < s.claim.value.value.time + Window(step.minutes)
    ensures Apply(c, s, step).claim.Idle? ==>
              var a := s.claim.value.value.time; (Counts(Report(a, step.minutes), s.now) <==> a < s.now)
  {
    hide Open;
    if s.claim.value.Some? && s.claim.value.value.Stamp? {
      OpenExactly(s.claim.value.value.time, s.now, step.minutes);
    }
  }

  /** A claim that goes ahead emails, whatever becomes of its writes. */
  lemma {:induction false} DecidedEmails(c: int, trace: seq<State>, steps: seq<Step>, i: nat, j: nat)
    requires Run(c, trace, steps) && i <= j < |trace| && Deciding(trace[i])
    ensures (Deciding(trace[j]) && trace[j].claim.time == trace[i].claim.time) ||
            trace[i].claim.time in trace[j].emails
    decreases j
  {
    hide Apply, Inv;
    if i < j {
      DecidedEmails(c, trace, steps, i, j - 1);
      assert Enabled(c, trace[j - 1], steps[j - 1]) && trace[j - 1 + 1] == Apply(c, trace[j - 1], steps[j - 1]);
      StepEmails(c, trace[j - 1], steps[j - 1]);
    }
  }

  /** A claim that knows of no anchor while there is one failed to read it: rows are only made by
      claims, one at a time. */
  lemma {:induction false} BlindByFailedRead(c: int, trace: seq<State>, steps: seq<Step>, n: nat) returns (j: nat)
    requires Run(c, trace, steps) && Initial(trace[0]) && n < |trace|
    requires trace[n].claim == Seen(None) && trace[n].row.Some?
    ensures j < n && steps[j].ReadFails? && forall i :: j < i <= n ==> trace[i].claim == Seen(None)
  {
    hide Inv, Open;
    assert Enabled(c, trace[n - 1], steps[n - 1]) && trace[n - 1 + 1] == Apply(c, trace[n - 1], steps[n - 1]);
    if steps[n - 1].ReadFails? {
      j := n - 1;
    } else {
      j := BlindByFailedRead(c, trace, steps, n - 1);
    }
  }

  /** An email whose window is not over is left without an anchor: the row that `settings::set`
      found is gone when the update comes, the write fails, or a delete hits a standing anchor. */
  predicate Loses(c: int, s: State, step: Step) {
    || (step.Store? && s.claim.Updating? && s.row.None? && s.now < s.claim.time + Window(c))
    || (step.StoreFails? && Deciding(s) && s.now < s.claim.time + Window(c))
    || (Erases(s, step) && Standing(c, s))
  }

  predicate Harms(c: int, s: State, step: Step) { Overrides(c, s, step) || Loses(c, s, step) }

  // ----- Without harm, emails are spaced --------------------------------------------------

  /** The last email's anchor stands, or its window is over; a decided claim comes after it. */
  predicate Anchored(c: int, s: State) {
    s.emails != [] ==>
      var e := s.emails[|s.emails| - 1];
      && ((s.row.Some? && s.row.value.value == Stamp(e)) || e + Window(c) <= s.now)
      && (Deciding(s) ==> e + Window(c) <= s.claim.time)
  }

  lemma InitialAnchored(c: int, s: State)
    requires c >= 1 && Initial(s)
    ensures Spaced(c, s.emails) && Anchored(c, s)
  {
  }

  /** A step leaves the emails alone, or adds the time of a decided claim. */
  lemma StepEmails(c: int, s: State, step: Step)
    requires Enabled(c, s, step)
    ensures var s' := Apply(c, s, step);
            && (s'.emails == s.emails || (Deciding(s) && s'.claim.Idle? && s'.emails == s.emails + [s.claim.time]))
            && (Deciding(s) && s'.emails == s.emails ==> Deciding(s') && s'.claim.time == s.claim.time)
  {
    hide Open;
  }

  lemma StepKeepsSpaced(c: int, s: State, step: Step)
    requires Enabled(c, s, step) && Spaced(c, s.emails) && Anchored(c, s)
    ensures Spaced(c, Apply(c, s, step).emails)
  {
    hide Apply, Window;
    StepEmails(c, s, step);
  }

  lemma StepKeepsAnchored(c: int, s: State, step: Step)
    requires Inv(c, s) && Enabled(c, s, step) && !Harms(c, s, step) && Anchored(c, s)
    ensures Anchored(c, Apply(c, s, step))
  {
    hide Open, DigestInv, Window, RowInv;
    StepEmails(c, s, step);
    if step.Decide? && Standing(c, s) { OverridesExactly(c, s, step); }
  }

  lemma StepKeepsSpacing(c: int, s: State, step: Step)
    requires Inv(c, s) && Enabled(c, s, step) && !Harms(c, s, step) && Spaced(c, s.emails) && Anchored(c, s)
    ensures var s' := Apply(c, s, step); Spaced(c, s'.emails) && Anchored(c, s')
  {
    hide Apply, Inv, Harms, Spaced, Anchored;
    StepKeepsSpaced(c, s, step);
    StepKeepsAnchored(c, s, step);
  }

  /** In every run without a harmful step, immediate emails are at least the cooldown apart. */
  lemma {:induction false} EmailsAreSpaced(c: int, trace: seq<State>, steps: seq<Step>, n: nat)
    requires c >= 1 && Run(c, trace, steps) && Initial(trace[0]) && n < |trace|
    requires forall i :: 0 <= i < n ==> !Harms(c, trace[i], steps[i])
    ensures Spaced(c, trace[n].emails) && Anchored(c, trace[n])
  {
    hide Apply, Inv, Harms, Spaced, Anchored;
    if n == 0 {
      InitialAnchored(c, trace[0]);
    } else {
      EmailsAreSpaced(c, trace, steps, n - 1);
      RunKeepsInv(c, trace, steps, n - 1);
      StepKeepsSpacing(c, trace[n - 1], steps[n - 1]);
    }
  }

  // ----- Every harm can show ------------------------------------------------------------------

  /** A claim that has decided emails. */
  lemma FinishClaim(c: int, trace: seq<State>, steps: seq<Step>) returns (longer: seq<State>, more: seq<Step>)
    requires Run(c, trace, steps) && Deciding(trace[|steps|])
    ensures Run(c, longer, more) && longer[0] == trace[0] && steps <= more
    ensures var s, s' := trace[|steps|], longer[|more|];
            s'.emails == s.emails + [s.claim.time] && s'.now == s.now && s'.digest == s.digest
  {
    var s := trace[|steps|];
    longer, more := trace, steps;
    if s.claim.Claimed? { longer, more := Extend(c, longer, more, LookUp); }
    if !longer[|more|].claim.Idle? { longer, more := Extend(c, longer, more, Store); }
  }

  /** An idle claim that finds no standing anchor emails at once. */
  lemma ClaimNow(c: int, trace: seq<State>, steps: seq<Step>) returns (longer: seq<State>, more: seq<Step>)
    requires c >= 1 && Run(c, trace, steps) && trace[|steps|].claim.Idle? && !Standing(c, trace[|steps|])
    ensures Run(c, longer, more) && longer[0] == trace[0] && steps <= more
    ensures longer[|more|].emails == trace[|steps|].emails + [trace[|steps|].now]
  {
    var s := trace[|steps|];
    if s.row.Some? && s.row.value.value.Stamp? { OpenExactly(s.row.value.value.time, s.now, c); }
    longer, more := Extend(c, trace, steps, ReadAnchor);
    longer, more := Extend(c, longer, more, Decide(c));
    longer, more := FinishClaim(c, longer, more);
  }

  /** An email inside the window of the one before it. */
  lemma TooSoon(c: int, emails: seq<int>, t: int)
    requires emails != [] && t < emails[|emails| - 1] + Window(c)
    ensures !Spaced(c, emails + [t])
  {
    var all := emails + [t];
    assert all[|emails| - 1] + Window(c) > all[|emails|];
  }

  /** Inside the window of the last email, with no anchor standing, the claim under way or the
      next one emails too soon. */
  lemma SoonAgain(c: int, trace: seq<State>, steps: seq<Step>) returns (longer: seq<State>, more: seq<Step>)
    requires Run(c, trace, steps) && Inv(c, trace[|steps|]) && !Standing(c, trace[|steps|])
    requires var s := trace[|steps|]; s.emails != [] && s.now < s.emails[|s.emails| - 1] + Window(c)
    ensures Run(c, longer, more) && longer[0] == trace[0] && steps <= more && !Spaced(c, longer[|more|].emails)
  {
    hide Spaced, Inv, Open;
    var s := trace[|steps|];
    assert c >= 1 && EmailsInv(s) by { InvParts(c, s); }
    longer, more := trace, steps;
    if s.claim.Seen? { longer, more := Extend(c, longer, more, Decide(c)); }
    var s1 := longer[|more|];
    assert s1.emails == s.emails && s1.now == s.now && s1.row == s.row;
    if Deciding(s1) {
      TooSoon(c, s.emails, s1.claim.time);
      longer, more := FinishClaim(c, longer, more);
    } else {
      TooSoon(c, s.emails, s.now);
      longer, more := ClaimNow(c, longer, more);
    }
  }

  lemma InvParts(c: int, s: State)
    requires Inv(c, s)
    ensures c >= 1 && EmailsInv(s) && RowInv(s)
  {
  }

  /** A standing anchor is that of an email, and the last email is no older. */
  lemma LastIsRecent(c: int, s: State)
    requires Inv(c, s) && Standing(c, s)
    ensures && s.emails != []
            && var e := s.emails[|s.emails| - 1]; s.row.value.value.time <= e <= s.now < e + Window(c)
  {
    var b := s.row.value.value.time;
    var i :| 0 <= i < |s.emails| && s.emails[i] == b;
  }

  /** Every harmful step can be followed to two emails closer than the cooldown. */
  lemma HarmShows(c: int, s: State, step: Step) returns (trace: seq<State>, steps: seq<Step>)
    requires Inv(c, s) && Enabled(c, s, step) && Harms(c, s, step)
    ensures Run(c, trace, steps) && trace[0] == s && steps != [] && steps[0] == step
    ensures !Spaced(c, trace[|steps|].emails)
  {
    hide Open, Spaced, ClaimInv, DigestInv;
    trace, steps := Extend(c, [s], [], step);
    StepKeepsInv(c, s, step);
    hide Inv, Run;
    var s1 := trace[|steps|];
    if Overrides(c, s, step) {
      OverridesExactly(c, s, step);
      LastIsRecent(c, s);
      TooSoon(c, s.emails, s.now);
      trace, steps := FinishClaim(c, trace, steps);
    } else if step.StoreFails? && Standing(c, s) {
      LastIsRecent(c, s);
      TooSoon(c, s.emails, s.claim.time);
    } else {
      if Erases(s, step) { LastIsRecent(c, s); }
      trace, steps := SoonAgain(c, trace, steps);
    }
  }

  // ----- Two schedules that get there --------------------------------------------------------

  /** An anchor set at zero, with its window just over, or still standing. */
  function Fresh(now: int): State { State(now, Some(Row(0, Stamp(0))), 1, Idle, Resting, [0], []) }

  /** A tick judges the expired anchor, a claim looks it up, and the tick deletes it. */
  lemma DeletedInBetween(c: int) returns (trace: seq<State>, steps: seq<Step>)
    requires c >= 1
    ensures Run(c, trace, steps) && trace[0] == Fresh(Window(c))
    ensures trace[|steps|] == Fresh(Window(c)).(row := None, claim := Updating(Window(c), 0))
    ensures steps == [BeginTick, FetchAnchors, Judge(c, false), ReadAnchor, Decide(c), LookUp, Close]
  {
    hide Open, Inv;
    var w := Window(c);
    OpenExactly(0, w, c);
    InitialInv(c, Fresh(w));
    trace, steps := [Fresh(w)], [];
    trace, steps := Extend(c, trace, steps, BeginTick);
    assert trace[|steps|] == Fresh(w).(digest := Started(w));
    trace, steps := Extend(c, trace, steps, FetchAnchors);
    assert trace[|steps|] == Fresh(w).(digest := Holding(w, 0, Stamp(0)));
    trace, steps := Extend(c, trace, steps, Judge(c, false));
    var judged := Fresh(w).(digest := Closing(0, 0, c, false));
    assert trace[|steps|] == judged;
    trace, steps := Extend(c, trace, steps, ReadAnchor);
    assert trace[|steps|] == judged.(claim := Seen(Some(Stamp(0))));
    trace, steps := Extend(c, trace, steps, Decide(c));
    assert trace[|steps|] == judged.(claim := Claimed(w));
    trace, steps := Extend(c, trace, steps, LookUp);
    assert trace[|steps|] == judged.(claim := Updating(w, 0));
    trace, steps := Extend(c, trace, steps, Close);
  }

  /** The digest's delete falls between the lookup and the update of a claim that found the
      same expired anchor. No statement fails on the way there. */
  lemma LossHappens(c: int) returns (trace: seq<State>, steps: seq<Step>)
    requires c >= 1
    ensures Run(c, trace, steps) && Initial(trace[0]) && !Spaced(c, trace[|steps|].emails)
    ensures [BeginTick, FetchAnchors, Judge(c, false), ReadAnchor, Decide(c), LookUp, Close, Store] <= steps
  {
    hide Open, Spaced;
    trace, steps := DeletedInBetween(c);
    RunKeepsInv(c, trace, steps, |steps|);
    hide Inv;
    assert Loses(c, trace[|steps|], Store);
    var rest, others := HarmShows(c, trace[|steps|], Store);
    trace, steps := Join(c, trace, steps, rest, others);
  }

  /** A claim cannot read the anchor that stands. */
  lemma FailedReadHappens(c: int) returns (trace: seq<State>, steps: seq<Step>)
    requires c >= 1
    ensures Run(c, trace, steps) && Initial(trace[0]) && ReadFails in steps && !Spaced(c, trace[|steps|].emails)
  {
    InitialInv(c, Fresh(0));
    trace, steps := [Fresh(0)], [];
    trace, steps := Extend(c, trace, steps, ReadFails);
    RunKeepsInv(c, trace, steps, |steps|);
    assert Overrides(c, trace[|steps|], Decide(c));
    var rest, others := HarmShows(c, trace[|steps|], Decide(c));
    trace, steps := Join(c, trace, steps, rest, others);
  }
}
