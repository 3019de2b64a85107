/**
 * The motion email cooldown of one camera: the immediate-email path
 * (`claim_motion_cooldown_or_silence`, backend-rs/src/notifications.rs) and the
 * digest loop (`run_motion_digest`, backend-rs/src/loops.rs) share one anchor row.
 * Every statement on the anchor row is a step of its own and may fail, so the two actors
 * interleave between any two of them. Reading the cooldown goes with the step that uses it,
 * and so do the digest's count, preference and name lookups and its report: none of them
 * touches what the other actor reads or writes, so they could as well happen at that moment.
 * Times are in microseconds, cooldowns in minutes.
 */
module MotionCooldown {
  import opened Wrappers
  import PyInt
  import PyIntTheorems

  // ----- The window ---------------------------------------------------------------

  /** `TimeDelta::num_seconds`: whole seconds, toward zero. */
  function NumSeconds(us: int): int { if us >= 0 then us / 1_000_000 else -((-us) / 1_000_000) }

  /** The comparison both actors make, for a cooldown of `c` minutes. */
  predicate Open(anchor: int, now: int, c: int) { NumSeconds(now - anchor) < c * 60 }

  function Window(c: int): int { c * 60_000_000 }

  /** Rounding to seconds does not move the end of a window. */
  lemma OpenExactly(anchor: int, now: int, c: int)
    requires c >= 1
    ensures Open(anchor, now, c) <==> now < anchor + Window(c)
  {
    var us := now - anchor;
    if us >= 0 {
      assert us / 1_000_000 < c * 60 <==> us < c * 60 * 1_000_000;
    }
  }

  /** What a missing or unreadable setting stands for. */
  const FALLBACK := 15

  /** `parse_cooldown_minutes`. */
  function CooldownMinutes(raw: string): (c: int)
    ensures c >= 1
  {
    match PyInt.PythonValue(raw)
    case Some(Small(minutes)) => if minutes > 1 then minutes else 1
    case Some(Big(negative)) => if negative then 1 else PyInt.I64_MAX
    case None => FALLBACK
  }

  /** The cooldown is the integer the setting denotes, brought into range. */
  lemma CooldownIsTheSetting(raw: string)
    ensures PyInt.PythonValue(raw).None? ==> CooldownMinutes(raw) == FALLBACK
    ensures PyInt.PythonValue(raw).Some? ==>
              && PyInt.Denoted(raw).Some?
              && var n := PyInt.Denoted(raw).value;
                 CooldownMinutes(raw) == if n < 1 then 1 else if n > PyInt.I64_MAX then PyInt.I64_MAX else n
  {
    hide PyInt.Denoted, PyInt.PythonValue;
    if PyInt.PythonValue(raw).Some? { PyIntTheorems.PythonIsDenotation(raw); }
  }

  // ----- The state ------------------------------------------------------------------

  /** A stored value: a timestamp this program wrote, or one it cannot read. */
  datatype Value = Stamp(time: int) | Corrupt

  datatype Row = Row(id: nat, value: Value)

  /** Where a claim stands. `settings::set` looks the row up, then updates it by id or inserts. */
  datatype Claim =
    | Idle
    | Seen(value: Option<Value>)
    | Claimed(time: int)
    | Updating(time: int, id: nat)
    | Inserting(time: int)

  /** Where the digest tick that began at `at` stands. */
  datatype Digest =
    | Resting
    | Started(at: int)
    | Holding(at: int, id: nat, value: Value)
    | Dropping(id: nat)
    | Closing(id: nat, anchor: int, minutes: int, emitted: bool)

  /** A digest that went out: it counts the events after the anchor, to the end of the window. */
  datatype Report = Report(anchor: int, minutes: int)

  function End(r: Report): int { r.anchor + Window(r.minutes) }

  predicate Counts(r: Report, event: int) { r.anchor < event <= End(r) }

  /** `emails` are the times of the claims that emailed; `digests` the reports that went out. */
  datatype State = State(
    now: int, row: Option<Row>, nextId: nat, claim: Claim, digest: Digest, emails: seq<int>, digests: seq<Report>)

  datatype Step =
    | Wait(us: nat)
    | ReadAnchor
    | ReadFails
    | Decide(minutes: int)
    | LookUp
    | Store
    | StoreFails
    | BeginTick
    | FetchAnchors
    | Judge(minutes: int, emit: bool)
    | Drop
    | Close
    | TickFails

  predicate Deciding(s: State) { s.claim.Claimed? || s.claim.Updating? || s.claim.Inserting? }

  /** The cooldown a step works with: the setting, or the fallback if reading it fails. */
  predicate Readable(c: int, minutes: int) { minutes == c || minutes == FALLBACK }

  predicate Enabled(c: int, s: State, step: Step) {
    match step
    case Wait(_) => true
    case ReadAnchor => s.claim.Idle?
    case ReadFails => s.claim.Idle?
    case Decide(minutes) => s.claim.Seen? && Readable(c, minutes)
    case LookUp => s.claim.Claimed?
    case Store => s.claim.Updating? || s.claim.Inserting?
    case StoreFails => Deciding(s)
    case BeginTick => s.digest.Resting?
    case FetchAnchors => s.digest.Started?
    case Judge(minutes, _) => s.digest.Holding? && Readable(c, minutes)
    case Drop => s.digest.Dropping?
    case Close => s.digest.Closing?
    case TickFails => !s.digest.Resting?
  }

  /** A failed read counts as no anchor; a failed write still emails; a failed statement ends a tick. */
  function Apply(c: int, s: State, step: Step): State
    requires Enabled(c, s, step)
  {
    match step
    case Wait(us) => s.(now := s.now + us)
    case ReadAnchor => s.(claim := Seen(if s.row.Some? then Some(s.row.value.value) else None))
    case ReadFails => s.(claim := Seen(None))
    case Decide(minutes) =>
      var v := s.claim.value;
      if v.Some? && v.value.Stamp? && Open(v.value.time, s.now, minutes) then s.(claim := Idle)
      else s.(claim := Claimed(s.now))
    case LookUp =>
      var t := s.claim.time;
      if s.row.None? then s.(claim := Inserting(t))
      else if s.row.value.value == Stamp(t) then s.(claim := Idle, emails := s.emails + [t])
      else s.(claim := Updating(t, s.row.value.id))
    case Store =>
      var t := s.claim.time;
      var done := s.(claim := Idle, emails := s.emails + [t]);
      if s.claim.Inserting? then done.(row := Some(Row(s.nextId, Stamp(t))), nextId := s.nextId + 1)
      else if s.row.Some? && s.row.value.id == s.claim.id then done.(row := Some(Row(s.claim.id, Stamp(t))))
      else done
    case StoreFails => s.(claim := Idle, emails := s.emails + [s.claim.time])
    case BeginTick => s.(digest := Started(s.now))
    case FetchAnchors =>
      s.(digest := if s.row.None? then Resting else Holding(s.digest.at, s.row.value.id, s.row.value.value))
    case Judge(minutes, emit) =>
      if s.digest.value.Corrupt? then s.(digest := Dropping(s.digest.id))
      else
        var a := s.digest.value.time;
        if Open(a, s.digest.at, minutes) then s.(digest := Resting)
        else s.(digest := Closing(s.digest.id, a, minutes, emit),
                digests := if emit then s.digests + [Report(a, minutes)] else s.digests)
    case Drop => s.(row := if Erases(s, Drop) then None else s.row, digest := Resting)
    case Close => s.(row := if Erases(s, Close) then None else s.row, digest := Resting)
    case TickFails => s.(digest := Resting)
  }

  /** Whether a delete hits: by id alone, or by id and value. */
  predicate Erases(s: State, step: Step) {
    && s.row.Some?
    && ((step.Drop? && s.digest.Dropping? && s.row.value.id == s.digest.id)
        || (step.Close? && s.digest.Closing? && s.row.value == Row(s.digest.id, Stamp(s.digest.anchor))))
  }

  /** States `trace[0]`, `trace[1]`, ... each reached from the one before by its step. */
  ghost predicate Run(c: int, trace: seq<State>, steps: seq<Step>) {
    && |trace| == |steps| + 1 && Inv(c, trace[0])
    && forall i :: 0 <= i < |steps| ==> Enabled(c, trace[i], steps[i]) && trace[i + 1] == Apply(c, trace[i], steps[i])
  }

  /** Nobody at work. A standing timestamp is that of the last email; a person may have left
      anything else in the row. */
  predicate Initial(s: State) {
    && s.claim.Idle? && s.digest.Resting? && s.digests == []
    && (s.row.Some? ==> s.row.value.id < s.nextId)
    && (if s.row.Some? && s.row.value.value.Stamp? then
          s.emails == [s.row.value.value.time] && s.row.value.value.time <= s.now
        else s.emails == [])
  }

  // ----- What every step keeps -----------------------------------------------------------

  predicate EmailsInv(s: State) {
    && (forall i, j :: 0 <= i < j < |s.emails| ==> s.emails[i] <= s.emails[j])
    && (forall i :: 0 <= i < |s.emails| ==> s.emails[i] <= s.now)
    && (Deciding(s) ==> s.claim.time <= s.now && forall i :: 0 <= i < |s.emails| ==> s.emails[i] <= s.claim.time)
  }

  predicate RowInv(s: State) {
    s.row.Some? ==> s.row.value.id < s.nextId && (s.row.value.value.Stamp? ==> s.row.value.value.time in s.emails)
  }

  /** Claims are serial, so only the digest comes between a claim's statements. */
  predicate ClaimInv(s: State) {
    match s.claim
    case Seen(v) => v.Some? && s.row.Some? ==> v.value == s.row.value.value
    case Updating(t, id) => id < s.nextId && (s.row.Some? ==> s.row.value.id == id && s.row.value.value != Stamp(t))
    case Inserting(_) => s.row.None?
    case _ => true
  }

  /** The row a tick holds is still there: as it was, or re-armed since. */
  predicate DigestInv(c: int, s: State) {
    match s.digest
    case Resting => true
    case Started(at) => at <= s.now
    case Holding(at, id, v) => at <= s.now && Held(s, id, v)
    case Dropping(id) => Held(s, id, Corrupt)
    case Closing(id, a, minutes, emitted) =>
      && Held(s, id, Stamp(a)) && a + Window(minutes) <= s.now && Readable(c, minutes)
      && (emitted ==> s.digests != [] && s.digests[|s.digests| - 1] == Report(a, minutes))
  }

  predicate Held(s: State, id: nat, v: Value) {
    && s.row.Some? && s.row.value.id == id
    && (s.row.value.value == v || (s.row.value.value.Stamp? && (v.Stamp? ==> v.time <= s.row.value.value.time)))
  }

  ghost predicate Inv(c: int, s: State) {
    c >= 1 && EmailsInv(s) && RowInv(s) && ClaimInv(s) && DigestInv(c, s)
  }

  lemma InitialInv(c: int, s: State)
    requires c >= 1 && Initial(s)
    ensures Inv(c, s)
  {
  }

  lemma StepKeepsRows(c: int, s: State, step: Step)
    requires Inv(c, s) && Enabled(c, s, step)
    ensures var s' := Apply(c, s, step); EmailsInv(s') && RowInv(s') && ClaimInv(s')
  {
    hide Window, Open, DigestInv;
  }

  lemma StepKeepsDigest(c: int, s: State, step: Step)
    requires Inv(c, s) && Enabled(c, s, step)
    ensures DigestInv(c, Apply(c, s, step))
  {
    hide Open;
    if step.Judge? && s.digest.value.Stamp? {
      OpenExactly(s.digest.value.time, s.digest.at, step.minutes);
    }
    if step.Store? && s.row.Some? && s.row.value.value.Stamp? {
      assert s.row.value.value.time <= s.claim.time;
    }
  }

  lemma StepKeepsInv(c: int, s: State, step: Step)
    requires Inv(c, s) && Enabled(c, s, step)
    ensures Inv(c, Apply(c, s, step))
  {
    hide Apply, RowInv, ClaimInv, DigestInv, EmailsInv;
    StepKeepsRows(c, s, step);
    StepKeepsDigest(c, s, step);
  }

  lemma {:induction false} RunKeepsInv(c: int, trace: seq<State>, steps: seq<Step>, n: nat)
    requires Run(c, trace, steps) && n < |trace|
    ensures Inv(c, trace[n])
  {
    hide Apply, Inv;
    if n > 0 {
      RunKeepsInv(c, trace, steps, n - 1);
      StepKeepsInv(c, trace[n - 1], steps[n - 1]);
    }
  }

  /** A step erases a timestamp only when the window the tick worked with is over, or when the
      tick had read a value it could not parse, in which case it deletes by id alone. */
  lemma ErasedAnchorIsOver(c: int, s: State, step: Step)
    requires Inv(c, s) && Enabled(c, s, step)
    requires s.row.Some? && s.row.value.value.Stamp? && Apply(c, s, step).row.None?
    ensures step.Close? || step.Drop?
    ensures step.Close? ==> s.row.value.value.time + Window(s.digest.minutes) <= s.now
  {
  }

  // ----- Building runs -----------------------------------------------------------------------

  /** One more step. */
  lemma Extend(c: int, trace: seq<State>, steps: seq<Step>, step: Step) returns (longer: seq<State>, more: seq<Step>)
    requires Run(c, trace, steps) && Enabled(c, trace[|steps|], step)
    ensures Run(c, longer, more) && more == steps + [step] && longer[0] == trace[0]
    ensures longer[|more|] == Apply(c, trace[|steps|], step)
  {
    hide Apply, Inv;
    longer, more := trace + [Apply(c, trace[|steps|], step)], steps + [step];
  }

  /** Runs can be joined. */
  lemma Join(c: int, trace: seq<State>, steps: seq<Step>, rest: seq<State>, others: seq<Step>)
      returns (longer: seq<State>, more: seq<Step>)
    requires Run(c, trace, steps) && Run(c, rest, others) && trace[|steps|] == rest[0]
    ensures Run(c, longer, more) && longer[0] == trace[0] && longer[|more|] == rest[|others|] && more == steps + others
  {
    hide Apply, Inv;
    longer, more := trace[..|steps|] + rest, steps + others;
    forall i | 0 <= i < |more| ensures Enabled(c, longer[i], more[i]) && longer[i + 1] == Apply(c, longer[i], more[i]) {
      if i >= |steps| {
        var j := i - |steps|;
        assert longer[i] == rest[j] && more[i] == others[j] && longer[i + 1] == rest[j + 1];
      }
    }
  }
}
