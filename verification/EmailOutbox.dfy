/**
 * The email outbox (backend-rs/src/email_worker.rs) as a machine of atomic
 * steps: each database statement is one, and so are a request reaching the
 * provider, its answer coming back, and the worker dying.
 */
module EmailOutbox {
  import opened Wrappers
  import Decimal

  const SENDING_RECLAIM_AGE_SECONDS := 60

  datatype Status = Pending | Sending | Sent | Failed | Suppressed

  predicate Terminal(s: Status) { s == Sent || s == Failed || s == Suppressed }

  /** `confirmed` says that the provider's message id was stored. */
  datatype Row = Row(status: Status, attempts: nat, lastAttemptAt: Option<int>, createdAt: Option<int>, confirmed: bool)

  /** What processing a row came to, before anything is persisted. */
  datatype Outcome = OutSent | OutSkipped | OutFailed | OutSuppressed

  datatype LogEntry = LogEntry(id: nat, status: Status)

  /** A row as the batch query read it. */
  datatype Job = Job(id: nat, attempts: nat)

  /** How far the worker is with the row at the head of its batch. */
  datatype Stage = ToProcess | Requested | Decided(outcome: Outcome) | Finalized(outcome: Outcome, next: Status)

  datatype Worker =
    | Idle
    | Reclaimed
    | Selected(batch: seq<Job>)
    | Working(batch: seq<Job>, stage: Stage)

  datatype Provider = Provider(inFlight: set<nat>, accepted: set<string>, deliveries: seq<nat>)

  /** `gone` are the rows that retention deleted, as they last were; ids are never used again. */
  datatype State = State(
    rows: map<nat, Row>,
    gone: map<nat, Row>,
    log: seq<LogEntry>,
    worker: Worker,
    provider: Provider)

  datatype Step =
    | Enqueue(id: nat, createdAt: Option<int>)
    | Reclaim(now: int)
    | Select(batch: seq<Job>)
    | Claim(now: int)
    | FindSuppressed
    | SkipSend
    | Request
    | Accept(id: nat)
    | Answer(ok: bool)
    | Finalize
    | WriteLog(ok: bool)
    | Finish
    | Crash
    | Webhook(id: nat)
    | Retain(cutoff: int)

  /** One idempotency key per row, shared by every retry. */
  function Key(id: nat): string { "outbox-" + Decimal.Write(id) }

  lemma KeyInjective(m: nat, n: nat)
    requires Key(m) == Key(n)
    ensures m == n
  {
    assert Key(m)[7..] == Decimal.Write(m) && Key(n)[7..] == Decimal.Write(n);
    Decimal.WriteInjective(m, n);
  }

  function ReclaimedRow(r: Row, cutoff: int): Row {
    if r.status == Sending && r.lastAttemptAt.Some? && r.lastAttemptAt.value < cutoff then r.(status := Pending) else r
  }

  function ReclaimedRows(rows: map<nat, Row>, cutoff: int): map<nat, Row> {
    map id | id in rows :: ReclaimedRow(rows[id], cutoff)
  }

  function Ids(batch: seq<Job>): set<nat> { set i | 0 <= i < |batch| :: batch[i].id }

  function ClaimedRows(rows: map<nat, Row>, ids: set<nat>, now: int): map<nat, Row> {
    map id | id in rows :: if id in ids then rows[id].(status := Sending, lastAttemptAt := Some(now)) else rows[id]
  }

  /** The status a row ends in, which for a failure depends on the attempts left. */
  function NextStatus(attempts: nat, outcome: Outcome, maxAttempts: int): Status {
    match outcome
    case OutSent => Sent
    case OutSkipped => Sent
    case OutSuppressed => Suppressed
    case OutFailed => if attempts >= maxAttempts then Failed else Pending
  }

  function LoggedStatus(outcome: Outcome): Status {
    match outcome
    case OutSent => Sent
    case OutSkipped => Sent
    case OutSuppressed => Suppressed
    case OutFailed => Failed
  }

  function FinalRow(r: Row, attempts: nat, outcome: Outcome, next: Status): Row {
    var r' := r.(attempts := attempts, status := next);
    if next == Sent then r'.(confirmed := outcome == OutSent) else r'
  }

  /** Rows waiting, each read as it stands, none twice. */
  ghost predicate IsBatch(rows: map<nat, Row>, batch: seq<Job>) {
    && (forall i :: 0 <= i < |batch| ==>
          batch[i].id in rows && rows[batch[i].id].status == Pending && rows[batch[i].id].attempts == batch[i].attempts)
    && (forall i, j :: 0 <= i < j < |batch| ==> batch[i].id != batch[j].id)
  }

  predicate AtStage(w: Worker, stage: Stage) { w.Working? && w.batch != [] && w.stage == stage }

  /** Retention: settled rows created before the cutoff. */
  predicate Old(r: Row, cutoff: int) { Terminal(r.status) && r.createdAt.Some? && r.createdAt.value < cutoff }

  function Retained(rows: map<nat, Row>, cutoff: int): map<nat, Row> {
    map id | id in rows && !Old(rows[id], cutoff) :: rows[id]
  }

  function Expired(rows: map<nat, Row>, cutoff: int): map<nat, Row> {
    map id | id in rows && Old(rows[id], cutoff) :: rows[id]
  }

  /** Every row there ever was, as it is or last was. */
  function Ever(s: State): map<nat, Row> { s.gone + s.rows }

  ghost predicate Next(s: State, step: Step, s': State, maxAttempts: int) {
    match step
    case Enqueue(id, at) =>
      id !in Ever(s) && s' == s.(rows := s.rows[id := Row(Pending, 0, None, at, false)])
    case Reclaim(now) =>
      s.worker == Idle &&
      s' == s.(rows := ReclaimedRows(s.rows, now - SENDING_RECLAIM_AGE_SECONDS), worker := Reclaimed)
    case Select(batch) =>
      s.worker == Reclaimed && IsBatch(s.rows, batch) && s' == s.(worker := Selected(batch))
    case Claim(now) =>
      s.worker.Selected? &&
      s' == s.(rows := ClaimedRows(s.rows, Ids(s.worker.batch), now), worker := Working(s.worker.batch, ToProcess))
    case FindSuppressed =>
      AtStage(s.worker, ToProcess) && s' == s.(worker := Working(s.worker.batch, Decided(OutSuppressed)))
    case SkipSend =>
      AtStage(s.worker, ToProcess) && s' == s.(worker := Working(s.worker.batch, Decided(OutSkipped)))
    case Request =>
      AtStage(s.worker, ToProcess) &&
      s' == s.(worker := Working(s.worker.batch, Requested),
               provider := s.provider.(inFlight := s.provider.inFlight + {s.worker.batch[0].id}))
    case Accept(id) =>
      // A request may arrive at any time after it was sent, even once the worker is gone.
      id in s.provider.inFlight &&
      s' == s.(provider := if Key(id) in s.provider.accepted then s.provider
                           else s.provider.(accepted := s.provider.accepted + {Key(id)},
                                            deliveries := s.provider.deliveries + [id]))
    case Answer(ok) =>
      AtStage(s.worker, Requested) &&
      (ok ==> Key(s.worker.batch[0].id) in s.provider.accepted) &&
      s' == s.(worker := Working(s.worker.batch, Decided(if ok then OutSent else OutFailed)))
    case Finalize =>
      s.worker.Working? && s.worker.batch != [] && s.worker.stage.Decided? &&
      var Job(id, attempts) := s.worker.batch[0];
      var outcome := s.worker.stage.outcome;
      var next := NextStatus(attempts + 1, outcome, maxAttempts);
      id in s.rows &&
      s' == s.(rows := s.rows[id := FinalRow(s.rows[id], attempts + 1, outcome, next)],
               worker := Working(s.worker.batch, Finalized(outcome, next)))
    case WriteLog(ok) =>
      s.worker.Working? && s.worker.batch != [] && s.worker.stage.Finalized? &&
      var outcome := s.worker.stage.outcome;
      var retry := outcome == OutFailed && s.worker.stage.next == Pending;
      s' == s.(log := if retry || !ok then s.log
                      else s.log + [LogEntry(s.worker.batch[0].id, LoggedStatus(outcome))],
               worker := Working(s.worker.batch[1..], ToProcess))
    case Finish =>
      (s.worker == Selected([]) || (s.worker.Working? && s.worker.batch == [])) && s' == s.(worker := Idle)
    case Crash =>
      s' == s.(worker := Idle)
    case Webhook(id) =>
      // A later bounce report, matched by message id, re-marks a row that had been sent.
      && id in s.rows && s.rows[id].status == Sent && s.rows[id].confirmed
      && s' == s.(rows := s.rows[id := s.rows[id].(status := Suppressed)])
    case Retain(cutoff) => s' == s.(rows := Retained(s.rows, cutoff), gone := s.gone + Expired(s.rows, cutoff))
  }

  function Initial(): State { State(map[], map[], [], Idle, Provider({}, {}, [])) }

  /** A run: states in a row, each a step from the one before. */
  ghost predicate Run(maxAttempts: int, trace: seq<State>, steps: seq<Step>) {
    Path(maxAttempts, trace, steps) && trace[0] == Initial()
  }

  ghost predicate Path(maxAttempts: int, trace: seq<State>, steps: seq<Step>) {
    && |trace| == |steps| + 1
    && forall i :: 0 <= i < |steps| ==> Next(trace[i], steps[i], trace[i + 1], maxAttempts)
  }

  lemma Extend(maxAttempts: int, trace: seq<State>, steps: seq<Step>, step: Step, s: State)
      returns (longer: seq<State>, more: seq<Step>)
    requires Path(maxAttempts, trace, steps) && Next(trace[|steps|], step, s, maxAttempts)
    ensures Path(maxAttempts, longer, more) && longer[0] == trace[0] && longer[|more|] == s && more == steps + [step]
    ensures longer == trace + [s]
  {
    hide Next;
    longer, more := trace + [s], steps + [step];
    forall i | 0 <= i < |more| ensures Next(longer[i], more[i], longer[i + 1], maxAttempts) {
      if i < |steps| {
        assert longer[i] == trace[i] && longer[i + 1] == trace[i + 1] && more[i] == steps[i];
      } else {
        assert longer[i] == trace[|steps|] && longer[i + 1] == s && more[i] == step;
      }
    }
  }

  // ----- What every step keeps ----------------------------------------------------

  /** The attempts a row may be tried in all. */
  function Cap(maxAttempts: int): nat { if maxAttempts < 1 then 1 else maxAttempts }

  ghost predicate RowOk(r: Row, maxAttempts: int) {
    if r.status == Failed then r.attempts == Cap(maxAttempts)
    else if Terminal(r.status) then 1 <= r.attempts <= Cap(maxAttempts)
    else r.attempts < Cap(maxAttempts)
  }

  /** The rest of a batch is claimed, unchanged since it was read, and unlogged. */
  ghost predicate Claimed(rows: map<nat, Row>, batch: seq<Job>) {
    && (forall i :: 0 <= i < |batch| ==>
          batch[i].id in rows && rows[batch[i].id].status == Sending && rows[batch[i].id].attempts == batch[i].attempts)
    && (forall i, j :: 0 <= i < j < |batch| ==> batch[i].id != batch[j].id)
  }

  /** A decided success was accepted by the provider. */
  ghost predicate StageOk(p: Provider, batch: seq<Job>, stage: Stage) {
    batch != [] && stage == Decided(OutSent) ==> batch[0].id in p.deliveries
  }

  /** The head of the batch has been written back but not logged. */
  ghost predicate WrittenBack(rows: map<nat, Row>, ever: map<nat, Row>, log: seq<LogEntry>, batch: seq<Job>,
                              outcome: Outcome, next: Status) {
    && batch != [] && Claimed(rows, batch[1..])
    && (forall i :: 0 < i < |batch| ==> batch[i].id != batch[0].id)
    && (next == Pending ==> outcome == OutFailed)
    && (next != Pending ==> next == LoggedStatus(outcome) && Settled(ever, batch[0].id, next))
    && Unlogged(log, batch[0].id)
  }

  ghost predicate WorkerOk(s: State) {
    match s.worker
    case Idle => true
    case Reclaimed => true
    case Selected(batch) => IsBatch(s.rows, batch)
    case Working(batch, stage) =>
      && StageOk(s.provider, batch, stage)
      && if stage.Finalized? then WrittenBack(s.rows, Ever(s), s.log, batch, stage.outcome, stage.next)
         else Claimed(s.rows, batch)
  }

  ghost predicate Unlogged(log: seq<LogEntry>, id: nat) { forall i :: 0 <= i < |log| ==> log[i].id != id }

  /** The row settled in `status`, or in `Sent` and was re-marked since. */
  ghost predicate Settled(rows: map<nat, Row>, id: nat, status: Status) {
    && id in rows && Terminal(status)
    && (rows[id].status == status || (status == Sent && rows[id].status == Suppressed))
  }

  ghost predicate LogOk(rows: map<nat, Row>, log: seq<LogEntry>) {
    && (forall i :: 0 <= i < |log| ==> Settled(rows, log[i].id, log[i].status))
    && (forall i, j :: 0 <= i < j < |log| ==> log[i].id != log[j].id)
  }

  ghost predicate ProviderOk(p: Provider) {
    && (forall i, j :: 0 <= i < j < |p.deliveries| ==> p.deliveries[i] != p.deliveries[j])
    && (forall id: nat :: Key(id) in p.accepted <==> id in p.deliveries)
  }

  ghost predicate Inv(s: State, maxAttempts: int) {
    && RowsOk(s.rows, s.provider, maxAttempts)
    && LogOk(Ever(s), s.log)
    && s.rows.Keys !! s.gone.Keys
    && WorkerOk(s)
    && ProviderOk(s.provider)
  }

  ghost predicate RowsOk(rows: map<nat, Row>, p: Provider, maxAttempts: int) {
    forall id :: id in rows ==> RowOk(rows[id], maxAttempts) && (rows[id].confirmed ==> id in p.deliveries)
  }

  /** Only rows that have settled are logged, so a row still in play is not. */
  lemma InPlayIsUnlogged(rows: map<nat, Row>, log: seq<LogEntry>, id: nat)
    requires LogOk(rows, log) && id in rows && !Terminal(rows[id].status)
    ensures Unlogged(log, id)
  {
    forall i | 0 <= i < |log| ensures log[i].id != id {
      assert Settled(rows, log[i].id, log[i].status);
    }
  }

  /** What a step may do to a row: a settled row stays as it is, except that a
      confirmed message may be re-marked by a later report. */
  ghost predicate RowKept(r: Row, r': Row) {
    Terminal(r.status) ==> r' == r || (r.status == Sent && r.confirmed && r' == r.(status := Suppressed))
  }

  ghost predicate RowsKept(rows: map<nat, Row>, rows': map<nat, Row>) {
    forall id :: id in rows ==> id in rows' && RowKept(rows[id], rows'[id])
  }

  lemma LogKept(rows: map<nat, Row>, rows': map<nat, Row>, log: seq<LogEntry>)
    requires LogOk(rows, log) && RowsKept(rows, rows')
    ensures LogOk(rows', log)
  {
    forall i | 0 <= i < |log| ensures Settled(rows', log[i].id, log[i].status) {
      assert Settled(rows, log[i].id, log[i].status);
    }
  }

  lemma AcceptStep(s: State, id: nat, s': State, maxAttempts: int)
    requires Inv(s, maxAttempts) && Next(s, Accept(id), s', maxAttempts)
    ensures Inv(s', maxAttempts)
  {
    var p, p' := s.provider, s'.provider;
    if Key(id) !in p.accepted {
      forall n: nat ensures Key(n) in p'.accepted <==> n in p'.deliveries {
        if Key(n) == Key(id) { KeyInjective(n, id); }
      }
    }
    assert forall n :: n in p.deliveries ==> n in p'.deliveries;
  }

  lemma FinalizeWorks(s: State, s': State, maxAttempts: int)
    requires Inv(s, maxAttempts) && Next(s, Finalize, s', maxAttempts)
    ensures WorkerOk(s') && RowsOk(s'.rows, s'.provider, maxAttempts)
  {
    hide ProviderOk;
    var batch := s.worker.batch;
    assert s.rows[batch[0].id].status == Sending;
    InPlayIsUnlogged(Ever(s), s.log, batch[0].id);
    hide LogOk;
  }

  lemma FinalizeKeeps(s: State, s': State, maxAttempts: int)
    requires WorkerOk(s) && Next(s, Finalize, s', maxAttempts)
    ensures RowsKept(Ever(s), Ever(s')) && s'.rows.Keys == s.rows.Keys && s' == s.(rows := s'.rows, worker := s'.worker)
  {
    hide Ever, RowsKept;
    assert s.rows[s.worker.batch[0].id].status == Sending;
    UpdateKeeps(s, s'.rows);
    SameEver(s.(rows := s'.rows), s');
  }

  lemma FinalizeStep(s: State, s': State, maxAttempts: int)
    requires Inv(s, maxAttempts) && Next(s, Finalize, s', maxAttempts)
    ensures Inv(s', maxAttempts)
  {
    hide Next, WorkerOk, LogOk, RowsOk, RowsKept, ProviderOk, Ever;
    FinalizeKeeps(s, s', maxAttempts);
    FinalizeWorks(s, s', maxAttempts);
    LogKept(Ever(s), Ever(s'), s.log);
  }

  lemma LogStep(s: State, ok: bool, s': State, maxAttempts: int)
    requires Inv(s, maxAttempts) && Next(s, WriteLog(ok), s', maxAttempts)
    ensures Inv(s', maxAttempts)
  {
  }

  /** A statement that touches only rows in play keeps the others. */
  lemma UpdateKeeps(s: State, rows': map<nat, Row>)
    requires rows'.Keys == s.rows.Keys
    requires forall id :: id in s.rows && Terminal(s.rows[id].status) ==> rows'[id] == s.rows[id]
    ensures RowsKept(Ever(s), Ever(s.(rows := rows')))
  {
  }

  lemma InBatch(s: State, id: nat)
    requires s.worker.Selected? && IsBatch(s.rows, s.worker.batch) && id in Ids(s.worker.batch)
    ensures id in s.rows && s.rows[id].status == Pending
  {
  }

  lemma ClaimKeeps(s: State, step: Step, s': State, maxAttempts: int)
    requires WorkerOk(s) && Next(s, step, s', maxAttempts) && (step.Claim? || step.Reclaim?)
    ensures RowsKept(Ever(s), Ever(s')) && s'.rows.Keys == s.rows.Keys && s' == s.(rows := s'.rows, worker := s'.worker)
  {
    hide Ever, RowsKept;
    if step.Claim? {
      forall id | id in s.rows && id in Ids(s.worker.batch) ensures s.rows[id].status == Pending { InBatch(s, id); }
    }
    UpdateKeeps(s, s'.rows);
    assert Ever(s.(rows := s'.rows)) == Ever(s') by { SameEver(s.(rows := s'.rows), s'); }
  }

  lemma SameEver(s: State, s': State)
    requires s.rows == s'.rows && s.gone == s'.gone
    ensures Ever(s) == Ever(s')
  {
  }

  lemma ClaimWorks(s: State, step: Step, s': State, maxAttempts: int)
    requires Inv(s, maxAttempts) && Next(s, step, s', maxAttempts) && (step.Claim? || step.Reclaim?)
    ensures WorkerOk(s') && RowsOk(s'.rows, s'.provider, maxAttempts)
  {
    hide LogOk, ProviderOk, Ever;
    assert step.Claim? ==> forall i :: 0 <= i < |s.worker.batch| ==> s.worker.batch[i].id in Ids(s.worker.batch);
  }

  lemma ClaimStep(s: State, step: Step, s': State, maxAttempts: int)
    requires Inv(s, maxAttempts) && Next(s, step, s', maxAttempts) && (step.Claim? || step.Reclaim?)
    ensures Inv(s', maxAttempts)
  {
    hide Next, WorkerOk, LogOk, RowsOk, RowsKept, ProviderOk, Ever;
    ClaimKeeps(s, step, s', maxAttempts);
    ClaimWorks(s, step, s', maxAttempts);
    LogKept(Ever(s), Ever(s'), s.log);
  }

  /** Rows in play stay as they are, and settled ones are kept. */
  ghost predicate LeftAlone(s: State, s': State) {
    && s'.worker == s.worker && s'.log == s.log && s'.provider == s.provider
    && (forall id :: id in s.rows && !Terminal(s.rows[id].status) ==> id in s'.rows && s'.rows[id] == s.rows[id])
    && RowsKept(Ever(s), Ever(s'))
  }

  lemma WorkerLeftAlone(s: State, s': State)
    requires WorkerOk(s) && LeftAlone(s, s')
    ensures WorkerOk(s')
  {
    hide Ever;
  }

  lemma EverWritten(s: State, id: nat, r: Row)
    ensures Ever(s.(rows := s.rows[id := r])) == Ever(s)[id := r]
  {
  }

  /** Writing one row that is not in play, as a step may. */
  lemma WriteOutside(s: State, id: nat, r: Row)
    requires id in s.rows ==> Terminal(s.rows[id].status) && RowKept(s.rows[id], r)
    requires id !in s.rows ==> id !in s.gone
    ensures LeftAlone(s, s.(rows := s.rows[id := r]))
  {
    EverWritten(s, id, r);
    assert Ever(s).Keys == s.rows.Keys + s.gone.Keys && (id in s.rows ==> Ever(s)[id] == s.rows[id]);
    hide Ever;
  }

  lemma RetainOutside(s: State, cutoff: int)
    requires s.rows.Keys !! s.gone.Keys
    ensures var s' := s.(rows := Retained(s.rows, cutoff), gone := s.gone + Expired(s.rows, cutoff));
            LeftAlone(s, s') && s'.rows.Keys !! s'.gone.Keys
  {
    var s' := s.(rows := Retained(s.rows, cutoff), gone := s.gone + Expired(s.rows, cutoff));
    assert Ever(s') == Ever(s);
    hide Ever;
  }

  lemma OutsideChanges(s: State, step: Step, s': State, maxAttempts: int)
    requires Inv(s, maxAttempts) && Next(s, step, s', maxAttempts) && (step.Enqueue? || step.Webhook? || step.Retain?)
    ensures LeftAlone(s, s') && RowsOk(s'.rows, s'.provider, maxAttempts) && s'.rows.Keys !! s'.gone.Keys
  {
    hide WorkerOk, LogOk, ProviderOk, LeftAlone;
    match step
    case Enqueue(id, at) => WriteOutside(s, id, Row(Pending, 0, None, at, false));
    case Webhook(id) => WriteOutside(s, id, s.rows[id].(status := Suppressed));
    case Retain(cutoff) => RetainOutside(s, cutoff);
  }

  lemma OutsideStep(s: State, step: Step, s': State, maxAttempts: int)
    requires Inv(s, maxAttempts) && Next(s, step, s', maxAttempts) && (step.Enqueue? || step.Webhook? || step.Retain?)
    ensures Inv(s', maxAttempts)
  {
    OutsideChanges(s, step, s', maxAttempts);
    hide Next, WorkerOk, LogOk, ProviderOk, RowsOk, RowsKept, Ever;
    LogKept(Ever(s), Ever(s'), s.log);
    WorkerLeftAlone(s, s');
  }

  /** Every step keeps the invariant, and keeps settled rows. */
  lemma StepKeepsInv(s: State, step: Step, s': State, maxAttempts: int)
    requires Inv(s, maxAttempts) && Next(s, step, s', maxAttempts)
    ensures Inv(s', maxAttempts)
  {
    match step
    case Enqueue(_, _) => OutsideStep(s, step, s', maxAttempts);
    case Webhook(_) => OutsideStep(s, step, s', maxAttempts);
    case Retain(_) => OutsideStep(s, step, s', maxAttempts);
    case Reclaim(_) => ClaimStep(s, step, s', maxAttempts);
    case Claim(_) => ClaimStep(s, step, s', maxAttempts);
    case Accept(id) => AcceptStep(s, id, s', maxAttempts);
    case Finalize => FinalizeStep(s, s', maxAttempts);
    case WriteLog(ok) => LogStep(s, ok, s', maxAttempts);
    case _ => hide LogOk, RowsOk;
  }

  lemma StepKeepsRows(s: State, step: Step, s': State, maxAttempts: int)
    requires Inv(s, maxAttempts) && Next(s, step, s', maxAttempts)
    ensures RowsKept(Ever(s), Ever(s'))
  {
    hide LogOk, RowsOk, ProviderOk, Ever;
    match step
    case Enqueue(_, _) => OutsideChanges(s, step, s', maxAttempts);
    case Webhook(_) => OutsideChanges(s, step, s', maxAttempts);
    case Retain(_) => OutsideChanges(s, step, s', maxAttempts);
    case Claim(_) => ClaimKeeps(s, step, s', maxAttempts);
    case Reclaim(_) => ClaimKeeps(s, step, s', maxAttempts);
    case Finalize => FinalizeKeeps(s, s', maxAttempts);
    case _ => SameEver(s, s');
  }

  lemma RowsKeptTransitive(a: map<nat, Row>, b: map<nat, Row>, c: map<nat, Row>)
    requires RowsKept(a, b) && RowsKept(b, c)
    ensures RowsKept(a, c)
  {
  }

  /** A settled row goes exactly when it is old enough for retention, and while it is there it
      changes in exactly one kind of step: a report on its message. */
  lemma SettledRowChangesOnlyByWebhook(s: State, step: Step, s': State, maxAttempts: int, id: nat)
    requires Inv(s, maxAttempts) && Next(s, step, s', maxAttempts)
    requires id in s.rows && Terminal(s.rows[id].status)
    ensures id !in s'.rows <==> step.Retain? && Old(s.rows[id], step.cutoff)
    ensures id in s'.rows ==> (s'.rows[id] != s.rows[id] <==> step == Webhook(id))
  {
    hide LogOk, RowsOk, ProviderOk;
    StepKeepsRows(s, step, s', maxAttempts);
    if step.Claim? { assert id !in Ids(s.worker.batch); }
  }

  lemma {:induction false} RunKeepsInv(maxAttempts: int, trace: seq<State>, steps: seq<Step>, i: nat)
    requires Run(maxAttempts, trace, steps) && i < |trace|
    ensures Inv(trace[i], maxAttempts)
  {
    if i > 0 {
      RunKeepsInv(maxAttempts, trace, steps, i - 1);
      assert Next(trace[i - 1], steps[i - 1], trace[i - 1 + 1], maxAttempts);
      StepKeepsInv(trace[i - 1], steps[i - 1], trace[i], maxAttempts);
    }
  }

  /** A settled row is never changed again by the worker, however it crashes and
      retries; only a report on a delivered message re-marks it. */
  lemma {:induction false} SettledRowsStay(maxAttempts: int, trace: seq<State>, steps: seq<Step>, i: nat, j: nat)
    requires Run(maxAttempts, trace, steps) && i <= j < |trace|
    ensures RowsKept(Ever(trace[i]), Ever(trace[j]))
    decreases j - i
  {
    hide Next, Inv, Ever, RowsKept;
    if i == j {
      NothingChanged(Ever(trace[i]));
    } else {
      SettledRowsStay(maxAttempts, trace, steps, i, j - 1);
      RunKeepsInv(maxAttempts, trace, steps, j - 1);
      assert Next(trace[j - 1], steps[j - 1], trace[j - 1 + 1], maxAttempts);
      StepKeepsRows(trace[j - 1], steps[j - 1], trace[j], maxAttempts);
      RowsKeptTransitive(Ever(trace[i]), Ever(trace[j - 1]), Ever(trace[j]));
    }
  }

  lemma NothingChanged(rows: map<nat, Row>)
    ensures RowsKept(rows, rows)
  {
  }

  /** In every state of every run: no row is delivered twice, a confirmed row was
      delivered, and no row has two log entries; an entry carries the status its
      row settled in. */
  lemma DeliverySafety(maxAttempts: int, trace: seq<State>, steps: seq<Step>, i: nat)
    requires Run(maxAttempts, trace, steps) && i < |trace|
    ensures var s := trace[i]; var ds := s.provider.deliveries;
            && (forall a, b :: 0 <= a < b < |ds| ==> ds[a] != ds[b])
            && (forall id :: id in s.rows && s.rows[id].confirmed ==> id in s.provider.deliveries)
            && (forall a, b :: 0 <= a < b < |s.log| ==> s.log[a].id != s.log[b].id)
            && (forall a :: 0 <= a < |s.log| ==> Settled(Ever(s), s.log[a].id, s.log[a].status))
  {
    RunKeepsInv(maxAttempts, trace, steps, i);
  }

  /** Attempts stay within the cap, a row still in play is below it, and a row that was given up on
      has used them all. */
  lemma AttemptsBounded(maxAttempts: int, trace: seq<State>, steps: seq<Step>, i: nat, id: nat)
    requires Run(maxAttempts, trace, steps) && i < |trace| && id in trace[i].rows
    ensures trace[i].rows[id].attempts <= Cap(maxAttempts)
    ensures !Terminal(trace[i].rows[id].status) ==> trace[i].rows[id].attempts < Cap(maxAttempts)
    ensures trace[i].rows[id].status == Failed ==> trace[i].rows[id].attempts == Cap(maxAttempts)
  {
    RunKeepsInv(maxAttempts, trace, steps, i);
  }

  /** A row being sent was claimed, at the time it is stamped with. */
  lemma {:induction false} ClaimedThen(maxAttempts: int, trace: seq<State>, steps: seq<Step>, i: nat, id: nat)
      returns (j: nat)
    requires Run(maxAttempts, trace, steps) && i < |trace| && id in trace[i].rows && trace[i].rows[id].status == Sending
    ensures j < i && steps[j].Claim? && trace[i].rows[id].lastAttemptAt == Some(steps[j].now)
    ensures trace[j].worker.Selected? && id in Ids(trace[j].worker.batch)
    decreases i
  {
    assert i > 0;
    var s, step, s' := trace[i - 1], steps[i - 1], trace[i];
    assert Next(trace[i - 1], steps[i - 1], trace[i - 1 + 1], maxAttempts);
    if step.Claim? && id in Ids(s.worker.batch) {
      j := i - 1;
    } else {
      SendingBefore(s, step, s', maxAttempts, id);
      hide Next;
      j := ClaimedThen(maxAttempts, trace, steps, i - 1, id);
    }
  }

  lemma SendingBefore(s: State, step: Step, s': State, maxAttempts: int, id: nat)
    requires Next(s, step, s', maxAttempts) && id in s'.rows && s'.rows[id].status == Sending
    requires step.Claim? ==> s.worker.Selected? && id !in Ids(s.worker.batch)
    ensures id in s.rows && s.rows[id].status == Sending && s.rows[id].lastAttemptAt == s'.rows[id].lastAttemptAt
  {
    hide Key, Ids;
  }

  /** No row is stuck for good: whatever became of the worker that claimed it, a reclaim puts it back
      exactly when more than the reclaim age has passed since, and leaves it as it is until then. */
  lemma ReclaimedInTime(maxAttempts: int, trace: seq<State>, steps: seq<Step>, i: nat, id: nat)
    requires Run(maxAttempts, trace, steps) && i < |steps| && steps[i].Reclaim?
    requires id in trace[i].rows && trace[i].rows[id].status == Sending
    ensures exists j :: 0 <= j < i && steps[j].Claim? && id in trace[i + 1].rows &&
              trace[i + 1].rows[id] ==
                if steps[i].now - steps[j].now > SENDING_RECLAIM_AGE_SECONDS
                then trace[i].rows[id].(status := Pending) else trace[i].rows[id]
  {
    var j := ClaimedThen(maxAttempts, trace, steps, i, id);
    assert Next(trace[i], steps[i], trace[i + 1], maxAttempts);
  }

  // ----- A settled row that does change ------------------------------------------------------

  const WAITING := Row(Pending, 0, None, None, false)
  const TAKEN := Row(Sending, 0, Some(0), None, false)
  const SENT := Row(Sent, 1, Some(0), None, true)

  /** A row is enqueued, claimed, and its message accepted by the provider. */
  lemma AcceptHappens(maxAttempts: int) returns (trace: seq<State>, steps: seq<Step>)
    ensures Run(maxAttempts, trace, steps)
    ensures trace[|steps|] ==
            State(map[0 := TAKEN], map[], [], Working([Job(0, 0)], Requested), Provider({0}, {Key(0)}, [0]))
  {
    hide Key, Ever;
    var job := Job(0, 0);
    trace, steps := [Initial()], [];
    assert 0 !in Ever(Initial()) by { NothingEver(); }
    var s0 := Initial().(rows := map[0 := WAITING]);
    trace, steps := Extend(maxAttempts, trace, steps, Enqueue(0, None), s0);
    trace, steps := Extend(maxAttempts, trace, steps, Reclaim(0), s0.(worker := Reclaimed));
    trace, steps := Extend(maxAttempts, trace, steps, Select([job]), s0.(worker := Selected([job])));
    var s1 := s0.(rows := map[0 := TAKEN]);
    assert ClaimedRows(s0.rows, Ids([job]), 0) == s1.rows by { assert [job][0].id in Ids([job]); }
    trace, steps := Extend(maxAttempts, trace, steps, Claim(0), s1.(worker := Working([job], ToProcess)));
    var s2 := s1.(worker := Working([job], Requested), provider := Provider({0}, {}, []));
    trace, steps := Extend(maxAttempts, trace, steps, Request, s2);
    trace, steps := Extend(maxAttempts, trace, steps, Accept(0), s2.(provider := Provider({0}, {Key(0)}, [0])));
  }

  lemma NothingEver()
    ensures Ever(Initial()) == map[]
  {
  }

  /** A row is sent, logged, and then re-marked by a report on its message. */
  lemma ReportHappens(maxAttempts: int) returns (trace: seq<State>, steps: seq<Step>)
    ensures Run(maxAttempts, trace, steps) && |steps| > 0 && steps[|steps| - 1] == Webhook(0)
    ensures var before, after := trace[|steps| - 1].rows, trace[|steps|].rows;
            0 in before && before[0].status == Sent && 0 in after && after[0].status == Suppressed
  {
    hide Key, Ever;
    var job := Job(0, 0);
    trace, steps := AcceptHappens(maxAttempts);
    var s1 := trace[|steps|];
    trace, steps := Extend(maxAttempts, trace, steps, Answer(true), s1.(worker := Working([job], Decided(OutSent))));
    var s2 := s1.(rows := map[0 := SENT], worker := Working([job], Finalized(OutSent, Sent)));
    trace, steps := Extend(maxAttempts, trace, steps, Finalize, s2);
    var s3 := s2.(log := [LogEntry(0, Sent)], worker := Working([], ToProcess));
    assert [job][1..] == [];
    trace, steps := Extend(maxAttempts, trace, steps, WriteLog(true), s3);
    trace, steps := Extend(maxAttempts, trace, steps, Webhook(0), s3.(rows := map[0 := SENT.(status := Suppressed)]));
  }
}
