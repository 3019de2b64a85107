/** A tick, as the class method computes it, is a run of the outbox machine's steps. */
module OutboxRefinement {
  import opened Wrappers
  import opened EmailOutbox
  import opened OutboxTick

  /** The worker has an outcome for the row at the head of its batch. */
  lemma Decide(maxAttempts: int, trace: seq<State>, steps: seq<Step>, outcome: Outcome)
      returns (longer: seq<State>, more: seq<Step>)
    requires Path(maxAttempts, trace, steps) && AtStage(trace[|steps|].worker, ToProcess)
    ensures Path(maxAttempts, longer, more) && longer[0] == trace[0]
    ensures var s, s' := trace[|steps|], longer[|more|];
            && s'.worker == Working(s.worker.batch, Decided(outcome))
            && s'.rows == s.rows && s'.gone == s.gone && s'.log == s.log
  {
    hide Key, Ever;
    var s := trace[|steps|];
    var batch := s.worker.batch;
    var decided := s.(worker := Working(batch, Decided(outcome)));
    match outcome
    case OutSuppressed => longer, more := Extend(maxAttempts, trace, steps, FindSuppressed, decided);
    case OutSkipped => longer, more := Extend(maxAttempts, trace, steps, SkipSend, decided);
    case _ =>
      var id := batch[0].id;
      var asked := s.provider.(inFlight := s.provider.inFlight + {id});
      var s1 := s.(worker := Working(batch, Requested), provider := asked);
      longer, more := Extend(maxAttempts, trace, steps, Request, s1);
      var got := if Key(id) in asked.accepted then asked
                 else asked.(accepted := asked.accepted + {Key(id)}, deliveries := asked.deliveries + [id]);
      longer, more := Extend(maxAttempts, longer, more, Accept(id), s1.(provider := got));
      longer, more := Extend(maxAttempts, longer, more, Answer(outcome == OutSent), decided.(provider := got));
  }

  /** One turn of the loop over a batch. */
  lemma DealRow(maxAttempts: int, trace: seq<State>, steps: seq<Step>, outcome: Outcome)
      returns (longer: seq<State>, more: seq<Step>)
    requires Path(maxAttempts, trace, steps) && AtStage(trace[|steps|].worker, ToProcess)
    requires var s := trace[|steps|]; var job := s.worker.batch[0];
             job.id in s.rows && s.rows[job.id].attempts == job.attempts
    ensures Path(maxAttempts, longer, more) && longer[0] == trace[0]
    ensures var s, s' := trace[|steps|], longer[|more|]; var id := s.worker.batch[0].id;
            var r := Dealt(s.rows[id], outcome, maxAttempts);
            && s'.worker == Working(s.worker.batch[1..], ToProcess) && s'.gone == s.gone
            && s'.rows == s.rows[id := r]
            && s'.log == s.log + (if Terminal(r.status) then [LogEntry(id, r.status)] else [])
  {
    hide Ever, Key;
    var s := trace[|steps|];
    var batch := s.worker.batch;
    var Job(id, attempts) := batch[0];
    var next := NextStatus(attempts + 1, outcome, maxAttempts);
    var r := Dealt(s.rows[id], outcome, maxAttempts);
    longer, more := Decide(maxAttempts, trace, steps, outcome);
    var s1 := longer[|more|];
    var s2 := s1.(rows := s.rows[id := r], worker := Working(batch, Finalized(outcome, next)));
    longer, more := Extend(maxAttempts, longer, more, Finalize, s2);
    var lines := if Terminal(r.status) then [LogEntry(id, r.status)] else [];
    assert s2.log + [] == s2.log;
    var s3 := s2.(log := s2.log + lines, worker := Working(batch[1..], ToProcess));
    longer, more := Extend(maxAttempts, longer, more, WriteLog(true), s3);
  }

  function Jobs(rows: Rows, ids: seq<nat>): (batch: seq<Job>)
    requires forall i :: 0 <= i < |ids| ==> ids[i] in rows
    ensures |batch| == |ids| && forall i :: 0 <= i < |ids| ==> batch[i] == Job(ids[i], rows[ids[i]].attempts)
  {
    seq(|ids|, i requires 0 <= i < |ids| => Job(ids[i], rows[ids[i]].attempts))
  }

  lemma JobsAreBatch(rows: Rows, limit: nat, ids: seq<nat>)
    requires OldestWaiting(rows, limit, ids)
    ensures IsBatch(rows, Jobs(rows, ids)) && Ids(Jobs(rows, ids)) == Set(ids)
  {
    var batch := Jobs(rows, ids);
    forall id | id in Set(ids) ensures id in Ids(batch) {
      var i :| 0 <= i < |ids| && ids[i] == id;
      assert batch[i].id == id;
    }
  }

  /** Reclaim, select and claim. */
  lemma Open(maxAttempts: int, s: State, batchSize: nat, reclaimAt: int, now: int, ids: seq<nat>)
      returns (trace: seq<State>, steps: seq<Step>)
    requires s.worker == Idle
    requires OldestWaiting(ReclaimedRows(s.rows, reclaimAt - SENDING_RECLAIM_AGE_SECONDS), batchSize, ids)
    ensures Path(maxAttempts, trace, steps) && trace[0] == s
    ensures var before := ReclaimedRows(s.rows, reclaimAt - SENDING_RECLAIM_AGE_SECONDS);
            trace[|steps|] ==
            s.(rows := ClaimedRows(before, Set(ids), now), worker := Working(Jobs(before, ids), ToProcess))
  {
    hide Ever, Set, Ids, OldestWaiting, IsBatch, ClaimedRows, ReclaimedRows;
    var before := ReclaimedRows(s.rows, reclaimAt - SENDING_RECLAIM_AGE_SECONDS);
    assert forall i :: 0 <= i < |ids| ==> ids[i] in before by { OldestAreRows(before, batchSize, ids); }
    var batch := Jobs(before, ids);
    JobsAreBatch(before, batchSize, ids);
    trace, steps := [s], [];
    trace, steps := Extend(maxAttempts, trace, steps, Reclaim(reclaimAt), s.(rows := before, worker := Reclaimed));
    trace, steps := Extend(maxAttempts, trace, steps, Select(batch), s.(rows := before, worker := Selected(batch)));
    trace, steps := Extend(maxAttempts, trace, steps, Claim(now),
                           s.(rows := ClaimedRows(before, Set(ids), now), worker := Working(batch, ToProcess)));
  }

  lemma OldestAreRows(rows: Rows, limit: nat, ids: seq<nat>)
    requires OldestWaiting(rows, limit, ids)
    ensures forall i :: 0 <= i < |ids| ==> ids[i] in rows
  {
  }

  /** What a batch leaves is determined. */
  lemma ProgressUnique(claimed: Rows, a: Rows, b: Rows, ids: seq<nat>, outcomes: map<nat, Outcome>, maxAttempts: int)
    requires Progress(claimed, a, ids, |ids|, outcomes, maxAttempts)
    requires Progress(claimed, b, ids, |ids|, outcomes, maxAttempts)
    ensures a == b
  {
    hide Dealt;
    assert ids[..|ids|] == ids;
    forall id | id in claimed ensures a[id] == b[id] {
      if id in ids { var i :| 0 <= i < |ids| && ids[i] == id; }
    }
  }

  /** Where the machine stands when `i` rows of the batch are done. */
  ghost predicate Partway(s: State, start: State, claimed: Rows, batch: seq<Job>, ids: seq<nat>, i: nat,
                          outcomes: map<nat, Outcome>, maxAttempts: int) {
    && i <= |ids| == |batch| && s.worker == Working(batch[i..], ToProcess) && s.gone == start.gone
    && Progress(claimed, s.rows, ids, i, outcomes, maxAttempts)
    && s.log == start.log + Entries(s.rows, ids[..i])
  }

  lemma PartwayStep(s: State, s': State, start: State, claimed: Rows, batch: seq<Job>, ids: seq<nat>, i: nat,
                    outcomes: map<nat, Outcome>, maxAttempts: int)
    requires Partway(s, start, claimed, batch, ids, i, outcomes, maxAttempts) && i < |ids|
    requires Workable(claimed, ids, maxAttempts) && batch[i].id == ids[i]
    ensures ids[i] in s.rows && s.rows[ids[i]] == claimed[ids[i]] && ids[i] in outcomes && AtStage(s.worker, ToProcess)
    ensures s.worker.batch[0] == batch[i]
    ensures var r := Dealt(s.rows[ids[i]], outcomes[ids[i]], maxAttempts);
            && s'.worker == Working(s.worker.batch[1..], ToProcess) && s'.gone == s.gone
            && s'.rows == s.rows[ids[i] := r]
            && s'.log == s.log + (if Terminal(r.status) then [LogEntry(ids[i], r.status)] else [])
            ==> Partway(s', start, claimed, batch, ids, i + 1, outcomes, maxAttempts)
  {
    ProgressBegins(claimed, ids, outcomes, maxAttempts);
    hide Progress, Dealt, Entries, Workable, Count;
    ProgressStep(claimed, s.rows, ids, i, outcomes, maxAttempts);
    DealStep(s.rows, ids, i, Dealt(s.rows[ids[i]], outcomes[ids[i]], maxAttempts));
    assert batch[i..][1..] == batch[i + 1..];
  }

  /** Working through a claimed batch. */
  lemma WorkIsPath(maxAttempts: int, first: seq<State>, begun: seq<Step>, start: State, claimed: Rows, batch: seq<Job>,
                   ids: seq<nat>, outcomes: map<nat, Outcome>)
      returns (trace: seq<State>, steps: seq<Step>)
    requires Path(maxAttempts, first, begun) && Workable(claimed, ids, maxAttempts)
    requires Partway(first[|begun|], start, claimed, batch, ids, 0, outcomes, maxAttempts)
    requires forall i :: 0 <= i < |ids| ==> ids[i] in claimed && batch[i] == Job(ids[i], claimed[ids[i]].attempts)
    ensures Path(maxAttempts, trace, steps) && trace[0] == first[0]
    ensures Partway(trace[|steps|], start, claimed, batch, ids, |ids|, outcomes, maxAttempts)
  {
    hide Partway, Workable, Dealt, Next;
    trace, steps := first, begun;
    for i := 0 to |ids|
      invariant Path(maxAttempts, trace, steps) && trace[0] == first[0]
      invariant Partway(trace[|steps|], start, claimed, batch, ids, i, outcomes, maxAttempts)
    {
      var s := trace[|steps|];
      PartwayStep(s, s, start, claimed, batch, ids, i, outcomes, maxAttempts);
      trace, steps := DealRow(maxAttempts, trace, steps, outcomes[ids[i]]);
      PartwayStep(s, trace[|steps|], start, claimed, batch, ids, i, outcomes, maxAttempts);
    }
  }

  /** Everything a tick does, its log lines included, is done by steps of the machine, from an
      idle worker to an idle worker. */
  lemma TickIsRun(maxAttempts: int, s: State, rows': Rows, batchSize: nat, reclaimAt: int, now: int,
                  outcomes: map<nat, Outcome>, ids: seq<nat>)
      returns (trace: seq<State>, steps: seq<Step>)
    requires Ticked(s.rows, rows', batchSize, maxAttempts, reclaimAt, now, outcomes, ids) && s.worker == Idle
    requires forall id :: id in s.rows ==> RowOk(s.rows[id], maxAttempts)
    ensures Path(maxAttempts, trace, steps) && trace[0] == s
    ensures var last := trace[|steps|];
            last.rows == rows' && last.log == s.log + Entries(rows', ids) && last.worker == Idle && last.gone == s.gone
  {
    var before := ReclaimedRows(s.rows, reclaimAt - SENDING_RECLAIM_AGE_SECONDS);
    var claimed := ClaimedRows(before, Set(ids), now);
    assert OldestWaiting(before, batchSize, ids) && Progress(claimed, rows', ids, |ids|, outcomes, maxAttempts);
    ReclaimedAreOk(s.rows, reclaimAt - SENDING_RECLAIM_AGE_SECONDS, maxAttempts);
    hide Ticked, ReclaimedRows, RowOk, Next, Dealt;
    var batch := Begins(s, before, batchSize, now, ids, outcomes, maxAttempts);
    trace, steps := Open(maxAttempts, s, batchSize, reclaimAt, now, ids);
    trace, steps := WorkIsPath(maxAttempts, trace, steps, s, claimed, batch, ids, outcomes);
    var done := trace[|steps|];
    hide ClaimedRows, OldestWaiting;
    ProgressUnique(claimed, done.rows, rows', ids, outcomes, maxAttempts);
    assert batch[|ids|..] == [] && ids[..|ids|] == ids;
    assert Next(done, Finish, done.(worker := Idle), maxAttempts) by { CanFinish(done, maxAttempts); }
    trace, steps := Extend(maxAttempts, trace, steps, Finish, done.(worker := Idle));
  }

  lemma CanFinish(s: State, maxAttempts: int)
    requires s.worker == Working([], ToProcess)
    ensures Next(s, Finish, s.(worker := Idle), maxAttempts)
  {
  }

  lemma ReclaimedAreOk(rows: Rows, cutoff: int, maxAttempts: int)
    requires forall id :: id in rows ==> RowOk(rows[id], maxAttempts)
    ensures forall id :: id in ReclaimedRows(rows, cutoff) ==> RowOk(ReclaimedRows(rows, cutoff)[id], maxAttempts)
  {
  }

  /** The state in which the loop over the batch begins. */
  lemma Begins(s: State, before: Rows, batchSize: nat, now: int, ids: seq<nat>, outcomes: map<nat, Outcome>,
               maxAttempts: int)
      returns (batch: seq<Job>)
    requires OldestWaiting(before, batchSize, ids) && Set(ids) <= outcomes.Keys
    requires forall id :: id in before ==> RowOk(before[id], maxAttempts)
    ensures var claimed := ClaimedRows(before, Set(ids), now);
            && batch == Jobs(before, ids) && Workable(claimed, ids, maxAttempts)
            && (forall i :: 0 <= i < |ids| ==> ids[i] in claimed && batch[i] == Job(ids[i], claimed[ids[i]].attempts))
            && Partway(s.(rows := claimed, worker := Working(batch, ToProcess)), s, claimed, batch, ids, 0,
                       outcomes, maxAttempts)
  {
    var claimed := ClaimedRows(before, Set(ids), now);
    ClaimedIsWorkable(before, ids, batchSize, now, maxAttempts);
    batch := Jobs(before, ids);
    assert forall i :: 0 <= i < |ids| ==> ids[i] in claimed && batch[i] == Job(ids[i], claimed[ids[i]].attempts);
    hide RowOk, OldestWaiting, ClaimedRows, Dealt;
    ProgressBegins(claimed, ids, outcomes, maxAttempts);
    NothingCounted(claimed);
    assert batch[0..] == batch && ids[..0] == [] && s.log + [] == s.log;
  }
}
