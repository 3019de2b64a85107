/** One error-free tick of the outbox worker, and why ticks drain the outbox. */
module OutboxTick {
  import opened Wrappers
  import Sets
  import opened EmailOutbox

  type Rows = map<nat, Row>

  datatype Summary = Summary(sent: nat, failed: nat, suppressed: nat, reclaimed: nat)

  // ----- Measuring the work left ------------------------------------------------

  /** The attempts a row has left. */
  function Left(r: Row, maxAttempts: int): nat {
    if Terminal(r.status) || r.attempts >= Cap(maxAttempts) then 0 else Cap(maxAttempts) - r.attempts
  }

  ghost function Remaining(rows: Rows, maxAttempts: int): nat
    decreases rows.Keys
  {
    if rows == map[] then 0
    else
      var id :| id in rows;
      Left(rows[id], maxAttempts) + Remaining(rows - {id}, maxAttempts)
  }

  lemma {:induction false} RemainingWithout(rows: Rows, maxAttempts: int, id: nat)
    requires id in rows
    ensures Remaining(rows, maxAttempts) == Left(rows[id], maxAttempts) + Remaining(rows - {id}, maxAttempts)
    decreases rows.Keys
  {
    var d :| d in rows &&
             Remaining(rows, maxAttempts) == Left(rows[d], maxAttempts) + Remaining(rows - {d}, maxAttempts);
    if d != id {
      RemainingWithout(rows - {d}, maxAttempts, id);
      RemainingWithout(rows - {id}, maxAttempts, d);
      assert rows - {d} - {id} == rows - {id} - {d};
    }
  }

  // ----- The batch ----------------------------------------------------------------

  ghost function Waiting(rows: Rows): set<nat> { set id | id in rows && rows[id].status == Pending }

  /** `ORDER BY created_at NULLS LAST, id`. */
  predicate Earlier(rows: Rows, a: nat, b: nat)
    requires a in rows && b in rows
  {
    var x, y := rows[a].createdAt, rows[b].createdAt;
    if x == y then a < b else x.Some? && (y.None? || x.value < y.value)
  }

  /** The oldest waiting rows, at most `limit` of them, oldest first. */
  ghost predicate OldestWaiting(rows: Rows, limit: nat, ids: seq<nat>) {
    && (forall i :: 0 <= i < |ids| ==> ids[i] in Waiting(rows))
    && (forall i, j :: 0 <= i < j < |ids| ==> Earlier(rows, ids[i], ids[j]))
    && |ids| <= limit
    && (|ids| == limit || forall id :: id in Waiting(rows) ==> id in ids)
    && (forall i, id :: 0 <= i < |ids| && id in Waiting(rows) && id !in ids ==> Earlier(rows, ids[i], id))
  }

  /** The earliest of some rows. */
  method Earliest(rows: Rows, ids: set<nat>) returns (first: nat)
    requires ids != {} && ids <= rows.Keys
    ensures first in ids && forall id :: id in ids && id != first ==> Earlier(rows, first, id)
  {
    first :| first in ids;
    var seen, left := {first}, ids - {first};
    while left != {}
      invariant seen + left == ids && first in seen
      invariant forall id :: id in seen && id != first ==> Earlier(rows, first, id)
      decreases left
    {
      var id :| id in left;
      if Earlier(rows, id, first) {
        first := id;
      }
      seen, left := seen + {id}, left - {id};
    }
  }

  method SelectBatch(rows: Rows, limit: nat) returns (ids: seq<nat>)
    ensures OldestWaiting(rows, limit, ids)
    // What is left out was created no earlier, or at an unknown time.
    ensures forall id, other :: id in ids && other in Waiting(rows) && other !in ids && rows[other].createdAt.Some? ==>
              rows[id].createdAt.Some? && rows[id].createdAt.value <= rows[other].createdAt.value
  {
    ids := [];
    var left := set id | id in rows && rows[id].status == Pending;
    while left != {} && |ids| < limit
      invariant left <= Waiting(rows)
      invariant |ids| <= limit
      invariant forall i :: 0 <= i < |ids| ==> ids[i] in Waiting(rows)
      invariant forall i, j :: 0 <= i < j < |ids| ==> Earlier(rows, ids[i], ids[j])
      invariant forall id :: id in Waiting(rows) && id !in left ==> id in ids
      invariant forall i, id :: 0 <= i < |ids| && id in left ==> Earlier(rows, ids[i], id)
      decreases left
    {
      var first := Earliest(rows, left);
      ids := ids + [first];
      left := left - {first};
    }
  }

  // ----- The tick -------------------------------------------------------------------

  /** A row after the worker dealt with it. */
  function Dealt(r: Row, outcome: Outcome, maxAttempts: int): Row {
    FinalRow(r, r.attempts + 1, outcome, NextStatus(r.attempts + 1, outcome, maxAttempts))
  }

  /** How many of the rows settled in a status. */
  function Count(rows: Rows, ids: seq<nat>, status: Status): nat {
    if ids == [] then 0
    else (if ids[0] in rows && rows[ids[0]].status == status then 1 else 0) + Count(rows, ids[1..], status)
  }

  lemma CountSnoc(rows: Rows, ids: seq<nat>, id: nat, status: Status)
    ensures Count(rows, ids + [id], status) ==
            Count(rows, ids, status) + (if id in rows && rows[id].status == status then 1 else 0)
  {
    if ids == [] {
      assert ([] + [id])[1..] == [];
    } else {
      assert (ids + [id])[1..] == ids[1..] + [id];
      CountSnoc(rows, ids[1..], id, status);
    }
  }

  lemma {:induction false} CountFrame(rows: Rows, ids: seq<nat>, id: nat, r: Row, status: Status)
    requires id !in ids
    ensures Count(rows[id := r], ids, status) == Count(rows, ids, status)
    decreases |ids|
  {
    if ids != [] { CountFrame(rows, ids[1..], id, r, status); }
  }

  /** Where the loop over a batch stands after `n` rows. */
  ghost predicate Progress(claimed: Rows, rows: Rows, ids: seq<nat>, n: nat, outcomes: map<nat, Outcome>,
                           maxAttempts: int) {
    && n <= |ids| && rows.Keys == claimed.Keys && Set(ids) <= claimed.Keys && Set(ids) <= outcomes.Keys
    && (forall i :: 0 <= i < n ==> rows[ids[i]] == Dealt(claimed[ids[i]], outcomes[ids[i]], maxAttempts))
    && (forall id :: id in claimed && id !in ids[..n] ==> rows[id] == claimed[id])
  }

  /** Distinct rows that were claimed within their attempts. */
  ghost predicate Workable(rows: Rows, ids: seq<nat>, maxAttempts: int) {
    && Set(ids) <= rows.Keys
    && (forall i, j :: 0 <= i < j < |ids| ==> ids[i] != ids[j])
    && (forall id :: id in rows ==> RowOk(rows[id], maxAttempts))
    && (forall i :: 0 <= i < |ids| ==> rows[ids[i]].status == Sending)
  }

  class Outbox {
    var rows: Rows
    var log: seq<LogEntry>

    /** The loop over a claimed batch: process, write back, log, count. */
    method WorkThrough(ids: seq<nat>, maxAttempts: int, outcomes: map<nat, Outcome>, reclaimed: nat)
        returns (summary: Summary)
      requires Workable(rows, ids, maxAttempts) && Set(ids) <= outcomes.Keys
      modifies this
      ensures Progress(old(rows), rows, ids, |ids|, outcomes, maxAttempts)
      ensures summary ==
              Summary(Count(rows, ids, Sent), Count(rows, ids, Failed), Count(rows, ids, Suppressed), reclaimed)
      ensures log == old(log) + Entries(rows, ids)
    {
      hide Dealt, Workable, Count, Entries, Progress;
      ghost var claimed := rows;
      ProgressBegins(claimed, ids, outcomes, maxAttempts);
      summary := Summary(0, 0, 0, reclaimed);
      assert ids[..0] == [];
      NothingCounted(rows);
      for i := 0 to |ids|
        invariant Progress(claimed, rows, ids, i, outcomes, maxAttempts)
        invariant summary == Summary(Count(rows, ids[..i], Sent), Count(rows, ids[..i], Failed),
                                     Count(rows, ids[..i], Suppressed), reclaimed)
        invariant log == old(log) + Entries(rows, ids[..i])
      {
        var id := ids[i];
        ProgressStep(claimed, rows, ids, i, outcomes, maxAttempts);
        var r := Dealt(rows[id], outcomes[id], maxAttempts);
        DealStep(rows, ids, i, r);
        rows := rows[id := r];
        if Terminal(r.status) {
          log := log + [LogEntry(id, r.status)];
        }
        match r.status {
          case Sent => summary := summary.(sent := summary.sent + 1);
          case Failed => summary := summary.(failed := summary.failed + 1);
          case Suppressed => summary := summary.(suppressed := summary.suppressed + 1);
          case _ =>
        }
      }
      assert ids[..|ids|] == ids;
    }

    /** `run_one_tick` where no statement fails. `outcomes` are the answers
        processing would get; `reclaimAt` and `now` are the two clock readings. */
    method RunOneTick(batchSize: nat, maxAttempts: int, reclaimAt: int, now: int, outcomes: map<nat, Outcome>)
        returns (summary: Summary, ids: seq<nat>)
      requires forall id :: id in rows ==> RowOk(rows[id], maxAttempts)
      requires rows.Keys <= outcomes.Keys
      modifies this
      ensures Ticked(old(rows), rows, batchSize, maxAttempts, reclaimAt, now, outcomes, ids)
      ensures summary.sent == Count(rows, ids, Sent) && summary.failed == Count(rows, ids, Failed)
      ensures summary.suppressed == Count(rows, ids, Suppressed)
      ensures summary.reclaimed == |Stuck(old(rows), reclaimAt - SENDING_RECLAIM_AGE_SECONDS)|
      ensures log == old(log) + Entries(rows, ids)
      ensures Remaining(rows, maxAttempts) + |ids| <= Remaining(old(rows), maxAttempts)
    {
      hide Count, Entries, Remaining, OldestWaiting, Workable, Progress;
      var cutoff := reclaimAt - SENDING_RECLAIM_AGE_SECONDS;
      var stuck := Stuck(rows, cutoff);
      rows := ReclaimedRows(rows, cutoff);
      ghost var before := rows;
      assert forall id :: id in before ==> RowOk(before[id], maxAttempts);
      ids := SelectBatch(rows, batchSize);
      ClaimedIsWorkable(before, ids, batchSize, now, maxAttempts);
      if ids == [] {
        summary := Summary(0, 0, 0, |stuck|);
        NothingCounted(rows);
        assert ClaimedRows(before, Set([]), now) == before;
        ProgressBegins(before, ids, outcomes, maxAttempts);
      } else {
        rows := ClaimedRows(rows, Set(ids), now);
        summary := WorkThrough(ids, maxAttempts, outcomes, |stuck|);
      }
      TickUsesAttempts(old(rows), rows, batchSize, maxAttempts, reclaimAt, now, outcomes, ids);
    }
  }

  /** The rows a reclaim puts back: claimed before the cutoff and never finished. */
  function Stuck(rows: Rows, cutoff: int): set<nat> {
    set id | id in rows && rows[id].status == Sending
             && rows[id].lastAttemptAt.Some? && rows[id].lastAttemptAt.value < cutoff
  }

  /** What a tick does to the table. */
  ghost predicate Ticked(rows: Rows, rows': Rows, batchSize: nat, maxAttempts: int, reclaimAt: int, now: int,
                         outcomes: map<nat, Outcome>, ids: seq<nat>) {
    var before := ReclaimedRows(rows, reclaimAt - SENDING_RECLAIM_AGE_SECONDS);
    && OldestWaiting(before, batchSize, ids)
    && Progress(ClaimedRows(before, Set(ids), now), rows', ids, |ids|, outcomes, maxAttempts)
  }

  lemma ClaimedIsWorkable(before: Rows, ids: seq<nat>, limit: nat, now: int, maxAttempts: int)
    requires OldestWaiting(before, limit, ids) && forall id :: id in before ==> RowOk(before[id], maxAttempts)
    ensures Workable(ClaimedRows(before, Set(ids), now), ids, maxAttempts)
  {
    assert forall i :: 0 <= i < |ids| ==> ids[i] in Set(ids);
  }

  lemma ProgressBegins(claimed: Rows, ids: seq<nat>, outcomes: map<nat, Outcome>, maxAttempts: int)
    requires Workable(claimed, ids, maxAttempts) && Set(ids) <= outcomes.Keys
    ensures Progress(claimed, claimed, ids, 0, outcomes, maxAttempts)
    ensures forall i :: 0 <= i < |ids| ==> ids[i] !in ids[..i]
  {
  }

  lemma ProgressStep(claimed: Rows, rows: Rows, ids: seq<nat>, i: nat, outcomes: map<nat, Outcome>, maxAttempts: int)
    requires Progress(claimed, rows, ids, i, outcomes, maxAttempts) && i < |ids| && ids[i] !in ids[..i]
    ensures ids[i] in rows && rows.Keys == claimed.Keys
    ensures ids[i] in rows && ids[i] in outcomes && rows[ids[i]] == claimed[ids[i]]
    ensures Progress(claimed, rows[ids[i] := Dealt(rows[ids[i]], outcomes[ids[i]], maxAttempts)], ids, i + 1,
                     outcomes, maxAttempts)
  {
    hide Dealt;
    assert ids[i] in Set(ids);
    assert ids[..i + 1] == ids[..i] + [ids[i]];
    forall j | 0 <= j < i ensures ids[j] != ids[i] { assert ids[j] == ids[..i][j]; }
  }

  function Set(ids: seq<nat>): set<nat> { set i | 0 <= i < |ids| :: ids[i] }

  /** The log lines of a batch: one for each row that settled. */
  function Entries(rows: Rows, ids: seq<nat>): seq<LogEntry> {
    if ids == [] then []
    else
      var n := |ids| - 1;
      Entries(rows, ids[..n]) +
      (if ids[n] in rows && Terminal(rows[ids[n]].status) then [LogEntry(ids[n], rows[ids[n]].status)] else [])
  }

  lemma {:induction false} EntriesFrame(rows: Rows, ids: seq<nat>, id: nat, r: Row)
    requires id !in ids
    ensures Entries(rows[id := r], ids) == Entries(rows, ids)
    decreases |ids|
  {
    if ids != [] { EntriesFrame(rows, ids[..|ids| - 1], id, r); }
  }

  lemma NothingCounted(rows: Rows)
    ensures Entries(rows, []) == [] && forall status :: Count(rows, [], status) == 0
  {
  }

  /** Writing one row back counts it once and logs it if it settled. */
  lemma DealStep(rows: Rows, ids: seq<nat>, i: nat, r: Row)
    requires i < |ids| && ids[i] in rows && ids[i] !in ids[..i]
    ensures var done := ids[..i]; var rows' := rows[ids[i] := r];
            && (forall status :: Count(rows', ids[..i + 1], status) ==
                  Count(rows, done, status) + (if r.status == status then 1 else 0))
            && Entries(rows', ids[..i + 1]) ==
                 Entries(rows, done) + (if Terminal(r.status) then [LogEntry(ids[i], r.status)] else [])
  {
    var done, id := ids[..i], ids[i];
    assert ids[..i + 1] == done + [id];
    forall status ensures Count(rows[id := r], done + [id], status) ==
                          Count(rows, done, status) + (if r.status == status then 1 else 0) {
      CountSnoc(rows[id := r], done, id, status);
      CountFrame(rows, done, id, r, status);
    }
    assert ids[..i + 1][..i] == done;
    EntriesFrame(rows, done, id, r);
  }

  // ----- Why the outbox drains ----------------------------------------------------------

  /** Using up an attempt of each of some rows, and adding none, shows in the sum. */
  lemma {:induction false} RemainingDrops(a: Rows, b: Rows, some: set<nat>, maxAttempts: int)
    requires a.Keys == b.Keys && some <= a.Keys
    requires forall id :: id in a ==>
               Left(b[id], maxAttempts) + (if id in some then 1 else 0) <= Left(a[id], maxAttempts)
    ensures Remaining(b, maxAttempts) + |some| <= Remaining(a, maxAttempts)
    decreases a.Keys
  {
    hide Remaining, Left;
    if a == map[] {
      assert b == map[] && some == {};
    } else {
      var id :| id in a;
      RemainingWithout(a, maxAttempts, id);
      RemainingWithout(b, maxAttempts, id);
      RemainingDrops(a - {id}, b - {id}, some - {id}, maxAttempts);
      if id in some { assert |some - {id}| == |some| - 1; } else { assert some - {id} == some; }
    }
  }

  lemma SetOfDistinct(ids: seq<nat>)
    requires forall i, j :: 0 <= i < j < |ids| ==> ids[i] != ids[j]
    ensures |Set(ids)| == |ids|
    decreases |ids|
  {
    if ids == [] {
      assert Set(ids) == {};
    } else {
      var n := |ids| - 1;
      SetOfDistinct(ids[..n]);
      assert Set(ids) == Set(ids[..n]) + {ids[n]};
    }
  }

  /** Every row after a tick, beside the same row before it. */
  lemma TickedRow(rows: Rows, rows': Rows, batchSize: nat, maxAttempts: int, reclaimAt: int, now: int,
                  outcomes: map<nat, Outcome>, ids: seq<nat>, id: nat)
    requires Ticked(rows, rows', batchSize, maxAttempts, reclaimAt, now, outcomes, ids)
    requires id in rows && RowOk(rows[id], maxAttempts)
    ensures id in rows' && RowOk(rows'[id], maxAttempts)
    ensures Left(rows'[id], maxAttempts) + (if id in ids then 1 else 0) <= Left(rows[id], maxAttempts)
    ensures Terminal(rows[id].status) ==> rows'[id] == rows[id] && id !in ids
    ensures Terminal(rows'[id].status) && !Terminal(rows[id].status) ==> id in ids
  {
    assert ids[..|ids|] == ids;
    if id in ids {
      var i :| 0 <= i < |ids| && ids[i] == id;
      assert id in Set(ids);
    } else {
      assert id !in Set(ids);
    }
  }

  /** What becomes of a row of the batch, by its outcome: it is sent, suppressed, tried again while it
      has attempts left, or given up. */
  lemma BatchRowAfter(rows: Rows, rows': Rows, batchSize: nat, maxAttempts: int, reclaimAt: int, now: int,
                      outcomes: map<nat, Outcome>, ids: seq<nat>, id: nat)
    requires Ticked(rows, rows', batchSize, maxAttempts, reclaimAt, now, outcomes, ids) && id in ids
    ensures id in rows && id in rows' && id in outcomes && rows'[id].attempts == rows[id].attempts + 1
    ensures outcomes[id] == OutSent ==> rows'[id].status == Sent && rows'[id].confirmed
    ensures outcomes[id] == OutSkipped ==> rows'[id].status == Sent && !rows'[id].confirmed
    ensures outcomes[id] == OutSuppressed ==> rows'[id].status == Suppressed
    ensures outcomes[id] == OutFailed && rows[id].attempts + 1 < maxAttempts ==> rows'[id].status == Pending
    ensures outcomes[id] == OutFailed && rows[id].attempts + 1 >= maxAttempts ==> rows'[id].status == Failed
  {
    var i :| 0 <= i < |ids| && ids[i] == id;
    assert id in Set(ids);
  }

  /** Nothing happens to any other row, except that a stuck one waits again. */
  lemma OtherRowAfter(rows: Rows, rows': Rows, batchSize: nat, maxAttempts: int, reclaimAt: int, now: int,
                      outcomes: map<nat, Outcome>, ids: seq<nat>, id: nat)
    requires Ticked(rows, rows', batchSize, maxAttempts, reclaimAt, now, outcomes, ids) && id in rows && id !in ids
    ensures id in rows'
    ensures rows'[id] == if id in Stuck(rows, reclaimAt - SENDING_RECLAIM_AGE_SECONDS)
                         then rows[id].(status := Pending) else rows[id]
  {
    assert ids[..|ids|] == ids && id !in Set(ids);
  }

  /** A tick uses up at least one attempt of every row of its batch. */
  lemma TickUsesAttempts(rows: Rows, rows': Rows, batchSize: nat, maxAttempts: int, reclaimAt: int, now: int,
                         outcomes: map<nat, Outcome>, ids: seq<nat>)
    requires Ticked(rows, rows', batchSize, maxAttempts, reclaimAt, now, outcomes, ids)
    requires forall id :: id in rows ==> RowOk(rows[id], maxAttempts)
    ensures Remaining(rows', maxAttempts) + |ids| <= Remaining(rows, maxAttempts)
    ensures rows'.Keys == rows.Keys && forall id :: id in rows' ==> RowOk(rows'[id], maxAttempts)
  {
    forall id | id in rows
      ensures Left(rows'[id], maxAttempts) + (if id in Set(ids) then 1 else 0) <= Left(rows[id], maxAttempts)
    {
      TickedRow(rows, rows', batchSize, maxAttempts, reclaimAt, now, outcomes, ids, id);
    }
    forall id | id in rows' ensures RowOk(rows'[id], maxAttempts) {
      TickedRow(rows, rows', batchSize, maxAttempts, reclaimAt, now, outcomes, ids, id);
    }
    SetOfDistinct(ids);
    assert Set(ids) <= rows.Keys;
    RemainingDrops(rows, rows', Set(ids), maxAttempts);
  }

  /** One tick of a run: the table before and after, and the batch it took. */
  datatype TickRecord = TickRecord(
    rows: Rows, rows': Rows, reclaimAt: int, now: int, outcomes: map<nat, Outcome>, ids: seq<nat>)

  ghost predicate TickRun(run: seq<TickRecord>, batchSize: nat, maxAttempts: int) {
    && (forall i :: 0 <= i < |run| ==>
          var t := run[i]; Ticked(t.rows, t.rows', batchSize, maxAttempts, t.reclaimAt, t.now, t.outcomes, t.ids))
    && (forall i :: 0 <= i < |run| - 1 ==> run[i].rows' == run[i + 1].rows)
  }

  lemma {:induction false} RunUsesAttempts(run: seq<TickRecord>, batchSize: nat, maxAttempts: int, n: nat)
    requires TickRun(run, batchSize, maxAttempts) && 0 < |run| && n <= |run|
    requires forall id :: id in run[0].rows ==> RowOk(run[0].rows[id], maxAttempts)
    requires forall i :: 0 <= i < n ==> run[i].ids != []
    ensures n < |run| ==> Remaining(run[n].rows, maxAttempts) + n <= Remaining(run[0].rows, maxAttempts)
    ensures n < |run| ==> forall id :: id in run[n].rows ==> RowOk(run[n].rows[id], maxAttempts)
    ensures n <= Remaining(run[0].rows, maxAttempts)
  {
    hide Remaining, RowOk;
    if n > 0 {
      RunUsesAttempts(run, batchSize, maxAttempts, n - 1);
      var t := run[n - 1];
      assert n < |run| ==> run[n - 1].rows' == run[n - 1 + 1].rows;
      TickUsesAttempts(t.rows, t.rows', batchSize, maxAttempts, t.reclaimAt, t.now, t.outcomes, t.ids);
    }
  }

  /** How many of the first `n` ticks tried the row. */
  function Tries(run: seq<TickRecord>, id: nat, n: nat): nat
    requires n <= |run|
  {
    if n == 0 then 0 else Tries(run, id, n - 1) + (if id in run[n - 1].ids then 1 else 0)
  }

  /** A row tried so often and not sent: it waits again until it has used its attempts. */
  ghost predicate Retried(row: Row, tried: nat, maxAttempts: int) {
    && row.attempts == tried <= Cap(maxAttempts)
    && row.status == (if tried < Cap(maxAttempts) then Pending else Failed)
  }

  /** A row whose every try failed waits again until it has used its attempts, and only then is given up. */
  lemma {:induction false} RetriedUntilTheCap(run: seq<TickRecord>, batchSize: nat, maxAttempts: int, id: nat, n: nat)
    requires TickRun(run, batchSize, maxAttempts) && n < |run|
    requires id in run[0].rows && run[0].rows[id].status == Pending && RowOk(run[0].rows[id], maxAttempts)
    requires forall i :: 0 <= i < n && id in run[i].ids ==> id in run[i].outcomes && run[i].outcomes[id] == OutFailed
    ensures id in run[n].rows
    ensures Retried(run[n].rows[id], run[0].rows[id].attempts + Tries(run, id, n), maxAttempts)
    decreases n
  {
    hide Ticked;
    if n > 0 {
      hide Retried, RowOk;
      RetriedUntilTheCap(run, batchSize, maxAttempts, id, n - 1);
      var t := run[n - 1];
      assert Ticked(t.rows, t.rows', batchSize, maxAttempts, t.reclaimAt, t.now, t.outcomes, t.ids);
      TriedOnceMore(t, batchSize, maxAttempts, id, run[0].rows[id].attempts + Tries(run, id, n - 1));
      assert run[n - 1].rows' == run[n - 1 + 1].rows;
    }
  }

  lemma TriedOnceMore(t: TickRecord, batchSize: nat, maxAttempts: int, id: nat, tried: nat)
    requires Ticked(t.rows, t.rows', batchSize, maxAttempts, t.reclaimAt, t.now, t.outcomes, t.ids)
    requires id in t.rows && Retried(t.rows[id], tried, maxAttempts)
    requires id in t.ids ==> id in t.outcomes && t.outcomes[id] == OutFailed
    ensures id in t.rows' && Retried(t.rows'[id], tried + (if id in t.ids then 1 else 0), maxAttempts)
  {
    hide Ticked;
    TickedRow(t.rows, t.rows', batchSize, maxAttempts, t.reclaimAt, t.now, t.outcomes, t.ids, id);
    if id in t.ids {
      BatchRowAfter(t.rows, t.rows', batchSize, maxAttempts, t.reclaimAt, t.now, t.outcomes, t.ids, id);
    } else {
      OtherRowAfter(t.rows, t.rows', batchSize, maxAttempts, t.reclaimAt, t.now, t.outcomes, t.ids, id);
    }
  }

  /** Failures and then a success: the row ends sent within the cap, and stays as it is in every later tick. */
  lemma {:induction false} SentAtLast(run: seq<TickRecord>, batchSize: nat, maxAttempts: int, id: nat, n: nat, m: nat)
    requires TickRun(run, batchSize, maxAttempts) && n <= m < |run|
    requires id in run[0].rows && run[0].rows[id].status == Pending && RowOk(run[0].rows[id], maxAttempts)
    requires forall i :: 0 <= i < n && id in run[i].ids ==> id in run[i].outcomes && run[i].outcomes[id] == OutFailed
    requires id in run[n].ids && id in run[n].outcomes && run[n].outcomes[id] == OutSent
    ensures id in run[m].rows'
    ensures var row := run[m].rows'[id];
            && row.status == Sent && row.confirmed
            && row.attempts == run[0].rows[id].attempts + Tries(run, id, n) + 1 <= Cap(maxAttempts)
    decreases m
  {
    hide Ticked;
    var t := run[m];
    assert Ticked(t.rows, t.rows', batchSize, maxAttempts, t.reclaimAt, t.now, t.outcomes, t.ids);
    if m == n {
      RetriedUntilTheCap(run, batchSize, maxAttempts, id, n);
      BatchRowAfter(t.rows, t.rows', batchSize, maxAttempts, t.reclaimAt, t.now, t.outcomes, t.ids, id);
    } else {
      SentAtLast(run, batchSize, maxAttempts, id, n, m - 1);
      assert run[m - 1].rows' == run[m - 1 + 1].rows;
    }
    TickedRow(t.rows, t.rows', batchSize, maxAttempts, t.reclaimAt, t.now, t.outcomes, t.ids, id);
  }

  /** A batch takes as many as are waiting, up to its limit. */
  lemma BatchTakesWhatItCan(rows: Rows, limit: nat, ids: seq<nat>)
    requires OldestWaiting(rows, limit, ids)
    ensures |ids| == if |Waiting(rows)| < limit then |Waiting(rows)| else limit
  {
    SetOfDistinct(ids);
    assert Set(ids) <= Waiting(rows);
    Sets.SubsetSize(Set(ids), Waiting(rows));
    if |ids| < limit {
      assert Waiting(rows) <= Set(ids);
      assert Waiting(rows) == Set(ids);
    }
  }

  /** Any outbox drains: with nothing new enqueued, among one tick more than the
      attempts left there is one that finds nothing waiting; and if no claim was too
      recent for it to reclaim, every row has settled. */
  lemma Drains(run: seq<TickRecord>, batchSize: nat, maxAttempts: int) returns (k: nat)
    requires batchSize > 0 && TickRun(run, batchSize, maxAttempts) && 0 < |run|
    requires forall id :: id in run[0].rows ==> RowOk(run[0].rows[id], maxAttempts)
    requires |run| > Remaining(run[0].rows, maxAttempts)
    ensures k < |run| && k <= Remaining(run[0].rows, maxAttempts)
    ensures Waiting(ReclaimedRows(run[k].rows, run[k].reclaimAt - SENDING_RECLAIM_AGE_SECONDS)) == {}
    ensures var rows, cutoff := run[k].rows, run[k].reclaimAt - SENDING_RECLAIM_AGE_SECONDS;
            (forall id :: id in rows && rows[id].status == Sending ==> id in Stuck(rows, cutoff))
            ==> forall id :: id in rows ==> Terminal(rows[id].status)
  {
    hide Remaining, RowOk, Waiting, Ticked, Terminal, Stuck;
    k := 0;
    while k < |run| && run[k].ids != []
      invariant k <= |run| && forall i :: 0 <= i < k ==> run[i].ids != []
    {
      k := k + 1;
    }
    RunUsesAttempts(run, batchSize, maxAttempts, k);
    var t := run[k];
    assert Ticked(t.rows, t.rows', batchSize, maxAttempts, t.reclaimAt, t.now, t.outcomes, t.ids);
    EmptyBatch(t.rows, t.rows', batchSize, maxAttempts, t.reclaimAt, t.now, t.outcomes, t.ids);
    NoneWaiting(t.rows, t.reclaimAt - SENDING_RECLAIM_AGE_SECONDS);
  }

  lemma EmptyBatch(rows: Rows, rows': Rows, batchSize: nat, maxAttempts: int, reclaimAt: int, now: int,
                   outcomes: map<nat, Outcome>, ids: seq<nat>)
    requires Ticked(rows, rows', batchSize, maxAttempts, reclaimAt, now, outcomes, ids) && batchSize > 0 && ids == []
    ensures Waiting(ReclaimedRows(rows, reclaimAt - SENDING_RECLAIM_AGE_SECONDS)) == {}
  {
    hide Progress, ReclaimedRows;
  }

  lemma NoneWaiting(rows: Rows, cutoff: int)
    requires Waiting(ReclaimedRows(rows, cutoff)) == {}
    ensures forall id :: id in rows && !Terminal(rows[id].status) ==>
              rows[id].status == Sending && id !in Stuck(rows, cutoff)
  {
    forall id | id in rows && !Terminal(rows[id].status)
      ensures rows[id].status == Sending && id !in Stuck(rows, cutoff)
    {
      var r := ReclaimedRows(rows, cutoff)[id];
      assert id !in Waiting(ReclaimedRows(rows, cutoff));
    }
  }

  // ----- What the summaries count ---------------------------------------------------------

  ghost function Having(rows: Rows, ids: set<nat>, status: Status): set<nat> {
    set id | id in ids && id in rows && rows[id].status == status
  }

  lemma {:induction false} CountIsCardinality(rows: Rows, ids: seq<nat>, status: Status)
    requires forall i, j :: 0 <= i < j < |ids| ==> ids[i] != ids[j]
    ensures Count(rows, ids, status) == |Having(rows, Set(ids), status)|
    decreases |ids|
  {
    hide Set, Having;
    if ids == [] {
      HavingNone(rows, status);
    } else {
      CountIsCardinality(rows, ids[1..], status);
      HavingCons(rows, ids, status);
    }
  }

  lemma HavingNone(rows: Rows, status: Status)
    ensures Having(rows, Set([]), status) == {}
  {
  }

  lemma SetCons(ids: seq<nat>)
    requires ids != [] && forall i, j :: 0 <= i < j < |ids| ==> ids[i] != ids[j]
    ensures Set(ids) == Set(ids[1..]) + {ids[0]} && ids[0] !in Set(ids[1..])
  {
    var tail := ids[1..];
    assert forall i :: 0 <= i < |tail| ==> tail[i] == ids[i + 1];
    forall n | n in Set(ids) && n != ids[0] ensures n in Set(tail) {
      var i :| 0 <= i < |ids| && ids[i] == n;
      assert tail[i - 1] == n;
    }
  }

  lemma HavingAdded(rows: Rows, ids: set<nat>, id: nat, status: Status)
    requires id !in ids
    ensures |Having(rows, ids + {id}, status)| ==
            |Having(rows, ids, status)| + (if id in rows && rows[id].status == status then 1 else 0)
  {
    var rest := Having(rows, ids, status);
    assert Having(rows, ids + {id}, status) == if id in rows && rows[id].status == status then rest + {id} else rest;
  }

  lemma HavingCons(rows: Rows, ids: seq<nat>, status: Status)
    requires ids != [] && forall i, j :: 0 <= i < j < |ids| ==> ids[i] != ids[j]
    ensures |Having(rows, Set(ids), status)| ==
            |Having(rows, Set(ids[1..]), status)| + (if ids[0] in rows && rows[ids[0]].status == status then 1 else 0)
  {
    hide Set;
    SetCons(ids);
    HavingAdded(rows, Set(ids[1..]), ids[0], status);
  }

  lemma InSet(ids: seq<nat>, id: nat)
    ensures id in Set(ids) <==> id in ids
  {
  }

  lemma DistinctBatch(rows: Rows, rows': Rows, batchSize: nat, maxAttempts: int, reclaimAt: int, now: int,
                      outcomes: map<nat, Outcome>, ids: seq<nat>)
    requires Ticked(rows, rows', batchSize, maxAttempts, reclaimAt, now, outcomes, ids)
    ensures (forall i, j :: 0 <= i < j < |ids| ==> ids[i] != ids[j]) && rows'.Keys == rows.Keys
  {
    hide Dealt;
  }

  /** A tick's summary counts, for each terminal status, exactly the rows that
      settled in it during this tick. */
  lemma SummaryCountsTheSettled(rows: Rows, rows': Rows, batchSize: nat, maxAttempts: int, reclaimAt: int, now: int,
                                outcomes: map<nat, Outcome>, ids: seq<nat>, status: Status)
    requires Ticked(rows, rows', batchSize, maxAttempts, reclaimAt, now, outcomes, ids)
    requires forall id :: id in rows ==> RowOk(rows[id], maxAttempts)
    requires Terminal(status)
    ensures Count(rows', ids, status) ==
            |set id | id in rows && !Terminal(rows[id].status) && id in rows' && rows'[id].status == status|
  {
    var settled := set id | id in rows && !Terminal(rows[id].status) && id in rows' && rows'[id].status == status;
    DistinctBatch(rows, rows', batchSize, maxAttempts, reclaimAt, now, outcomes, ids);
    CountIsCardinality(rows', ids, status);
    hide Ticked, RowOk, Count;
    forall id | id in rows ensures id in Having(rows', Set(ids), status) <==> id in settled {
      TickedRow(rows, rows', batchSize, maxAttempts, reclaimAt, now, outcomes, ids, id);
      InSet(ids, id);
    }
    assert Having(rows', Set(ids), status) == settled;
  }
}
