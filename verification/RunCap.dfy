/**
 * The monthly cap on Sentinel runs: `insert_run` (backend-rs/src/sentinel_dispatch.rs)
 * under the per-organisation lock of backend-rs/src/db.rs. Any number of transactions run
 * at once under read-committed visibility: a count sees the committed rows and the
 * transaction's own.
 */
module RunCap {
  import opened Wrappers

  /** A row of this month, and the transaction that wrote it, if it is one of those modelled. */
  datatype Row = Row(org: string, writer: Option<nat>)

  datatype Phase = Waiting | Locked | Inserted | Counted(used: int) | Committed | RolledBack | Failed

  datatype Tx = Tx(org: string, cap: int, phase: Phase)

  /** The committed table, the lock holders, and the transactions. */
  datatype State = State(table: seq<Row>, holder: map<string, nat>, txs: seq<Tx>)

  datatype Step = Lock(tx: nat) | Insert(tx: nat) | Count(tx: nat) | Finish(tx: nat) | Fail(tx: nat)

  predicate Active(p: Phase) { p.Locked? || p.Inserted? || p.Counted? }

  function RowsOf(table: seq<Row>, org: string): nat {
    if table == [] then 0
    else RowsOf(table[..|table| - 1], org) + (if table[|table| - 1].org == org then 1 else 0)
  }

  /** `locking` says whether `lock_for_update` waits, or does nothing. */
  predicate Enabled(locking: bool, s: State, step: Step) {
    && step.tx < |s.txs|
    && var t := s.txs[step.tx];
       match step
       case Lock(_) => t.phase.Waiting? && (locking ==> t.org !in s.holder)
       case Insert(_) => t.phase.Locked?
       case Count(_) => t.phase.Inserted?
       case Finish(_) => t.phase.Counted?
       case Fail(_) => t.phase.Waiting? || Active(t.phase)
  }

  function Enter(s: State, i: nat, p: Phase): State
    requires i < |s.txs|
  {
    s.(txs := s.txs[i := s.txs[i].(phase := p)])
  }

  /** The end of a transaction gives up the lock it holds. */
  function Release(s: State, i: nat): State
    requires i < |s.txs|
  {
    s.(holder := map o | o in s.holder && s.holder[o] != i :: s.holder[o])
  }

  function Apply(s: State, step: Step): State
    requires step.tx < |s.txs| && (step.Finish? ==> s.txs[step.tx].phase.Counted?)
  {
    var i := step.tx;
    var t := s.txs[i];
    match step
    case Lock(_) => Enter(s, i, Locked).(holder := s.holder[t.org := i])
    case Insert(_) => Enter(s, i, Inserted)
    case Count(_) => Enter(s, i, Counted(RowsOf(s.table, t.org) + 1))
    case Finish(_) =>
      if t.phase.used > t.cap then Release(Enter(s, i, RolledBack), i)
      else Release(Enter(s, i, Committed), i).(table := s.table + [Row(t.org, Some(i))])
    case Fail(_) => Release(Enter(s, i, Failed), i)
  }

  predicate Initial(s: State) {
    && s.holder == map[] && (forall i :: 0 <= i < |s.txs| ==> s.txs[i].phase.Waiting?)
    && forall i :: 0 <= i < |s.table| ==> s.table[i].writer.None?
  }

  ghost predicate Run(locking: bool, trace: seq<State>, steps: seq<Step>) {
    && |trace| == |steps| + 1 && Initial(trace[0])
    && forall i :: 0 <= i < |steps| ==>
         Enabled(locking, trace[i], steps[i]) && trace[i + 1] == Apply(trace[i], steps[i])
  }

  // ----- Counting transactions ----------------------------------------------------------

  function Commits(txs: seq<Tx>, org: string): nat {
    if txs == [] then 0
    else
      var t := txs[|txs| - 1];
      Commits(txs[..|txs| - 1], org) + (if t.org == org && t.phase.Committed? then 1 else 0)
  }

  function Members(txs: seq<Tx>, org: string): nat {
    if txs == [] then 0
    else Members(txs[..|txs| - 1], org) + (if txs[|txs| - 1].org == org then 1 else 0)
  }

  lemma {:induction false} PhaseChange(txs: seq<Tx>, i: nat, p: Phase, org: string)
    requires i < |txs| && !txs[i].phase.Committed?
    ensures var next := txs[i := txs[i].(phase := p)];
            && Members(next, org) == Members(txs, org)
            && Commits(next, org) == Commits(txs, org) + (if p.Committed? && txs[i].org == org then 1 else 0)
  {
    var next := txs[i := txs[i].(phase := p)];
    var front := txs[..|txs| - 1];
    if i < |txs| - 1 {
      PhaseChange(front, i, p, org);
      assert next[..|txs| - 1] == front[i := front[i].(phase := p)];
    } else {
      assert next[..|txs| - 1] == front;
    }
  }

  lemma {:induction false} CommitsAreMembers(txs: seq<Tx>, org: string)
    ensures Commits(txs, org) <= Members(txs, org)
    ensures (forall i :: 0 <= i < |txs| && txs[i].org == org ==> txs[i].phase.Committed?)
            <==> Commits(txs, org) == Members(txs, org)
  {
    if txs != [] {
      var n := |txs| - 1;
      CommitsAreMembers(txs[..n], org);
      assert forall i :: 0 <= i < n ==> txs[..n][i] == txs[i];
    }
  }

  // ----- What every step keeps -------------------------------------------------------------

  /** A holder is active and everyone active holds the lock: one at a time per organisation. */
  ghost predicate LockInv(s: State) {
    && (forall o :: o in s.holder ==> s.holder[o] < |s.txs| && s.txs[s.holder[o]].org == o)
    && forall i :: 0 <= i < |s.txs| && Active(s.txs[i].phase) ==>
         s.txs[i].org in s.holder && s.holder[s.txs[i].org] == i
  }

  /** A count still holds when it is acted on; a rollback saw the cap reached. */
  predicate TxInv(s: State, t: Tx) {
    && (t.phase.Counted? ==> t.phase.used == RowsOf(s.table, t.org) + 1)
    && (t.phase.RolledBack? ==> RowsOf(s.table, t.org) >= t.cap)
  }

  /** Rows written by the modelled transactions belong to committed ones. */
  predicate TableInv(s: State) {
    forall r :: 0 <= r < |s.table| && s.table[r].writer.Some? ==>
      s.table[r].writer.value < |s.txs| && s.txs[s.table[r].writer.value].phase.Committed?
  }

  ghost predicate Inv(s: State) {
    LockInv(s) && (forall i :: 0 <= i < |s.txs| ==> TxInv(s, s.txs[i])) && TableInv(s)
  }

  lemma StepKeepsLocks(s: State, step: Step)
    requires Inv(s) && Enabled(true, s, step)
    ensures LockInv(Apply(s, step)) && TableInv(Apply(s, step))
  {
    hide RowsOf, TxInv;
  }

  /** A step adds at most one row, of its own transaction. */
  lemma StepAdds(s: State, step: Step, org: string)
    requires Enabled(true, s, step)
    ensures var s' := Apply(s, step); var t := s.txs[step.tx];
            RowsOf(s'.table, org) == RowsOf(s.table, org)
                                   + (if step.Finish? && t.phase.used <= t.cap && t.org == org then 1 else 0)
  {
    var s', t := Apply(s, step), s.txs[step.tx];
    if step.Finish? && t.phase.used <= t.cap {
      assert s'.table[..|s'.table| - 1] == s.table;
    }
  }

  lemma StepKeepsTx(s: State, step: Step, i: nat)
    requires Inv(s) && Enabled(true, s, step) && i < |s.txs|
    ensures TxInv(Apply(s, step), Apply(s, step).txs[i])
  {
    hide RowsOf;
    StepAdds(s, step, s.txs[i].org);
  }

  lemma StepKeepsInv(s: State, step: Step)
    requires Inv(s) && Enabled(true, s, step)
    ensures Inv(Apply(s, step)) && |Apply(s, step).txs| == |s.txs|
  {
    hide LockInv, TxInv, TableInv;
    StepKeepsLocks(s, step);
    forall i | 0 <= i < |s.txs| ensures TxInv(Apply(s, step), Apply(s, step).txs[i]) { StepKeepsTx(s, step, i); }
  }

  /** The account of one organisation whose transactions all carry the same cap. */
  ghost predicate Account(start: State, s: State, org: string, cap: int) {
    && |s.txs| == |start.txs|
    && (forall i :: 0 <= i < |s.txs| ==> s.txs[i].org == start.txs[i].org && s.txs[i].cap == start.txs[i].cap)
    && Members(s.txs, org) == Members(start.txs, org)
    && RowsOf(s.table, org) == RowsOf(start.table, org) + Commits(s.txs, org)
    && (Commits(s.txs, org) > 0 ==> RowsOf(s.table, org) <= cap)
  }

  ghost predicate SameCap(s: State, org: string, cap: int) {
    forall i :: 0 <= i < |s.txs| && s.txs[i].org == org ==> s.txs[i].cap == cap
  }

  lemma StepKeepsAccount(start: State, s: State, step: Step, org: string, cap: int)
    requires Inv(s) && Enabled(true, s, step) && SameCap(start, org, cap) && Account(start, s, org, cap)
    ensures Account(start, Apply(s, step), org, cap)
  {
    hide RowsOf, Commits, Members, LockInv, TableInv;
    var i, s' := step.tx, Apply(s, step);
    StepAdds(s, step, org);
    PhaseChange(s.txs, i, s'.txs[i].phase, org);
    assert s'.txs == s.txs[i := s.txs[i].(phase := s'.txs[i].phase)];
    assert TxInv(s, s.txs[i]);
  }

  lemma {:induction false} NothingCommittedYet(txs: seq<Tx>, org: string)
    requires forall i :: 0 <= i < |txs| ==> txs[i].phase.Waiting?
    ensures Commits(txs, org) == 0
  {
    if txs != [] { NothingCommittedYet(txs[..|txs| - 1], org); }
  }

  lemma {:induction false} RunKeeps(trace: seq<State>, steps: seq<Step>, n: nat, org: string, cap: int)
    requires Run(true, trace, steps) && n < |trace| && SameCap(trace[0], org, cap)
    ensures Inv(trace[n]) && Account(trace[0], trace[n], org, cap)
  {
    hide Apply, Inv, Account;
    if n == 0 {
      InitialKeeps(trace[0], org, cap);
    } else {
      RunKeeps(trace, steps, n - 1, org, cap);
      StepKeepsInv(trace[n - 1], steps[n - 1]);
      StepKeepsAccount(trace[0], trace[n - 1], steps[n - 1], org, cap);
    }
  }

  lemma InitialKeeps(s: State, org: string, cap: int)
    requires Initial(s)
    ensures Inv(s) && Account(s, s, org, cap)
  {
    NothingCommittedYet(s.txs, org);
  }

  // ----- The cap ------------------------------------------------------------------------------

  function Max(a: int, b: int): int { if a > b then a else b }
  function Min(a: int, b: int): int { if a < b then a else b }

  /** No schedule lets inserts take an organisation past its cap. */
  lemma CapHolds(trace: seq<State>, steps: seq<Step>, n: nat, org: string, cap: int)
    requires Run(true, trace, steps) && n < |trace| && SameCap(trace[0], org, cap)
    ensures RowsOf(trace[n].table, org) <= Max(RowsOf(trace[0].table, org), cap)
  {
    RunKeeps(trace, steps, n, org, cap);
  }

  /** When an organisation's transactions have all finished without error, exactly as many
      committed as there was room for. */
  lemma ExactlyTheRoomIsTaken(trace: seq<State>, steps: seq<Step>, org: string, cap: int)
    requires Run(true, trace, steps) && SameCap(trace[0], org, cap)
    requires var last := trace[|steps|];
             forall i :: 0 <= i < |last.txs| && last.txs[i].org == org ==>
               last.txs[i].phase.Committed? || last.txs[i].phase.RolledBack?
    ensures var room := Max(0, cap - RowsOf(trace[0].table, org));
            Commits(trace[|steps|].txs, org) == Min(Members(trace[0].txs, org), room)
  {
    hide RowsOf, Commits, Members, LockInv, TableInv;
    var last := trace[|steps|];
    RunKeeps(trace, steps, |steps|, org, cap);
    CommitsAreMembers(last.txs, org);
    if Commits(last.txs, org) < Members(last.txs, org) {
      var i :| 0 <= i < |last.txs| && last.txs[i].org == org && !last.txs[i].phase.Committed?;
      assert TxInv(last, last.txs[i]);
    }
  }

  /** A transaction that did not commit has no row in the table. */
  lemma LoserLeavesNothing(trace: seq<State>, steps: seq<Step>, n: nat, r: nat)
    requires Run(true, trace, steps) && n < |trace| && r < |trace[n].table| && trace[n].table[r].writer.Some?
    ensures var w := trace[n].table[r].writer.value; w < |trace[n].txs| && trace[n].txs[w].phase.Committed?
  {
    RunKeepsInv(trace, steps, n);
  }

  lemma {:induction false} RunKeepsInv(trace: seq<State>, steps: seq<Step>, n: nat)
    requires Run(true, trace, steps) && n < |trace|
    ensures Inv(trace[n])
  {
    if n > 0 {
      RunKeepsInv(trace, steps, n - 1);
      StepKeepsInv(trace[n - 1], steps[n - 1]);
    }
  }

  function Pair(org: string, p: Phase, q: Phase): seq<Tx> { [Tx(org, 1, p), Tx(org, 1, q)] }

  /** One more step of a run. */
  lemma Extend(trace: seq<State>, steps: seq<Step>, step: Step) returns (longer: seq<State>, more: seq<Step>)
    requires Run(false, trace, steps) && Enabled(false, trace[|steps|], step)
    ensures Run(false, longer, more) && longer[0] == trace[0] && longer[|more|] == Apply(trace[|steps|], step)
  {
    hide Apply, Initial;
    longer, more := trace + [Apply(trace[|steps|], step)], steps + [step];
  }

  /** Both transactions count before either finishes. */
  lemma BothCount(org: string) returns (trace: seq<State>, steps: seq<Step>)
    ensures Run(false, trace, steps) && SameCap(trace[0], org, 1) && trace[0].table == []
    ensures trace[|steps|].txs == Pair(org, Counted(1), Counted(1)) && trace[|steps|].table == []
  {
    hide Release;
    trace, steps := [State([], map[], Pair(org, Waiting, Waiting))], [];
    trace, steps := Extend(trace, steps, Lock(0));
    assert trace[|steps|].txs == Pair(org, Locked, Waiting);
    trace, steps := Extend(trace, steps, Lock(1));
    assert trace[|steps|].txs == Pair(org, Locked, Locked);
    trace, steps := Extend(trace, steps, Insert(0));
    assert trace[|steps|].txs == Pair(org, Inserted, Locked);
    trace, steps := Extend(trace, steps, Insert(1));
    assert trace[|steps|].txs == Pair(org, Inserted, Inserted);
    trace, steps := Extend(trace, steps, Count(0));
    assert trace[|steps|].txs == Pair(org, Counted(1), Inserted);
    trace, steps := Extend(trace, steps, Count(1));
    assert trace[|steps|].txs == Pair(org, Counted(1), Counted(1));
  }

  /** Without the lock the recount does not help: two transactions pass a cap with one place left. */
  lemma RecountAloneOvershoots(org: string) returns (trace: seq<State>, steps: seq<Step>)
    ensures Run(false, trace, steps) && SameCap(trace[0], org, 1)
    ensures RowsOf(trace[0].table, org) < 1 < RowsOf(trace[|steps|].table, org)
  {
    hide Run;
    trace, steps := BothCount(org);
    LastIsThere(false, trace, steps);
    trace, steps := Extend(trace, steps, Finish(0));
    LastIsThere(false, trace, steps);
    assert trace[|steps|].txs == Pair(org, Committed, Counted(1)) && trace[|steps|].table == [Row(org, Some(0))];
    trace, steps := Extend(trace, steps, Finish(1));
    LastIsThere(false, trace, steps);
    var table := [Row(org, Some(0)), Row(org, Some(1))];
    assert trace[|steps|].table == table;
    assert table[..1] == [Row(org, Some(0))] && [Row(org, Some(0))][..0] == [];
  }

  lemma LastIsThere(locking: bool, trace: seq<State>, steps: seq<Step>)
    requires Run(locking, trace, steps)
    ensures |trace| == |steps| + 1
  {
  }
}
