/**
 The `job_outbox` table, its repository and the worker that drains it. Rows are numbered in order
 of insertion; the clock, the task handler and the row locks of other transactions are arbitrary.
 */
module Outbox {
  import opened Wrappers

  datatype Status = Pending | Processing | Completed | DeadLetter

  datatype Row = Row(
    createdAt: int,
    nextAttemptAt: int,
    attempts: nat,
    status: Status,
    lockedBy: Option<string>)

  // ---------------------------------------------------------------- one row

  function NewRow(createdAt: int, nextAttemptAt: int): Row {
    Row(createdAt, nextAttemptAt, 0, Pending, None)
  }

  predicate Claimable(r: Row, now: int) { r.status.Pending? && r.nextAttemptAt <= now }

  predicate HeldBy(r: Row, worker: string) { r.status.Processing? && r.lockedBy == Some(worker) }

  function Claimed(r: Row, worker: string): Row {
    r.(status := Processing, lockedBy := Some(worker), attempts := r.attempts + 1)
  }

  function Done(r: Row): Row { r.(status := Completed, lockedBy := None) }

  function Failed(r: Row, nextAttemptAt: int, maxAttempts: nat): Row {
    if r.attempts >= maxAttempts then r.(status := DeadLetter, lockedBy := None)
    else r.(status := Pending, lockedBy := None, nextAttemptAt := nextAttemptAt)
  }

  function Finished(r: Row, ok: bool, nextAttemptAt: int, maxAttempts: nat): Row {
    if ok then Done(r) else Failed(r, nextAttemptAt, maxAttempts)
  }

  predicate Terminal(r: Row) { r.status.Completed? || r.status.DeadLetter? }

  function Pow2(n: nat): (p: nat)
    ensures p >= 1
  {
    if n == 0 then 1 else 2 * Pow2(n - 1)
  }

  /** When a row that has failed on its given attempt is tried again. */
  function RetryAt(now: int, attempts: nat): int
    requires attempts >= 1
  {
    now + Pow2(attempts - 1)
  }

  // ---------------------------------------------------------------- the attempt budget

  /** How many more claims this row can still cause. */
  function RowBudget(r: Row, maxAttempts: nat): nat {
    match r.status
    case Pending => (if r.attempts < maxAttempts then maxAttempts - r.attempts else 0) + 1
    case Processing => if r.attempts < maxAttempts then maxAttempts - r.attempts + 1 else 0
    case _ => 0
  }

  function Budget(rows: seq<Row>, maxAttempts: nat): nat {
    if rows == [] then 0 else RowBudget(rows[0], maxAttempts) + Budget(rows[1..], maxAttempts)
  }

  lemma {:induction false} BudgetUpdate(rows: seq<Row>, i: int, r: Row, maxAttempts: nat)
    requires 0 <= i < |rows|
    ensures Budget(rows[i := r], maxAttempts)
         == Budget(rows, maxAttempts) - RowBudget(rows[i], maxAttempts) + RowBudget(r, maxAttempts)
  {
    if i == 0 {
      assert rows[i := r][1..] == rows[1..];
    } else {
      BudgetUpdate(rows[1..], i - 1, r, maxAttempts);
      assert rows[i := r][1..] == rows[1..][i - 1 := r];
    }
  }

  /** A claim uses up at least one unit of budget; completion, retry and dead-lettering add none. */
  lemma TransitionBudgets(r: Row, worker: string, ok: bool, nextAttemptAt: int, maxAttempts: nat)
    ensures r.status.Pending? ==> RowBudget(Claimed(r, worker), maxAttempts) < RowBudget(r, maxAttempts)
    ensures r.status.Processing? ==>
              RowBudget(Finished(r, ok, nextAttemptAt, maxAttempts), maxAttempts) <= RowBudget(r, maxAttempts)
  {
  }

  // ---------------------------------------------------------------- the repository

  /** A due pending row that no other transaction has locked. */
  predicate Free(rows: seq<Row>, locked: set<nat>, now: int, id: nat) {
    id < |rows| && Claimable(rows[id], now) && id !in locked
  }

  /** What a claim with SKIP LOCKED may take: an oldest one of the free rows. */
  predicate IsClaim(rows: seq<Row>, locked: set<nat>, now: int, id: nat) {
    && Free(rows, locked, now, id)
    && forall i: nat :: i < |rows| && Free(rows, locked, now, i) ==> rows[id].createdAt <= rows[i].createdAt
  }

  /** Every due pending row is locked by another transaction. */
  predicate NothingFree(rows: seq<Row>, locked: set<nat>, now: int) {
    forall i: nat :: i < |rows| && Claimable(rows[i], now) ==> i in locked
  }

  class JobOutbox {
    var rows: seq<Row>
    var locked: set<nat>    // rows under the lock of another worker's uncommitted claim

    constructor ()
      ensures rows == [] && locked == {}
    {
      rows, locked := [], {};
    }

    method Enqueue(createdAt: int, nextAttemptAt: int) returns (id: nat)
      modifies this
      ensures id == |old(rows)| && rows == old(rows) + [Row(createdAt, nextAttemptAt, 0, Pending, None)] && locked == old(locked)
    {
      id := |rows|;
      rows := rows + [NewRow(createdAt, nextAttemptAt)];
    }

    /** Claim the oldest due pending row that is not locked, if there is one. */
    method ClaimNext(worker: string, now: int) returns (claimed: Option<nat>)
      modifies this`rows
      ensures claimed.None? <==> NothingFree(old(rows), locked, now)
      ensures claimed.None? ==> rows == old(rows)
      ensures claimed.Some? ==>
                IsClaim(old(rows), locked, now, claimed.value)
      ensures claimed.Some? ==>
                var r := old(rows)[claimed.value];
                rows == old(rows)[claimed.value := Row(r.createdAt, r.nextAttemptAt, r.attempts + 1, Processing, Some(worker))]
    {
      if exists i :: 0 <= i < |rows| && Free(rows, locked, now, i) {
        var first := OldestFree(rows, locked, now);
        assert Free(rows, locked, now, first) && !NothingFree(rows, locked, now);
        rows := rows[first := Claimed(rows[first], worker)];
        claimed := Some(first);
      } else {
        assert forall i: nat :: i < |rows| && Claimable(rows[i], now) ==> i in locked || Free(rows, locked, now, i);
        claimed := None;
      }
    }

    /** `complete`: refused (`RuntimeError`) unless this worker holds the row. */
    method Complete(id: nat, worker: string) returns (held: bool)
      modifies this`rows
      ensures held <==> id < |old(rows)| && HeldBy(old(rows)[id], worker)
      ensures !held ==> rows == old(rows)
      ensures held ==> var r := old(rows)[id];
                rows == old(rows)[id := Row(r.createdAt, r.nextAttemptAt, r.attempts, Completed, None)]
    {
      held := id < |rows| && HeldBy(rows[id], worker);
      if held { rows := rows[id := Done(rows[id])]; }
    }

    /** `retry_or_dead_letter`: refused unless this worker holds the row. */
    method RetryOrDeadLetter(id: nat, worker: string, nextAttemptAt: int, maxAttempts: nat) returns (held: bool)
      modifies this`rows
      ensures held <==> id < |old(rows)| && HeldBy(old(rows)[id], worker)
      ensures !held ==> rows == old(rows)
      ensures held ==> var r := old(rows)[id];
                rows == old(rows)[id := if r.attempts >= maxAttempts then Row(r.createdAt, r.nextAttemptAt, r.attempts, DeadLetter, None)
                                        else Row(r.createdAt, nextAttemptAt, r.attempts, Pending, None)]
    {
      held := id < |rows| && HeldBy(rows[id], worker);
      if held { rows := rows[id := Failed(rows[id], nextAttemptAt, maxAttempts)]; }
    }
  }

  /** The index of an oldest free row. */
  function OldestFree(rows: seq<Row>, locked: set<nat>, now: int): (k: nat)
    requires exists i :: 0 <= i < |rows| && Free(rows, locked, now, i)
    ensures IsClaim(rows, locked, now, k)
  {
    var n := |rows| - 1;
    if exists i :: 0 <= i < n && Free(rows[..n], locked, now, i) then
      var k := OldestFree(rows[..n], locked, now);
      assert forall i: nat :: i < n ==> (Free(rows[..n], locked, now, i) <==> Free(rows, locked, now, i));
      if Free(rows, locked, now, n) && rows[n].createdAt < rows[k].createdAt then n else k
    else
      assert forall i: nat :: i < n ==> (Free(rows[..n], locked, now, i) <==> Free(rows, locked, now, i));
      n
  }

  // ---------------------------------------------------------------- other workers

  /**
   What the transactions of other workers may do to the table while nothing is enqueued: the row
   this worker holds and all terminal rows stay as they are, and the budget does not grow. Their row
   locks come and go as they like.
   */
  ghost predicate Rely(before: seq<Row>, after: seq<Row>, held: Option<nat>, maxAttempts: nat) {
    && |after| == |before|
    && (forall i :: 0 <= i < |before| && (Terminal(before[i]) || held == Some(i)) ==> after[i] == before[i])
    && Budget(after, maxAttempts) <= Budget(before, maxAttempts)
  }

  /** Any interference that `Rely` allows; a caller learns no more than that. */
  method Interfere(table: JobOutbox, ghost held: Option<nat>, ghost maxAttempts: nat)
    modifies table
    ensures Rely(old(table.rows), table.rows, held, maxAttempts)
  {
  }

  /** An arbitrary clock reading. */
  method Now() returns (t: int) {
    t := *;
  }

  /** The handler: an arbitrary outcome for each call, false being an exception; `calls` lists the calls it got. */
  class TaskHandler {
    ghost var calls: seq<(nat, bool)>

    constructor ()
      ensures calls == []
    {
      calls := [];
    }

    method Handle(id: nat) returns (ok: bool)
      modifies this
      ensures calls == old(calls) + [(id, ok)]
    {
      ok := *;
      calls := calls + [(id, ok)];
    }
  }

  // ---------------------------------------------------------------- the worker

  class OutboxWorker {
    const table: JobOutbox
    const handler: TaskHandler
    const workerId: string
    const maxAttempts: nat

    /** The constructor refuses `max_attempts < 1`. */
    constructor (table: JobOutbox, handler: TaskHandler, workerId: string, maxAttempts: nat)
      requires maxAttempts >= 1
      ensures this.table == table && this.handler == handler && this.workerId == workerId && this.maxAttempts == maxAttempts
    {
      this.table := table;
      this.handler := handler;
      this.workerId := workerId;
      this.maxAttempts := maxAttempts;
    }

    /**
     Claim one row, call its handler once outside the transaction, record the outcome. Nothing is found
     exactly when every due row is locked by another worker. Whatever other workers do in between, the
     row is completed after a call that returned; after one that raised it is a dead letter exactly when
     this was its last attempt, and otherwise pending again, two to the power of its earlier attempts
     seconds after the clock reading `at`. The budget falls.
     */
    method DrainOnce() returns (found: bool, id: nat, ok: bool, now: int, at: int)
      modifies table, handler
      ensures !found <==> NothingFree(old(table.rows), old(table.locked), now)
      ensures !found ==> table.rows == old(table.rows) && table.locked == old(table.locked) && handler.calls == old(handler.calls)
      ensures found ==> IsClaim(old(table.rows), old(table.locked), now, id)
      ensures found ==> id < |old(table.rows)| == |table.rows| && handler.calls == old(handler.calls) + [(id, ok)]
      ensures found ==>
                var r := old(table.rows)[id];
                table.rows[id] ==
                  if ok then Row(r.createdAt, r.nextAttemptAt, r.attempts + 1, Completed, None)
                  else if r.attempts + 1 >= maxAttempts then Row(r.createdAt, r.nextAttemptAt, r.attempts + 1, DeadLetter, None)
                  else Row(r.createdAt, at + Pow2(r.attempts), r.attempts + 1, Pending, None)
      ensures found ==> Budget(table.rows, maxAttempts) < Budget(old(table.rows), maxAttempts)
      ensures found ==> forall i :: 0 <= i < |table.rows| && Terminal(old(table.rows)[i])
                          ==> table.rows[i] == old(table.rows)[i]
    {
      hide NothingFree, RowBudget, Budget;
      id, ok, at := 0, true, 0;
      now := Now();
      var claim := table.ClaimNext(workerId, now);
      if claim.None? { return false, id, ok, now, at; }
      found, id := true, claim.value;
      ghost var claimed := table.rows[id];
      TransitionBudgets(old(table.rows)[id], workerId, true, 0, maxAttempts);
      BudgetUpdate(old(table.rows), id, claimed, maxAttempts);
      var attempts := table.rows[id].attempts;
      Interfere(table, Some(id), maxAttempts);
      ok := handler.Handle(id);
      Interfere(table, Some(id), maxAttempts);
      assert table.rows[id] == claimed && HeldBy(claimed, workerId);
      at := Now();
      TransitionBudgets(claimed, workerId, ok, RetryAt(at, attempts), maxAttempts);
      BudgetUpdate(table.rows, id, Finished(claimed, ok, RetryAt(at, attempts), maxAttempts), maxAttempts);
      if ok {
        var held := table.Complete(id, workerId);
        assert held;
      } else {
        var held := table.RetryOrDeadLetter(id, workerId, RetryAt(at, attempts), maxAttempts);
        assert held;
      }
    }

    /**
     Drain until nothing is free: what is still due at the end is locked by another worker's claim.
     Terminates although failed rows may become due again while it runs: every row drained costs
     budget, so the count never exceeds the budget at the start.
     */
    method DrainReady() returns (count: nat, now: int)
      modifies table, handler
      ensures count + Budget(table.rows, maxAttempts) <= Budget(old(table.rows), maxAttempts)
      ensures NothingFree(table.rows, table.locked, now)
      ensures |handler.calls| == |old(handler.calls)| + count && old(handler.calls) <= handler.calls
      ensures |table.rows| == |old(table.rows)|
      ensures forall i :: 0 <= i < |table.rows| && Terminal(old(table.rows)[i]) ==> table.rows[i] == old(table.rows)[i]
    {
      count := 0;
      var found, id, ok, t, at := DrainOnce();
      while found
        invariant |table.rows| == |old(table.rows)|
        invariant |handler.calls| == |old(handler.calls)| + count + (if found then 1 else 0) && old(handler.calls) <= handler.calls
        invariant count + (if found then 1 else 0) + Budget(table.rows, maxAttempts) <= Budget(old(table.rows), maxAttempts)
        invariant !found ==> NothingFree(table.rows, table.locked, t)
        invariant forall i :: 0 <= i < |table.rows| && Terminal(old(table.rows)[i]) ==> table.rows[i] == old(table.rows)[i]
        decreases Budget(table.rows, maxAttempts), found
      {
        count := count + 1;
        Interfere(table, None, maxAttempts);
        found, id, ok, t, at := DrainOnce();
      }
      now := t;
    }
  }
}
