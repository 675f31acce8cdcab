/**
 Human approval of agent proposals: the request rows with their transition trigger, and the approve
 and reject transactions, where the mapped executor runs inside a savepoint.
 */
module AgentActions {
  import opened Wrappers

  datatype Status = Pending | Approved | Rejected | Executed | ExecutionFailed

  datatype Row = Row(status: Status, reviewer: Option<nat>, executedAt: Option<int>, error: Option<string>)

  const NewRow := Row(Pending, None, None, None)

  predicate Terminal(s: Status) { s.Rejected? || s.Executed? || s.ExecutionFailed? }

  /** The BEFORE UPDATE trigger: two hops, and nothing after a terminal status. */
  predicate TriggerAllows(before: Status, after: Status) {
    match before
    case Pending => after.Approved? || after.Rejected?
    case Approved => after.Executed? || after.ExecutionFailed?
    case _ => false
  }

  /** The CHECK constraints on a row. */
  predicate ChecksPass(r: Row) {
    && (r.status.Approved? || r.status.Rejected? ==> r.reviewer.Some?)
    && (r.status.Executed? ==> r.executedAt.Some?)
    && (r.status.ExecutionFailed? ==> r.error.Some?)
  }

  // ---------------------------------------------------------------- repository transitions

  function ApproveRow(r: Row, reviewer: nat): Option<Row> {
    if !r.status.Pending? then None else Some(r.(status := Approved, reviewer := Some(reviewer)))
  }

  function RejectRow(r: Row, reviewer: nat): Option<Row> {
    if !r.status.Pending? then None else Some(r.(status := Rejected, reviewer := Some(reviewer)))
  }

  function MarkExecuted(r: Row, at: int): Option<Row> {
    if !r.status.Approved? then None else Some(r.(status := Executed, executedAt := Some(at)))
  }

  function MarkFailed(r: Row, error: string): Option<Row> {
    if !r.status.Approved? then None else Some(r.(status := ExecutionFailed, error := Some(error)))
  }

  // ---------------------------------------------------------------- executors

  datatype ExecutorError =
    | AlreadyResolved | NoAssignedModel | CustomerNotEligible | CalendarCacheMiss
    | PreconditionFailed     // the executors' own "not found" error
    | Unforeseen

  /** The error types `approve` catches. The executors' own precondition error is not among them. */
  predicate Expected(e: ExecutorError) {
    e.AlreadyResolved? || e.NoAssignedModel? || e.CustomerNotEligible? || e.CalendarCacheMiss?
  }

  datatype Answer = Done(row: Row) | NotFound | NotPending | InternalError

  // ---------------------------------------------------------------- the transactions

  class ApprovalQueue {
    var rows: map<nat, Row>
    var effects: seq<nat>      // request ids of committed executor effects

    constructor ()
      ensures rows == map[] && effects == []
    {
      rows, effects := map[], [];
    }

    /**
     `approve` under the row lock: the executor's writes and its outcome commit together with the
     approval; an expected error keeps the approval and drops the writes; any other error drops
     everything. `writes` are what the executor staged before it returned or raised.
     */
    method Approve(id: nat, reviewer: nat, now: int, writes: seq<nat>, failure: Option<ExecutorError>, message: string)
      returns (answer: Answer)
      requires id in rows ==> ChecksPass(rows[id])
      modifies this
      ensures answer == NotFound <==> id !in old(rows)
      ensures answer == NotPending <==> id in old(rows) && !old(rows)[id].status.Pending?
      ensures !answer.Done? ==> rows == old(rows) && effects == old(effects)
      ensures answer.InternalError? <==> id in old(rows) && old(rows)[id].status.Pending?
                                         && failure.Some? && !Expected(failure.value)
      ensures answer.Done? ==> id in old(rows) && rows == old(rows)[id := answer.row] && ChecksPass(answer.row)
      ensures answer.Done? ==>
                var before := old(rows)[id];
                answer.row == if failure.None? then Row(Executed, Some(reviewer), Some(now), before.error)
                              else Row(ExecutionFailed, Some(reviewer), before.executedAt, Some(message))
      ensures answer.Done? ==> effects == if failure.None? then old(effects) + writes else old(effects)
    {
      if id !in rows { return NotFound; }
      var row := rows[id];
      var approved := ApproveRow(row, reviewer);
      if approved.None? { return NotPending; }
      // opening the savepoint flushes the approval
      assert TriggerAllows(row.status, approved.value.status) && ChecksPass(approved.value);
      row := approved.value;
      var staged: seq<nat> := [];
      var savepoint := staged;
      staged := staged + writes;
      if failure.Some? {
        staged := savepoint;
        if !Expected(failure.value) { return InternalError; }
        row := MarkFailed(row, message).value;
      } else {
        row := MarkExecuted(row, now).value;
      }
      // the commit flushes the outcome
      assert TriggerAllows(approved.value.status, row.status) && ChecksPass(row);
      rows, effects := rows[id := row], effects + staged;
      return Done(row);
    }

    /** `reject` under the row lock. */
    method Reject(id: nat, reviewer: nat) returns (answer: Answer)
      requires id in rows ==> ChecksPass(rows[id])
      modifies this`rows
      ensures answer == NotFound <==> id !in old(rows)
      ensures answer == NotPending <==> id in old(rows) && !old(rows)[id].status.Pending?
      ensures !answer.Done? ==> rows == old(rows)
      ensures id in old(rows) && old(rows)[id].status.Pending? ==>
                && answer == Done(old(rows)[id].(status := Rejected, reviewer := Some(reviewer)))
                && rows == old(rows)[id := answer.row]
    {
      if id !in rows { return NotFound; }
      var rejected := RejectRow(rows[id], reviewer);
      if rejected.None? { return NotPending; }
      assert TriggerAllows(rows[id].status, rejected.value.status) && ChecksPass(rejected.value);
      rows := rows[id := rejected.value];
      return Done(rejected.value);
    }
  }
}
