/**
 Concurrent approve and reject calls as interleaved steps. `SELECT ... FOR UPDATE` gives one
 transaction at a time the row; its writes stay in the transaction until it commits.
 */
module AgentProtocol {
  import opened Wrappers
  import opened AgentActions

  datatype Phase =
    | Reviewing(approve: bool)   // row locked and read
    | Running                    // approval flushed, savepoint open
    | Deciding                   // outcome recorded in the session

  /** An open transaction: the locked request, the session's copy of its row, and its staged writes. */
  datatype Session = Session(id: nat, row: Row, phase: Phase, writes: nat)

  /** `effects[id]` counts the committed executor effects of a request. */
  datatype State = State(rows: map<nat, Row>, effects: map<nat, nat>, open: map<nat, Session>)

  datatype Step =
    | Propose(id: nat)
    | Lock(tx: nat, id: nat, approve: bool)
    | Review(tx: nat, reviewer: nat)       // approve or reject the row; a non-pending row raises
    | Write(tx: nat)                       // the executor stages its effect
    | Succeed(tx: nat, now: int)           // the executor returns, having staged its effect
    | Fail(tx: nat, error: ExecutorError, message: string)
    | Commit(tx: nat)
    | Abort(tx: nat)

  predicate Locked(s: State, id: nat) { exists tx :: tx in s.open && s.open[tx].id == id }

  predicate Enabled(s: State, step: Step) {
    match step
    case Propose(id) => id !in s.rows
    case Lock(tx, id, _) => tx !in s.open && id in s.rows && !Locked(s, id)
    case Review(tx, _) => tx in s.open && s.open[tx].phase.Reviewing?
    case Write(tx) => tx in s.open && s.open[tx].phase.Running? && s.open[tx].writes == 0
    case Succeed(tx, _) => tx in s.open && s.open[tx].phase.Running? && s.open[tx].writes == 1 && s.open[tx].row.status.Approved?
    case Fail(tx, _, _) => tx in s.open && s.open[tx].phase.Running? && s.open[tx].row.status.Approved?
    case Commit(tx) => tx in s.open && s.open[tx].phase.Deciding? && s.open[tx].id in s.rows && s.open[tx].id in s.effects
    case Abort(tx) => tx in s.open
  }

  function Apply(s: State, step: Step): State
    requires Enabled(s, step)
  {
    match step
    case Propose(id) => s.(rows := s.rows[id := NewRow], effects := s.effects[id := 0])
    case Lock(tx, id, approve) => s.(open := s.open[tx := Session(id, s.rows[id], Reviewing(approve), 0)])
    case Review(tx, reviewer) =>
      var x := s.open[tx];
      var row := if x.phase.approve then ApproveRow(x.row, reviewer) else RejectRow(x.row, reviewer);
      if row.None? then s.(open := s.open - {tx})
      else s.(open := s.open[tx := x.(row := row.value, phase := if x.phase.approve then Running else Deciding)])
    case Write(tx) => s.(open := s.open[tx := s.open[tx].(writes := 1)])
    case Succeed(tx, now) =>
      s.(open := s.open[tx := s.open[tx].(row := MarkExecuted(s.open[tx].row, now).value, phase := Deciding)])
    case Fail(tx, error, message) =>
      // the savepoint rolls back; only an expected error lets the transaction go on
      if !Expected(error) then s.(open := s.open - {tx})
      else s.(open := s.open[tx := s.open[tx].(row := MarkFailed(s.open[tx].row, message).value, phase := Deciding, writes := 0)])
    case Commit(tx) =>
      var x := s.open[tx];
      s.(rows := s.rows[x.id := x.row], effects := s.effects[x.id := s.effects[x.id] + x.writes], open := s.open - {tx})
    case Abort(tx) => s.(open := s.open - {tx})
  }

  ghost predicate Initial(s: State) { s.rows == map[] && s.effects == map[] && s.open == map[] }

  ghost predicate IsRun(states: seq<State>, steps: seq<Step>) {
    && |states| == |steps| + 1
    && forall i :: 0 <= i < |steps| ==> Enabled(states[i], steps[i]) && states[i + 1] == Apply(states[i], steps[i])
  }

  // ---------------------------------------------------------------- what every step keeps

  /** No committed row rests in approved, and effects are there once exactly for executed requests. */
  ghost predicate RowsConsistent(s: State) {
    && s.rows.Keys == s.effects.Keys
    && forall id :: id in s.rows ==>
         && !s.rows[id].status.Approved?
         && ChecksPass(s.rows[id])
         && s.effects[id] == if s.rows[id].status.Executed? then 1 else 0
  }

  /** A session past its lock works on a request that is still pending in the tables. */
  ghost predicate SessionsConsistent(s: State) {
    forall tx :: tx in s.open ==>
      && s.open[tx].id in s.rows
      && SessionOk(s.open[tx], s.rows[s.open[tx].id])
  }

  ghost predicate SessionOk(x: Session, committed: Row) {
    match x.phase
    case Reviewing(_) => x.row == committed && x.writes == 0
    case Running => committed.status.Pending? && x.row.status.Approved? && x.row.reviewer.Some? && x.writes <= 1
    case Deciding =>
      && committed.status.Pending? && Terminal(x.row.status) && ChecksPass(x.row)
      && x.writes == if x.row.status.Executed? then 1 else 0
  }

  ghost predicate LocksExclusive(s: State) {
    forall t, u :: t in s.open && u in s.open && s.open[t].id == s.open[u].id ==> t == u
  }

  ghost predicate Inv(s: State) { RowsConsistent(s) && SessionsConsistent(s) && LocksExclusive(s) }

  /** Changing what one session holds, on the same request. */
  lemma SessionKeepsInv(s: State, tx: nat, x: Session)
    requires Inv(s) && tx in s.open && x.id == s.open[tx].id && SessionOk(x, s.rows[x.id])
    ensures Inv(s.(open := s.open[tx := x]))
  {
  }

  lemma CloseKeepsInv(s: State, tx: nat)
    requires Inv(s)
    ensures Inv(s.(open := s.open - {tx}))
  {
  }

  lemma CommitKeepsInv(s: State, step: Step)
    requires Inv(s) && Enabled(s, step) && step.Commit?
    ensures Inv(Apply(s, step))
  {
    assert SessionOk(s.open[step.tx], s.rows[s.open[step.tx].id]);
  }

  lemma StepKeepsInv(s: State, step: Step)
    requires Inv(s) && Enabled(s, step)
    ensures Inv(Apply(s, step))
  {
    if step.Propose? || step.Lock? {
    } else if step.Commit? {
      CommitKeepsInv(s, step);
    } else {
      var t := Apply(s, step);
      assert SessionOk(s.open[step.tx], s.rows[s.open[step.tx].id]);
      if step.tx in t.open {
        SessionKeepsInv(s, step.tx, t.open[step.tx]);
      } else {
        CloseKeepsInv(s, step.tx);
      }
    }
  }

  lemma RunKeepsInv(states: seq<State>, steps: seq<Step>)
    requires IsRun(states, steps) && Initial(states[0])
    ensures forall i :: 0 <= i < |states| ==> Inv(states[i])
  {
    var n := 0;
    while n < |steps|
      invariant 0 <= n <= |steps|
      invariant forall i :: 0 <= i <= n ==> Inv(states[i])
    {
      StepKeepsInv(states[n], steps[n]);
      n := n + 1;
    }
  }

  // ---------------------------------------------------------------- the theorems

  /** In every committed state: never approved, one effect exactly when executed, none otherwise. */
  lemma ApprovalSafety(states: seq<State>, steps: seq<Step>, n: nat, id: nat)
    requires IsRun(states, steps) && Initial(states[0]) && n < |states|
    requires id in states[n].rows
    ensures !states[n].rows[id].status.Approved?
    ensures id in states[n].effects
    ensures states[n].effects[id] == if states[n].rows[id].status.Executed? then 1 else 0
    ensures ChecksPass(states[n].rows[id])
  {
    RunKeepsInv(states, steps);
  }

  /** Every committed change of a row leaves pending for a terminal status, so a request is decided once. */
  lemma {:induction false} DecidedOnce(states: seq<State>, steps: seq<Step>, m: nat, n: nat, id: nat)
    requires IsRun(states, steps) && Initial(states[0]) && m <= n < |states|
    requires id in states[m].rows && Terminal(states[m].rows[id].status)
    ensures id in states[n].rows && states[n].rows[id] == states[m].rows[id]
    ensures id in states[m].effects && id in states[n].effects && states[n].effects[id] == states[m].effects[id]
    decreases n - m
  {
    RunKeepsInv(states, steps);
    if m < n {
      DecidedStep(states[m], steps[m], id);
      DecidedOnce(states, steps, m + 1, n, id);
    }
  }

  lemma DecidedStep(s: State, step: Step, id: nat)
    requires Inv(s) && Enabled(s, step)
    requires id in s.rows && Terminal(s.rows[id].status)
    ensures var t := Apply(s, step); id in t.rows && t.rows[id] == s.rows[id] && t.effects[id] == s.effects[id]
  {
  }

  /**
   A failing executor: an expected error goes on to be recorded as a failure without its writes; any
   other error - including the executors' own precondition error - ends the transaction, so the
   request is left as it was.
   */
  lemma FailureIsRecordedIffExpected(s: State, tx: nat, error: ExecutorError, message: string)
    requires Inv(s) && Enabled(s, Fail(tx, error, message))
    ensures var t := Apply(s, Fail(tx, error, message));
            && t.rows == s.rows && t.effects == s.effects
            && (tx in t.open <==> Expected(error))
            && (tx in t.open ==>
                  && t.open[tx].id == s.open[tx].id && t.open[tx].phase.Deciding? && t.open[tx].writes == 0
                  && t.open[tx].row.status.ExecutionFailed? && t.open[tx].row.error == Some(message))
  {
  }

  /** So a request whose target does not exist is never marked as failed: its approval ends in an error. */
  lemma MissingTargetStaysPending(s: State, tx: nat, message: string)
    requires Inv(s) && Enabled(s, Fail(tx, PreconditionFailed, message))
    ensures var id, t := s.open[tx].id, Apply(s, Fail(tx, PreconditionFailed, message));
            id in t.rows && t.rows[id].status.Pending? && tx !in t.open
  {
    assert SessionOk(s.open[tx], s.rows[s.open[tx].id]);
  }

  // ---------------------------------------------------------------- where a decision comes from

  /** The step that decides a request with this outcome, in the state it was taken from. */
  ghost predicate Decides(s: State, step: Step, id: nat, row: Row) {
    if row.status.ExecutionFailed? then
      && step.Fail? && Expected(step.error) && row.error == Some(step.message)
      && step.tx in s.open && s.open[step.tx].id == id && s.open[step.tx].phase.Running?
    else if row.status.Executed? then
      && step.Succeed? && row.executedAt == Some(step.now)
      && step.tx in s.open && s.open[step.tx].id == id && s.open[step.tx].writes == 1
    else
      && row.status.Rejected? && step.Review? && row.reviewer == Some(step.reviewer)
      && step.tx in s.open && s.open[step.tx].id == id && s.open[step.tx].phase == Reviewing(false)
  }

  ghost predicate Decided(states: seq<State>, steps: seq<Step>, n: nat, id: nat, row: Row)
    requires n <= |steps| <= |states|
  {
    exists i :: 0 <= i < n && Decides(states[i], steps[i], id, row)
  }

  /** Every committed decision and every decision about to be committed has its step. */
  ghost predicate AllDecided(states: seq<State>, steps: seq<Step>, n: nat)
    requires n <= |steps| < |states|
  {
    && (forall id :: id in states[n].rows && Terminal(states[n].rows[id].status) ==> Decided(states, steps, n, id, states[n].rows[id]))
    && (forall tx :: tx in states[n].open && states[n].open[tx].phase.Deciding? ==>
          Decided(states, steps, n, states[n].open[tx].id, states[n].open[tx].row))
  }

  lemma DecidedLater(states: seq<State>, steps: seq<Step>, n: nat, id: nat, row: Row)
    requires n < |steps| < |states|
    requires Decided(states, steps, n, id, row) || Decides(states[n], steps[n], id, row)
    ensures Decided(states, steps, n + 1, id, row)
  {
  }

  /** A session that a step brings to its decision is decided by that step. */
  lemma StepDecides(s: State, step: Step, tx: nat)
    requires Inv(s) && Enabled(s, step)
    requires var t := Apply(s, step); tx in t.open && t.open[tx].phase.Deciding?
    ensures var t := Apply(s, step);
            || (tx in s.open && s.open[tx] == t.open[tx])
            || Decides(s, step, t.open[tx].id, t.open[tx].row)
  {
  }

  /** A committed decision was there before, or a session was about to commit it. */
  lemma StepCommits(s: State, step: Step, id: nat)
    requires Inv(s) && Enabled(s, step)
    requires var t := Apply(s, step); id in t.rows && Terminal(t.rows[id].status)
    ensures var t := Apply(s, step);
            || (id in s.rows && s.rows[id] == t.rows[id])
            || (exists tx :: tx in s.open && s.open[tx].phase.Deciding? && s.open[tx].id == id && s.open[tx].row == t.rows[id])
  {
  }

  lemma AllDecidedStep(states: seq<State>, steps: seq<Step>, n: nat)
    requires IsRun(states, steps) && n < |steps| && Inv(states[n]) && AllDecided(states, steps, n)
    ensures AllDecided(states, steps, n + 1)
  {
    hide Inv, Enabled, Apply, Decides, Decided;
    var s, t, step := states[n], states[n + 1], steps[n];
    forall id | id in t.rows && Terminal(t.rows[id].status) ensures Decided(states, steps, n + 1, id, t.rows[id]) {
      StepCommits(s, step, id);
      DecidedLater(states, steps, n, id, t.rows[id]);
    }
    forall tx | tx in t.open && t.open[tx].phase.Deciding? ensures Decided(states, steps, n + 1, t.open[tx].id, t.open[tx].row) {
      StepDecides(s, step, tx);
      DecidedLater(states, steps, n, t.open[tx].id, t.open[tx].row);
    }
  }

  /**
   Under every interleaving each committed decision comes from one step of the run on that request: a
   failure only from an executor's expected error, with its message; an execution only from a
   success with staged effects; a rejection only from its reviewer. So no error outside the expected
   ones is ever recorded as a failure.
   */
  lemma {:induction false} DecisionHasItsStep(states: seq<State>, steps: seq<Step>, n: nat)
    requires IsRun(states, steps) && Initial(states[0]) && n < |states|
    ensures forall id :: id in states[n].rows && Terminal(states[n].rows[id].status) ==>
              exists i :: 0 <= i < n && Decides(states[i], steps[i], id, states[n].rows[id])
    ensures AllDecided(states, steps, n)
  {
    hide Inv, Decides;
    if n > 0 {
      DecisionHasItsStep(states, steps, n - 1);
      RunKeepsInv(states, steps);
      AllDecidedStep(states, steps, n - 1);
    }
    assert forall id :: id in states[n].rows && Terminal(states[n].rows[id].status) ==> Decided(states, steps, n, id, states[n].rows[id]);
  }

  // ---------------------------------------------------------------- where a decision goes

  /** No step from m to n (excluded) ends the transaction. */
  ghost predicate StaysOpen(steps: seq<Step>, tx: nat, m: nat, n: nat)
    requires m <= n <= |steps|
  {
    forall i :: m <= i < n ==> steps[i] != Commit(tx) && steps[i] != Abort(tx)
  }

  /** Once decided, a session does not change until it ends. */
  lemma {:induction false} DecidedSessionIsKept(states: seq<State>, steps: seq<Step>, tx: nat, m: nat, n: nat)
    requires IsRun(states, steps) && m <= n <= |steps| && StaysOpen(steps, tx, m, n)
    requires tx in states[m].open && states[m].open[tx].phase.Deciding?
    ensures tx in states[n].open && states[n].open[tx] == states[m].open[tx]
    decreases n - m
  {
    if m < n {
      assert steps[m] != Commit(tx) && steps[m] != Abort(tx);
      assert tx in states[m + 1].open && states[m + 1].open[tx] == states[m].open[tx];
      DecidedSessionIsKept(states, steps, tx, m + 1, n);
    }
  }

  /** A decided session that commits puts its row, and its effects, into the tables for good. */
  lemma DecisionIsCommitted(states: seq<State>, steps: seq<Step>, tx: nat, m: nat, n: nat, later: nat)
    requires IsRun(states, steps) && Initial(states[0]) && m <= n < |steps| && n < later < |states|
    requires tx in states[m].open && states[m].open[tx].phase.Deciding?
    requires StaysOpen(steps, tx, m, n) && steps[n] == Commit(tx)
    ensures var x := states[m].open[tx];
            && x.id in states[later].rows && states[later].rows[x.id] == x.row
            && x.id in states[later].effects && states[later].effects[x.id] == if x.row.status.Executed? then 1 else 0
  {
    RunKeepsInv(states, steps);
    DecidedSessionIsKept(states, steps, tx, m, n);
    var x := states[m].open[tx];
    assert SessionOk(states[m].open[tx], states[m].rows[x.id]);
    assert states[n + 1].rows[x.id] == x.row;
    DecidedOnce(states, steps, n + 1, later, x.id);
    ApprovalSafety(states, steps, later, x.id);
  }

  /**
   Under every interleaving a session whose executor fails either ends there, leaving its request as
   it was, or, when the error is an expected one, leaves its request as a failure with that error's
   message and without effects from its commit on.
   */
  lemma FailedSessionIsRecordedIffExpected(states: seq<State>, steps: seq<Step>, tx: nat, error: ExecutorError, message: string, m: nat, n: nat, later: nat)
    requires IsRun(states, steps) && Initial(states[0]) && m < n < |steps| && n < later < |states|
    requires steps[m] == Fail(tx, error, message) && tx in states[m].open
    ensures !Expected(error) ==> tx !in states[m + 1].open && states[m + 1].rows == states[m].rows
    ensures Expected(error) && StaysOpen(steps, tx, m + 1, n) && steps[n] == Commit(tx) ==>
              var id := states[m].open[tx].id;
              && id in states[later].rows && states[later].rows[id].status.ExecutionFailed?
              && states[later].rows[id].error == Some(message)
              && id in states[later].effects && states[later].effects[id] == 0
  {
    RunKeepsInv(states, steps);
    FailureIsRecordedIffExpected(states[m], tx, error, message);
    if Expected(error) && StaysOpen(steps, tx, m + 1, n) && steps[n] == Commit(tx) {
      DecisionIsCommitted(states, steps, tx, m + 1, n, later);
    }
  }

  // ---------------------------------------------------------------- a pending request can be decided

  ghost predicate CanRun(s: State, steps: seq<Step>)
    decreases |steps|
  {
    steps == [] || (Enabled(s, steps[0]) && CanRun(Apply(s, steps[0]), steps[1..]))
  }

  ghost function After(s: State, steps: seq<Step>): State
    requires CanRun(s, steps)
    decreases |steps|
  {
    if steps == [] then s else After(Apply(s, steps[0]), steps[1..])
  }

  /** The row and the effect count of one request are replaced, and the transaction is closed. */
  ghost predicate Leaves(s: State, t: State, id: nat, row: Row, effects: nat) {
    t == State(s.rows[id := row], s.effects[id := effects], t.open) && t.open.Keys == s.open.Keys
  }

  lemma StepThen(s: State, step: Step, rest: seq<Step>)
    requires Enabled(s, step) && CanRun(Apply(s, step), rest)
    ensures CanRun(s, [step] + rest) && After(s, [step] + rest) == After(Apply(s, step), rest)
  {
    assert ([step] + rest)[1..] == rest;
  }

  /** From a session that has decided, one commit leaves its decision. */
  lemma CommitLeaves(s: State, t: State, tx: nat)
    requires RowsConsistent(s) && s.effects == t.effects && s.rows == t.rows && t.open.Keys == s.open.Keys + {tx} && tx !in s.open
    requires tx in t.open && t.open[tx].phase.Deciding? && t.open[tx].id in s.rows && s.effects[t.open[tx].id] == 0
    ensures CanRun(t, [Commit(tx)]) && Leaves(s, After(t, [Commit(tx)]), t.open[tx].id, t.open[tx].row, t.open[tx].writes)
  {
    StepThen(t, Commit(tx), []);
    assert [Commit(tx)] + [] == [Commit(tx)];
  }

  /** Locking and reviewing a pending request. */
  lemma LockAndReview(s: State, id: nat, tx: nat, reviewer: nat, approve: bool, t: State, rest: seq<Step>)
    requires id in s.rows && s.rows[id].status.Pending? && !Locked(s, id) && tx !in s.open
    requires t == s.(open := s.open[tx := Session(id, s.rows[id].(status := if approve then Approved else Rejected, reviewer := Some(reviewer)),
                                                  if approve then Running else Deciding, 0)])
    requires CanRun(t, rest)
    ensures CanRun(s, [Lock(tx, id, approve), Review(tx, reviewer)] + rest)
    ensures After(s, [Lock(tx, id, approve), Review(tx, reviewer)] + rest) == After(t, rest)
  {
    hide CanRun, After;
    var locked := Apply(s, Lock(tx, id, approve));
    assert Enabled(locked, Review(tx, reviewer)) && Apply(locked, Review(tx, reviewer)) == t;
    StepThen(locked, Review(tx, reviewer), rest);
    StepThen(s, Lock(tx, id, approve), [Review(tx, reviewer)] + rest);
    assert [Lock(tx, id, approve)] + ([Review(tx, reviewer)] + rest) == [Lock(tx, id, approve), Review(tx, reviewer)] + rest;
  }

  /**
   A pending request that no session has locked can be executed, recorded as failed and rejected, each by
   the steps of one new session, which leave exactly that decision of its reviewer behind.
   */
  lemma PendingCanBeDecided(s: State, id: nat, tx: nat, reviewer: nat, now: int, error: ExecutorError, message: string)
    requires Inv(s) && id in s.rows && s.rows[id].status.Pending? && !Locked(s, id) && tx !in s.open && Expected(error)
    ensures var steps := [Lock(tx, id, true), Review(tx, reviewer)] + [Write(tx), Succeed(tx, now), Commit(tx)];
            CanRun(s, steps) && Leaves(s, After(s, steps), id, s.rows[id].(status := Executed, reviewer := Some(reviewer), executedAt := Some(now)), 1)
    ensures var steps := [Lock(tx, id, true), Review(tx, reviewer)] + [Fail(tx, error, message), Commit(tx)];
            CanRun(s, steps) && Leaves(s, After(s, steps), id, s.rows[id].(status := ExecutionFailed, reviewer := Some(reviewer), error := Some(message)), 0)
    ensures var steps := [Lock(tx, id, false), Review(tx, reviewer)] + [Commit(tx)];
            CanRun(s, steps) && Leaves(s, After(s, steps), id, s.rows[id].(status := Rejected, reviewer := Some(reviewer)), 0)
  {
    hide CanRun, After, Leaves, Inv, Enabled, Apply, RowsConsistent;
    assert RowsConsistent(s) && id in s.effects && s.effects[id] == 0 by { PendingHasNoEffect(s, id); }
    ExecuteFrom(s, id, tx, reviewer, now);
    FailFrom(s, id, tx, reviewer, error, message);
    RejectFrom(s, id, tx, reviewer);
  }

  lemma PendingHasNoEffect(s: State, id: nat)
    requires Inv(s) && id in s.rows && s.rows[id].status.Pending?
    ensures RowsConsistent(s) && id in s.effects && s.effects[id] == 0
  {
  }

  lemma ExecuteFrom(s: State, id: nat, tx: nat, reviewer: nat, now: int)
    requires RowsConsistent(s) && id in s.rows && s.rows[id].status.Pending? && !Locked(s, id) && tx !in s.open && id in s.effects && s.effects[id] == 0
    ensures var steps := [Lock(tx, id, true), Review(tx, reviewer)] + [Write(tx), Succeed(tx, now), Commit(tx)];
            CanRun(s, steps) && Leaves(s, After(s, steps), id, s.rows[id].(status := Executed, reviewer := Some(reviewer), executedAt := Some(now)), 1)
  {
    hide CanRun, After, RowsConsistent, Locked;
    var running := s.(open := s.open[tx := Session(id, s.rows[id].(status := Approved, reviewer := Some(reviewer)), Running, 0)]);
    var written := Apply(running, Write(tx));
    var succeeded := Apply(written, Succeed(tx, now));
    CommitLeaves(s, succeeded, tx);
    StepThen(written, Succeed(tx, now), [Commit(tx)]);
    StepThen(running, Write(tx), [Succeed(tx, now)] + [Commit(tx)]);
    assert [Write(tx)] + ([Succeed(tx, now)] + [Commit(tx)]) == [Write(tx), Succeed(tx, now), Commit(tx)];
    LockAndReview(s, id, tx, reviewer, true, running, [Write(tx), Succeed(tx, now), Commit(tx)]);
  }

  lemma FailFrom(s: State, id: nat, tx: nat, reviewer: nat, error: ExecutorError, message: string)
    requires RowsConsistent(s) && id in s.rows && s.rows[id].status.Pending? && !Locked(s, id) && tx !in s.open && id in s.effects && s.effects[id] == 0
    requires Expected(error)
    ensures var steps := [Lock(tx, id, true), Review(tx, reviewer)] + [Fail(tx, error, message), Commit(tx)];
            CanRun(s, steps) && Leaves(s, After(s, steps), id, s.rows[id].(status := ExecutionFailed, reviewer := Some(reviewer), error := Some(message)), 0)
  {
    hide CanRun, After, RowsConsistent, Locked;
    var running := s.(open := s.open[tx := Session(id, s.rows[id].(status := Approved, reviewer := Some(reviewer)), Running, 0)]);
    var failed := Apply(running, Fail(tx, error, message));
    CommitLeaves(s, failed, tx);
    StepThen(running, Fail(tx, error, message), [Commit(tx)]);
    assert [Fail(tx, error, message)] + [Commit(tx)] == [Fail(tx, error, message), Commit(tx)];
    LockAndReview(s, id, tx, reviewer, true, running, [Fail(tx, error, message), Commit(tx)]);
  }

  lemma RejectFrom(s: State, id: nat, tx: nat, reviewer: nat)
    requires RowsConsistent(s) && id in s.rows && s.rows[id].status.Pending? && !Locked(s, id) && tx !in s.open && id in s.effects && s.effects[id] == 0
    ensures var steps := [Lock(tx, id, false), Review(tx, reviewer)] + [Commit(tx)];
            CanRun(s, steps) && Leaves(s, After(s, steps), id, s.rows[id].(status := Rejected, reviewer := Some(reviewer)), 0)
  {
    hide CanRun, After, RowsConsistent, Locked;
    var deciding := s.(open := s.open[tx := Session(id, s.rows[id].(status := Rejected, reviewer := Some(reviewer)), Deciding, 0)]);
    CommitLeaves(s, deciding, tx);
    LockAndReview(s, id, tx, reviewer, false, deciding, [Commit(tx)]);
  }
}
