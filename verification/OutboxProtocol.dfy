/**
 Any number of outbox worker processes against one table, as interleaved transactions. Two
 processes may share a worker id (it is derived from a process id); a process may stop at any point.
 */
module OutboxProtocol {
  import opened Wrappers
  import opened Outbox

  /** Where a process is inside `drain_once`. */
  datatype Phase =
    | Idle
    | Selected(id: nat)            // claim selected and row-locked, not yet committed
    | Holding(id: nat)             // claim committed, handler not yet called
    | Handled(id: nat, ok: bool)   // handler returned or raised

  /** `calls` counts handler calls per row; `faults` counts "row is not claimed by this worker" errors. */
  datatype State = State(rows: seq<Row>, phase: map<nat, Phase>, calls: seq<nat>, faults: nat)

  /** The fixed set of processes with their worker ids, and the one shared `max_attempts`. */
  datatype Config = Config(workerId: map<nat, string>, maxAttempts: nat)

  datatype Step =
    | Enqueue(createdAt: int, nextAttemptAt: int)
    | Select(p: nat, rowId: nat, now: int)
    | CommitClaim(p: nat)
    | Invoke(p: nat, ok: bool)
    | Finish(p: nat, now: int)
    | Stop(p: nat)

  // ---------------------------------------------------------------- the step relation

  predicate Touches(ph: Phase, id: nat) { !ph.Idle? && ph.id == id }

  /** The rows locked by claims that have not committed. */
  function LockedRows(s: State): set<nat> {
    set p | p in s.phase && s.phase[p].Selected? :: s.phase[p].id
  }

  /** The process is in a committed claim on the row. */
  predicate Holds(ph: Phase, id: nat) { (ph.Holding? || ph.Handled?) && ph.id == id }

  predicate Enabled(c: Config, s: State, step: Step) {
    match step
    case Enqueue(_, _) => true
    case Select(p, id, now) =>
      // FOR UPDATE SKIP LOCKED: an oldest due pending row no other claim has locked
      && p in s.phase && p in c.workerId && s.phase[p].Idle?
      && IsClaim(s.rows, LockedRows(s), now, id)
    case CommitClaim(p) => p in s.phase && p in c.workerId && s.phase[p].Selected? && s.phase[p].id < |s.rows|
    case Invoke(p, _) => p in s.phase && s.phase[p].Holding? && s.phase[p].id < |s.calls|
    case Finish(p, _) =>
      p in s.phase && p in c.workerId && s.phase[p].Handled? && s.phase[p].id < |s.rows| && s.rows[s.phase[p].id].attempts >= 1
    case Stop(p) => p in s.phase
  }

  function Apply(c: Config, s: State, step: Step): State
    requires Enabled(c, s, step)
  {
    match step
    case Enqueue(createdAt, nextAttemptAt) =>
      s.(rows := s.rows + [NewRow(createdAt, nextAttemptAt)], calls := s.calls + [0])
    case Select(p, id, _) => s.(phase := s.phase[p := Selected(id)])
    case CommitClaim(p) =>
      var id := s.phase[p].id;
      s.(rows := s.rows[id := Claimed(s.rows[id], c.workerId[p])], phase := s.phase[p := Holding(id)])
    case Invoke(p, ok) =>
      var id := s.phase[p].id;
      s.(calls := s.calls[id := s.calls[id] + 1], phase := s.phase[p := Handled(id, ok)])
    case Finish(p, now) =>
      var id, row := s.phase[p].id, s.rows[s.phase[p].id];
      if HeldBy(row, c.workerId[p]) then
        s.(rows := s.rows[id := Finished(row, s.phase[p].ok, RetryAt(now, row.attempts), c.maxAttempts)],
           phase := s.phase[p := Idle])
      else
        s.(faults := s.faults + 1, phase := s.phase[p := Idle])
    case Stop(p) => s.(phase := s.phase[p := Idle])
  }

  ghost predicate Initial(c: Config, s: State) {
    && c.maxAttempts >= 1
    && s.rows == [] && s.calls == [] && s.faults == 0
    && s.phase.Keys == c.workerId.Keys && (forall p :: p in s.phase ==> s.phase[p].Idle?)
  }

  /** Every state of a run follows from the one before by an enabled step. */
  ghost predicate IsRun(c: Config, states: seq<State>, steps: seq<Step>) {
    && |states| == |steps| + 1
    && forall i :: 0 <= i < |steps| ==> Enabled(c, states[i], steps[i]) && states[i + 1] == Apply(c, states[i], steps[i])
  }

  // ---------------------------------------------------------------- what every step keeps

  ghost predicate LocksMatch(s: State) {
    forall i :: 0 <= i < |s.rows| ==> (s.rows[i].status.Processing? <==> s.rows[i].lockedBy.Some?)
  }

  /** A process in a committed claim finds its row processing under its own id; a selected row is pending. */
  ghost predicate HoldersMatch(c: Config, s: State) {
    forall p :: p in s.phase ==>
      && p in c.workerId
      && (!s.phase[p].Idle? ==> s.phase[p].id < |s.rows|)
      && (s.phase[p].Selected? ==> s.rows[s.phase[p].id].status.Pending?)
      && (s.phase[p].Holding? || s.phase[p].Handled? ==> HeldBy(s.rows[s.phase[p].id], c.workerId[p]))
  }

  /** No two processes are busy with the same row. */
  ghost predicate Exclusive(s: State) {
    forall p, q, id :: p in s.phase && q in s.phase && Touches(s.phase[p], id) && Touches(s.phase[q], id) ==> p == q
  }

  /** Handler calls and attempts agree, except for a claim whose handler call has not come yet. */
  ghost predicate CallsMatch(s: State) {
    && |s.calls| == |s.rows|
    && forall i :: 0 <= i < |s.rows| ==>
         && s.calls[i] <= s.rows[i].attempts <= s.calls[i] + 1
         && (!s.rows[i].status.Processing? ==> s.calls[i] == s.rows[i].attempts)
         && (s.rows[i].status.Processing? ==> s.rows[i].attempts >= 1)
  }

  ghost predicate PhasesMatchCalls(s: State) {
    forall p :: p in s.phase && !s.phase[p].Idle? && s.phase[p].id < |s.rows| && s.phase[p].id < |s.calls| ==>
      && (s.phase[p].Holding? ==> s.calls[s.phase[p].id] + 1 == s.rows[s.phase[p].id].attempts)
      && (s.phase[p].Handled? ==> s.calls[s.phase[p].id] == s.rows[s.phase[p].id].attempts)
  }

  /** Attempts never exceed the shared maximum, and a dead letter has used all of it. */
  ghost predicate AttemptsBounded(c: Config, s: State) {
    forall i :: 0 <= i < |s.rows| ==>
      && s.rows[i].attempts <= c.maxAttempts
      && (s.rows[i].status.Pending? ==> s.rows[i].attempts < c.maxAttempts)
      && (s.rows[i].status.DeadLetter? ==> s.rows[i].attempts == c.maxAttempts)
  }

  ghost predicate Inv(c: Config, s: State) {
    && LocksMatch(s) && HoldersMatch(c, s) && Exclusive(s)
    && CallsMatch(s) && PhasesMatchCalls(s) && AttemptsBounded(c, s)
    && s.faults == 0 && c.maxAttempts >= 1
  }

  /** A process busy with a row is the only one. */
  lemma OnlyOne(s: State, p: nat)
    requires Exclusive(s) && p in s.phase && !s.phase[p].Idle?
    ensures forall q :: q in s.phase && q != p ==> !Touches(s.phase[q], s.phase[p].id)
  {
    assert Touches(s.phase[p], s.phase[p].id);
  }

  lemma EnqueueKeepsInv(c: Config, s: State, step: Step)
    requires Inv(c, s) && Enabled(c, s, step) && step.Enqueue?
    ensures Inv(c, Apply(c, s, step))
  {
  }

  lemma SelectKeepsInv(c: Config, s: State, step: Step)
    requires Inv(c, s) && Enabled(c, s, step) && step.Select?
    ensures Inv(c, Apply(c, s, step))
  {
    assert forall q :: q in s.phase && Touches(s.phase[q], step.rowId) ==> s.phase[q] == Selected(step.rowId);
  }

  lemma CommitKeepsHolders(c: Config, s: State, step: Step)
    requires Inv(c, s) && Enabled(c, s, step) && step.CommitClaim?
    ensures LocksMatch(Apply(c, s, step)) && HoldersMatch(c, Apply(c, s, step)) && Exclusive(Apply(c, s, step)) && Apply(c, s, step).faults == 0
  {
    hide CallsMatch, PhasesMatchCalls, RetryAt;
    OnlyOne(s, step.p);
  }

  lemma CommitKeepsCalls(c: Config, s: State, step: Step)
    requires Inv(c, s) && Enabled(c, s, step) && step.CommitClaim?
    ensures CallsMatch(Apply(c, s, step)) && PhasesMatchCalls(Apply(c, s, step)) && AttemptsBounded(c, Apply(c, s, step))
  {
    hide LocksMatch, Exclusive, RetryAt;
    OnlyOne(s, step.p);
  }

  lemma CommitKeepsInv(c: Config, s: State, step: Step)
    requires Inv(c, s) && Enabled(c, s, step) && step.CommitClaim?
    ensures Inv(c, Apply(c, s, step))
  {
    hide LocksMatch, HoldersMatch, Exclusive, CallsMatch, PhasesMatchCalls, AttemptsBounded, Enabled, Apply;
    CommitKeepsHolders(c, s, step);
    CommitKeepsCalls(c, s, step);
  }

  lemma InvokeKeepsInv(c: Config, s: State, step: Step)
    requires Inv(c, s) && Enabled(c, s, step) && step.Invoke?
    ensures Inv(c, Apply(c, s, step))
  {
    OnlyOne(s, step.p);
  }

  lemma FinishKeepsHolders(c: Config, s: State, step: Step)
    requires Inv(c, s) && Enabled(c, s, step) && step.Finish?
    ensures LocksMatch(Apply(c, s, step)) && HoldersMatch(c, Apply(c, s, step)) && Exclusive(Apply(c, s, step)) && Apply(c, s, step).faults == 0
  {
    hide CallsMatch, PhasesMatchCalls, RetryAt;
    OnlyOne(s, step.p);
  }

  lemma FinishKeepsCalls(c: Config, s: State, step: Step)
    requires Inv(c, s) && Enabled(c, s, step) && step.Finish?
    ensures CallsMatch(Apply(c, s, step)) && PhasesMatchCalls(Apply(c, s, step)) && AttemptsBounded(c, Apply(c, s, step))
  {
    hide LocksMatch, Exclusive, RetryAt;
    OnlyOne(s, step.p);
  }

  lemma FinishKeepsInv(c: Config, s: State, step: Step)
    requires Inv(c, s) && Enabled(c, s, step) && step.Finish?
    ensures Inv(c, Apply(c, s, step))
  {
    hide LocksMatch, HoldersMatch, Exclusive, CallsMatch, PhasesMatchCalls, AttemptsBounded, Enabled, Apply;
    FinishKeepsHolders(c, s, step);
    FinishKeepsCalls(c, s, step);
  }

  lemma StopKeepsInv(c: Config, s: State, step: Step)
    requires Inv(c, s) && Enabled(c, s, step) && step.Stop?
    ensures Inv(c, Apply(c, s, step))
  {
  }

  lemma StepKeepsInv(c: Config, s: State, step: Step)
    requires Inv(c, s) && Enabled(c, s, step)
    ensures Inv(c, Apply(c, s, step))
  {
    hide Inv, Enabled, Apply;
    match step
    case Enqueue(_, _) => EnqueueKeepsInv(c, s, step);
    case Select(_, _, _) => SelectKeepsInv(c, s, step);
    case CommitClaim(_) => CommitKeepsInv(c, s, step);
    case Invoke(_, _) => InvokeKeepsInv(c, s, step);
    case Finish(_, _) => FinishKeepsInv(c, s, step);
    case Stop(_) => StopKeepsInv(c, s, step);
  }

  /** Every state of every run satisfies the invariant. */
  lemma {:induction false} RunKeepsInv(c: Config, states: seq<State>, steps: seq<Step>)
    requires IsRun(c, states, steps) && Initial(c, states[0])
    ensures forall i :: 0 <= i < |states| ==> Inv(c, states[i])
  {
    var n := 0;
    while n < |steps|
      invariant 0 <= n <= |steps|
      invariant forall i :: 0 <= i <= n ==> Inv(c, states[i])
    {
      StepKeepsInv(c, states[n], steps[n]);
      n := n + 1;
    }
  }

  // ---------------------------------------------------------------- the theorems

  /** An idle process can claim nothing exactly when every due row is selected by another process. */
  lemma NothingToSelectIff(c: Config, s: State, p: nat, now: int)
    requires p in s.phase && p in c.workerId && s.phase[p].Idle?
    ensures (forall id: nat :: !Enabled(c, s, Select(p, id, now))) <==> NothingFree(s.rows, LockedRows(s), now)
    ensures NothingFree(s.rows, LockedRows(s), now) <==>
              forall i: nat :: i < |s.rows| && Claimable(s.rows[i], now) ==> SelectedByOther(s, p, i)
  {
    if !NothingFree(s.rows, LockedRows(s), now) {
      var i: nat :| i < |s.rows| && Claimable(s.rows[i], now) && i !in LockedRows(s);
      assert Free(s.rows, LockedRows(s), now, i);
      assert Enabled(c, s, Select(p, OldestFree(s.rows, LockedRows(s), now), now));
    }
  }

  /** A process in a claim can always go on: commit it, call the handler with either outcome, record the outcome. */
  lemma ClaimGoesOn(c: Config, s: State, p: nat, ok: bool, now: int)
    requires Inv(c, s) && p in s.phase && !s.phase[p].Idle?
    ensures Enabled(c, s, if s.phase[p].Selected? then CommitClaim(p) else if s.phase[p].Holding? then Invoke(p, ok) else Finish(p, now))
  {
    assert s.phase[p].Handled? ==> s.rows[s.phase[p].id].attempts >= 1;
  }

  ghost predicate SelectedByOther(s: State, p: nat, id: nat) {
    exists q :: q != p && q in s.phase && s.phase[q] == Selected(id)
  }

  /**
   Safety of every reachable state: a row is processing exactly when it is locked; no two processes
   hold a row; no outcome was ever refused; handler calls equal attempts wherever the row is not
   in progress and never exceed the shared maximum; a dead letter was tried exactly that often.
   */
  lemma OutboxSafety(c: Config, states: seq<State>, steps: seq<Step>, n: nat)
    requires IsRun(c, states, steps) && Initial(c, states[0]) && n < |states|
    ensures var s := states[n];
            && |s.calls| == |s.rows| && s.faults == 0
            && (forall i :: 0 <= i < |s.rows| ==>
                  && (s.rows[i].status.Processing? <==> s.rows[i].lockedBy.Some?)
                  && s.calls[i] <= s.rows[i].attempts <= c.maxAttempts
                  && (!s.rows[i].status.Processing? ==> s.calls[i] == s.rows[i].attempts)
                  && (s.rows[i].status.DeadLetter? ==> s.calls[i] == c.maxAttempts))
            && (forall p, q, id :: p in s.phase && q in s.phase && Holds(s.phase[p], id) && Holds(s.phase[q], id) ==> p == q)
  {
    RunKeepsInv(c, states, steps);
    var s := states[n];
    forall p, q, id | p in s.phase && q in s.phase && Holds(s.phase[p], id) && Holds(s.phase[q], id) ensures p == q {
      assert Touches(s.phase[p], id) && Touches(s.phase[q], id);
    }
  }

  /** Completed and dead-lettered rows never change again, and no row ever disappears. */
  lemma {:induction false} TerminalForever(c: Config, states: seq<State>, steps: seq<Step>, m: nat, n: nat, id: nat)
    requires IsRun(c, states, steps) && Initial(c, states[0]) && m <= n < |states|
    requires id < |states[m].rows| && Terminal(states[m].rows[id])
    ensures id < |states[n].rows| && states[n].rows[id] == states[m].rows[id]
    decreases n - m
  {
    if m < n {
      RunKeepsInv(c, states, steps);
      TerminalStep(c, states[m], steps[m], id);
      TerminalForever(c, states, steps, m + 1, n, id);
    }
  }

  lemma TerminalStep(c: Config, s: State, step: Step, id: nat)
    requires Inv(c, s) && Enabled(c, s, step)
    requires id < |s.rows| && Terminal(s.rows[id])
    ensures id < |Apply(c, s, step).rows| && Apply(c, s, step).rows[id] == s.rows[id]
  {
  }

  /** What a commit of a claim and a recorded outcome leave in the row; no other row changes. */
  lemma StepRecords(c: Config, s: State, step: Step)
    requires Inv(c, s) && Enabled(c, s, step) && (step.CommitClaim? || step.Finish?)
    ensures var id, rows := s.phase[step.p].id, Apply(c, s, step).rows;
            |rows| == |s.rows| && forall i :: 0 <= i < |rows| && i != id ==> rows[i] == s.rows[i]
    ensures step.CommitClaim? ==>
              var id, r := s.phase[step.p].id, s.rows[s.phase[step.p].id];
              Apply(c, s, step).rows[id] == Row(r.createdAt, r.nextAttemptAt, r.attempts + 1, Processing, Some(c.workerId[step.p]))
    ensures step.Finish? ==>
              var id, r := s.phase[step.p].id, s.rows[s.phase[step.p].id];
              Apply(c, s, step).rows[id] ==
                if s.phase[step.p].ok then Row(r.createdAt, r.nextAttemptAt, r.attempts, Completed, None)
                else if r.attempts == c.maxAttempts then Row(r.createdAt, r.nextAttemptAt, r.attempts, DeadLetter, None)
                else Row(r.createdAt, step.now + Pow2(r.attempts - 1), r.attempts, Pending, None)
  {
    assert step.Finish? ==> HeldBy(s.rows[s.phase[step.p].id], c.workerId[step.p]);
  }

  /** A process in a committed claim on the row calls the handler, with this outcome, and then records it. */
  ghost predicate Ran(states: seq<State>, steps: seq<Step>, m: nat, k: nat, p: nat, id: nat, ok: bool) {
    && m < k < |steps| < |states|
    && steps[m] == Invoke(p, ok) && p in states[m].phase && states[m].phase[p] == Holding(id)
    && steps[k].Finish? && steps[k].p == p
    && forall i :: m < i <= k ==> p in states[i].phase && states[i].phase[p] == Handled(id, ok)
  }

  /** An outcome that waits to be recorded is that of the handler call the process made in its claim. */
  lemma {:induction false} OutcomeIsOfItsCall(c: Config, states: seq<State>, steps: seq<Step>, k: nat, p: nat)
    returns (m: nat)
    requires IsRun(c, states, steps) && Initial(c, states[0]) && k < |states|
    requires p in states[k].phase && states[k].phase[p].Handled?
    ensures m < k && var ph := states[k].phase[p];
            && steps[m] == Invoke(p, ph.ok) && p in states[m].phase && states[m].phase[p] == Holding(ph.id)
            && forall i :: m < i <= k ==> p in states[i].phase && states[i].phase[p] == ph
  {
    hide IsClaim;
    var s := states[k - 1];
    assert states[k] == Apply(c, s, steps[k - 1]);
    if steps[k - 1].Invoke? && steps[k - 1].p == p {
      m := k - 1;
    } else {
      assert p in s.phase && s.phase[p] == states[k].phase[p];
      m := OutcomeIsOfItsCall(c, states, steps, k - 1, p);
    }
  }

  /** The attempts a row has when its outcome is recorded. */
  ghost predicate LastAttempt(c: Config, s: State, id: nat) {
    id < |s.rows| && s.rows[id].attempts == c.maxAttempts
  }

  /**
   In every run, a row is completed if and only if a process holding it called the handler, the call
   returned, and the process recorded it; it is a dead letter if and only if such a call raised on the
   last attempt.
   */
  lemma OutcomesDecide(c: Config, states: seq<State>, steps: seq<Step>, n: nat, id: nat)
    requires IsRun(c, states, steps) && Initial(c, states[0]) && n < |states| && id < |states[n].rows|
    ensures states[n].rows[id].status.Completed? <==> exists m: nat, k: nat, p: nat :: k < n && Ran(states, steps, m, k, p, id, true)
    ensures states[n].rows[id].status.DeadLetter?
            <==> exists m: nat, k: nat, p: nat :: k < n && Ran(states, steps, m, k, p, id, false) && LastAttempt(c, states[k], id)
  {
    hide IsRun, Ran;
    if Terminal(states[n].rows[id]) {
      var m, k, p := TerminalWasRecorded(c, states, steps, n, id);
    }
    forall m: nat, k: nat, p: nat, ok | k < n && Ran(states, steps, m, k, p, id, ok)
      ensures ok ==> states[n].rows[id].status.Completed?
      ensures !ok && LastAttempt(c, states[k], id) ==> states[n].rows[id].status.DeadLetter?
    {
      if ok || LastAttempt(c, states[k], id) { RecordedIsTerminal(c, states, steps, m, k, p, id, ok, n); }
    }
  }

  lemma RecordedIsTerminal(c: Config, states: seq<State>, steps: seq<Step>, m: nat, k: nat, p: nat, id: nat, ok: bool, n: nat)
    requires IsRun(c, states, steps) && Initial(c, states[0]) && k < n < |states| && Ran(states, steps, m, k, p, id, ok)
    requires ok || LastAttempt(c, states[k], id)
    ensures id < |states[n].rows| && states[n].rows[id].status == if ok then Completed else DeadLetter
  {
    hide Inv;
    RunKeepsInv(c, states, steps);
    assert states[k].phase[p] == Handled(id, ok);
    StepRecords(c, states[k], steps[k]);
    BusyRowExists(c, states[k], p);
    assert states[k + 1] == Apply(c, states[k], steps[k]);
    TerminalForever(c, states, steps, k + 1, n, id);
  }

  lemma BusyRowExists(c: Config, s: State, p: nat)
    requires Inv(c, s) && p in s.phase && !s.phase[p].Idle?
    ensures s.phase[p].id < |s.rows|
  {
  }

  /** A terminal row was made so by a recorded outcome. */
  lemma {:induction false} TerminalWasRecorded(c: Config, states: seq<State>, steps: seq<Step>, n: nat, id: nat)
    returns (m: nat, k: nat, p: nat)
    requires IsRun(c, states, steps) && Initial(c, states[0]) && n < |states|
    requires id < |states[n].rows| && Terminal(states[n].rows[id])
    ensures k < n && Ran(states, steps, m, k, p, id, states[n].rows[id].status.Completed?)
    ensures states[n].rows[id].status.DeadLetter? ==> LastAttempt(c, states[k], id)
  {
    hide Inv, IsClaim;
    RunKeepsInv(c, states, steps);
    var s, step := states[n - 1], steps[n - 1];
    assert states[n] == Apply(c, s, step);
    if id < |s.rows| && Terminal(s.rows[id]) {
      TerminalStep(c, s, step, id);
      m, k, p := TerminalWasRecorded(c, states, steps, n - 1, id);
    } else {
      k, p := n - 1, step.p;
      StepRecords(c, s, step);
      m := OutcomeIsOfItsCall(c, states, steps, k, p);
    }
  }

  /** The steps of every other process are what `drain_once` of this process relies on. */
  lemma OthersRespectRely(c: Config, s: State, step: Step, p: nat)
    requires Inv(c, s) && Enabled(c, s, step) && p in s.phase
    requires !step.Enqueue? && step.p != p
    ensures var held := if s.phase[p].Holding? || s.phase[p].Handled? then Some(s.phase[p].id) else None;
            Rely(s.rows, Apply(c, s, step).rows, held, c.maxAttempts)
  {
    StepBudget(c, s, step);
    if step.CommitClaim? || step.Finish? {
      var id := s.phase[step.p].id;
      assert Touches(s.phase[step.p], id);
      assert !Touches(s.phase[p], id);
    }
  }

  /** A committed claim costs at least one unit of budget, and no step other than an enqueue adds any. */
  lemma StepBudget(c: Config, s: State, step: Step)
    requires Inv(c, s) && Enabled(c, s, step) && !step.Enqueue?
    ensures Budget(Apply(c, s, step).rows, c.maxAttempts) + (if step.CommitClaim? then 1 else 0)
         <= Budget(s.rows, c.maxAttempts)
  {
    match step
    case CommitClaim(p) =>
      var id := s.phase[p].id;
      BudgetUpdate(s.rows, id, Claimed(s.rows[id], c.workerId[p]), c.maxAttempts);
    case Finish(p, now) =>
      var id, row := s.phase[p].id, s.rows[s.phase[p].id];
      BudgetUpdate(s.rows, id, Finished(row, s.phase[p].ok, RetryAt(now, row.attempts), c.maxAttempts), c.maxAttempts);
    case _ =>
  }

  function Claims(steps: seq<Step>): nat {
    if steps == [] then 0 else (if steps[0].CommitClaim? then 1 else 0) + Claims(steps[1..])
  }

  /**
   While nothing is enqueued, all processes together commit at most as many claims as the budget
   at the start, however often failed rows come due again.
   */
  lemma {:induction false} ClaimsAreBounded(c: Config, states: seq<State>, steps: seq<Step>)
    requires IsRun(c, states, steps) && Inv(c, states[0])
    requires forall i :: 0 <= i < |steps| ==> !steps[i].Enqueue?
    ensures Claims(steps) + Budget(states[|steps|].rows, c.maxAttempts) <= Budget(states[0].rows, c.maxAttempts)
  {
    hide Inv, Enabled, Apply, Budget;
    if steps != [] {
      StepKeepsInv(c, states[0], steps[0]);
      StepBudget(c, states[0], steps[0]);
      var tail := states[1..];
      assert forall i :: 0 <= i < |tail| ==> tail[i] == states[i + 1];
      ClaimsAreBounded(c, tail, steps[1..]);
    }
  }
}
