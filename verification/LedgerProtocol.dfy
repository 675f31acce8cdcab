/**
 Concurrent ledger transactions. Each one inserts entries and postings, may try to change a posting,
 and commits through the append-only guard and the deferred balance check, which runs once per new
 posting and reads, each time, a snapshot of what other transactions had committed by then.
 */
module LedgerProtocol {
  import opened Wrappers
  import opened Ledger

  /** An open transaction: the rows it has inserted, and whether it has touched an existing posting. */
  datatype Transaction = Transaction(entries: map<nat, Entry>, postings: seq<Posting>, mutated: bool)

  /** `log` holds the postings of committed transactions, in commit order. */
  datatype State = State(
    accounts: map<nat, Account>,
    entries: map<nat, Entry>,
    log: seq<seq<Posting>>,
    open: map<nat, Transaction>)

  datatype Step =
    | OpenAccount(accountId: nat, role: Role, customer: Option<nat>, security: Option<nat>)
    | Begin(tx: nat)
    | AddEntry(tx: nat, entryId: nat, entry: Entry)
    | AddPosting(tx: nat, posting: Posting)
    | MutatePosting(tx: nat)              // an UPDATE or DELETE of a posting in the session
    | Commit(tx: nat, snapshots: seq<nat>)    // the check of the i-th new posting sees the first `snapshots[i]` commits
    | Abort(tx: nat)

  function Flatten(log: seq<seq<Posting>>): seq<Posting> {
    if log == [] then [] else Flatten(log[..|log| - 1]) + log[|log| - 1]
  }

  /** The entries a transaction can refer to: committed ones and its own. */
  function KnownEntries(s: State, tx: nat): map<nat, Entry>
    requires tx in s.open
  {
    s.entries + s.open[tx].entries
  }

  /** One snapshot of the log per posting of the transaction. */
  predicate ValidSnapshots(s: State, tx: nat, snapshots: seq<nat>)
    requires tx in s.open
  {
    |snapshots| == |s.open[tx].postings| && forall i :: 0 <= i < |snapshots| ==> snapshots[i] <= |s.log|
  }

  /** What each check reads of other transactions. */
  function Seen(log: seq<seq<Posting>>, snapshots: seq<nat>): (r: seq<seq<Posting>>)
    requires forall i :: 0 <= i < |snapshots| ==> snapshots[i] <= |log|
    ensures |r| == |snapshots| && forall i :: 0 <= i < |r| ==> r[i] == Flatten(log[..snapshots[i]])
  {
    seq(|snapshots|, i requires 0 <= i < |snapshots| => Flatten(log[..snapshots[i]]))
  }

  predicate Enabled(s: State, step: Step) {
    match step
    case OpenAccount(id, role, customer, security) =>
      id !in s.accounts && CreateAccount(role, customer, security).Some?
    case Begin(tx) => tx !in s.open
    case AddEntry(tx, id, _) => tx in s.open && id !in s.open[tx].entries
    case AddPosting(tx, _) => tx in s.open
    case MutatePosting(tx) => tx in s.open
    case Commit(tx, snapshots) => tx in s.open && ValidSnapshots(s, tx, snapshots)
    case Abort(tx) => tx in s.open
  }

  /** A commit goes through when nothing was mutated, no entry id is taken and the deferred check passes. */
  predicate CommitSucceeds(s: State, tx: nat, snapshots: seq<nat>)
    requires tx in s.open && ValidSnapshots(s, tx, snapshots)
  {
    && !s.open[tx].mutated
    && s.open[tx].entries.Keys !! s.entries.Keys
    && DeferredCheckPasses(Seen(s.log, snapshots), s.open[tx].postings)
  }

  /** A refused statement or commit rolls the transaction back. */
  function Apply(s: State, step: Step): State
    requires Enabled(s, step)
  {
    match step
    case OpenAccount(id, role, customer, security) =>
      s.(accounts := s.accounts[id := CreateAccount(role, customer, security).value])
    case Begin(tx) => s.(open := s.open[tx := Transaction(map[], [], false)])
    case AddEntry(tx, id, e) =>
      s.(open := s.open[tx := s.open[tx].(entries := s.open[tx].entries[id := e])])
    case AddPosting(tx, p) =>
      var row := BeforeInsert(s.accounts, KnownEntries(s, tx), p);
      if row.None? then s.(open := s.open - {tx})
      else s.(open := s.open[tx := s.open[tx].(postings := s.open[tx].postings + [row.value])])
    case MutatePosting(tx) => s.(open := s.open[tx := s.open[tx].(mutated := true)])
    case Commit(tx, snapshots) =>
      if CommitSucceeds(s, tx, snapshots) then
        s.(entries := s.entries + s.open[tx].entries, log := s.log + [s.open[tx].postings], open := s.open - {tx})
      else
        s.(open := s.open - {tx})
    case Abort(tx) => s.(open := s.open - {tx})
  }

  ghost predicate Initial(s: State) {
    s.accounts == map[] && s.entries == map[] && s.log == [] && s.open == map[]
  }

  ghost predicate IsRun(states: seq<State>, steps: seq<Step>) {
    && |states| == |steps| + 1
    && forall i :: 0 <= i < |steps| ==> Enabled(states[i], steps[i]) && states[i + 1] == Apply(states[i], steps[i])
  }

  // ---------------------------------------------------------------- what every step keeps

  ghost predicate Balanced(ps: seq<Posting>) { forall e: nat :: EntrySum(ps, e) == 0 }

  ghost predicate BatchesBalanced(log: seq<seq<Posting>>) {
    forall i :: 0 <= i < |log| ==> Balanced(log[i])
  }

  ghost predicate AllFit(accounts: map<nat, Account>, ps: seq<Posting>) {
    forall i :: 0 <= i < |ps| ==> Fits(accounts, ps[i])
  }

  ghost predicate Inv(s: State) {
    && BatchesBalanced(s.log)
    && (forall i :: 0 <= i < |s.log| ==> AllFit(s.accounts, s.log[i]))
    && (forall tx :: tx in s.open ==> AllFit(s.accounts, s.open[tx].postings))
  }

  /** Balanced transactions make every snapshot of the log balanced. */
  lemma {:induction false} FlattenBalanced(log: seq<seq<Posting>>, e: nat)
    requires BatchesBalanced(log)
    ensures EntrySum(Flatten(log), e) == 0
  {
    if log != [] {
      var front, last := log[..|log| - 1], log[|log| - 1];
      FlattenBalanced(front, e);
      EntrySumConcat(Flatten(front), last, e);
      assert Balanced(last);
    }
  }

  lemma CommitKeepsInv(s: State, step: Step)
    requires Inv(s) && Enabled(s, step) && step.Commit?
    ensures Inv(Apply(s, step))
  {
    if CommitSucceeds(s, step.tx, step.snapshots) {
      var own, seen := s.open[step.tx].postings, Seen(s.log, step.snapshots);
      forall e: nat ensures EntrySum(own, e) == 0 {
        forall i | 0 <= i < |seen| ensures EntrySum(seen[i], e) == 0 { FlattenBalanced(s.log[..step.snapshots[i]], e); }
        PassingMeansBalanced(seen, own, e);
      }
      assert Balanced(own);
    }
  }

  lemma StepKeepsInv(s: State, step: Step)
    requires Inv(s) && Enabled(s, step)
    ensures Inv(Apply(s, step))
  {
    if step.Commit? { CommitKeepsInv(s, step); }
  }

  lemma RunKeepsInv(states: seq<State>, steps: seq<Step>)
    requires IsRun(states, steps) && Initial(states[0])
    ensures forall i :: 0 <= i < |states| ==> Inv(states[i])
  {
    var n := 0;
    while n < |steps|
      invariant 0 <= n <= |steps|
      invariant forall i :: 0 <= i <= n ==> Inv(states[i])
    {
      StepKeepsInv(states[n], steps[n]);
      n := n + 1;
    }
  }

  // ---------------------------------------------------------------- the theorems

  /**
   In every committed state of every run, for every combination of effective-date and recorded-at
   cutoffs, the money of the visible entries sums to zero - although each row's check saw only a
   snapshot of its own.
   */
  lemma LedgerBalances(states: seq<State>, steps: seq<Step>, n: nat, asOf: AsOf)
    requires IsRun(states, steps) && Initial(states[0]) && n < |states|
    ensures VisibleSum(Flatten(states[n].log), states[n].entries, asOf) == 0
  {
    RunKeepsInv(states, steps);
    forall e: nat ensures EntrySum(Flatten(states[n].log), e) == 0 { FlattenBalanced(states[n].log, e); }
    BalancedIsVisiblyBalanced(Flatten(states[n].log), states[n].entries, asOf);
  }

  lemma {:induction false} FlattenMember(log: seq<seq<Posting>>, p: Posting)
    requires p in Flatten(log)
    ensures exists i :: 0 <= i < |log| && p in log[i]
  {
    if log != [] && p !in log[|log| - 1] {
      FlattenMember(log[..|log| - 1], p);
      var i :| 0 <= i < |log| - 1 && p in log[..|log| - 1][i];
      assert p in log[i];
    }
  }

  /** Every committed posting has its account's dimension and its account's customer. */
  lemma PostingsFitAccounts(states: seq<State>, steps: seq<Step>, n: nat, p: Posting)
    requires IsRun(states, steps) && Initial(states[0]) && n < |states|
    requires p in Flatten(states[n].log)
    ensures Fits(states[n].accounts, p)
  {
    RunKeepsInv(states, steps);
    FlattenMember(states[n].log, p);
  }

  /** Committed rows are only ever added: the log and the entries of an earlier state are kept. */
  lemma {:induction false} CommittedIsForever(states: seq<State>, steps: seq<Step>, m: nat, n: nat)
    requires IsRun(states, steps) && m <= n < |states|
    ensures states[m].log <= states[n].log
    ensures forall e :: e in states[m].entries ==> e in states[n].entries && states[n].entries[e] == states[m].entries[e]
    decreases n - m
  {
    if m < n {
      assert states[m].log <= states[m + 1].log;
      CommittedIsForever(states, steps, m + 1, n);
    }
  }

  /** `is_superseded`: some committed entry corrects this one. */
  predicate IsSuperseded(entries: map<nat, Entry>, e: nat) {
    exists f :: f in entries && entries[f].supersedes == Some(e)
  }

  /** An entry that is superseded once stays superseded. */
  lemma SupersededForever(states: seq<State>, steps: seq<Step>, m: nat, n: nat, e: nat)
    requires IsRun(states, steps) && m <= n < |states|
    requires IsSuperseded(states[m].entries, e)
    ensures IsSuperseded(states[n].entries, e)
  {
    CommittedIsForever(states, steps, m, n);
  }
}
