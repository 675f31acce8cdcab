/**
 The committed ledger of a run, computed from its steps alone: what each transaction has inserted since
 it began, which commits are accepted, and that the tables hold the rows of exactly those.
 */
module LedgerCommits {
  import opened Wrappers
  import opened Ledger
  import opened LedgerProtocol

  // ---------------------------------------------------------------- from the steps alone

  ghost function Front(steps: seq<Step>): seq<Step>
    requires steps != []
  {
    steps[..|steps| - 1]
  }

  ghost function Last(steps: seq<Step>): Step
    requires steps != []
  {
    steps[|steps| - 1]
  }

  /** Every account opened so far. */
  ghost function Opened(steps: seq<Step>): map<nat, Account> {
    if steps == [] then map[]
    else
      var before, step := Opened(Front(steps)), Last(steps);
      if step.OpenAccount? then
        before[step.accountId := Account(step.role, if step.role.PositionUnits? then UnitsDimension else MoneyDimension, step.customer, step.security)]
      else before
  }

  /** The row a posting becomes: its customer is its account's. */
  ghost function RowOf(accounts: map<nat, Account>, p: Posting): Posting {
    if p.account in accounts then Posting(p.entry, p.account, accounts[p.account].customer, p.amount, p.quantity) else p
  }

  /** The rows a transaction has inserted since it last began. */
  ghost function Posted(steps: seq<Step>, tx: nat): seq<Posting> {
    if steps == [] then []
    else
      var before, step := Posted(Front(steps), tx), Last(steps);
      if step == Begin(tx) then []
      else if step.AddPosting? && step.tx == tx then before + [RowOf(Opened(Front(steps)), step.posting)]
      else before
  }

  /** The entries it has inserted since then. */
  ghost function Drafted(steps: seq<Step>, tx: nat): map<nat, Entry> {
    if steps == [] then map[]
    else
      var before, step := Drafted(Front(steps), tx), Last(steps);
      if step == Begin(tx) then map[]
      else if step.AddEntry? && step.tx == tx then before[step.entryId := step.entry]
      else before
  }

  /** Whether it has tried to change a posting since then. */
  ghost predicate Touched(steps: seq<Step>, tx: nat) {
    steps != [] && (Last(steps) == MutatePosting(tx) || (Last(steps) != Begin(tx) && Touched(Front(steps), tx)))
  }

  /** A commit is accepted when nothing was changed, no entry id is taken and each entry's new rows sum to zero. */
  ghost predicate Accepted(steps: seq<Step>, tx: nat)
    decreases |steps|, 1
  {
    && !Touched(steps, tx)
    && Drafted(steps, tx).Keys !! Committed(steps).Keys
    && Balanced(Posted(steps, tx))
  }

  /** The entries of all accepted commits. */
  ghost function Committed(steps: seq<Step>): map<nat, Entry>
    decreases |steps|, 0
  {
    if steps == [] then map[]
    else
      var before, step := Committed(Front(steps)), Last(steps);
      if step.Commit? && Accepted(Front(steps), step.tx) then before + Drafted(Front(steps), step.tx) else before
  }

  /** The rows of all accepted commits, in commit order. */
  ghost function CommittedRows(steps: seq<Step>): seq<seq<Posting>> {
    if steps == [] then []
    else
      var before, step := CommittedRows(Front(steps)), Last(steps);
      if step.Commit? && Accepted(Front(steps), step.tx) then before + [Posted(Front(steps), step.tx)] else before
  }

  // ---------------------------------------------------------------- the tables hold exactly that

  /** The state against the steps so far. */
  ghost predicate Explained(s: State, steps: seq<Step>) {
    && s.accounts == Opened(steps) && s.entries == Committed(steps) && s.log == CommittedRows(steps)
    && forall tx :: tx in s.open ==> s.open[tx] == Transaction(Drafted(steps, tx), Posted(steps, tx), Touched(steps, tx))
  }

  /** Over balanced snapshots the deferred check passes exactly when the own rows of each entry sum to zero. */
  lemma CheckPassesIff(s: State, tx: nat, snapshots: seq<nat>)
    requires Inv(s) && tx in s.open && ValidSnapshots(s, tx, snapshots)
    ensures var own := s.open[tx].postings;
            DeferredCheckPasses(Seen(s.log, snapshots), own) <==> Balanced(own)
  {
    var own, seen := s.open[tx].postings, Seen(s.log, snapshots);
    forall i, e: nat | 0 <= i < |seen| ensures EntrySum(seen[i], e) == 0 { FlattenBalanced(s.log[..snapshots[i]], e); }
    forall i | 0 <= i < |seen| ensures EntrySum(seen[i] + own, own[i].entry) == EntrySum(own, own[i].entry) {
      EntrySumConcat(seen[i], own, own[i].entry);
    }
    if DeferredCheckPasses(seen, own) {
      forall e: nat ensures EntrySum(own, e) == 0 { PassingMeansBalanced(seen, own, e); }
    }
  }

  lemma TablesExplained(s: State, steps: seq<Step>, step: Step, after: seq<Step>)
    requires Inv(s) && Explained(s, steps) && Enabled(s, step) && after == steps + [step]
    ensures var t := Apply(s, step); t.accounts == Opened(after) && t.entries == Committed(after) && t.log == CommittedRows(after)
  {
    hide Balanced, DeferredCheckPasses, Inv, Posted, Drafted, Touched, BeforeInsert;
    assert Front(after) == steps && Last(after) == step;
    if step.Commit? { CheckPassesIff(s, step.tx, step.snapshots); }
  }

  lemma OpenExplained(s: State, steps: seq<Step>, step: Step, after: seq<Step>, tx: nat)
    requires Explained(s, steps) && Enabled(s, step) && after == steps + [step] && tx in Apply(s, step).open
    ensures Apply(s, step).open[tx] == Transaction(Drafted(after, tx), Posted(after, tx), Touched(after, tx))
  {
    hide CommitSucceeds, Opened, Committed, CommittedRows;
    assert Front(after) == steps && Last(after) == step;
    assert step != Begin(tx) ==> tx in s.open;
  }

  lemma StepExplained(s: State, steps: seq<Step>, step: Step, after: seq<Step>)
    requires Inv(s) && Explained(s, steps) && Enabled(s, step) && after == steps + [step]
    ensures Explained(Apply(s, step), after)
  {
    TablesExplained(s, steps, step, after);
    forall tx | tx in Apply(s, step).open
      ensures Apply(s, step).open[tx] == Transaction(Drafted(after, tx), Posted(after, tx), Touched(after, tx))
    {
      OpenExplained(s, steps, step, after, tx);
    }
  }

  /**
   In every state of every run, the accounts are those opened, the entries and the postings those of the
   accepted commits in their order, and an open transaction holds what it has inserted since it began.
   */
  lemma {:induction false} LedgerIsCommitted(states: seq<State>, steps: seq<Step>, n: nat)
    requires IsRun(states, steps) && Initial(states[0]) && n < |states|
    ensures Explained(states[n], steps[..n])
  {
    hide Inv, Explained;
    if n == 0 {
      assert Explained(states[0], []) by { EmptyIsExplained(states[0]); }
      assert steps[..0] == [];
    } else {
      LedgerIsCommitted(states, steps, n - 1);
      RunKeepsInv(states, steps);
      assert steps[..n] == steps[..n - 1] + [steps[n - 1]];
      StepExplained(states[n - 1], steps[..n - 1], steps[n - 1], steps[..n]);
    }
  }

  lemma EmptyIsExplained(s: State)
    requires Initial(s)
    ensures Explained(s, [])
  {
  }

  // ---------------------------------------------------------------- which postings are refused

  /**
   A posting is refused, and its transaction rolled back, exactly when its account is not open, its entry
   is neither committed nor its transaction's own, or it does not carry its account's dimension alone.
   No other step but a commit or an abort ends a transaction.
   */
  lemma PostingAcceptedIff(states: seq<State>, steps: seq<Step>, n: nat, tx: nat)
    requires IsRun(states, steps) && Initial(states[0]) && n < |steps| && tx in states[n].open
    ensures var before, step := steps[..n], steps[n];
            tx in states[n + 1].open
            <==> !((step.Commit? || step.Abort?) && step.tx == tx)
                 && (step.AddPosting? && step.tx == tx ==>
                       var p, accounts := step.posting, Opened(before);
                       && p.account in accounts && (p.entry in Committed(before) || p.entry in Drafted(before, tx))
                       && (p.amount.Some? != p.quantity.Some?)
                       && (p.quantity.Some? <==> accounts[p.account].role.PositionUnits?))
  {
    hide Opened, Committed, CommittedRows, Drafted, Posted, Touched, CommitSucceeds;
    LedgerIsCommitted(states, steps, n);
    AccountsHaveDimension(steps[..n]);
  }

  lemma {:induction false} AccountsHaveDimension(steps: seq<Step>)
    ensures forall id :: id in Opened(steps) ==> (Opened(steps)[id].dimension.UnitsDimension? <==> Opened(steps)[id].role.PositionUnits?)
  {
    if steps != [] { AccountsHaveDimension(Front(steps)); }
  }

  // ---------------------------------------------------------------- what a commit adds

  /** The step belongs to the transaction that commits at `k`: it has not begun again since. */
  ghost predicate Since(steps: seq<Step>, i: nat, k: nat, tx: nat) {
    i < k <= |steps| && forall j :: i <= j < k ==> steps[j] != Begin(tx)
  }

  lemma {:induction false} PostedSince(steps: seq<Step>, i: nat, tx: nat)
    requires Since(steps, i, |steps|, tx) && steps[i].AddPosting? && steps[i].tx == tx
    ensures RowOf(Opened(steps[..i]), steps[i].posting) in Posted(steps, tx)
    decreases |steps|
  {
    hide Opened;
    if i == |steps| - 1 {
      assert Posted(steps, tx)[|Posted(Front(steps), tx)|] == RowOf(Opened(steps[..i]), steps[i].posting);
    } else {
      assert Front(steps)[..i] == steps[..i];
      PostedSince(Front(steps), i, tx);
    }
  }

  /** An id is inserted once per transaction, so the entry of a step is the one that is kept. */
  lemma {:induction false} DraftedSince(states: seq<State>, steps: seq<Step>, i: nat, n: nat, tx: nat)
    requires IsRun(states, steps) && Initial(states[0]) && n <= |steps|
    requires Since(steps, i, n, tx) && steps[i].AddEntry? && steps[i].tx == tx && tx in states[n].open
    ensures steps[i].entryId in Drafted(steps[..n], tx) && Drafted(steps[..n], tx)[steps[i].entryId] == steps[i].entry
    decreases n
  {
    hide CommitSucceeds, Explained, Since, Inv, BeforeInsert;
    SinceShorter(steps, i, n, tx);
    LedgerIsCommitted(states, steps, n - 1);
    assert Enabled(states[n - 1], steps[n - 1]) && states[n] == Apply(states[n - 1], steps[n - 1]);
    DraftedStep(states[n - 1], steps[..n - 1], steps[n - 1], steps[..n], tx);
    if i < n - 1 { DraftedSince(states, steps, i, n - 1, tx); }
  }

  lemma SinceShorter(steps: seq<Step>, i: nat, n: nat, tx: nat)
    requires Since(steps, i, n, tx)
    ensures i <= n - 1 && steps[n - 1] != Begin(tx) && (i < n - 1 ==> Since(steps, i, n - 1, tx))
  {
  }

  lemma DraftedStep(s: State, steps: seq<Step>, step: Step, after: seq<Step>, tx: nat)
    requires Explained(s, steps) && Enabled(s, step) && after == steps + [step]
    requires tx in Apply(s, step).open && step != Begin(tx)
    ensures tx in s.open
    ensures forall id :: id in Drafted(steps, tx) ==> id in Drafted(after, tx) && Drafted(after, tx)[id] == Drafted(steps, tx)[id]
    ensures step.AddEntry? && step.tx == tx ==> step.entryId in Drafted(after, tx) && Drafted(after, tx)[step.entryId] == step.entry
  {
    hide CommitSucceeds, Opened, Committed, CommittedRows, Posted, Touched, BeforeInsert;
    assert Front(after) == steps && Last(after) == step;
  }

  lemma {:induction false} InFlatten(log: seq<seq<Posting>>, i: nat, p: Posting)
    requires i < |log| && p in log[i]
    ensures p in Flatten(log)
  {
    if i < |log| - 1 { InFlatten(log[..|log| - 1], i, p); }
  }

  /**
   From an accepted commit on, every posting of the transaction, with its account's customer, and every
   entry of it are in the ledger; a refused commit adds nothing. It is accepted if and only if nothing
   was changed, no entry id was taken, and each row's entry sums to zero over what that row's check
   saw and the own rows - whatever the checks saw.
   */
  lemma CommitAddsIff(states: seq<State>, steps: seq<Step>, k: nat, n: nat)
    requires IsRun(states, steps) && Initial(states[0]) && k < n < |states| && steps[k].Commit?
    ensures var tx, s, own := steps[k].tx, states[k], Posted(steps[..k], steps[k].tx);
            && |steps[k].snapshots| == |own| && (forall i :: 0 <= i < |own| ==> steps[k].snapshots[i] <= |s.log|)
            && (Accepted(steps[..k], tx)
                <==> !Touched(steps[..k], tx) && Drafted(steps[..k], tx).Keys !! s.entries.Keys
                     && forall i :: 0 <= i < |own| ==> EntrySum(Flatten(s.log[..steps[k].snapshots[i]]) + own, own[i].entry) == 0)
    ensures var tx := steps[k].tx;
            if Accepted(steps[..k], tx) then
              && states[k + 1].log == states[k].log + [Posted(steps[..k], tx)]
              && states[k + 1].entries == states[k].entries + Drafted(steps[..k], tx)
              && (forall i: nat :: Since(steps, i, k, tx) && steps[i].AddPosting? && steps[i].tx == tx ==>
                    RowOf(Opened(steps[..i]), steps[i].posting) in Flatten(states[n].log))
              && (forall i: nat :: Since(steps, i, k, tx) && steps[i].AddEntry? && steps[i].tx == tx ==>
                    steps[i].entryId in states[n].entries && states[n].entries[steps[i].entryId] == steps[i].entry)
            else states[k + 1].log == states[k].log && states[k + 1].entries == states[k].entries
  {
    assert |states| == |steps| + 1;
    hide IsRun, Opened, Drafted, Posted, Accepted, Inv, Flatten, RowOf;
    var tx, before := steps[k].tx, steps[..k];
    CommitStep(states, steps, k);
    if Accepted(before, tx) {
      CommittedIsForever(states, steps, k + 1, n);
      forall i: nat | Since(steps, i, k, tx) && steps[i].AddPosting? && steps[i].tx == tx
        ensures RowOf(Opened(steps[..i]), steps[i].posting) in Flatten(states[n].log)
      {
        SincePrefix(steps, i, k, tx);
        PostedSince(before, i, tx);
        assert i < k;
        InFlatten(states[n].log, |states[k].log|, RowOf(Opened(steps[..i]), steps[i].posting));
      }
      forall i: nat | Since(steps, i, k, tx) && steps[i].AddEntry? && steps[i].tx == tx
        ensures steps[i].entryId in states[n].entries && states[n].entries[steps[i].entryId] == steps[i].entry
      {
        DraftedSince(states, steps, i, k, tx);
      }
    }
  }

  lemma SincePrefix(steps: seq<Step>, i: nat, k: nat, tx: nat)
    requires Since(steps, i, k, tx)
    ensures Since(steps[..k], i, |steps[..k]|, tx) && steps[..k][i] == steps[i] && steps[..k][..i] == steps[..i]
  {
  }

  lemma CommitStep(states: seq<State>, steps: seq<Step>, k: nat)
    requires IsRun(states, steps) && Initial(states[0]) && k < |steps| && steps[k].Commit?
    ensures var tx, s, own := steps[k].tx, states[k], Posted(steps[..k], steps[k].tx);
            && tx in s.open
            && |steps[k].snapshots| == |own| && (forall i :: 0 <= i < |own| ==> steps[k].snapshots[i] <= |s.log|)
            && (Accepted(steps[..k], tx)
                <==> !Touched(steps[..k], tx) && Drafted(steps[..k], tx).Keys !! s.entries.Keys
                     && forall i :: 0 <= i < |own| ==> EntrySum(Flatten(s.log[..steps[k].snapshots[i]]) + own, own[i].entry) == 0)
    ensures var tx := steps[k].tx;
            if Accepted(steps[..k], tx) then
              && states[k + 1].log == states[k].log + [Posted(steps[..k], tx)]
              && states[k + 1].entries == states[k].entries + Drafted(steps[..k], tx)
            else states[k + 1].log == states[k].log && states[k + 1].entries == states[k].entries
  {
    hide Balanced, Inv, Opened, Drafted, Posted, Touched, Committed, CommittedRows, Flatten;
    LedgerIsCommitted(states, steps, k);
    RunKeepsInv(states, steps);
    CheckPassesIff(states[k], steps[k].tx, steps[k].snapshots);
    assert Enabled(states[k], steps[k]) && states[k + 1] == Apply(states[k], steps[k]);
  }

  /** An open transaction can always try to commit, whatever prefix of the log each of its checks sees. */
  lemma OpenCanCommit(s: State, tx: nat, seen: nat) returns (snapshots: seq<nat>)
    requires tx in s.open && seen <= |s.log|
    ensures Enabled(s, Commit(tx, snapshots)) && forall i :: 0 <= i < |snapshots| ==> snapshots[i] == seen
  {
    snapshots := seq(|s.open[tx].postings|, _ => seen);
  }
}
