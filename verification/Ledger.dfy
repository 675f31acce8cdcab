/**
 The double-entry ledger tables: accounts, bitemporal journal entries, and postings with their two
 triggers - dimension validation before each insert, and the zero-sum check deferred to COMMIT.
 Money is counted in smallest units.
 */
module Ledger {
  import opened Wrappers

  // ---------------------------------------------------------------- accounts

  datatype Role =
    | Cash | CustomerEquity | PositionUnits | PositionCost | FeesExpense | DividendIncome
    | CustomerReceivable | DividendReceivable | RealizedGainLoss
    | FeesAccruedPayable | FeeRevenueAccrued | FeeRevenueCollected

  datatype Dimension = MoneyDimension | UnitsDimension

  datatype Account = Account(role: Role, dimension: Dimension, customer: Option<nat>, security: Option<nat>)

  function DimensionOf(role: Role): Dimension {
    if role.PositionUnits? then UnitsDimension else MoneyDimension
  }

  /** `Account.create`: no account when a position role lacks its security. */
  function CreateAccount(role: Role, customer: Option<nat>, security: Option<nat>): (a: Option<Account>)
    ensures a.None? <==> (role.PositionUnits? || role.PositionCost?) && security.None?
    ensures a.Some? ==> (a.value.dimension.UnitsDimension? <==> a.value.role.PositionUnits?)
    ensures a.Some? ==> a.value.role == role && a.value.customer == customer && a.value.security == security
  {
    if (role.PositionUnits? || role.PositionCost?) && security.None? then None
    else Some(Account(role, DimensionOf(role), customer, security))
  }

  // ---------------------------------------------------------------- entries and postings

  /** `supersedes` is the column `superseded_by`: set on the newer entry, naming the one it corrects. */
  datatype Entry = Entry(effectiveDate: int, recordedAt: int, supersedes: Option<nat>)

  datatype Posting = Posting(entry: nat, account: nat, customer: Option<nat>, amount: Option<int>, quantity: Option<int>)

  /** The CHECK constraint: exactly one dimension is set. */
  predicate OneDimension(p: Posting) { p.amount.Some? != p.quantity.Some? }

  /** The posting fits its account: right dimension, and the account's customer. */
  ghost predicate Fits(accounts: map<nat, Account>, p: Posting) {
    && p.account in accounts
    && OneDimension(p)
    && (p.amount.Some? <==> accounts[p.account].dimension.MoneyDimension?)
    && p.customer == accounts[p.account].customer
  }

  /** `posting_before_insert`: denormalize the customer, refuse the wrong dimension; then CHECK and foreign keys. */
  function BeforeInsert(accounts: map<nat, Account>, entries: map<nat, Entry>, p: Posting): (r: Option<Posting>)
    ensures r.Some? ==> Fits(accounts, r.value) && r.value.entry in entries
    ensures r.Some? ==> r.value == p.(customer := r.value.customer)
    ensures r.None? <==> !(p.account in accounts && p.entry in entries
                           && Fits(accounts, p.(customer := accounts[p.account].customer)))
  {
    if p.account !in accounts || p.entry !in entries then None
    else
      var a := accounts[p.account];
      if a.dimension.MoneyDimension? && p.quantity.Some? then None
      else if a.dimension.UnitsDimension? && p.amount.Some? then None
      else if !OneDimension(p) then None
      else Some(p.(customer := a.customer))
  }

  function Amount(p: Posting): int { if p.amount.Some? then p.amount.value else 0 }

  /** The money of one entry: `SUM(amount_money)` over its postings. */
  function EntrySum(ps: seq<Posting>, e: nat): int {
    if ps == [] then 0 else (if ps[0].entry == e then Amount(ps[0]) else 0) + EntrySum(ps[1..], e)
  }

  lemma {:induction false} EntrySumConcat(a: seq<Posting>, b: seq<Posting>, e: nat)
    ensures EntrySum(a + b, e) == EntrySum(a, e) + EntrySum(b, e)
  {
    if a == [] {
      assert a + b == b;
    } else {
      assert (a + b)[1..] == a[1..] + b;
      EntrySumConcat(a[1..], b, e);
    }
  }

  // ---------------------------------------------------------------- bitemporal reads

  /** Cutoffs of a read: what had happened by a date, as known at a moment. */
  datatype AsOf = AsOf(effectiveDate: int, recordedAt: int)

  predicate Visible(entries: map<nat, Entry>, e: nat, asOf: AsOf) {
    e in entries && entries[e].effectiveDate <= asOf.effectiveDate && entries[e].recordedAt <= asOf.recordedAt
  }

  /** The money of all postings whose entry is visible. */
  function VisibleSum(ps: seq<Posting>, entries: map<nat, Entry>, asOf: AsOf): int {
    if ps == [] then 0
    else (if Visible(entries, ps[0].entry, asOf) then Amount(ps[0]) else 0) + VisibleSum(ps[1..], entries, asOf)
  }

  lemma {:induction false} VisibleSumConcat(a: seq<Posting>, b: seq<Posting>, entries: map<nat, Entry>, asOf: AsOf)
    ensures VisibleSum(a + b, entries, asOf) == VisibleSum(a, entries, asOf) + VisibleSum(b, entries, asOf)
  {
    if a == [] {
      assert a + b == b;
    } else {
      assert (a + b)[1..] == a[1..] + b;
      VisibleSumConcat(a[1..], b, entries, asOf);
    }
  }

  /** The postings of all entries but one. */
  function Without(ps: seq<Posting>, e: nat): (r: seq<Posting>)
    ensures |r| <= |ps|
    ensures ps != [] && ps[0].entry == e ==> |r| < |ps|
  {
    if ps == [] then [] else if ps[0].entry == e then Without(ps[1..], e) else [ps[0]] + Without(ps[1..], e)
  }

  lemma {:induction false} WithoutSums(ps: seq<Posting>, e: nat, f: nat, entries: map<nat, Entry>, asOf: AsOf)
    ensures EntrySum(Without(ps, e), f) == if f == e then 0 else EntrySum(ps, f)
    ensures VisibleSum(ps, entries, asOf)
         == VisibleSum(Without(ps, e), entries, asOf) + if Visible(entries, e, asOf) then EntrySum(ps, e) else 0
  {
    if ps != [] {
      WithoutSums(ps[1..], e, f, entries, asOf);
      var w := Without(ps, e);
      if ps[0].entry != e { assert w[0] == ps[0] && w[1..] == Without(ps[1..], e); }
    }
  }

  /** If every entry balances, so does every combination of cutoffs. */
  lemma {:induction false} BalancedIsVisiblyBalanced(ps: seq<Posting>, entries: map<nat, Entry>, asOf: AsOf)
    requires forall e: nat :: EntrySum(ps, e) == 0
    ensures VisibleSum(ps, entries, asOf) == 0
    decreases |ps|
  {
    if ps != [] {
      var e := ps[0].entry;
      forall f: nat ensures EntrySum(Without(ps, e), f) == 0 { WithoutSums(ps, e, f, entries, asOf); }
      WithoutSums(ps, e, e, entries, asOf);
      BalancedIsVisiblyBalanced(Without(ps, e), entries, asOf);
    }
  }

  // ---------------------------------------------------------------- the deferred check

  /**
   What `ledger_balance` finds at COMMIT: for every new posting, its entry sums to zero over the
   transaction's own rows and what the check of that posting sees of others (`seen[i]`).
   */
  predicate DeferredCheckPasses(seen: seq<seq<Posting>>, own: seq<Posting>)
    requires |seen| == |own|
  {
    forall i :: 0 <= i < |own| ==> EntrySum(seen[i] + own, own[i].entry) == 0
  }

  lemma {:induction false} AbsentEntrySum(ps: seq<Posting>, e: nat)
    requires forall i :: 0 <= i < |ps| ==> ps[i].entry != e
    ensures EntrySum(ps, e) == 0
  {
    if ps != [] { AbsentEntrySum(ps[1..], e); }
  }

  /** Against balanced snapshots, passing the check means that the transaction itself balances. */
  lemma PassingMeansBalanced(seen: seq<seq<Posting>>, own: seq<Posting>, e: nat)
    requires |seen| == |own| && forall i :: 0 <= i < |seen| ==> EntrySum(seen[i], e) == 0
    requires DeferredCheckPasses(seen, own)
    ensures EntrySum(own, e) == 0
  {
    if i :| 0 <= i < |own| && own[i].entry == e {
      EntrySumConcat(seen[i], own, e);
    } else {
      AbsentEntrySum(own, e);
    }
  }

  /** The constraint trigger, once per new row; the first failing row raises. */
  method RunDeferredCheck(seen: seq<seq<Posting>>, own: seq<Posting>) returns (ok: bool)
    requires |seen| == |own|
    ensures ok == DeferredCheckPasses(seen, own)
  {
    for i := 0 to |own|
      invariant forall x :: 0 <= x < i ==> EntrySum(seen[x] + own, own[x].entry) == 0
    {
      if EntrySum(seen[i] + own, own[i].entry) != 0 { return false; }
    }
    return true;
  }

  /** `_reject_mutation`: true when no posting is dirty or deleted at flush. */
  method FlushAllowed(dirty: seq<bool>, deleted: seq<bool>) returns (ok: bool)
    ensures ok <==> true !in dirty && true !in deleted
  {
    for i := 0 to |dirty|
      invariant true !in dirty[..i]
    {
      if dirty[i] { return false; }
    }
    for i := 0 to |deleted|
      invariant true !in dirty
      invariant true !in deleted[..i]
    {
      if deleted[i] { return false; }
    }
    return true;
  }

  // ---------------------------------------------------------------- why append-only matters

  /** The trigger on an UPDATE looks only at the entry of the NEW row. */
  predicate UpdateCheckPasses(ps: seq<Posting>, i: nat, p: Posting)
    requires i < |ps|
  {
    EntrySum(ps[i := p], p.entry) == 0
  }

  /**
   An UPDATE that moves a posting to another entry passes the check and leaves its old entry
   unbalanced, so the zero-sum invariant rests on the append-only rule and not on the trigger alone.
   */
  lemma UpdateCanUnbalance()
    ensures var debit := Posting(1, 10, None, Some(5), None);
            var credit := Posting(1, 11, None, Some(-5), None);
            var moved := Posting(2, 10, None, Some(0), None);
            && (forall e: nat :: EntrySum([debit, credit], e) == 0)
            && UpdateCheckPasses([debit, credit], 0, moved)
            && EntrySum([debit, credit][0 := moved], 1) == -5
  {
    var debit := Posting(1, 10, None, Some(5), None);
    var credit := Posting(1, 11, None, Some(-5), None);
    var moved := Posting(2, 10, None, Some(0), None);
    assert [debit, credit][0 := moved] == [moved, credit];
    PairSum(moved, credit, 1);
    PairSum(moved, credit, 2);
    forall e: nat ensures EntrySum([debit, credit], e) == 0 { PairSum(debit, credit, e); }
  }

  lemma {:induction false} EntrySumUpdate(ps: seq<Posting>, i: nat, p: Posting, e: nat)
    requires i < |ps|
    ensures EntrySum(ps[i := p], e)
         == EntrySum(ps, e) - (if ps[i].entry == e then Amount(ps[i]) else 0) + (if p.entry == e then Amount(p) else 0)
  {
    if i == 0 {
      assert ps[i := p][1..] == ps[1..];
    } else {
      EntrySumUpdate(ps[1..], i - 1, p, e);
      assert ps[i := p][1..] == ps[1..][i - 1 := p];
    }
  }

  /**
   An UPDATE of a balanced table that passes the check leaves every entry balanced if and only if it
   keeps the posting in its entry, or the posting carried no money.
   */
  lemma UpdateKeepsBalanceIff(ps: seq<Posting>, i: nat, p: Posting, after: seq<Posting>)
    requires i < |ps| && after == ps[i := p]
    requires (forall e: nat :: EntrySum(ps, e) == 0) && UpdateCheckPasses(ps, i, p)
    ensures (forall e: nat :: EntrySum(after, e) == 0) <==> p.entry == ps[i].entry || Amount(ps[i]) == 0
  {
    hide EntrySum;
    forall e: nat
      ensures EntrySum(after, e) == (if p.entry == e then Amount(p) else 0) - (if ps[i].entry == e then Amount(ps[i]) else 0)
    {
      EntrySumUpdate(ps, i, p, e);
    }
    assert EntrySum(after, ps[i].entry) == (if p.entry == ps[i].entry then Amount(p) else 0) - Amount(ps[i]);
  }

  lemma PairSum(a: Posting, b: Posting, e: nat)
    ensures EntrySum([a, b], e) == (if a.entry == e then Amount(a) else 0) + (if b.entry == e then Amount(b) else 0)
  {
    assert [a, b][1..] == [b] && [b][1..] == [];
    assert EntrySum([b], e) == (if b.entry == e then Amount(b) else 0) + EntrySum([], e);
  }
}
