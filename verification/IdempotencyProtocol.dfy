/**
 Any number of concurrent requests on the three money endpoints, as interleaved database steps under
 READ COMMITTED isolation and the unique constraint on (customer_id, key).
 */
module IdempotencyProtocol {
  import opened Wrappers
  import opened Idempotency

  /** Where a request is in its transaction script. */
  datatype Phase =
    | Received
    | Executing                     // `find` saw no record
    | Staged(body: string)          // the service succeeded, nothing inserted yet
    | Inserted(body: string)        // key row inserted, not committed: others inserting the key wait
    | Committed(body: string)       // committed, response not yet sent
    | Answered(response: Response)
    | Lost                          // the process stopped; its transaction, if open, rolled back

  datatype State = State(
    records: map<Key, Record>,
    effects: seq<Effect>,
    phase: map<nat, Phase>)

  datatype Config = Config(requests: map<nat, Request>, sha256: Bytes -> Digest)

  datatype Step =
    | Find(r: nat)
    | Refuse(r: nat)                  // a domain error rolls back
    | Execute(r: nat, body: string)
    | Insert(r: nat)
    | Commit(r: nat)
    | Answer(r: nat)
    | Stop(r: nat)

  function HashOf(c: Config, r: nat): Digest
    requires r in c.requests
  {
    c.sha256(c.requests[r].rawBody)
  }

  /** Another open transaction has inserted the same key: this insert has to wait for it. */
  predicate Waits(c: Config, s: State, r: nat)
    requires r in c.requests
  {
    exists q :: q in s.phase && q != r && q in c.requests && c.requests[q].at == c.requests[r].at && s.phase[q].Inserted?
  }

  predicate Enabled(c: Config, s: State, step: Step) {
    && step.r in s.phase && step.r in c.requests
    && match step
       case Find(r) => s.phase[r].Received?
       case Refuse(r) => s.phase[r].Executing?
       case Execute(r, _) => s.phase[r].Executing?
       case Insert(r) => s.phase[r].Staged? && !Waits(c, s, r)
       case Commit(r) => s.phase[r].Inserted?
       case Answer(r) => s.phase[r].Committed?
       case Stop(r) => !s.phase[r].Answered?
  }

  function Apply(c: Config, s: State, step: Step): State
    requires Enabled(c, s, step)
  {
    var r, at := step.r, c.requests[step.r].at;
    match step
    case Find(_) =>
      s.(phase := s.phase[r := if at in s.records then Answered(ResolveReplay(s.records[at], HashOf(c, r))) else Executing])
    case Refuse(_) => s.(phase := s.phase[r := Answered(Rejected)])
    case Execute(_, body) => s.(phase := s.phase[r := Staged(body)])
    case Insert(_) =>
      // a committed duplicate raises the unique violation and the whole transaction rolls back
      s.(phase := s.phase[r := if at in s.records then Answered(ServerError) else Inserted(s.phase[r].body)])
    case Commit(_) =>
      s.(records := s.records[at := Record(HashOf(c, r), 201, s.phase[r].body)],
         effects := s.effects + [Effect(r, c.requests[r].endpoint, at)],
         phase := s.phase[r := Committed(s.phase[r].body)])
    case Answer(_) => s.(phase := s.phase[r := Answered(Created(201, s.phase[r].body))])
    case Stop(_) => s.(phase := s.phase[r := Lost])
  }

  ghost predicate Initial(c: Config, s: State) {
    && s.records == map[] && s.effects == []
    && s.phase.Keys == c.requests.Keys
    && (forall r :: r in s.phase ==> s.phase[r].Received? && c.requests[r].id == r)
  }

  ghost predicate IsRun(c: Config, states: seq<State>, steps: seq<Step>) {
    && |states| == |steps| + 1
    && forall i :: 0 <= i < |steps| ==> Enabled(c, states[i], steps[i]) && states[i + 1] == Apply(c, states[i], steps[i])
  }

  // ---------------------------------------------------------------- what every step keeps

  ghost predicate KnownRequests(c: Config, s: State) {
    forall r :: r in s.phase ==> r in c.requests
  }

  /** Two open inserts never share a key, and neither key is committed. */
  ghost predicate InsertsExclusive(c: Config, s: State) {
    && KnownRequests(c, s)
    && (forall r :: r in s.phase && s.phase[r].Inserted? ==> c.requests[r].at !in s.records)
    && (forall r, q :: r in s.phase && q in s.phase && s.phase[r].Inserted? && s.phase[q].Inserted? ==>
          c.requests[r].at == c.requests[q].at ==> r == q)
  }

  /** A success, sent or about to be sent, is the stored response for an equal hash. */
  ghost predicate SuccessesStored(c: Config, s: State) {
    KnownRequests(c, s) && forall r :: r in s.phase ==> PhaseStored(c, s, r, s.phase[r])
  }

  ghost predicate PhaseStored(c: Config, s: State, r: nat, ph: Phase)
    requires r in c.requests
  {
    match ph
    case Committed(body) => Stored(c, s, r, 201, body)
    case Answered(Created(status, body)) => Stored(c, s, r, status, body)
    case Answered(Replayed(status, body)) => Stored(c, s, r, status, body)
    case Answered(Conflict) =>
      c.requests[r].at in s.records && s.records[c.requests[r].at].requestHash != HashOf(c, r)
    case Answered(ServerError) => c.requests[r].at in s.records
    case _ => true
  }

  ghost predicate Stored(c: Config, s: State, r: nat, status: int, body: string)
    requires r in c.requests
  {
    c.requests[r].at in s.records && s.records[c.requests[r].at] == Record(HashOf(c, r), status, body)
  }

  /** Which requests have committed an effect, and which have not. */
  ghost predicate EffectsMatchPhases(s: State) {
    forall r :: r in s.phase ==> PhaseEffects(s.phase[r], CountOf(s.effects, r))
  }

  ghost predicate PhaseEffects(ph: Phase, count: nat) {
    match ph
    case Committed(_) => count == 1
    case Answered(Created(_, _)) => count == 1
    case Lost => count <= 1
    case _ => count == 0
  }

  /** An effect carries its own request's endpoint and key, and the record of that key has that request's hash. */
  ghost predicate EffectsStored(c: Config, s: State) {
    forall i :: 0 <= i < |s.effects| ==>
      && s.effects[i].request in c.requests
      && s.effects[i].at == c.requests[s.effects[i].request].at
      && s.effects[i].endpoint == c.requests[s.effects[i].request].endpoint
      && s.effects[i].at in s.records
      && s.records[s.effects[i].at].requestHash == HashOf(c, s.effects[i].request)
  }

  ghost predicate Inv(c: Config, s: State) {
    && InsertsExclusive(c, s) && SuccessesStored(c, s) && EffectsMatchPhases(s) && EffectsStored(c, s)
    && OnePerKey(s.records, s.effects)
  }

  /** Moving one request to a phase that is itself consistent keeps everything. */
  lemma PhaseKeepsInv(c: Config, s: State, r: nat, ph: Phase)
    requires Inv(c, s) && r in s.phase && r in c.requests
    requires PhaseStored(c, s, r, ph) && PhaseEffects(ph, CountOf(s.effects, r))
    requires ph.Inserted? ==> c.requests[r].at !in s.records && !Waits(c, s, r)
    ensures Inv(c, s.(phase := s.phase[r := ph]))
  {
    hide CountOf, CountAt, OnePerKey, PhaseStored, PhaseEffects;
    var t := s.(phase := s.phase[r := ph]);
    InsertedKeepsExclusive(c, s, r, ph);
    forall q | q in t.phase ensures PhaseStored(c, t, q, t.phase[q]) {
      SameTables(c, s, t, q, t.phase[q]);
    }
  }

  /** What is stored for a phase depends on the tables only. */
  lemma SameTables(c: Config, s: State, t: State, q: nat, ph: Phase)
    requires q in c.requests && s.records == t.records
    ensures PhaseStored(c, s, q, ph) <==> PhaseStored(c, t, q, ph)
  {
  }

  lemma InsertedKeepsExclusive(c: Config, s: State, r: nat, ph: Phase)
    requires InsertsExclusive(c, s) && r in s.phase && r in c.requests
    requires ph.Inserted? ==> c.requests[r].at !in s.records && !Waits(c, s, r)
    ensures InsertsExclusive(c, s.(phase := s.phase[r := ph]))
  {
  }

  /** The tables after the commit still hold one effect per key, and each effect has its record. */
  lemma CommitKeepsTables(c: Config, s: State, step: Step)
    requires Inv(c, s) && Enabled(c, s, step) && step.Commit?
    ensures var t := Apply(c, s, step); OnePerKey(t.records, t.effects) && EffectsStored(c, t)
    ensures forall q: nat :: CountOf(Apply(c, s, step).effects, q) == CountOf(s.effects, q) + if q == step.r then 1 else 0
  {
    hide CountOf, OnePerKey;
    var t, e := Apply(c, s, step), Effect(step.r, c.requests[step.r].endpoint, c.requests[step.r].at);
    OneMore(s.records, s.effects, t.records, t.effects, e);
  }

  lemma CommitKeepsInv(c: Config, s: State, step: Step)
    requires Inv(c, s) && Enabled(c, s, step) && step.Commit?
    ensures Inv(c, Apply(c, s, step))
  {
    hide CountOf, CountAt, OnePerKey, EffectsStored;
    CommitKeepsTables(c, s, step);
    var t := Apply(c, s, step);
    forall q | q in t.phase ensures PhaseStored(c, t, q, t.phase[q]) {
      assert q in s.phase && PhaseStored(c, s, q, s.phase[q]);
    }
  }

  lemma StepKeepsInv(c: Config, s: State, step: Step)
    requires Inv(c, s) && Enabled(c, s, step)
    ensures Inv(c, Apply(c, s, step))
  {
    hide CountOf, CountAt, OnePerKey, EffectsStored;
    if step.Commit? {
      CommitKeepsInv(c, s, step);
    } else {
      var ph := Apply(c, s, step).phase[step.r];
      assert PhaseStored(c, s, step.r, s.phase[step.r]) && PhaseEffects(s.phase[step.r], CountOf(s.effects, step.r));
      PhaseKeepsInv(c, s, step.r, ph);
    }
  }

  lemma RunKeepsInv(c: Config, states: seq<State>, steps: seq<Step>)
    requires IsRun(c, states, steps) && Initial(c, states[0])
    ensures forall i :: 0 <= i < |states| ==> Inv(c, states[i])
  {
    var n := 0;
    while n < |steps|
      invariant 0 <= n <= |steps|
      invariant forall i :: 0 <= i <= n ==> Inv(c, states[i])
    {
      StepKeepsInv(c, states[n], steps[n]);
      n := n + 1;
    }
  }

  // ---------------------------------------------------------------- the theorems

  /** Under every interleaving, each (customer, key) has at most one committed effect. */
  lemma AtMostOneEffect(c: Config, states: seq<State>, steps: seq<Step>, n: nat, k: Key)
    requires IsRun(c, states, steps) && Initial(c, states[0]) && n < |states|
    ensures CountAt(states[n].effects, k) <= 1
    ensures CountAt(states[n].effects, k) == 1 <==> k in states[n].records
  {
    RunKeepsInv(c, states, steps);
  }

  lemma StepKeepsRecord(c: Config, s: State, step: Step, k: Key)
    requires Inv(c, s) && Enabled(c, s, step) && k in s.records
    ensures var t := Apply(c, s, step); k in t.records && t.records[k] == s.records[k]
  {
  }

  /** A stored record is never changed or removed. */
  lemma {:induction false} RecordsAreForever(c: Config, states: seq<State>, steps: seq<Step>, m: nat, n: nat, k: Key)
    requires IsRun(c, states, steps) && Initial(c, states[0]) && m <= n < |states|
    requires k in states[m].records
    ensures k in states[n].records && states[n].records[k] == states[m].records[k]
    decreases n - m
  {
    hide Inv;
    if m < n {
      RunKeepsInv(c, states, steps);
      StepKeepsRecord(c, states[m], steps[m], k);
      RecordsAreForever(c, states, steps, m + 1, n, k);
    }
  }

  predicate Success(ph: Phase) {
    ph.Answered? && (ph.response.Created? || ph.response.Replayed?)
  }

  /** Any two successful answers for one key, at any two moments, carry the same status, body and body hash. */
  lemma SuccessesAgree(c: Config, states: seq<State>, steps: seq<Step>, m: nat, n: nat, q: nat, r: nat)
    requires IsRun(c, states, steps) && Initial(c, states[0]) && m <= n < |states|
    requires q in states[m].phase && r in states[n].phase
    requires Success(states[m].phase[q]) && Success(states[n].phase[r])
    requires q in c.requests && r in c.requests && c.requests[q].at == c.requests[r].at
    ensures states[m].phase[q].response.status == states[n].phase[r].response.status
    ensures states[m].phase[q].response.body == states[n].phase[r].response.body
    ensures HashOf(c, q) == HashOf(c, r)
  {
    RunKeepsInv(c, states, steps);
    RecordsAreForever(c, states, steps, m, n, c.requests[q].at);
  }

  /** A request whose body hash differs from the stored one has committed nothing and never succeeds. */
  lemma DifferentHashCommitsNothing(c: Config, states: seq<State>, steps: seq<Step>, n: nat, r: nat)
    requires IsRun(c, states, steps) && Initial(c, states[0]) && n < |states|
    requires r in states[n].phase && r in c.requests
    requires c.requests[r].at in states[n].records
    requires states[n].records[c.requests[r].at].requestHash != HashOf(c, r)
    ensures CountOf(states[n].effects, r) == 0
    ensures !Success(states[n].phase[r])
  {
    RunKeepsInv(c, states, steps);
    NoEffectOf(c, states[n].effects, r, states[n].records);
  }

  lemma {:induction false} NoEffectOf(c: Config, es: seq<Effect>, r: nat, records: map<Key, Record>)
    requires r in c.requests && c.requests[r].at in records
    requires records[c.requests[r].at].requestHash != HashOf(c, r)
    requires forall i :: 0 <= i < |es| && es[i].request == r ==>
               es[i].at == c.requests[r].at && records[c.requests[r].at].requestHash == HashOf(c, r)
    ensures CountOf(es, r) == 0
  {
    if es != [] { NoEffectOf(c, es[1..], r, records); }
  }

  /** Anything but a created answer (a refusal, conflict, replay or error) means the request committed nothing. */
  lemma OnlyCreatedCommits(c: Config, states: seq<State>, steps: seq<Step>, n: nat, r: nat)
    requires IsRun(c, states, steps) && Initial(c, states[0]) && n < |states|
    requires r in states[n].phase && states[n].phase[r].Answered?
    ensures CountOf(states[n].effects, r) == if states[n].phase[r].response.Created? then 1 else 0
  {
    RunKeepsInv(c, states, steps);
  }

  /** The service answered this request with this body, or refused it, at some step. */
  ghost predicate HasItsStep(steps: seq<Step>, r: nat, ph: Phase) {
    match ph
    case Staged(body) => Execute(r, body) in steps
    case Inserted(body) => Execute(r, body) in steps
    case Committed(body) => Execute(r, body) in steps
    case Answered(Created(status, body)) => status == 201 && Execute(r, body) in steps
    case Answered(Rejected) => Refuse(r) in steps
    case Answered(ServerError) => exists body :: Execute(r, body) in steps
    case _ => true
  }

  lemma HadItsStep(before: seq<Step>, after: seq<Step>, r: nat, ph: Phase)
    requires HasItsStep(before, r, ph) && before <= after
    ensures HasItsStep(after, r, ph)
  {
    assert forall x :: x in before ==> x in after;
  }

  lemma PhaseGetsItsStep(c: Config, s: State, step: Step, before: seq<Step>, after: seq<Step>)
    requires Enabled(c, s, step) && HasItsStep(before, step.r, s.phase[step.r]) && after == before + [step]
    ensures HasItsStep(after, step.r, Apply(c, s, step).phase[step.r])
  {
    HadItsStep(before, after, step.r, s.phase[step.r]);
    assert step in after;
  }

  lemma {:induction false} PhaseHasItsStep(c: Config, states: seq<State>, steps: seq<Step>, n: nat, r: nat)
    requires IsRun(c, states, steps) && Initial(c, states[0]) && n < |states|
    requires r in states[n].phase
    ensures HasItsStep(steps[..n], r, states[n].phase[r])
  {
    hide HasItsStep;
    if n == 0 {
      assert HasItsStep(steps[..0], r, Received) by { NothingNeeded(steps[..0], r); }
    } else {
      var s, step := states[n - 1], steps[n - 1];
      assert Enabled(c, s, step) && states[n] == Apply(c, s, step);
      PhaseHasItsStep(c, states, steps, n - 1, r);
      assert steps[..n] == steps[..n - 1] + [step];
      if step.r == r {
        PhaseGetsItsStep(c, s, step, steps[..n - 1], steps[..n]);
      } else {
        HadItsStep(steps[..n - 1], steps[..n], r, s.phase[r]);
      }
    }
  }

  lemma NothingNeeded(steps: seq<Step>, r: nat)
    ensures HasItsStep(steps, r, Received)
  {
  }

  lemma {:induction false} CountedIsThere(es: seq<Effect>, r: nat) returns (i: nat)
    requires CountOf(es, r) > 0
    ensures i < |es| && es[i].request == r
  {
    if es[0].request == r {
      i := 0;
    } else {
      var j := CountedIsThere(es[1..], r);
      i := j + 1;
    }
  }

  /**
   In every run each answer has its reason. A created one carries the body its service call returned,
   and its request committed the effect of its own endpoint and key and the record with that body; only
   a refused call is rejected; a request fails only when its service call had succeeded and another
   request's record took its key; replays and conflicts come from the stored record. No request ever
   has an effect of another endpoint or key.
   */
  lemma AnswersHaveReasons(c: Config, states: seq<State>, steps: seq<Step>, n: nat, r: nat)
    requires IsRun(c, states, steps) && Initial(c, states[0]) && n < |states|
    requires r in states[n].phase && r in c.requests
    ensures forall e :: e in states[n].effects && e.request == r ==> e == Effect(r, c.requests[r].endpoint, c.requests[r].at)
    ensures states[n].phase[r].Answered? ==>
              var s, answer, at := states[n], states[n].phase[r].response, c.requests[r].at;
              && (answer.Created? ==>
                    && answer.status == 201 && Execute(r, answer.body) in steps[..n]
                    && Effect(r, c.requests[r].endpoint, at) in s.effects
                    && at in s.records && s.records[at] == Record(HashOf(c, r), 201, answer.body))
              && (answer.Replayed? ==> at in s.records && s.records[at] == Record(HashOf(c, r), answer.status, answer.body))
              && (answer.Conflict? ==> at in s.records && s.records[at].requestHash != HashOf(c, r))
              && (answer.Rejected? ==> Refuse(r) in steps[..n])
              && (answer.ServerError? ==> at in s.records && CountAt(s.effects, at) == 1 && CountOf(s.effects, r) == 0
                                          && exists body :: Execute(r, body) in steps[..n])
  {
    hide IsRun;
    RunKeepsInv(c, states, steps);
    PhaseHasItsStep(c, states, steps, n, r);
    var s := states[n];
    assert PhaseStored(c, s, r, s.phase[r]) && PhaseEffects(s.phase[r], CountOf(s.effects, r));
    if s.phase[r].Answered? && s.phase[r].response.Created? {
      var i := CountedIsThere(s.effects, r);
      assert s.effects[i] == Effect(r, c.requests[r].endpoint, c.requests[r].at);
    }
  }

  /** The steps of all other requests are what `Submit` relies on. */
  lemma OthersRespectRely(c: Config, s: State, step: Step, self: nat)
    requires Inv(c, s) && Enabled(c, s, step) && step.r != self
    ensures var t := Apply(c, s, step); Rely(s.records, s.effects, t.records, t.effects, self)
  {
    StepKeepsInv(c, s, step);
    if step.Commit? {
      CountAppend(s.effects, Effect(step.r, c.requests[step.r].endpoint, c.requests[step.r].at), self, c.requests[step.r].at);
    }
  }

  /** The next step of a request in this phase, with the answer its service gives. */
  ghost function NextStep(r: nat, ph: Phase, outcome: Option<string>): Step {
    match ph
    case Received => Find(r)
    case Executing => if outcome.Some? then Execute(r, outcome.value) else Refuse(r)
    case Staged(_) => Insert(r)
    case Inserted(_) => Commit(r)
    case Committed(_) => Answer(r)
    case _ => Stop(r)
  }

  /** No request is stuck: its next step is enabled, unless it waits for an insert of its key whose commit is enabled. */
  lemma RequestGoesOnIff(c: Config, s: State, r: nat, outcome: Option<string>)
    requires Inv(c, s) && r in s.phase && !s.phase[r].Answered?
    ensures r in c.requests
    ensures !Enabled(c, s, NextStep(r, s.phase[r], outcome))
            <==> s.phase[r].Staged? && exists q :: q in s.phase && q != r && q in c.requests && c.requests[q].at == c.requests[r].at && Enabled(c, s, Commit(q))
  {
  }
}
