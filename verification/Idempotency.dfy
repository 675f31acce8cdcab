/**
 The idempotent money endpoints (`POST /orders`, `/deposits`, `/withdrawals`) as one transaction
 script over a unit of work: find the key, replay or execute, save the record, commit.
 */
module Idempotency {
  import opened Wrappers

  type Digest = string
  type Bytes = seq<int>

  datatype Key = Key(customer: nat, key: string)

  datatype Record = Record(requestHash: Digest, status: int, body: string)

  datatype Endpoint = CreateOrder | CreateDeposit | CreateWithdrawal

  datatype Request = Request(id: nat, endpoint: Endpoint, at: Key, rawBody: Bytes)

  /** The business rows a request commits: an order, or a deposit or withdrawal journal entry. */
  datatype Effect = Effect(request: nat, endpoint: Endpoint, at: Key)

  datatype Response =
    | Created(status: int, body: string)
    | Replayed(status: int, body: string)
    | Conflict            // 409: key reused with a different body
    | Rejected            // 4xx: the service refused, the transaction rolled back
    | ServerError         // the commit failed, the transaction rolled back

  // ---------------------------------------------------------------- replay

  /** `resolve_replay`: the stored response, or a conflict when the body hashes differ. */
  function ResolveReplay(r: Record, hash: Digest): (response: Response)
    ensures response.Replayed? <==> r.requestHash == hash
    ensures response.Replayed? ==> response.status == r.status && response.body == r.body
    ensures response.Replayed? || response.Conflict?
  {
    if r.requestHash != hash then Conflict else Replayed(r.status, r.body)
  }

  // ---------------------------------------------------------------- the tables

  /** Committed rows; `records` is keyed by the unique constraint on (customer_id, key). */
  class Database {
    var records: map<Key, Record>
    var effects: seq<Effect>

    constructor ()
      ensures records == map[] && effects == []
    {
      records, effects := map[], [];
    }
  }

  /** How many committed effects satisfy a test. */
  function CountOf(es: seq<Effect>, request: nat): nat {
    if es == [] then 0 else (if es[0].request == request then 1 else 0) + CountOf(es[1..], request)
  }

  function CountAt(es: seq<Effect>, at: Key): nat {
    if es == [] then 0 else (if es[0].at == at then 1 else 0) + CountAt(es[1..], at)
  }

  lemma {:induction false} CountAppend(es: seq<Effect>, e: Effect, request: nat, at: Key)
    ensures CountOf(es + [e], request) == CountOf(es, request) + if e.request == request then 1 else 0
    ensures CountAt(es + [e], at) == CountAt(es, at) + if e.at == at then 1 else 0
  {
    if es != [] {
      assert (es + [e])[1..] == es[1..] + [e];
      CountAppend(es[1..], e, request, at);
    }
  }

  /** One committed effect per stored key, and none without a stored key. */
  ghost predicate OnePerKey(records: map<Key, Record>, effects: seq<Effect>) {
    forall k: Key :: CountAt(effects, k) == if k in records then 1 else 0
  }

  /** Committing one effect with the record of a new key. */
  lemma OneMore(r0: map<Key, Record>, e0: seq<Effect>, r1: map<Key, Record>, e1: seq<Effect>, e: Effect)
    requires OnePerKey(r0, e0) && e.at !in r0 && r1.Keys == r0.Keys + {e.at} && e1 == e0 + [e]
    ensures OnePerKey(r1, e1) && CountOf(e1, e.request) == CountOf(e0, e.request) + 1
    ensures forall q: nat :: q != e.request ==> CountOf(e1, q) == CountOf(e0, q)
  {
    hide CountOf, CountAt;
    forall k: Key ensures CountAt(e1, k) == CountAt(e0, k) + if e.at == k then 1 else 0 { CountAppend(e0, e, 0, k); }
    forall q: nat ensures CountOf(e1, q) == CountOf(e0, q) + if e.request == q then 1 else 0 { CountAppend(e0, e, q, e.at); }
  }

  // ---------------------------------------------------------------- the unit of work

  /** The transaction boundary: nothing staged reaches the tables except through `Commit`. */
  class UnitOfWork {
    const db: Database
    var entered: bool
    var active: bool
    var finalized: bool
    var stagedRecord: Option<(Key, Record)>
    var stagedEffects: seq<Effect>

    constructor (db: Database)
      ensures this.db == db && !entered && !active && !finalized
      ensures stagedRecord == None && stagedEffects == []
    {
      this.db := db;
      entered, active, finalized := false, false, false;
      stagedRecord, stagedEffects := None, [];
    }

    /** `__enter__`: false is the "not reentrant" error. */
    method Enter() returns (ok: bool)
      modifies this
      ensures ok == !old(entered)
      ensures entered && active == (ok || old(active)) && finalized == old(finalized)
      ensures stagedRecord == old(stagedRecord) && stagedEffects == old(stagedEffects)
    {
      ok := !entered;
      if ok { entered, active := true, true; }
    }

    method Stage(effect: Effect)
      requires active
      modifies this`stagedEffects
      ensures stagedEffects == old(stagedEffects) + [effect]
    {
      stagedEffects := stagedEffects + [effect];
    }

    method Save(at: Key, record: Record)
      requires active && stagedRecord.None?
      modifies this`stagedRecord
      ensures stagedRecord == Some((at, record))
    {
      stagedRecord := Some((at, record));
    }

    /** All staged rows or none: a duplicate key fails the whole transaction and leaves it unfinalized. */
    method Commit() returns (ok: bool)
      requires active && !finalized
      modifies this`finalized, this`stagedRecord, this`stagedEffects, db
      ensures ok == finalized
      ensures ok <==> (old(stagedRecord).None? || old(stagedRecord).value.0 !in old(db.records))
      ensures !ok ==> db.records == old(db.records) && db.effects == old(db.effects)
      ensures ok ==> db.effects == old(db.effects) + old(stagedEffects)
      ensures ok ==> db.records == if old(stagedRecord).None? then old(db.records)
                                   else old(db.records)[old(stagedRecord).value.0 := old(stagedRecord).value.1]
      ensures ok ==> stagedRecord.None? && stagedEffects == []
    {
      ok := stagedRecord.None? || stagedRecord.value.0 !in db.records;
      if ok {
        if stagedRecord.Some? { db.records := db.records[stagedRecord.value.0 := stagedRecord.value.1]; }
        db.effects := db.effects + stagedEffects;
        stagedRecord, stagedEffects := None, [];
        finalized := true;
      }
    }

    /** `__exit__`: roll back unless finalized, then drop the session. The tables are not touched. */
    method Exit()
      requires active
      modifies this
      ensures !active && entered == old(entered) && finalized == old(finalized)
      ensures !old(finalized) ==> stagedRecord.None? && stagedEffects == []
    {
      if !finalized { stagedRecord, stagedEffects := None, []; }
      active := false;
    }
  }

  // ---------------------------------------------------------------- other requests

  /**
   What other requests may commit meanwhile: records and effects are only added, every added record
   comes with one effect, and none of the added effects is this request's.
   */
  ghost predicate Rely(r0: map<Key, Record>, e0: seq<Effect>, r1: map<Key, Record>, e1: seq<Effect>, self: nat) {
    && (forall k :: k in r0 ==> k in r1 && r1[k] == r0[k])
    && (OnePerKey(r0, e0) ==> OnePerKey(r1, e1))
    && e0 <= e1 && (forall i :: |e0| <= i < |e1| ==> e1[i].request != self)
    && CountOf(e1, self) == CountOf(e0, self)
  }

  method Interfere(db: Database, ghost self: nat)
    modifies db
    ensures Rely(old(db.records), old(db.effects), db.records, db.effects, self)
  {
  }

  // ---------------------------------------------------------------- the endpoint

  /**
   The script shared by the three endpoints; `outcome` is what the service answers, or nothing when it
   refuses. Whatever other requests commit in between: a created response carries the service's answer
   and means that this request committed the effect of its own endpoint, once, with its record; every
   other response means it committed nothing; a replay is the stored response for an equal body hash;
   a request is rejected only if the service refused and fails only if its key was taken; and there
   is still exactly one effect per stored key.
   */
  method Submit(db: Database, request: Request, outcome: Option<string>, sha256: Bytes -> Digest) returns (response: Response)
    requires OnePerKey(db.records, db.effects)
    modifies db
    ensures OnePerKey(db.records, db.effects)
    ensures forall k :: k in old(db.records) ==> k in db.records && db.records[k] == old(db.records)[k]
    ensures response.Created? ==>
              && request.at !in old(db.records) && request.at in db.records && response.status == 201
              && db.records[request.at] == Record(sha256(request.rawBody), 201, response.body) && outcome == Some(response.body)
    ensures old(db.effects) <= db.effects
    ensures response.Created? ==> Effect(request.id, request.endpoint, request.at) in db.effects[|old(db.effects)|..]
    ensures forall i :: |old(db.effects)| <= i < |db.effects| && db.effects[i].request == request.id ==>
              response.Created? && db.effects[i] == Effect(request.id, request.endpoint, request.at)
    ensures response.Rejected? ==> outcome.None?
    ensures response.ServerError? ==> outcome.Some?
    ensures !response.Rejected? ==> request.at in db.records
    ensures response.Replayed? ==>
              && request.at in db.records
              && db.records[request.at] == Record(sha256(request.rawBody), response.status, response.body)
    ensures response.Conflict? ==>
              request.at in db.records && db.records[request.at].requestHash != sha256(request.rawBody)
    ensures CountOf(db.effects, request.id) == CountOf(old(db.effects), request.id) + if response.Created? then 1 else 0
    ensures request.at in old(db.records) ==>
              response == ResolveReplay(old(db.records)[request.at], sha256(request.rawBody))
  {
    hide OnePerKey, CountOf;
    var hash := sha256(request.rawBody);
    var uow := new UnitOfWork(db);
    var entered := uow.Enter();
    Interfere(db, request.id);
    if request.at in db.records {
      response := ResolveReplay(db.records[request.at], hash);
      uow.Exit();
      return;
    }
    Interfere(db, request.id);
    if outcome.None? {
      uow.Exit();
      return Rejected;
    }
    uow.Stage(Effect(request.id, request.endpoint, request.at));
    uow.Save(request.at, Record(hash, 201, outcome.value));
    ghost var r0, e0 := db.records, db.effects;
    var committed := uow.Commit();
    if committed {
      var e := Effect(request.id, request.endpoint, request.at);
      assert db.effects == e0 + [e];
      assert db.effects[|old(db.effects)|..][|e0| - |old(db.effects)|] == e;
      OneMore(r0, e0, db.records, db.effects, e);
      response := Created(201, outcome.value);
    } else {
      response := ServerError;
    }
    uow.Exit();
  }
}
