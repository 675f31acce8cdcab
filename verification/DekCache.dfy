/**
 The in-process cache of unwrapped data keys: bounded, with a time to live, least recently used
 entry evicted first. A run is a sequence of `get` and `put` calls; the clock reading of each call is
 a parameter.
 */
module DekCache {
  import opened Wrappers
  import opened Collections
  import opened Envelope

  datatype Entry = Entry(key: Bytes, expiresAt: real, dek: Bytes)

  // ---------------------------------------------------------------- an ordered dictionary

  ghost predicate DistinctKeys(s: seq<Entry>) {
    forall i, j :: 0 <= i < j < |s| ==> s[i].key != s[j].key
  }

  ghost predicate Holds(s: seq<Entry>, key: Bytes) {
    exists i :: 0 <= i < |s| && s[i].key == key
  }

  /** Position of a key, or the length when absent. */
  function Find(s: seq<Entry>, key: Bytes): (i: nat)
    ensures i <= |s|
    ensures i < |s| ==> s[i].key == key
    ensures forall j :: 0 <= j < i ==> s[j].key != key
  {
    if s == [] || s[0].key == key then 0 else 1 + Find(s[1..], key)
  }

  /** The dictionary without the entry at a position. */
  function Without(s: seq<Entry>, i: nat): seq<Entry>
    requires i <= |s|
  {
    if i == |s| then s else s[..i] + s[i + 1..]
  }

  /** Keep only the last `max` entries. */
  function Last(s: seq<Entry>, max: nat): seq<Entry> {
    if |s| <= max then s else s[|s| - max..]
  }

  // ---------------------------------------------------------------- what the calls do

  datatype Call = Get(key: Bytes, now: real) | Put(key: Bytes, dek: Bytes, now: real)

  /** What a call did: a put and a hit use the key, an expiry removes it. */
  datatype Event = Stored(key: Bytes, dek: Bytes, at: real) | Hit(key: Bytes, dek: Bytes, at: real) | Expired(key: Bytes) | Missed(key: Bytes)

  datatype State = State(entries: seq<Entry>, log: seq<Event>)

  function EventOf(s: seq<Entry>, c: Call): Event {
    match c
    case Put(key, dek, now) => Stored(key, dek, now)
    case Get(key, now) =>
      var i := Find(s, key);
      if i == |s| then Missed(key)
      else if now >= s[i].expiresAt then Expired(key)
      else Hit(key, s[i].dek, now)
  }

  function After(s: seq<Entry>, e: Event, max: nat, ttl: real): seq<Entry> {
    var i := Find(s, e.key);
    match e
    case Stored(key, dek, at) => Last(Without(s, i) + [Entry(key, at + ttl, dek)], max)
    case Hit(_, _, _) => if i < |s| then Without(s, i) + [s[i]] else s
    case Expired(_) => Without(s, i)
    case Missed(_) => s
  }

  function Run(calls: seq<Call>, max: nat, ttl: real): State
    decreases |calls|
  {
    if calls == [] then State([], [])
    else
      var s := Run(calls[..|calls| - 1], max, ttl);
      var e := EventOf(s.entries, calls[|calls| - 1]);
      State(After(s.entries, e, max, ttl), s.log + [e])
  }

  // ---------------------------------------------------------------- what the history says

  /** The last event that used or removed a key, -1 if none. */
  function LastTouch(log: seq<Event>, key: Bytes): (i: int)
    ensures -1 <= i < |log|
    ensures i >= 0 ==> log[i].key == key && !log[i].Missed?
    ensures forall j :: i < j < |log| && log[j].key == key ==> log[j].Missed?
    decreases |log|
  {
    if log == [] then -1
    else
      var n := |log| - 1;
      if log[n].key == key && !log[n].Missed? then n
      else LastTouch(log[..n], key)
  }

  /** The last event that stored a key, -1 if none. */
  function LastPut(log: seq<Event>, key: Bytes): (i: int)
    ensures -1 <= i < |log|
    ensures i >= 0 ==> log[i].key == key && log[i].Stored?
    ensures forall j :: i < j < |log| && log[j].key == key ==> !log[j].Stored?
    decreases |log|
  {
    if log == [] then -1
    else
      var n := |log| - 1;
      if log[n].key == key && log[n].Stored? then n
      else LastPut(log[..n], key)
  }

  /** Used at some point and not found expired since. */
  predicate Live(log: seq<Event>, key: Bytes) {
    var t := LastTouch(log, key);
    t >= 0 && !log[t].Expired?
  }

  /** The distinct keys used after a point of the history. */
  function UsedSince(log: seq<Event>, t: int): set<Bytes>
    requires -1 <= t
  {
    set i | t < i < |log| && (log[i].Stored? || log[i].Hit?) :: log[i].key
  }

  /** An entry records the last put of its key. */
  ghost predicate FromLastPut(e: Entry, log: seq<Event>, ttl: real) {
    var p := LastPut(log, e.key);
    p >= 0 && log[p].dek == e.dek && e.expiresAt == log[p].at + ttl && Live(log, e.key)
  }

  /** Iteration order is last-use order. */
  ghost predicate InUseOrder(s: seq<Entry>, log: seq<Event>) {
    forall i, j :: 0 <= i < j < |s| ==> LastTouch(log, s[i].key) < LastTouch(log, s[j].key)
  }

  /** A live key is resident unless `max` other keys have been used since its last use. */
  ghost predicate KeepsRecent(s: seq<Entry>, log: seq<Event>, max: nat) {
    forall key :: Live(log, key) && !Holds(s, key) ==> |UsedSince(log, LastTouch(log, key))| >= max
  }

  ghost predicate Inv(s: State, max: nat, ttl: real) {
    && |s.entries| <= max
    && (forall i :: 0 <= i < |s.entries| ==> FromLastPut(s.entries[i], s.log, ttl))
    && InUseOrder(s.entries, s.log)
    && KeepsRecent(s.entries, s.log, max)
  }

  // ---------------------------------------------------------------- one more event

  lemma TouchAppend(log: seq<Event>, e: Event, key: Bytes)
    ensures LastTouch(log + [e], key) == if e.key == key && !e.Missed? then |log| else LastTouch(log, key)
    ensures LastPut(log + [e], key) == if e.key == key && e.Stored? then |log| else LastPut(log, key)
  {
    assert (log + [e])[..|log|] == log;
  }

  lemma UsedAppend(log: seq<Event>, e: Event, t: int)
    requires -1 <= t
    ensures |UsedSince(log, t)| <= |UsedSince(log + [e], t)|
  {
    var a, b := UsedSince(log, t), UsedSince(log + [e], t);
    forall k | k in a ensures k in b {
      var i :| t < i < |log| && (log[i].Stored? || log[i].Hit?) && log[i].key == k;
      assert (log + [e])[i] == log[i];
    }
    SubsetSize(a, b);
  }

  /** An event about another key changes nothing the history says about an entry. */
  lemma OtherKey(log: seq<Event>, e: Event, x: Entry, ttl: real)
    requires FromLastPut(x, log, ttl) && (e.key != x.key || e.Hit? || e.Missed?)
    ensures FromLastPut(x, log + [e], ttl)
  {
    TouchAppend(log, e, x.key);
  }

  /** What dropping one entry leaves. */
  lemma WithoutIs(s: seq<Entry>, i: nat)
    requires i <= |s|
    ensures var w := Without(s, i);
            && |w| == (if i < |s| then |s| - 1 else |s|)
            && (forall k :: 0 <= k < |w| && k < i ==> w[k] == s[k])
            && (forall k :: i <= k < |w| ==> w[k] == s[k + 1])
            && (forall x :: x in s && (i < |s| ==> x != s[i]) ==> x in w)
  {
    var w := Without(s, i);
    forall x | x in s && (i < |s| ==> x != s[i]) ensures x in w {
      var k :| 0 <= k < |s| && s[k] == x;
      if k < i { assert w[k] == x; } else { assert i < |s| ==> w[k - 1] == x; }
    }
  }

  lemma DistinctInUseOrder(s: seq<Entry>, log: seq<Event>)
    requires InUseOrder(s, log)
    ensures DistinctKeys(s)
  {
    hide LastTouch;
    forall i, j | 0 <= i < j < |s| ensures s[i].key != s[j].key {
      assert LastTouch(log, s[i].key) < LastTouch(log, s[j].key);
    }
  }

  /** Only the entry of the key itself is dropped. */
  lemma WithoutKey(s: seq<Entry>, key: Bytes, w: seq<Entry>)
    requires DistinctKeys(s) && w == Without(s, Find(s, key))
    ensures forall k :: 0 <= k < |w| ==> w[k] in s && w[k].key != key
    ensures forall x :: x in s && x.key != key ==> x in w
  {
    var i := Find(s, key);
    WithoutIs(s, i);
    forall k | 0 <= k < |w| ensures w[k] in s && w[k].key != key {
      assert k < i || w[k] == s[k + 1];
    }
  }

  lemma WithoutInUseOrder(s: seq<Entry>, log: seq<Event>, i: nat)
    requires InUseOrder(s, log) && i <= |s|
    ensures InUseOrder(Without(s, i), log)
  {
    hide LastTouch, Without;
    WithoutIs(s, i);
    var w := Without(s, i);
    forall j, k | 0 <= j < k < |w| ensures LastTouch(log, w[j].key) < LastTouch(log, w[k].key) {
      var a, b := if j < i then j else j + 1, if k < i then k else k + 1;
      assert w[j] == s[a] && w[k] == s[b];
    }
  }

  /** Dropping a key keeps the use order of the rest, whose uses all come before the event. */
  lemma WithoutKeepsOrder(s: seq<Entry>, log: seq<Event>, e: Event)
    requires InUseOrder(s, log)
    ensures var w := Without(s, Find(s, e.key));
            InUseOrder(w, log + [e]) && forall k :: 0 <= k < |w| ==> LastTouch(log + [e], w[k].key) < |log|
  {
    hide LastTouch, Without, InUseOrder, DistinctKeys;
    DistinctInUseOrder(s, log);
    var w := Without(s, Find(s, e.key));
    WithoutKey(s, e.key, w);
    WithoutInUseOrder(s, log, Find(s, e.key));
    OrderAppend(w, log, e);
  }

  lemma OrderAppend(w: seq<Entry>, log: seq<Event>, e: Event)
    requires InUseOrder(w, log) && forall k :: 0 <= k < |w| ==> w[k].key != e.key
    ensures InUseOrder(w, log + [e]) && forall k :: 0 <= k < |w| ==> LastTouch(log + [e], w[k].key) < |log|
  {
    hide LastTouch;
    forall k | 0 <= k < |w| ensures LastTouch(log + [e], w[k].key) == LastTouch(log, w[k].key) < |log| {
      TouchAppend(log, e, w[k].key);
      assert LastTouch(log, w[k].key) < |log|;
    }
  }

  ghost function Keys(s: seq<Entry>): set<Bytes> {
    set x | x in s :: x.key
  }

  lemma {:induction false} KeysSize(s: seq<Entry>)
    requires DistinctKeys(s)
    ensures |Keys(s)| == |s|
  {
    if s != [] {
      var n := |s| - 1;
      KeysSize(s[..n]);
      assert s == s[..n] + [s[n]];
      assert Keys(s) == Keys(s[..n]) + {s[n].key};
    }
  }

  /** Entries used after a point are all among the keys used since. */
  lemma ResidentsUsedSince(s: seq<Entry>, log: seq<Event>, t: int)
    requires DistinctKeys(s) && -1 <= t
    requires forall i :: 0 <= i < |s| ==> Live(log, s[i].key) && LastTouch(log, s[i].key) > t
    ensures |UsedSince(log, t)| >= |s|
  {
    KeysSize(s);
    var used := UsedSince(log, t);
    forall k | k in Keys(s) ensures k in used {
      var i :| 0 <= i < |s| && s[i].key == k;
      var j := LastTouch(log, k);
      assert t < j < |log| && (log[j].Stored? || log[j].Hit?) && log[j].key == k;
    }
    SubsetSize(Keys(s), used);
  }

  // ---------------------------------------------------------------- every call keeps the invariant

  /** Entries of a dictionary that follows the history and its use order. */
  ghost predicate Follows(s: seq<Entry>, log: seq<Event>, ttl: real) {
    InUseOrder(s, log) && forall i :: 0 <= i < |s| ==> FromLastPut(s[i], log, ttl)
  }

  lemma WithoutFollows(s: seq<Entry>, log: seq<Event>, e: Event, ttl: real)
    requires Follows(s, log, ttl)
    ensures Follows(Without(s, Find(s, e.key)), log + [e], ttl)
  {
    hide FromLastPut, Without, Find;
    var w := Without(s, Find(s, e.key));
    WithoutKeepsOrder(s, log, e);
    DistinctInUseOrder(s, log);
    WithoutKey(s, e.key, w);
    forall k | 0 <= k < |w| ensures FromLastPut(w[k], log + [e], ttl) { OtherKey(log, e, w[k], ttl); }
  }

  /** The used key goes to the end. */
  lemma UsedFollows(s: seq<Entry>, log: seq<Event>, e: Event, x: Entry, ttl: real)
    requires Follows(s, log, ttl) && x.key == e.key
    requires e.Stored? || e.Hit?
    requires FromLastPut(x, log + [e], ttl)
    ensures Follows(Without(s, Find(s, e.key)) + [x], log + [e], ttl)
  {
    hide FromLastPut, Without, Find, LastTouch;
    WithoutFollows(s, log, e, ttl);
    WithoutKeepsOrder(s, log, e);
    TouchAppend(log, e, x.key);
  }

  lemma AfterFollows(s: seq<Entry>, log: seq<Event>, c: Call, max: nat, ttl: real)
    requires Follows(s, log, ttl)
    ensures var e := EventOf(s, c); Follows(After(s, e, max, ttl), log + [e], ttl)
  {
    hide Follows, Without, LastTouch;
    var e := EventOf(s, c);
    var i := Find(s, e.key);
    TouchAppend(log, e, e.key);
    if e.Stored? {
      var x := Entry(e.key, e.at + ttl, e.dek);
      assert FromLastPut(x, log + [e], ttl);
      UsedFollows(s, log, e, x, ttl);
      LastFollows(Without(s, i) + [x], log + [e], max, ttl);
    } else if e.Hit? {
      FollowsAt(s, log, ttl, i);
      OtherKey(log, e, s[i], ttl);
      UsedFollows(s, log, e, s[i], ttl);
    } else if e.Expired? {
      WithoutFollows(s, log, e, ttl);
    } else {
      MissFollows(s, log, e, ttl);
    }
  }

  lemma FollowsAt(s: seq<Entry>, log: seq<Event>, ttl: real, i: nat)
    requires Follows(s, log, ttl) && i < |s|
    ensures FromLastPut(s[i], log, ttl)
  {
  }

  lemma MissFollows(s: seq<Entry>, log: seq<Event>, e: Event, ttl: real)
    requires Follows(s, log, ttl) && e.Missed?
    ensures Follows(s, log + [e], ttl)
  {
    hide LastTouch, FromLastPut;
    forall i | 0 <= i < |s| ensures FromLastPut(s[i], log + [e], ttl) && LastTouch(log + [e], s[i].key) == LastTouch(log, s[i].key) {
      TouchAppend(log, e, s[i].key);
      OtherKey(log, e, s[i], ttl);
    }
  }

  lemma LastFollows(s: seq<Entry>, log: seq<Event>, max: nat, ttl: real)
    requires Follows(s, log, ttl)
    ensures Follows(Last(s, max), log, ttl)
  {
    hide FromLastPut, LastTouch;
  }

  lemma {:induction false} RunFollows(calls: seq<Call>, max: nat, ttl: real)
    ensures Follows(Run(calls, max, ttl).entries, Run(calls, max, ttl).log, ttl)
    ensures |Run(calls, max, ttl).entries| <= max
    decreases |calls|
  {
    if calls != [] {
      var n := |calls| - 1;
      RunFollows(calls[..n], max, ttl);
      var s := Run(calls[..n], max, ttl);
      AfterFollows(s.entries, s.log, calls[n], max, ttl);
    }
  }

  // ---------------------------------------------------------------- least recently used

  /** Moving a key to the end drops no key, dropping a key drops no other. */
  lemma MovingKeeps(s: seq<Entry>, key: Bytes, other: Bytes)
    requires DistinctKeys(s) && Holds(s, other)
    ensures var i := Find(s, key);
            && (other != key ==> Holds(Without(s, i), other))
            && (i < |s| ==> Holds(Without(s, i) + [s[i]], other))
  {
    var i := Find(s, key);
    var w := Without(s, i);
    WithoutKey(s, key, w);
    var k :| 0 <= k < |s| && s[k].key == other;
    if other != key {
      HoldsIn(w, s[k]);
      if i < |s| { HoldsAppend(w, s[i], other); }
    } else if i < |s| {
      assert (w + [s[i]])[|w|].key == other;
    }
  }

  lemma HoldsAppend(s: seq<Entry>, x: Entry, key: Bytes)
    requires Holds(s, key)
    ensures Holds(s + [x], key)
  {
    var k :| 0 <= k < |s| && s[k].key == key;
    assert (s + [x])[k].key == key;
  }

  /** A key stays resident unless the event is its expiry or a put. */
  lemma StaysResident(s: seq<Entry>, c: Call, max: nat, ttl: real, key: Bytes)
    requires DistinctKeys(s) && Holds(s, key)
    ensures var e := EventOf(s, c);
            || Holds(After(s, e, max, ttl), key)
            || (e.Expired? && e.key == key)
            || e.Stored?
  {
    hide Without, Holds, DistinctKeys;
    MovingKeeps(s, c.key, key);
  }

  lemma HoldsIn(s: seq<Entry>, x: Entry)
    requires x in s
    ensures Holds(s, x.key)
  {
  }

  lemma LastHolds(s: seq<Entry>, max: nat, k: nat)
    requires k < |s|
    ensures |s| - k <= max ==> Holds(Last(s, max), s[k].key)
  {
    var r := Last(s, max);
    if |s| - k <= max { assert r[k - (|s| - |r|)] == s[k]; }
  }

  /** A put that evicts a live key leaves `max` keys used after it. */
  lemma EvictedIsOldest(s: seq<Entry>, log: seq<Event>, max: nat, ttl: real, x: Entry)
    requires Follows(s, log, ttl) && x in s && !Holds(Last(s, max), x.key)
    ensures |UsedSince(log, LastTouch(log, x.key))| >= max
  {
    hide LastTouch, UsedSince, Holds, DistinctKeys;
    var k :| 0 <= k < |s| && s[k] == x;
    var r := Last(s, max);
    LastHolds(s, max, k);
    var d := |s| - max;
    assert 0 <= k < d && r == s[d..];
    LastFollows(s, log, max, ttl);
    DistinctInUseOrder(r, log);
    assert LastTouch(log, x.key) >= -1;
    forall i | 0 <= i < |r| ensures Live(log, r[i].key) && LastTouch(log, r[i].key) > LastTouch(log, x.key) {
      assert r[i] == s[i + d];
      assert FromLastPut(r[i], log, ttl);
    }
    ResidentsUsedSince(r, log, LastTouch(log, x.key));
  }

  /** One key, one call: live and no longer resident means `max` keys used since. */
  lemma KeyKept(s: State, c: Call, max: nat, ttl: real, key: Bytes)
    requires Follows(s.entries, s.log, ttl) && KeepsRecent(s.entries, s.log, max)
    ensures var e := EventOf(s.entries, c); var log := s.log + [e];
            Live(log, key) && !Holds(After(s.entries, e, max, ttl), key) ==> |UsedSince(log, LastTouch(log, key))| >= max
  {
    hide LastTouch, UsedSince, Holds, Without, Find, Follows, Last;
    var e := EventOf(s.entries, c);
    var log := s.log + [e];
    DistinctFollows(s.entries, s.log, ttl);
    TouchAppend(s.log, e, key);
    assert LastTouch(s.log, key) >= -1;
    UsedAppend(s.log, e, LastTouch(s.log, key));
    if e.Stored? {
      StoredKept(s, e, max, ttl, key);
    } else if Holds(s.entries, key) {
      StaysResident(s.entries, c, max, ttl, key);
      assert e.Expired? && e.key == key ==> !Live(log, key);
    } else {
      HitIsHeld(s.entries, c);
      assert e.key == key ==> !e.Hit?;
    }
  }

  lemma DistinctFollows(s: seq<Entry>, log: seq<Event>, ttl: real)
    requires Follows(s, log, ttl)
    ensures DistinctKeys(s)
  {
    DistinctInUseOrder(s, log);
  }

  lemma HitIsHeld(s: seq<Entry>, c: Call)
    ensures EventOf(s, c).Hit? || EventOf(s, c).Expired? ==> Holds(s, c.key)
  {
    var i := Find(s, c.key);
    assert i < |s| ==> s[i].key == c.key;
  }

  lemma StoredKept(s: State, e: Event, max: nat, ttl: real, key: Bytes)
    requires Follows(s.entries, s.log, ttl) && KeepsRecent(s.entries, s.log, max) && e.Stored?
    ensures var log := s.log + [e];
            Live(log, key) && !Holds(After(s.entries, e, max, ttl), key) ==> |UsedSince(log, LastTouch(log, key))| >= max
  {
    hide LastTouch, UsedSince, Holds, Without, Find, Follows, Last;
    var log := s.log + [e];
    var w, x := Without(s.entries, Find(s.entries, e.key)), Entry(e.key, e.at + ttl, e.dek);
    var full := w + [x];
    TouchAppend(s.log, e, key);
    TouchAppend(s.log, e, e.key);
    assert LastTouch(s.log, key) >= -1;
    assert FromLastPut(x, log, ttl);
    UsedFollows(s.entries, s.log, e, x, ttl);
    if Live(log, key) && !Holds(Last(full, max), key) {
      if key == e.key {
        EvictedIsOldest(full, log, max, ttl, x);
      } else if Holds(s.entries, key) {
        var y := StillThere(s.entries, s.log, e, ttl, key);
        EvictedIsOldest(full, log, max, ttl, y);
      } else {
        UsedAppend(s.log, e, LastTouch(s.log, key));
      }
    }
  }

  lemma StillThere(s: seq<Entry>, log: seq<Event>, e: Event, ttl: real, key: Bytes) returns (y: Entry)
    requires Follows(s, log, ttl) && Holds(s, key) && key != e.key
    ensures y in Without(s, Find(s, e.key)) && y.key == key
  {
    DistinctFollows(s, log, ttl);
    WithoutKey(s, e.key, Without(s, Find(s, e.key)));
    var k :| 0 <= k < |s| && s[k].key == key;
    y := s[k];
  }

  /**
   Over every run of calls: the size never exceeds the maximum, each entry is its key's last put, the
   iteration order is last-use order, and a live key is missing only if `max` other keys were used
   since its own last use.
   */
  lemma {:induction false} CacheIsLru(calls: seq<Call>, max: nat, ttl: real)
    ensures Inv(Run(calls, max, ttl), max, ttl)
    decreases |calls|
  {
    RunFollows(calls, max, ttl);
    if calls == [] {
      assert Run(calls, max, ttl) == State([], []);
    } else {
      var n := |calls| - 1;
      CacheIsLru(calls[..n], max, ttl);
      RunFollows(calls[..n], max, ttl);
      KeepsRecentStep(Run(calls[..n], max, ttl), calls[n], max, ttl);
    }
  }

  lemma KeepsRecentStep(s: State, c: Call, max: nat, ttl: real)
    requires Follows(s.entries, s.log, ttl) && KeepsRecent(s.entries, s.log, max)
    ensures var e := EventOf(s.entries, c); KeepsRecent(After(s.entries, e, max, ttl), s.log + [e], max)
  {
    hide LastTouch, UsedSince, Holds, Without, Find, Follows, After;
    var e := EventOf(s.entries, c);
    forall key | Live(s.log + [e], key) && !Holds(After(s.entries, e, max, ttl), key)
      ensures |UsedSince(s.log + [e], LastTouch(s.log + [e], key))| >= max
    {
      KeyKept(s, c, max, ttl, key);
    }
  }

  /** Whatever a `get` serves is the last key put for that wrapped key, strictly within its time to live. */
  lemma ServedIsFresh(calls: seq<Call>, max: nat, ttl: real, key: Bytes, now: real)
    ensures var s := Run(calls, max, ttl); var e := EventOf(s.entries, Get(key, now));
            e.Hit? ==>
              var p := LastPut(s.log, key);
              p >= 0 && s.log[p].dek == e.dek && now < s.log[p].at + ttl
  {
    hide Run;
    RunFollows(calls, max, ttl);
    var s := Run(calls, max, ttl);
    var i := Find(s.entries, key);
    if i < |s.entries| { FollowsAt(s.entries, s.log, ttl, i); }
  }

  /**
   A key that is live, with fewer than `max` others used since its own last use, is served strictly before
   the end of its time to live and expires from then on; a miss means that it is not live or that
   `max` others have been used since.
   */
  lemma RecentIsServed(calls: seq<Call>, max: nat, ttl: real, key: Bytes, now: real)
    ensures var s := Run(calls, max, ttl); var e := EventOf(s.entries, Get(key, now)); var p := LastPut(s.log, key);
            && (Live(s.log, key) && |UsedSince(s.log, LastTouch(s.log, key))| < max ==>
                  p >= 0 && e == if now < s.log[p].at + ttl then Hit(key, s.log[p].dek, now) else Expired(key))
            && (e.Expired? ==> Live(s.log, key) && p >= 0 && now >= s.log[p].at + ttl)
            && (e.Missed? ==> !Live(s.log, key) || |UsedSince(s.log, LastTouch(s.log, key))| >= max)
  {
    hide Run, UsedSince;
    CacheIsLru(calls, max, ttl);
    RunFollows(calls, max, ttl);
    var s := Run(calls, max, ttl);
    var i := Find(s.entries, key);
    if i < |s.entries| { FollowsAt(s.entries, s.log, ttl, i); }
  }

  // ---------------------------------------------------------------- the cache itself

  lemma RunAppend(calls: seq<Call>, c: Call, max: nat, ttl: real)
    ensures var s := Run(calls, max, ttl); var e := EventOf(s.entries, c);
            Run(calls + [c], max, ttl) == State(After(s.entries, e, max, ttl), s.log + [e])
  {
    assert (calls + [c])[..|calls|] == calls;
  }

  /** Assigning in place and then moving to the end. */
  function Moved(s: seq<Entry>, i: nat, x: Entry): (r: seq<Entry>)
    requires i <= |s|
    ensures r == Without(s, i) + [x]
  {
    var t := if i < |s| then s[i := x] else s + [x];
    assert t[..i] + t[i + 1..] == Without(s, i);
    t[..i] + t[i + 1..] + [x]
  }

  lemma MovedFrom(s: seq<Entry>, i: nat, x: Entry, max: nat)
    requires i <= |s|
    ensures forall y :: y in Last(Without(s, i) + [x], max) ==> y in s || y == x
  {
    var full := Without(s, i) + [x];
    assert forall y :: y in Last(full, max) ==> y in full;
  }

  class Cache {
    var entries: seq<Entry>
    const maxSize: nat
    const ttl: real
    /** The calls so far. */
    ghost var calls: seq<Call>

    ghost predicate Valid()
      reads this
    {
      entries == Run(calls, maxSize, ttl).entries
    }

    constructor (maxSize: nat, ttl: real)
      ensures Valid() && this.maxSize == maxSize && this.ttl == ttl && calls == [] && entries == []
    {
      this.maxSize, this.ttl := maxSize, ttl;
      entries, calls := [], [];
    }

    /** Serves a key that has not expired and moves it to the end; an expired one is deleted. */
    method Lookup(wrapped: Bytes, now: real) returns (dek: Option<Bytes>)
      requires Valid()
      modifies this
      ensures Valid() && calls == old(calls) + [Get(wrapped, now)]
      ensures forall x :: x in entries ==> x in old(entries)
      ensures var e := EventOf(old(entries), Get(wrapped, now));
              && (dek.Some? <==> e.Hit?)
              && (dek.Some? ==> dek.value == e.dek && exists x :: x in old(entries) && x.key == wrapped && x.dek == dek.value)
    {
      hide Run;
      RunAppend(calls, Get(wrapped, now), maxSize, ttl);
      calls := calls + [Get(wrapped, now)];
      var i := Find(entries, wrapped);
      WithoutIs(entries, i);
      if i == |entries| {
        return None;
      }
      var entry := entries[i];
      entries := entries[..i] + entries[i + 1..];
      if now >= entry.expiresAt {
        return None;
      }
      entries := entries + [entry];
      dek := Some(entry.dek);
    }

    /** Stores a key at the end and evicts from the front while over the maximum. */
    method Store(wrapped: Bytes, dek: Bytes, now: real)
      requires Valid()
      modifies this
      ensures Valid() && calls == old(calls) + [Put(wrapped, dek, now)]
      ensures |entries| <= maxSize
      ensures forall x :: x in entries ==> x in old(entries) || (x.key == wrapped && x.dek == dek)
    {
      hide Run, Without, Last;
      RunAppend(calls, Put(wrapped, dek, now), maxSize, ttl);
      calls := calls + [Put(wrapped, dek, now)];
      var entry := Entry(wrapped, now + ttl, dek);
      var i := Find(entries, wrapped);
      MovedFrom(entries, i, entry, maxSize);
      // assignment keeps an existing key's position; the move then puts it last
      entries := Moved(entries, i, entry);
      ghost var kept := Last(entries, maxSize);
      while |entries| > maxSize
        invariant calls == old(calls) + [Put(wrapped, dek, now)]
        invariant Last(entries, maxSize) == kept
      {
        LastOfRest(entries, maxSize);
        entries := entries[1..];
      }
      LastFits(entries, maxSize);
    }
  }

  lemma LastOfRest(s: seq<Entry>, max: nat)
    requires |s| > max
    ensures Last(s[1..], max) == Last(s, max)
  {
  }

  lemma LastFits(s: seq<Entry>, max: nat)
    requires |s| <= max
    ensures Last(s, max) == s
  {
  }
}
