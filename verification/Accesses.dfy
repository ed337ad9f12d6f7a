/**
 What counts as an access, and what the metadata remembers of it: every command that finds what it is
 about counts once, at its own time; over a run, the counts add up and the last time stays.
 */
module Accesses {
  import opened Bytes
  import opened Scoring
  import opened Keyspace
  import opened KeyspaceInvariants
  import ListSurgery

  /** The command finds what it is about in what the live key holds. */
  predicate Served(op: Op, s: Slot) {
    match op
    case Set(_, _) | LPush(_) | RPush(_) | HSet(_, _) | HMSet(_) => true
    case Get => s.str.Some?
    case Type => HasData(s)
    case Del => false
    case Expire(seconds) => HasData(s) && seconds > 0
    case LGet | LLen | RPop | LPop => s.list.Some?
    case LRem(_, v) => s.list.Some? && v in s.list.value
    case LIndex(i) => s.list.Some? && -|s.list.value| <= i < |s.list.value|
    case LSet(i, _) => s.list.Some? && -|s.list.value| <= i < |s.list.value|
    case HGet(f) => s.hash.Some? && f in s.hash.value
    case HExists(_) | HDel(_) | HGetAll | HLen => s.hash.Some?
  }

  /** What the metadata says of the TTL after a command that leaves the key in place. */
  function TtlAfter(op: Op, s: Slot, now: int): (real, int) {
    match op
    case Set(_, ttl) => (if ttl > 0.0 then ttl else 0.0, now)
    case Expire(seconds) => (seconds as real, now)
    case _ => if s.stats.Some? then (s.stats.value.ttl, s.stats.value.ttlSetTime) else (0.0, now)
  }

  function CountOf(s: Slot): nat {
    if s.stats.Some? then s.stats.value.accessCount else 0
  }

  lemma {:induction false} OccursSome(lst: seq<Str>, v: Str)
    ensures ListSurgery.Occurrences(lst, v) > 0 <==> v in lst
  {
    if lst != [] {
      OccursSome(lst[1..], v);
      assert v in lst <==> v == lst[0] || v in lst[1..];
    }
  }

  lemma RemovesSome(lst: seq<Str>, count: int, v: Str)
    ensures ListSurgery.Occurrences(lst, v) - ListSurgery.Occurrences(ListSurgery.Removed(lst, count, v), v) > 0
            <==> v in lst
  {
    hide ListSurgery.Removed, ListSurgery.Occurrences;
    OccursSome(lst, v);
    ListSurgery.RemovedConserves(lst, count, v);
  }

  /** What a command makes of the metadata: one access if it is served, and otherwise nothing, unless it deletes. */
  predicate Remembered(op: Op, s: Slot, t: Slot, now: int) {
    if Served(op, s) then
      t != EMPTY_SLOT ==>
        && t.stats.Some?
        && t.stats.value == Stats(CountOf(s) + 1, now, TtlAfter(op, s, now).0, TtlAfter(op, s, now).1)
    else t == if op.Del? || op.Expire? then EMPTY_SLOT else s
  }

  predicate IsListOp(op: Op) {
    op.LGet? || op.LLen? || op.RPop? || op.LPop? || op.LRem? || op.LIndex? || op.LSet?
  }

  lemma ListAccess(op: Op, s: Slot, now: int)
    requires IsListOp(op) && SlotOk(s)
    ensures Remembered(op, s, OnList(op, s, now).0, now)
  {
    hide ListSurgery.Removed, ListSurgery.Occurrences;
    if op.LRem? && s.list.Some? {
      RemovesSome(s.list.value, op.count, op.value);
    }
  }

  predicate IsHashOp(op: Op) {
    op.HGet? || op.HExists? || op.HDel? || op.HGetAll? || op.HLen?
  }

  lemma HashAccess(op: Op, s: Slot, now: int)
    requires IsHashOp(op)
    ensures Remembered(op, s, OnHash(op, s, now).0, now)
  {
  }

  lemma CreateAccess(op: Op, s: Slot, now: int)
    requires Creates(op)
    ensures Remembered(op, s, Create(op, s, now), now)
  {
    hide WithPairs;
  }

  /** Every command on a live or missing key is remembered so. */
  lemma SlotAccess(op: Op, s: Slot, now: int)
    requires SlotOk(s) && !SlotExpired(s, now)
    ensures var t := SlotStep(op, s, now).0;
            && (Served(op, s) && t != EMPTY_SLOT ==>
                  && t.stats.Some?
                  && t.stats.value == Stats(CountOf(s) + 1, now, TtlAfter(op, s, now).0, TtlAfter(op, s, now).1))
            && (!Served(op, s) ==> t == if op.Del? || op.Expire? then EMPTY_SLOT else s)
  {
    hide SlotExpired, OnList, OnHash, Create;
    if IsListOp(op) {
      ListAccess(op, s, now);
    } else if IsHashOp(op) {
      HashAccess(op, s, now);
    } else if Creates(op) {
      CreateAccess(op, s, now);
    }
  }

  /** An expired key that a write creates anew starts as if it had never been. */
  lemma ExpiredStartsAnew(op: Op, s: Slot, now: int)
    requires SlotOk(s) && SlotExpired(s, now) && Creates(op)
    ensures SlotStep(op, s, now) == SlotStep(op, EMPTY_SLOT, now)
  {
  }

  /** KEYS is an access to every live key, and deletes the expired ones for good. */
  lemma KeysAccesses(db: Db, now: int, key: Str)
    requires Agrees(db)
    ensures var s, t := At(db, key), At(AfterKeys(db, now), key);
            if SlotExpired(s, now) || s == EMPTY_SLOT then t == EMPTY_SLOT
            else s.stats.Some? && var m := s.stats.value;
                 t == s.(stats := Some(Stats(m.accessCount + 1, now, m.ttl, m.ttlSetTime)))
  {
    hide At, AfterKeys, SlotExpired;
    KeysAt(db, now);
    assert SlotOk(At(db, key));
  }

  /** In the database: a served command on a live key that leaves it in place. */
  lemma AccessIsRemembered(db: Db, key: Str, op: Op, now: int)
    requires Agrees(db) && !SlotExpired(At(db, key), now) && Served(op, At(db, key))
    ensures var db' := After(db, On(key, op), now);
            key in db'.meta ==>
              && db'.meta[key].accessCount == (if key in db.meta then db.meta[key].accessCount else 0) + 1
              && db'.meta[key].lastAccess == now
              && (key in db.meta && !op.Set? && !op.Expire? ==>
                    db'.meta[key].ttl == db.meta[key].ttl && db'.meta[key].ttlSetTime == db.meta[key].ttlSetTime)
  {
    hide SlotStep, SlotExpired, Served;
    SlotAccess(op, At(db, key), now);
  }

  /** In particular a GET that is answered. */
  lemma AnsweredGetIsRemembered(db: Db, key: Str, v: Str, now: int)
    requires Agrees(db) && Answer(db, On(key, Get), now) == Value(Some(v))
    ensures key in db.meta && key in After(db, On(key, Get), now).meta
    ensures var was := db.meta[key];
            After(db, On(key, Get), now).meta[key] == Stats(was.accessCount + 1, now, was.ttl, was.ttlSetTime)
  {
    assert SlotOk(At(db, key));
    hide SlotExpired;
    SlotAccess(Get, At(db, key), now);
  }

  // ----- runs -----

  predicate IsAccess(db: Db, e: Event, key: Str) {
    e.cmd == Keys || (e.cmd.On? && e.cmd.key == key && Served(e.cmd.op, At(db, key)))
  }

  /** The key is there, live, before the command, it is there afterwards, and no other key is renamed onto it. */
  predicate Stays(db: Db, e: Event, key: Str) {
    && At(db, key) != EMPTY_SLOT && !SlotExpired(At(db, key), e.now) && At(Next(db, e), key) != EMPTY_SLOT
    && (e.cmd.Rename? ==> e.cmd.to != key)
  }

  predicate AllStay(db: Db, tr: seq<Event>, key: Str)
    decreases |tr|
  {
    tr == [] || (Stays(db, tr[0], key) && AllStay(Next(db, tr[0]), tr[1..], key))
  }

  /** When the key was accessed in the run. */
  function AccessTimes(db: Db, tr: seq<Event>, key: Str): seq<int>
    decreases |tr|
  {
    if tr == [] then []
    else (if IsAccess(db, tr[0], key) then [tr[0].now] else []) + AccessTimes(Next(db, tr[0]), tr[1..], key)
  }

  lemma OneEvent(db: Db, e: Event, key: Str)
    requires Agrees(db) && WellFormed(e.cmd) && Stays(db, e, key)
    ensures key in db.meta && key in Next(db, e).meta
    ensures var m, m' := db.meta[key], Next(db, e).meta[key];
            if IsAccess(db, e, key) then m'.accessCount == m.accessCount + 1 && m'.lastAccess == e.now else m' == m
  {
    hide At, Put, SlotStep, AfterKeys, AfterRename, SlotExpired, Served;
    var mid := After(db, e.cmd, e.now);
    assert SlotOk(At(db, key));
    if e.victim.Some? {
      PutAt(mid, e.victim.value, Erased(At(mid, e.victim.value)));
      AfterAgrees(db, e.cmd, e.now);
      assert SlotOk(At(mid, e.victim.value));
    }
    assert At(mid, key) == At(Next(db, e), key);
    match e.cmd {
      case On(k, op) =>
        PutAt(db, k, SlotStep(op, At(db, k), e.now).0);
        if k == key { SlotAccess(op, At(db, key), e.now); }
      case Keys => KeysAccesses(db, e.now, key);
      case FlushAll => EmptyAt(key);
      case Rename(from, to) => RenameAt(db, from, to, e.now);
    }
    InMeta(db, key);
    InMeta(Next(db, e), key);
  }

  lemma InMeta(db: Db, key: Str)
    ensures key in db.meta <==> At(db, key).stats.Some?
    ensures key in db.meta ==> At(db, key).stats.value == db.meta[key]
  {
  }

  /**
   Over any run in which the key stays: its access count grows by the number of its accesses, KEYS
   included, and its last access is the time of the last of them.
   */
  lemma {:induction false} AccessesAddUp(db: Db, tr: seq<Event>, key: Str)
    requires Agrees(db) && key in db.meta && AllStay(db, tr, key)
    requires forall i :: 0 <= i < |tr| ==> WellFormed(tr[i].cmd)
    ensures key in Final(db, tr).meta
    ensures var times, m, m' := AccessTimes(db, tr, key), db.meta[key], Final(db, tr).meta[key];
            && m'.accessCount == m.accessCount + |times|
            && m'.lastAccess == if times == [] then m.lastAccess else times[|times| - 1]
    decreases |tr|
  {
    hide Next, Stays, IsAccess;
    if tr != [] {
      OneEvent(db, tr[0], key);
      NextAgrees(db, tr[0]);
      AccessesAddUp(Next(db, tr[0]), tr[1..], key);
    }
  }
}
