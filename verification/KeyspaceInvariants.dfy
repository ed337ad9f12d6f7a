/**
 What every run of commands keeps: data and metadata agree, and the capacity bound holds.
 */
module KeyspaceInvariants {
  import opened Bytes
  import opened Scoring
  import opened Keyspace
  import ListSurgery

  // ----- data and metadata agree -----

  /** A key is tracked exactly when it has data; it was accessed; its list and its hash are not empty. */
  predicate SlotOk(s: Slot) {
    && (s.stats.Some? <==> HasData(s))
    && (s.stats.Some? ==> s.stats.value.accessCount >= 1)
    && (s.list.Some? ==> s.list.value != [])
    && (s.hash.Some? ==> s.hash.value != map[])
  }

  ghost predicate Agrees(db: Db) {
    forall k :: SlotOk(At(db, k))
  }

  lemma AgreementMeans(db: Db)
    ensures Agrees(db) <==>
      && db.meta.Keys == db.kv.Keys + db.lists.Keys + db.hashes.Keys
      && (forall k <- db.meta :: db.meta[k].accessCount >= 1)
      && (forall k <- db.lists :: db.lists[k] != [])
      && (forall k <- db.hashes :: db.hashes[k] != map[])
  {
    if Agrees(db) {
      forall k
        ensures k in db.meta <==> k in db.kv || k in db.lists || k in db.hashes
        ensures k in db.meta ==> db.meta[k].accessCount >= 1
        ensures k in db.lists ==> db.lists[k] != []
        ensures k in db.hashes ==> db.hashes[k] != map[]
      {
        assert SlotOk(At(db, k));
      }
    }
  }

  lemma {:induction false} WithPairsKeys(h: Hash, pairs: seq<(Str, Str)>)
    ensures h.Keys <= WithPairs(h, pairs).Keys
    ensures pairs != [] ==> pairs[0].0 in WithPairs(h, pairs)
    decreases |pairs|
  {
    if pairs != [] {
      WithPairsKeys(h[pairs[0].0 := pairs[0].1], pairs[1..]);
    }
  }

  lemma CreateOk(op: Op, s: Slot, now: int)
    requires Creates(op) && (op.HMSet? ==> op.pairs != [])
    requires SlotOk(s) || s == EMPTY_SLOT
    ensures SlotOk(Create(op, s, now))
  {
    match op
    case Set(_, _) =>
    case LPush(_) =>
    case RPush(_) =>
    case HSet(f, v) => assert f in HashOr(s)[f := v];
    case HMSet(pairs) => WithPairsKeys(HashOr(s), pairs);
  }

  lemma OnListOk(op: Op, s: Slot, now: int)
    requires op.LGet? || op.LLen? || op.RPop? || op.LPop? || op.LRem? || op.LIndex? || op.LSet?
    requires SlotOk(s)
    ensures SlotOk(OnList(op, s, now).0)
  {
    hide ListSurgery.Removed, ListSurgery.Occurrences;
  }

  lemma SlotStepOk(op: Op, s: Slot, now: int)
    requires SlotOk(s)
    requires op.HMSet? ==> op.pairs != []
    ensures SlotOk(SlotStep(op, s, now).0)
  {
    hide Create, OnList, SlotExpired;
    if Creates(op) {
      CreateOk(op, if SlotExpired(s, now) then Erased(s) else s, now);
    } else if op.LGet? || op.LLen? || op.RPop? || op.LPop? || op.LRem? || op.LIndex? || op.LSet? {
      OnListOk(op, s, now);
    }
  }

  /** Without its handler's check, HMSET with no pairs would track a key that holds nothing. */
  lemma HMSetAgreement(s: Slot, pairs: seq<(Str, Str)>, now: int)
    requires SlotOk(s)
    ensures SlotOk(SlotStep(HMSet(pairs), s, now).0) <==> pairs != [] || (HasData(s) && !SlotExpired(s, now))
  {
    if pairs != [] {
      SlotStepOk(HMSet(pairs), s, now);
    }
  }

  // ----- the two commands that touch several keys, key by key -----

  lemma DataKeysAt(db: Db, k: Str)
    ensures k in DataKeys(db) <==> HasData(At(db, k))
  {
  }

  lemma KeysAt(db: Db, now: int)
    ensures forall k :: At(AfterKeys(db, now), k) == KeysSlot(At(db, k), now)
  {
    forall k ensures At(AfterKeys(db, now), k) == KeysSlot(At(db, k), now) {
      assert k in DataKeys(db) <==> HasData(At(db, k));
    }
  }

  predicate Renames(db: Db, from: Str, to: Str, now: int) {
    !SlotExpired(At(db, from), now) && from != to && HasData(At(db, from))
  }

  function RenamedSlot(db: Db, from: Str, to: Str, now: int, k: Str): Slot {
    if SlotExpired(At(db, from), now) then
      if k == from then Erased(At(db, k)) else At(db, k)
    else if k == from then EMPTY_SLOT
    else if k == to then
      if HasData(At(db, from)) then Moved(Erased(At(db, to)), At(db, from), now) else Erased(At(db, to))
    else At(db, k)
  }

  lemma RenameAt(db: Db, from: Str, to: Str, now: int)
    ensures forall k :: At(AfterRename(db, from, to, now).0, k) == RenamedSlot(db, from, to, now, k)
    ensures AfterRename(db, from, to, now).1 == Renames(db, from, to, now)
  {
    hide At, Put, Moved, SlotExpired;
    PutAt(db, from, Erased(At(db, from)));
    var cleared := Put(db, to, Erased(At(db, to)));
    PutAt(db, to, Erased(At(db, to)));
    var source := At(cleared, from);
    var taken := Put(cleared, from, EMPTY_SLOT);
    PutAt(cleared, from, EMPTY_SLOT);
    PutAt(taken, to, Moved(At(taken, to), source, now));
  }

  lemma EmptyAt(k: Str)
    ensures At(EMPTY_DB, k) == EMPTY_SLOT
  {
  }

  lemma AfterAgrees(db: Db, cmd: Cmd, now: int)
    requires Agrees(db) && WellFormed(cmd)
    ensures Agrees(After(db, cmd, now))
  {
    hide At, Put, SlotStep, AfterKeys, AfterRename, SlotExpired;
    var db' := After(db, cmd, now);
    forall k ensures SlotOk(At(db', k)) {
      assert SlotOk(At(db, k));
      match cmd
      case On(key, op) =>
        PutAt(db, key, SlotStep(op, At(db, key), now).0);
        SlotStepOk(op, At(db, key), now);
      case Keys => KeysAt(db, now);
      case FlushAll => EmptyAt(k);
      case Rename(from, to) =>
        RenameAt(db, from, to, now);
        assert SlotOk(At(db, from));
    }
  }

  lemma DropAgrees(db: Db, key: Str)
    requires Agrees(db)
    ensures Agrees(Drop(db, key))
  {
    PutAt(db, key, Erased(At(db, key)));
  }

  lemma NextAgrees(db: Db, e: Event)
    requires Agrees(db) && WellFormed(e.cmd)
    ensures Agrees(Next(db, e))
  {
    AfterAgrees(db, e.cmd, e.now);
    if e.victim.Some? {
      DropAgrees(After(db, e.cmd, e.now), e.victim.value);
    }
  }

  // ----- capacity -----

  /** In how many stores the key sits. */
  function StoreCount(s: Slot): nat {
    (if s.str.Some? then 1 else 0) + (if s.list.Some? then 1 else 0) + (if s.hash.Some? then 1 else 0)
  }

  lemma StoreSize<V>(m: map<Str, V>, key: Str, v: Option<V>)
    ensures |Store(m, key, v)| == |m| - (if key in m then 1 else 0) + (if v.Some? then 1 else 0)
  {
    if v.Some? {
      assert Store(m, key, v).Keys == m.Keys + {key};
    } else {
      assert Store(m, key, v).Keys == m.Keys - {key};
    }
  }

  lemma CountAfterPut(db: Db, key: Str, s: Slot)
    ensures KeyCount(Put(db, key, s)) == KeyCount(db) - StoreCount(At(db, key)) + StoreCount(s)
  {
    hide Store;
    StoreSize(db.kv, key, s.str);
    StoreSize(db.lists, key, s.list);
    StoreSize(db.hashes, key, s.hash);
  }

  lemma SlotGrowth(op: Op, s: Slot, now: int)
    ensures StoreCount(SlotStep(op, s, now).0) <= StoreCount(s) + if Creates(op) then 1 else 0
  {
    hide SlotExpired, ListSurgery.Removed, ListSurgery.Occurrences;
  }

  lemma AfterCount(db: Db, cmd: Cmd, now: int)
    ensures KeyCount(After(db, cmd, now)) <= KeyCount(db) + if cmd.On? && Creates(cmd.op) then 1 else 0
  {
    hide At, Put, SlotStep;
    match cmd
    case On(key, op) =>
      CountAfterPut(db, key, SlotStep(op, At(db, key), now).0);
      SlotGrowth(op, At(db, key), now);
    case Keys => KeysCount(db, now);
    case FlushAll =>
    case Rename(from, to) => RenameCount(db, from, to, now);
  }

  lemma KeysCount(db: Db, now: int)
    ensures KeyCount(AfterKeys(db, now)) <= KeyCount(db)
  {
    var gone := Doomed(db, now);
    assert (db.kv - gone).Keys == db.kv.Keys - gone;
    assert (db.lists - gone).Keys == db.lists.Keys - gone;
    assert (db.hashes - gone).Keys == db.hashes.Keys - gone;
    assert |db.kv.Keys - gone| <= |db.kv.Keys|;
    assert |db.lists.Keys - gone| <= |db.lists.Keys|;
    assert |db.hashes.Keys - gone| <= |db.hashes.Keys|;
  }

  lemma RenameCount(db: Db, from: Str, to: Str, now: int)
    ensures KeyCount(AfterRename(db, from, to, now).0) <= KeyCount(db)
  {
    hide At, Put, SlotExpired, KeyCount;
    CountAfterPut(db, from, Erased(At(db, from)));
    CountAfterPut(db, to, Erased(At(db, to)));
    var cleared := Put(db, to, Erased(At(db, to)));
    var source := At(cleared, from);
    var taken := Put(cleared, from, EMPTY_SLOT);
    CountAfterPut(cleared, from, EMPTY_SLOT);
    PutAt(db, to, Erased(At(db, to)));
    PutAt(cleared, from, EMPTY_SLOT);
    CountAfterPut(taken, to, Moved(At(taken, to), source, now));
  }

  /** Every key eviction may choose holds data, so evicting it frees room, also for the fallback choice. */
  lemma VictimHasData(cfg: Config, db: Db, now: int, key: Str)
    requires Agrees(db) && KeyCount(db) > 0
    requires Victim(cfg, db, now, key)
    ensures HasData(At(db, key))
  {
    hide AnyExpired, Expired, Score;
    assert SlotOk(At(db, key));
  }

  /** One eviction is always enough. */
  lemma NextWithinLimit(cfg: Config, db: Db, e: Event)
    requires Agrees(db) && KeyCount(db) <= cfg.limit
    requires WellFormed(e.cmd) && Allowed(cfg, db, e)
    ensures KeyCount(Next(db, e)) <= cfg.limit
  {
    hide At, Put, After, KeyCount, Victim;
    var mid := After(db, e.cmd, e.now);
    AfterCount(db, e.cmd, e.now);
    if e.victim.Some? {
      AfterAgrees(db, e.cmd, e.now);
      VictimHasData(cfg, mid, e.now, e.victim.value);
      CountAfterPut(mid, e.victim.value, EMPTY_SLOT);
    }
  }

  /** And a key to evict is always found, so no command ever gets stuck. */
  lemma EveryCommandRuns(cfg: Config, db: Db, cmd: Cmd, now: int) returns (e: Event)
    requires cfg.policy.Valid()
    ensures e.cmd == cmd && e.now == now && Allowed(cfg, db, e)
  {
    hide After, Candidate;
    var mid := After(db, cmd, now);
    e := Event(cmd, now, None);
    if Evicting(cfg, cmd, mid) {
      var v: Str := [];
      if mid.meta != map[] {
        var order := Enumerable(mid.meta.Keys);
        ScanMeetsPolicy(cfg.policy, mid.meta, now, order);
        v := ScanResult(cfg.policy, mid.meta, now, order);
      }
      if v == [] {
        v := SomeKey(mid);
      }
      e := Event(cmd, now, Some(v));
    }
  }

  lemma SomeKey(db: Db) returns (key: Str)
    requires KeyCount(db) > 0
    ensures Fallback(db, key)
  {
    if db.kv != map[] {
      key :| key in db.kv;
    } else if db.lists != map[] {
      key :| key in db.lists;
    } else {
      key :| key in db.hashes;
    }
  }

  ghost predicate Inv(cfg: Config, db: Db) {
    Agrees(db) && KeyCount(db) <= cfg.limit
  }

  /** On every run: metadata and data agree, and the store sizes add up to no more than the limit. */
  lemma {:induction false} RunKeepsInvariants(cfg: Config, db: Db, tr: seq<Event>, since: int)
    requires Inv(cfg, db)
    requires Run(cfg, db, tr, since)
    ensures Inv(cfg, Final(db, tr))
    decreases |tr|
  {
    if tr != [] {
      NextAgrees(db, tr[0]);
      NextWithinLimit(cfg, db, tr[0]);
      RunKeepsInvariants(cfg, Next(db, tr[0]), tr[1..], tr[0].now);
    }
  }

  /** In particular for every state the server can reach from an empty database. */
  lemma ReachableInvariants(cfg: Config, tr: seq<Event>, since: int)
    requires Run(cfg, EMPTY_DB, tr, since)
    ensures var db := Final(EMPTY_DB, tr);
            && db.meta.Keys == db.kv.Keys + db.lists.Keys + db.hashes.Keys
            && (forall k <- db.meta :: db.meta[k].accessCount >= 1)
            && (forall k <- db.lists :: db.lists[k] != [])
            && (forall k <- db.hashes :: db.hashes[k] != map[])
            && |db.kv| + |db.lists| + |db.hashes| <= cfg.limit
  {
    hide Run, Final;
    assert Agrees(EMPTY_DB);
    RunKeepsInvariants(cfg, EMPTY_DB, tr, since);
    AgreementMeans(Final(EMPTY_DB, tr));
  }
}
