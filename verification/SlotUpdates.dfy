/**
 How the single assignments of the database's methods read as updates of one key's slot: db is the
 state a method started from, s the slot as it stands.
 */
module SlotUpdates {
  import opened Bytes
  import opened Scoring
  import opened Keyspace
  import opened PredictiveCache

  lemma Unchanged(db: Db, key: Str)
    ensures Put(db, key, At(db, key)) == db
  {
    SameSlots(Put(db, key, At(db, key)), db);
  }

  lemma StrPut(db: Db, key: Str, s: Slot, v: Str)
    ensures var mid := Put(db, key, s);
            mid.(kv := mid.kv[key := v]) == Put(db, key, s.(str := Some(v)))
  {
    var mid := Put(db, key, s);
    SameSlots(mid.(kv := mid.kv[key := v]), Put(db, key, s.(str := Some(v))));
  }

  lemma ListPut(db: Db, key: Str, s: Slot, v: seq<Str>)
    ensures var mid := Put(db, key, s);
            mid.(lists := mid.lists[key := v]) == Put(db, key, s.(list := Some(v)))
  {
    var mid := Put(db, key, s);
    SameSlots(mid.(lists := mid.lists[key := v]), Put(db, key, s.(list := Some(v))));
  }

  lemma HashPut(db: Db, key: Str, s: Slot, v: Hash)
    ensures var mid := Put(db, key, s);
            mid.(hashes := mid.hashes[key := v]) == Put(db, key, s.(hash := Some(v)))
  {
    var mid := Put(db, key, s);
    SameSlots(mid.(hashes := mid.hashes[key := v]), Put(db, key, s.(hash := Some(v))));
  }

  lemma AccessPut(db: Db, key: Str, s: Slot, now: int)
    ensures var mid := Put(db, key, s);
            mid.(meta := mid.meta[key := Touch(StatsIn(mid.meta, key, now), now)]) == Put(db, key, Touched(s, now))
  {
    var mid := Put(db, key, s);
    SameSlots(mid.(meta := mid.meta[key := Touch(StatsIn(mid.meta, key, now), now)]), Put(db, key, Touched(s, now)));
  }

  lemma TtlPut(db: Db, key: Str, s: Slot, ttl: real, now: int)
    ensures var mid := Put(db, key, s);
            mid.(meta := mid.meta[key := WithTtl(StatsIn(mid.meta, key, now), ttl, now)])
            == Put(db, key, Timed(s, ttl, now))
  {
    var mid := Put(db, key, s);
    SameSlots(mid.(meta := mid.meta[key := WithTtl(StatsIn(mid.meta, key, now), ttl, now)]),
              Put(db, key, Timed(s, ttl, now)));
  }

  lemma StatsPut(db: Db, key: Str, s: Slot, stats: Stats)
    ensures var mid := Put(db, key, s);
            mid.(meta := mid.meta[key := stats]) == Put(db, key, s.(stats := Some(stats)))
  {
    var mid := Put(db, key, s);
    SameSlots(mid.(meta := mid.meta[key := stats]), Put(db, key, s.(stats := Some(stats))));
  }

  lemma Untracked(db: Db, key: Str)
    ensures db.(meta := db.meta - {key}) == Put(db, key, At(db, key).(stats := None))
  {
    SameSlots(db.(meta := db.meta - {key}), Put(db, key, At(db, key).(stats := None)));
  }

  /** The data of slot s under this key, whose metadata stays. */
  function WithData(db: Db, key: Str, s: Slot): Db {
    Put(db, key, s.(stats := At(db, key).stats))
  }

  /** Moving the data of one key to another, store by store. */
  lemma DataMoved(db: Db, from: Str, to: Str)
    requires from != to && !HasData(At(db, to))
    ensures Db(MoveEntry(db.kv, from, to), MoveEntry(db.lists, from, to), MoveEntry(db.hashes, from, to), db.meta)
         == WithData(WithData(db, from, EMPTY_SLOT), to, At(db, from))
  {
    SameSlots(Db(MoveEntry(db.kv, from, to), MoveEntry(db.lists, from, to), MoveEntry(db.hashes, from, to), db.meta),
              WithData(WithData(db, from, EMPTY_SLOT), to, At(db, from)));
  }

  function MoveEntry<V>(m: map<Str, V>, from: Str, to: Str): map<Str, V> {
    if from in m then m[to := m[from]] - {from} else m
  }

  lemma ErasePut(db: Db, key: Str, s: Slot)
    ensures Drop(Put(db, key, s), key) == Put(db, key, Erased(s))
  {
    hide At, Put, Erased;
    PutAt(db, key, s);
    PutAt(db, key, Erased(s));
    PutAt(Put(db, key, s), key, Erased(s));
    SameSlots(Drop(Put(db, key, s), key), Put(db, key, Erased(s)));
  }

  lemma SlotOfPut(db: Db, key: Str, s: Slot)
    ensures At(Put(db, key, s), key) == s
  {
  }

  lemma ErasedFields(db: Db, key: Str)
    ensures HasData(At(db, key)) ==>
      Db(db.kv - {key}, db.lists - {key}, db.hashes - {key}, db.meta - {key}) == Drop(db, key)
    ensures !HasData(At(db, key)) ==>
      Db(db.kv - {key}, db.lists - {key}, db.hashes - {key}, db.meta) == Drop(db, key)
  {
    Unchanged(db, key);
    if !HasData(At(db, key)) {
      SameSlots(Db(db.kv - {key}, db.lists - {key}, db.hashes - {key}, db.meta), db);
    }
  }
}
