/**
 The database as the object it is (src/RedisDatabase.cpp): methods that update the three stores and
 the cache in place. State() is what Keyspace reasons about; each method is proved to take the step,
 and to give the answer, that Keyspace defines for its command. Every method runs under the database
 mutex, so it is one atomic step; its clock reading is the parameter now.
 */
module Database {
  import opened Bytes
  import opened Scoring
  import opened Keyspace
  import opened KeyspaceInvariants
  import opened PredictiveCache
  import opened SlotUpdates
  import ListSurgery

  /** What checkAndEvict does: only an overfull database loses a key, one that the policy or the fallback names. */
  ghost predicate Evicts(cfg: Config, before: Db, now: int, victim: Option<Str>, after: Db) {
    if KeyCount(before) > cfg.limit
    then victim.Some? && Victim(cfg, before, now, victim.value) && after == Drop(before, victim.value)
    else victim.None? && after == before
  }

  class RedisDatabase {
    var kvStore: map<Str, Str>
    var listStore: map<Str, seq<Str>>
    var hashStore: map<Str, Hash>
    const predictiveCache: AdaptivePredictiveCache
    const maxCacheSize: nat

    ghost function State(): Db
      reads this, predictiveCache
    {
      Db(kvStore, listStore, hashStore, predictiveCache.Meta())
    }

    function Cfg(): Config {
      Config(predictiveCache.policy, maxCacheSize)
    }

    constructor (policy: Policy, limit: nat := MAX_CACHE_SIZE)
      ensures State() == EMPTY_DB && Cfg() == Config(policy, limit)
      ensures fresh(predictiveCache)
    {
      kvStore, listStore, hashStore := map[], map[], map[];
      maxCacheSize := limit;
      predictiveCache := new AdaptivePredictiveCache(policy);
    }

    // ----- private helpers -----

    method DelInternal(key: Str) returns (erased: bool)
      modifies this, predictiveCache
      ensures State() == Drop(old(State()), key)
      ensures erased == HasData(At(old(State()), key))
      ensures !erased ==> State() == old(State())
    {
      hide Drop;
      ErasedFields(State(), key);
      erased := key in kvStore;
      kvStore := kvStore - {key};
      erased := erased || key in listStore;
      listStore := listStore - {key};
      erased := erased || key in hashStore;
      hashStore := hashStore - {key};
      if erased {
        predictiveCache.RemoveKey(key);
      }
    }

    method IsExpired(key: Str, now: int) returns (expired: bool)
      modifies predictiveCache
      ensures State() == old(State())
      ensures expired == SlotExpired(At(State(), key), now)
    {
      if !predictiveCache.Contains(key) {
        return false;
      }
      predictiveCache.UpdateScore(key, now);
      var left := predictiveCache.GetTTLRemaining(key, now);
      expired := left <= 0.0 && predictiveCache.metaStore[key].ttlInitialSeconds > 0.0;
    }

    /** The lazy expiry every command on a key starts with. */
    method DeleteIfExpired(key: Str, now: int) returns (expired: bool)
      modifies this, predictiveCache
      ensures expired == SlotExpired(At(old(State()), key), now)
      ensures State() == if expired then Put(old(State()), key, Erased(At(old(State()), key))) else old(State())
    {
      hide At, Put, SlotExpired, Erased;
      expired := IsExpired(key, now);
      if expired {
        var _ := DelInternal(key);
      }
    }

    method CheckAndEvict(now: int) returns (ghost victim: Option<Str>)
      requires predictiveCache.policy.Valid()
      modifies this, predictiveCache
      ensures Evicts(Cfg(), old(State()), now, victim, State())
    {
      hide Candidate, ScanResult, Drop;
      victim := None;
      if |kvStore| + |listStore| + |hashStore| <= maxCacheSize {
        return;
      }
      ghost var meta := predictiveCache.Meta();
      assert meta.Keys == predictiveCache.metaStore.Keys;
      var order := Iterate(predictiveCache.metaStore.Keys);
      var keyToEvict := predictiveCache.EvictCandidate(now, order);
      if meta != map[] {
        ScanMeetsPolicy(predictiveCache.policy, meta, now, order);
      } else {
        EnumeratesNothing(order, meta.Keys);
        ScanOfNothing(predictiveCache.policy, meta, now);
      }
      if keyToEvict == [] {
        if kvStore != map[] {
          keyToEvict :| keyToEvict in kvStore;
        } else if listStore != map[] {
          keyToEvict :| keyToEvict in listStore;
        } else if hashStore != map[] {
          keyToEvict :| keyToEvict in hashStore;
        }
      }
      victim := Some(keyToEvict);
      var _ := DelInternal(keyToEvict);
    }

    // ----- common commands -----

    method FlushAll(now: int) returns (ok: bool)
      modifies this, predictiveCache
      ensures State() == After(old(State()), Cmd.FlushAll, now)
      ensures Answer(old(State()), Cmd.FlushAll, now) == Flag(ok)
    {
      kvStore, listStore, hashStore := map[], map[], map[];
      predictiveCache.Clear();
      ok := true;
    }

    method Set(key: Str, value: Str, ttlSeconds: real, now: int) returns (ghost victim: Option<Str>)
      requires predictiveCache.policy.Valid()
      modifies this, predictiveCache
      ensures Allowed(Cfg(), old(State()), Event(On(key, Op.Set(value, ttlSeconds)), now, victim))
      ensures State() == Next(old(State()), Event(On(key, Op.Set(value, ttlSeconds)), now, victim))
    {
      hide Put, Drop, After, Next, Allowed, Answer, Evicts, SlotExpired, Touched, Timed, Erased, StatsOr;
      ghost var db, s := State(), At(State(), key);
      Unchanged(db, key);
      var expired := false;
      if predictiveCache.Contains(key) {
        expired := IsExpired(key, now);
      } else {
        UntrackedNeverExpires(s, now);
      }
      if expired {
        var _ := DelInternal(key);
        ErasePut(db, key, s);
        s := Erased(s);
      }
      kvStore := kvStore[key := value];
      StrPut(db, key, s, value);
      s := s.(str := Some(value));
      predictiveCache.RecordAccess(key, now);
      AccessPut(db, key, s, now);
      s := Touched(s, now);
      if ttlSeconds > 0.0 {
        predictiveCache.SetTTL(key, ttlSeconds, now);
        TtlPut(db, key, s, ttlSeconds, now);
        s := Timed(s, ttlSeconds, now);
      } else if predictiveCache.Contains(key) {
        predictiveCache.SetTTL(key, 0.0, now);
        TtlPut(db, key, s, 0.0, now);
        s := Timed(s, 0.0, now);
      }
      victim := CheckAndEvict(now);
      Written(Cfg(), db, key, Op.Set(value, ttlSeconds), now, s, victim, State());
    }

    method Get(key: Str, now: int) returns (found: bool, value: Str)
      modifies this, predictiveCache
      ensures State() == After(old(State()), On(key, Op.Get), now)
      ensures Answer(old(State()), On(key, Op.Get), now) == Value(if found then Some(value) else None)
    {
      hide At, Put, Drop, After, Answer, SlotExpired, Touched, Erased;
      ghost var db, s := State(), At(State(), key);
      Unchanged(db, key);
      OnOneKey(db, key, Op.Get, now);
      SlotFields(db, key);
      var expired := DeleteIfExpired(key, now);
      if expired {
        return false, [];
      }
      if key in kvStore {
        predictiveCache.RecordAccess(key, now);
        AccessPut(db, key, s, now);
        return true, kvStore[key];
      }
      return false, [];
    }

    /** One turn of the loop of keys: an expired key goes, any other is accessed. */
    method VisitKey(key: Str, now: int) returns (expired: bool)
      requires HasData(At(State(), key))
      modifies this, predictiveCache
      ensures expired == SlotExpired(At(old(State()), key), now)
      ensures State() == Put(old(State()), key, KeysSlot(At(old(State()), key), now))
    {
      hide At, Put, SlotExpired, Touched;
      ghost var db, s := State(), At(State(), key);
      Unchanged(db, key);
      expired := DeleteIfExpired(key, now);
      if !expired {
        predictiveCache.RecordAccess(key, now);
        AccessPut(db, key, s, now);
      }
    }

    /** The keys come in no particular order, each once. */
    method Keys(now: int) returns (result: seq<Str>)
      modifies this, predictiveCache
      ensures State() == After(old(State()), Cmd.Keys, now)
      ensures Enumerates(result, Answer(old(State()), Cmd.Keys, now).names)
    {
      hide At, Put, SlotExpired, KeysSlot, AfterKeys;
      ghost var db := State();
      result := [];
      var uniqueKeys := kvStore.Keys + listStore.Keys + hashStore.Keys;
      var order := Iterate(uniqueKeys);
      KeysAt(db, now);
      for i := 0 to |order|
        invariant forall k :: At(State(), k) == if k in order[..i] then KeysSlot(At(db, k), now) else At(db, k)
        invariant forall k :: k in result <==> k in order[..i] && !SlotExpired(At(db, k), now)
        invariant forall a, b :: 0 <= a < b < |result| ==> result[a] != result[b]
      {
        var key := order[i];
        assert order[..i + 1] == order[..i] + [key];
        assert key !in order[..i] && key in DataKeys(db);
        DataKeysAt(db, key);
        ghost var before := State();
        var expired := VisitKey(key, now);
        PutAt(before, key, KeysSlot(At(before, key), now));
        if !expired {
          result := result + [key];
        }
      }
      assert order[..|order|] == order;
      forall k ensures At(State(), k) == At(AfterKeys(db, now), k) {
        DataKeysAt(db, k);
        DatalessStays(At(db, k), now);
      }
      SameSlots(State(), AfterKeys(db, now));
    }

    method Type(key: Str, now: int) returns (kind: Kind)
      modifies this, predictiveCache
      ensures State() == After(old(State()), On(key, Op.Type), now)
      ensures Answer(old(State()), On(key, Op.Type), now) == TypeIs(kind)
    {
      hide At, Put, Drop, After, Answer, SlotExpired, Touched, Erased;
      ghost var db, s := State(), At(State(), key);
      Unchanged(db, key);
      OnOneKey(db, key, Op.Type, now);
      SlotFields(db, key);
      var expired := DeleteIfExpired(key, now);
      if expired {
        return KindNone;
      }
      if predictiveCache.Contains(key) || key in kvStore || key in listStore || key in hashStore {
        predictiveCache.RecordAccess(key, now);
        AccessPut(db, key, s, now);
      }
      if key in kvStore { return KindString; }
      if key in listStore { return KindList; }
      if key in hashStore { return KindHash; }
      return KindNone;
    }

    method Del(key: Str, now: int) returns (erased: bool)
      modifies this, predictiveCache
      ensures State() == After(old(State()), On(key, Op.Del), now)
      ensures Answer(old(State()), On(key, Op.Del), now) == Flag(erased)
    {
      erased := DelInternal(key);
    }

    method Expire(key: Str, seconds: int, now: int) returns (ok: bool)
      modifies this, predictiveCache
      ensures State() == After(old(State()), On(key, Op.Expire(seconds)), now)
      ensures Answer(old(State()), On(key, Op.Expire(seconds)), now) == Flag(ok)
    {
      hide At, Put, Drop, After, Answer, SlotExpired, Touched, Timed;
      ghost var db, s := State(), At(State(), key);
      Unchanged(db, key);
      OnOneKey(db, key, Op.Expire(seconds), now);
      SlotFields(db, key);
      if !predictiveCache.Contains(key) && key !in kvStore && key !in listStore && key !in hashStore {
        return false;
      }
      if seconds > 0 {
        predictiveCache.SetTTL(key, seconds as real, now);
        TtlPut(db, key, s, seconds as real, now);
        s := Timed(s, seconds as real, now);
        predictiveCache.RecordAccess(key, now);
        AccessPut(db, key, s, now);
      } else {
        predictiveCache.SetTTL(key, 0.0, now);
        TtlPut(db, key, s, 0.0, now);
        s := Timed(s, 0.0, now);
        var _ := DelInternal(key);
        ErasePut(db, key, s);
      }
      return true;
    }

    // ----- list commands -----

    method LGet(key: Str, now: int) returns (items: seq<Str>)
      modifies this, predictiveCache
      ensures State() == After(old(State()), On(key, Op.LGet), now)
      ensures Answer(old(State()), On(key, Op.LGet), now) == Items(items)
    {
      hide At, Put, Drop, After, Answer, SlotExpired, Touched, Erased;
      ghost var db, s := State(), At(State(), key);
      Unchanged(db, key);
      OnOneKey(db, key, Op.LGet, now);
      SlotFields(db, key);
      var expired := DeleteIfExpired(key, now);
      if expired {
        return [];
      }
      if key in listStore {
        predictiveCache.RecordAccess(key, now);
        AccessPut(db, key, s, now);
        return listStore[key];
      }
      return [];
    }

    method LLen(key: Str, now: int) returns (n: nat)
      modifies this, predictiveCache
      ensures State() == After(old(State()), On(key, Op.LLen), now)
      ensures Answer(old(State()), On(key, Op.LLen), now) == Count(n)
    {
      hide At, Put, Drop, After, Answer, SlotExpired, Touched, Erased;
      ghost var db, s := State(), At(State(), key);
      Unchanged(db, key);
      OnOneKey(db, key, Op.LLen, now);
      SlotFields(db, key);
      var expired := DeleteIfExpired(key, now);
      if expired {
        return 0;
      }
      if key in listStore {
        predictiveCache.RecordAccess(key, now);
        AccessPut(db, key, s, now);
        return |listStore[key]|;
      }
      return 0;
    }

    method LPush(key: Str, value: Str, now: int) returns (ghost victim: Option<Str>)
      requires predictiveCache.policy.Valid()
      modifies this, predictiveCache
      ensures Allowed(Cfg(), old(State()), Event(On(key, Op.LPush(value)), now, victim))
      ensures State() == Next(old(State()), Event(On(key, Op.LPush(value)), now, victim))
    {
      hide Put, Drop, After, Next, Allowed, Answer, Evicts, SlotExpired, Touched, Timed, Erased, StatsOr;
      ghost var db, s := State(), At(State(), key);
      Unchanged(db, key);
      var expired := DeleteIfExpired(key, now);
      s := if expired then Erased(s) else s;
      SlotOfPut(db, key, s);
      var lst := if key in listStore then listStore[key] else [];
      listStore := listStore[key := [value] + lst];
      ListPut(db, key, s, [value] + lst);
      s := s.(list := Some([value] + lst));
      predictiveCache.RecordAccess(key, now);
      AccessPut(db, key, s, now);
      s := Touched(s, now);
      victim := CheckAndEvict(now);
      Written(Cfg(), db, key, Op.LPush(value), now, s, victim, State());
    }

    method RPush(key: Str, value: Str, now: int) returns (ghost victim: Option<Str>)
      requires predictiveCache.policy.Valid()
      modifies this, predictiveCache
      ensures Allowed(Cfg(), old(State()), Event(On(key, Op.RPush(value)), now, victim))
      ensures State() == Next(old(State()), Event(On(key, Op.RPush(value)), now, victim))
    {
      hide Put, Drop, After, Next, Allowed, Answer, Evicts, SlotExpired, Touched, Timed, Erased, StatsOr;
      ghost var db, s := State(), At(State(), key);
      Unchanged(db, key);
      var expired := DeleteIfExpired(key, now);
      s := if expired then Erased(s) else s;
      SlotOfPut(db, key, s);
      var lst := if key in listStore then listStore[key] else [];
      listStore := listStore[key := lst + [value]];
      ListPut(db, key, s, lst + [value]);
      s := s.(list := Some(lst + [value]));
      predictiveCache.RecordAccess(key, now);
      AccessPut(db, key, s, now);
      s := Touched(s, now);
      victim := CheckAndEvict(now);
      Written(Cfg(), db, key, Op.RPush(value), now, s, victim, State());
    }

    method RPop(key: Str, now: int) returns (found: bool, value: Str)
      modifies this, predictiveCache
      ensures State() == After(old(State()), On(key, Op.RPop), now)
      ensures Answer(old(State()), On(key, Op.RPop), now) == Value(if found then Some(value) else None)
    {
      hide At, Put, Drop, After, Answer, SlotExpired, Touched;
      ghost var db, s := State(), At(State(), key);
      Unchanged(db, key);
      OnOneKey(db, key, Op.RPop, now);
      SlotFields(db, key);
      var expired := DeleteIfExpired(key, now);
      if expired {
        return false, [];
      }
      if key in listStore && listStore[key] != [] {
        predictiveCache.RecordAccess(key, now);
        AccessPut(db, key, s, now);
        s := Touched(s, now);
        var lst := listStore[key];
        value := lst[|lst| - 1];
        listStore := listStore[key := lst[..|lst| - 1]];
        ListPut(db, key, s, lst[..|lst| - 1]);
        s := s.(list := Some(lst[..|lst| - 1]));
        if listStore[key] == [] {
          var _ := DelInternal(key);
          ErasePut(db, key, s);
        }
        return true, value;
      }
      return false, [];
    }

    method LPop(key: Str, now: int) returns (found: bool, value: Str)
      modifies this, predictiveCache
      ensures State() == After(old(State()), On(key, Op.LPop), now)
      ensures Answer(old(State()), On(key, Op.LPop), now) == Value(if found then Some(value) else None)
    {
      hide At, Put, Drop, After, Answer, SlotExpired, Touched;
      ghost var db, s := State(), At(State(), key);
      Unchanged(db, key);
      OnOneKey(db, key, Op.LPop, now);
      SlotFields(db, key);
      var expired := DeleteIfExpired(key, now);
      if expired {
        return false, [];
      }
      if key in listStore && listStore[key] != [] {
        predictiveCache.RecordAccess(key, now);
        AccessPut(db, key, s, now);
        s := Touched(s, now);
        var lst := listStore[key];
        value := lst[0];
        listStore := listStore[key := lst[1..]];
        ListPut(db, key, s, lst[1..]);
        s := s.(list := Some(lst[1..]));
        if listStore[key] == [] {
          var _ := DelInternal(key);
          ErasePut(db, key, s);
        }
        return true, value;
      }
      return false, [];
    }

    method LRem(key: Str, count: int, value: Str, now: int) returns (removed: int)
      modifies this, predictiveCache
      ensures State() == After(old(State()), On(key, Op.LRem(count, value)), now)
      ensures Answer(old(State()), On(key, Op.LRem(count, value)), now) == Count(removed)
    {
      hide At, Put, Drop, After, Answer, SlotExpired, ListSurgery.Occurrences, ListSurgery.Removed;
      ghost var db, s := State(), At(State(), key);
      Unchanged(db, key);
      OnOneKey(db, key, Op.LRem(count, value), now);
      SlotFields(db, key);
      var expired := DeleteIfExpired(key, now);
      if expired {
        return 0;
      }
      if key !in listStore {
        return 0;
      }
      var lst;
      lst, removed := ListSurgery.Erase(listStore[key], count, value);
      NothingRemoved(listStore[key], count, value);
      listStore := listStore[key := lst];
      ListPut(db, key, s, lst);
      if removed > 0 {
        s := s.(list := Some(lst));
        predictiveCache.RecordAccess(key, now);
        AccessPut(db, key, s, now);
        s := Touched(s, now);
        if listStore[key] == [] {
          var _ := DelInternal(key);
          ErasePut(db, key, s);
        }
      }
    }

    method LIndex(key: Str, index: int, now: int) returns (found: bool, value: Str)
      modifies this, predictiveCache
      ensures State() == After(old(State()), On(key, Op.LIndex(index)), now)
      ensures Answer(old(State()), On(key, Op.LIndex(index)), now) == Value(if found then Some(value) else None)
    {
      hide At, Put, Drop, After, Answer, SlotExpired, Touched, Erased;
      ghost var db, s := State(), At(State(), key);
      Unchanged(db, key);
      OnOneKey(db, key, Op.LIndex(index), now);
      SlotFields(db, key);
      var expired := DeleteIfExpired(key, now);
      if expired {
        return false, [];
      }
      if key !in listStore {
        return false, [];
      }
      var lst := listStore[key];
      var i := if index < 0 then |lst| + index else index;
      if i < 0 || i >= |lst| {
        return false, [];
      }
      predictiveCache.RecordAccess(key, now);
      AccessPut(db, key, s, now);
      return true, lst[i];
    }

    method LSet(key: Str, index: int, value: Str, now: int) returns (ok: bool)
      modifies this, predictiveCache
      ensures State() == After(old(State()), On(key, Op.LSet(index, value)), now)
      ensures Answer(old(State()), On(key, Op.LSet(index, value)), now) == Flag(ok)
    {
      hide At, Put, Drop, After, Answer, SlotExpired, Touched, Erased;
      ghost var db, s := State(), At(State(), key);
      Unchanged(db, key);
      OnOneKey(db, key, Op.LSet(index, value), now);
      SlotFields(db, key);
      var expired := DeleteIfExpired(key, now);
      if expired {
        return false;
      }
      if key !in listStore {
        return false;
      }
      var lst := listStore[key];
      var i := if index < 0 then |lst| + index else index;
      if i < 0 || i >= |lst| {
        return false;
      }
      listStore := listStore[key := lst[i := value]];
      ListPut(db, key, s, lst[i := value]);
      s := s.(list := Some(lst[i := value]));
      TouchedWithList(At(db, key), lst[i := value], now);
      predictiveCache.RecordAccess(key, now);
      AccessPut(db, key, s, now);
      return true;
    }

    // ----- hash commands -----

    method HSet(key: Str, field: Str, value: Str, now: int) returns (ok: bool, ghost victim: Option<Str>)
      requires predictiveCache.policy.Valid()
      modifies this, predictiveCache
      ensures Allowed(Cfg(), old(State()), Event(On(key, Op.HSet(field, value)), now, victim))
      ensures State() == Next(old(State()), Event(On(key, Op.HSet(field, value)), now, victim))
      ensures Answer(old(State()), On(key, Op.HSet(field, value)), now) == Flag(ok)
    {
      hide Put, Drop, After, Next, Allowed, Answer, Evicts, SlotExpired, Touched, Timed, Erased, StatsOr;
      ghost var db, s := State(), At(State(), key);
      Unchanged(db, key);
      var expired := DeleteIfExpired(key, now);
      s := if expired then Erased(s) else s;
      SlotOfPut(db, key, s);
      var h := if key in hashStore then hashStore[key] else map[];
      hashStore := hashStore[key := h[field := value]];
      HashPut(db, key, s, h[field := value]);
      s := s.(hash := Some(h[field := value]));
      predictiveCache.RecordAccess(key, now);
      AccessPut(db, key, s, now);
      s := Touched(s, now);
      victim := CheckAndEvict(now);
      Written(Cfg(), db, key, Op.HSet(field, value), now, s, victim, State());
      ok := true;
    }

    method HGet(key: Str, field: Str, now: int) returns (found: bool, value: Str)
      modifies this, predictiveCache
      ensures State() == After(old(State()), On(key, Op.HGet(field)), now)
      ensures Answer(old(State()), On(key, Op.HGet(field)), now) == Value(if found then Some(value) else None)
    {
      hide At, Put, Drop, After, Answer, SlotExpired, Touched, Erased;
      ghost var db, s := State(), At(State(), key);
      Unchanged(db, key);
      OnOneKey(db, key, Op.HGet(field), now);
      SlotFields(db, key);
      var expired := DeleteIfExpired(key, now);
      if expired {
        return false, [];
      }
      if key in hashStore && field in hashStore[key] {
        predictiveCache.RecordAccess(key, now);
        AccessPut(db, key, s, now);
        return true, hashStore[key][field];
      }
      return false, [];
    }

    method HExists(key: Str, field: Str, now: int) returns (present: bool)
      modifies this, predictiveCache
      ensures State() == After(old(State()), On(key, Op.HExists(field)), now)
      ensures Answer(old(State()), On(key, Op.HExists(field)), now) == Flag(present)
    {
      hide At, Put, Drop, After, Answer, SlotExpired, Touched, Erased;
      ghost var db, s := State(), At(State(), key);
      Unchanged(db, key);
      OnOneKey(db, key, Op.HExists(field), now);
      SlotFields(db, key);
      var expired := DeleteIfExpired(key, now);
      if expired {
        return false;
      }
      if key in hashStore {
        predictiveCache.RecordAccess(key, now);
        AccessPut(db, key, s, now);
        return field in hashStore[key];
      }
      return false;
    }

    method HDel(key: Str, field: Str, now: int) returns (erased: bool)
      modifies this, predictiveCache
      ensures State() == After(old(State()), On(key, Op.HDel(field)), now)
      ensures Answer(old(State()), On(key, Op.HDel(field)), now) == Flag(erased)
    {
      hide At, Put, Drop, After, Answer, SlotExpired, Touched;
      ghost var db, s := State(), At(State(), key);
      Unchanged(db, key);
      OnOneKey(db, key, Op.HDel(field), now);
      SlotFields(db, key);
      var expired := DeleteIfExpired(key, now);
      if expired {
        return false;
      }
      if key in hashStore {
        predictiveCache.RecordAccess(key, now);
        AccessPut(db, key, s, now);
        s := Touched(s, now);
        var h := hashStore[key];
        erased := field in h;
        hashStore := hashStore[key := h - {field}];
        HashPut(db, key, s, h - {field});
        s := s.(hash := Some(h - {field}));
        if hashStore[key] == map[] {
          var _ := DelInternal(key);
          ErasePut(db, key, s);
        }
        return erased;
      }
      return false;
    }

    method HGetAll(key: Str, now: int) returns (fields: Hash)
      modifies this, predictiveCache
      ensures State() == After(old(State()), On(key, Op.HGetAll), now)
      ensures Answer(old(State()), On(key, Op.HGetAll), now) == Fields(fields)
    {
      hide At, Put, Drop, After, Answer, SlotExpired, Touched, Erased;
      ghost var db, s := State(), At(State(), key);
      Unchanged(db, key);
      OnOneKey(db, key, Op.HGetAll, now);
      SlotFields(db, key);
      var expired := DeleteIfExpired(key, now);
      if expired {
        return map[];
      }
      if key in hashStore {
        predictiveCache.RecordAccess(key, now);
        AccessPut(db, key, s, now);
        return hashStore[key];
      }
      return map[];
    }

    /** HKEYS lists the fields in no particular order, each once. */
    method HKeys(key: Str, now: int) returns (fields: seq<Str>)
      modifies this, predictiveCache
      ensures State() == After(old(State()), On(key, Op.HGetAll), now)
      ensures Enumerates(fields, Answer(old(State()), On(key, Op.HGetAll), now).fields.Keys)
    {
      hide At, Put, Drop, After, Answer, SlotExpired, Touched, Erased;
      ghost var db, s := State(), At(State(), key);
      Unchanged(db, key);
      OnOneKey(db, key, Op.HGetAll, now);
      SlotFields(db, key);
      var expired := DeleteIfExpired(key, now);
      if expired {
        return [];
      }
      fields := [];
      if key in hashStore {
        predictiveCache.RecordAccess(key, now);
        AccessPut(db, key, s, now);
        fields := Iterate(hashStore[key].Keys);
      }
    }

    /** HVALS lists the values field by field, in the order of fields. */
    method HVals(key: Str, now: int) returns (values: seq<Str>, ghost fields: seq<Str>)
      modifies this, predictiveCache
      ensures State() == After(old(State()), On(key, Op.HGetAll), now)
      ensures var h := Answer(old(State()), On(key, Op.HGetAll), now).fields;
        && Enumerates(fields, h.Keys) && |values| == |fields|
        && forall i :: 0 <= i < |fields| ==> fields[i] in h && values[i] == h[fields[i]]
    {
      hide At, Put, Drop, After, Answer, SlotExpired, Touched, Erased;
      ghost var db, s := State(), At(State(), key);
      Unchanged(db, key);
      OnOneKey(db, key, Op.HGetAll, now);
      SlotFields(db, key);
      var expired := DeleteIfExpired(key, now);
      if expired {
        return [], [];
      }
      values, fields := [], [];
      if key in hashStore {
        predictiveCache.RecordAccess(key, now);
        AccessPut(db, key, s, now);
        var h := hashStore[key];
        var order := Iterate(h.Keys);
        for i := 0 to |order|
          invariant |values| == i && forall j :: 0 <= j < i ==> order[j] in h && values[j] == h[order[j]]
        {
          values := values + [h[order[i]]];
        }
        fields := order;
      }
    }

    method HLen(key: Str, now: int) returns (n: nat)
      modifies this, predictiveCache
      ensures State() == After(old(State()), On(key, Op.HLen), now)
      ensures Answer(old(State()), On(key, Op.HLen), now) == Count(n)
    {
      hide At, Put, Drop, After, Answer, SlotExpired, Touched, Erased;
      ghost var db, s := State(), At(State(), key);
      Unchanged(db, key);
      OnOneKey(db, key, Op.HLen, now);
      SlotFields(db, key);
      var expired := DeleteIfExpired(key, now);
      if expired {
        return 0;
      }
      if key in hashStore {
        predictiveCache.RecordAccess(key, now);
        AccessPut(db, key, s, now);
        return |hashStore[key]|;
      }
      return 0;
    }

    method HMSet(key: Str, fieldValues: seq<(Str, Str)>, now: int) returns (ok: bool, ghost victim: Option<Str>)
      requires predictiveCache.policy.Valid()
      modifies this, predictiveCache
      ensures Allowed(Cfg(), old(State()), Event(On(key, Op.HMSet(fieldValues)), now, victim))
      ensures State() == Next(old(State()), Event(On(key, Op.HMSet(fieldValues)), now, victim))
      ensures Answer(old(State()), On(key, Op.HMSet(fieldValues)), now) == Flag(ok)
    {
      hide Put, Drop, After, Next, Allowed, Answer, Evicts, SlotExpired, Touched, Timed, Erased, StatsOr;
      ghost var db, s := State(), At(State(), key);
      Unchanged(db, key);
      var expired := DeleteIfExpired(key, now);
      s := if expired then Erased(s) else s;
      SlotOfPut(db, key, s);
      ghost var h := HashOr(s);
      ghost var entry := s;
      assert fieldValues[0..] == fieldValues;
      for i := 0 to |fieldValues|
        invariant State() == Put(db, key, s)
        invariant At(State(), key) == s
        invariant WithPairs(HashOr(s), fieldValues[i..]) == WithPairs(h, fieldValues)
        invariant i > 0 ==> s.hash.Some?
        invariant s == entry.(hash := s.hash) && (i == 0 ==> s == entry)
      {
        var pair := fieldValues[i];
        var inner := if key in hashStore then hashStore[key] else map[];
        assert fieldValues[i..][0] == pair && fieldValues[i..][1..] == fieldValues[i + 1..];
        hashStore := hashStore[key := inner[pair.0 := pair.1]];
        HashPut(db, key, s, inner[pair.0 := pair.1]);
        s := s.(hash := Some(inner[pair.0 := pair.1]));
        SlotOfPut(db, key, s);
      }
      assert fieldValues[|fieldValues|..] == [];
      predictiveCache.RecordAccess(key, now);
      AccessPut(db, key, s, now);
      s := Touched(s, now);
      victim := CheckAndEvict(now);
      Written(Cfg(), db, key, Op.HMSet(fieldValues), now, s, victim, State());
      ok := true;
    }

    // ----- rename -----

    /** The three blocks of rename that move what the stores hold. */
    method MoveData(oldKey: Str, newKey: Str) returns (found: bool)
      requires !HasData(At(State(), newKey))
      modifies this
      ensures found == HasData(At(old(State()), oldKey))
      ensures State() == if found
        then WithData(WithData(old(State()), oldKey, EMPTY_SLOT), newKey, At(old(State()), oldKey))
        else old(State())
    {
      hide WithData;
      ghost var db := State();
      found := false;
      if oldKey in kvStore {
        kvStore := kvStore[newKey := kvStore[oldKey]];
        kvStore := kvStore - {oldKey};
        found := true;
      }
      if oldKey in listStore {
        listStore := listStore[newKey := listStore[oldKey]];
        listStore := listStore - {oldKey};
        found := true;
      }
      if oldKey in hashStore {
        hashStore := hashStore[newKey := hashStore[oldKey]];
        hashStore := hashStore - {oldKey};
        found := true;
      }
      if found {
        DataMoved(db, oldKey, newKey);
      }
    }

    /** The last block of rename: the source's statistics go to the new key, and renaming is an access. */
    method TransferStats(newKey: Str, oldStats: KeyStats, now: int)
      modifies predictiveCache
      ensures State() == Put(old(State()), newKey, Restamped(At(old(State()), newKey), Plain(oldStats), now))
    {
      hide Put, At, Touched;
      ghost var db, s := State(), At(State(), newKey);
      Unchanged(db, newKey);
      predictiveCache.RecordAccess(newKey, now);
      AccessPut(db, newKey, s, now);
      s := Touched(s, now);
      if oldStats.accessCount > 0 {
        predictiveCache.CopyStats(newKey, oldStats);
        StatsPut(db, newKey, s, Plain(oldStats));
        s := s.(stats := Some(Plain(oldStats)));
      }
      predictiveCache.UpdateScore(newKey, now);
      predictiveCache.RecordAccess(newKey, now);
      AccessPut(db, newKey, s, now);
      TouchedKeepsData(At(db, newKey), now);
    }

    method Rename(oldKey: Str, newKey: Str, now: int) returns (found: bool)
      modifies this, predictiveCache
      ensures State() == After(old(State()), Cmd.Rename(oldKey, newKey), now)
      ensures Answer(old(State()), Cmd.Rename(oldKey, newKey), now) == Flag(found)
    {
      hide Put, Drop, SlotExpired, After, Answer, WithData, Restamped, Moved;
      ghost var db := State();
      RenameSteps(db, oldKey, newKey, now);
      var expired := IsExpired(oldKey, now);
      if expired {
        var _ := DelInternal(oldKey);
        return false;
      }
      DropNothing(db, newKey);
      if newKey in kvStore || newKey in listStore || newKey in hashStore {
        var _ := DelInternal(newKey);
      }
      ghost var cleared := State();
      var oldStats := KeyStats(0, now, 0.0, now, 0.0);
      Untracked(cleared, oldKey);
      if predictiveCache.Contains(oldKey) {
        oldStats := predictiveCache.metaStore[oldKey];
        predictiveCache.RemoveKey(oldKey);
      }
      Bared(cleared, oldKey, newKey);
      found := MoveData(oldKey, newKey);
      if found {
        RenameMoved(cleared, oldKey, newKey, Plain(oldStats), now);
        TransferStats(newKey, oldStats, now);
      }
    }
  }

  lemma TouchedWithList(s: Slot, lst: seq<Str>, now: int)
    ensures Touched(s.(list := Some(lst)), now) == Touched(s, now).(list := Some(lst))
  {
  }

  lemma UntrackedNeverExpires(s: Slot, now: int)
    ensures s.stats.None? ==> !SlotExpired(s, now)
  {
  }

  lemma SlotFields(db: Db, key: Str)
    ensures At(db, key) == Slot(Lookup(db.kv, key), Lookup(db.lists, key), Lookup(db.hashes, key), Lookup(db.meta, key))
  {
  }

  lemma OnOneKey(db: Db, key: Str, op: Op, now: int)
    ensures After(db, On(key, op), now) == Put(db, key, SlotStep(op, At(db, key), now).0)
    ensures Answer(db, On(key, op), now) == SlotStep(op, At(db, key), now).1
  {
    hide At, Put, SlotStep;
  }

  /** A write creates the slot, from nothing if the key has expired, and may then evict. */
  lemma Written(cfg: Config, db: Db, key: Str, op: Op, now: int, s: Slot, victim: Option<Str>, after: Db)
    requires Creates(op)
    requires s == Create(op, if SlotExpired(At(db, key), now) then Erased(At(db, key)) else At(db, key), now)
    requires Evicts(cfg, Put(db, key, s), now, victim, after)
    ensures Allowed(cfg, db, Event(On(key, op), now, victim))
    ensures after == Next(db, Event(On(key, op), now, victim))
    ensures Answer(db, On(key, op), now) == if op.HSet? || op.HMSet? then Flag(true) else Done
  {
    hide At, Put, Drop, Create, SlotExpired, Victim;
  }

  lemma DatalessStays(s: Slot, now: int)
    ensures !HasData(s) ==> KeysSlot(s, now) == s
  {
  }

  /** When LREM finds nothing to remove, the list is what it was. */
  lemma NothingRemoved(lst: seq<Str>, count: int, v: Str)
    ensures var lst' := ListSurgery.Removed(lst, count, v);
            ListSurgery.Occurrences(lst, v) == ListSurgery.Occurrences(lst', v) ==> lst' == lst
    ensures ListSurgery.Occurrences(lst, v) >= ListSurgery.Occurrences(ListSurgery.Removed(lst, count, v), v)
  {
    ListSurgery.RemovedConserves(lst, count, v);
    if ListSurgery.Occurrences(lst, v) == ListSurgery.Occurrences(ListSurgery.Removed(lst, count, v), v) {
      ListSurgery.NothingToRemove(lst, count, v);
    }
  }

  function Restamped(s: Slot, stats: Stats, now: int): Slot {
    Touched(if stats.accessCount > 0 then s.(stats := Some(stats)) else Touched(s, now), now)
  }

  lemma TouchedKeepsData(s: Slot, now: int)
    ensures Touched(s, now) == s.(stats := Touched(s, now).stats)
  {
  }

  lemma DropNothing(db: Db, key: Str)
    ensures !HasData(At(db, key)) ==> Drop(db, key) == db
    ensures !HasData(At(Drop(db, key), key))
  {
    Unchanged(db, key);
  }

  /** rename as far as the source sees it: delete the target, untrack the source, move, restamp. */
  lemma RenameSteps(db: Db, from: Str, to: Str, now: int)
    ensures SlotExpired(At(db, from), now) ==>
      After(db, Cmd.Rename(from, to), now) == Drop(db, from) && Answer(db, Cmd.Rename(from, to), now) == Flag(false)
    ensures !SlotExpired(At(db, from), now) ==>
      var cleared := Drop(db, to);
      var source := At(cleared, from);
      var taken := Put(cleared, from, EMPTY_SLOT);
      && Answer(db, Cmd.Rename(from, to), now) == Flag(HasData(source))
      && After(db, Cmd.Rename(from, to), now) ==
         if HasData(source) then Put(taken, to, Moved(At(taken, to), source, now)) else taken
  {
    hide At, Put, Moved, SlotExpired;
  }

  /** The source without its metadata; if it has no data either, nothing is left of it. */
  lemma Bared(db: Db, from: Str, to: Str)
    ensures var base := Put(db, from, At(db, from).(stats := None));
      && HasData(At(base, from)) == HasData(At(db, from))
      && (!HasData(At(db, to)) ==> !HasData(At(base, to)))
      && (!HasData(At(db, from)) ==> base == Put(db, from, EMPTY_SLOT))
      && (At(db, from).stats.None? ==> base == db)
  {
    Unchanged(db, from);
  }

  lemma RenameMoved(db: Db, from: Str, to: Str, stats: Stats, now: int)
    requires HasData(At(db, from)) && !HasData(At(db, to))
    requires if At(db, from).stats.Some? then stats == At(db, from).stats.value else stats.accessCount == 0
    ensures var base := Put(db, from, At(db, from).(stats := None));
      var moved := WithData(WithData(base, from, EMPTY_SLOT), to, At(base, from));
      var taken := Put(db, from, EMPTY_SLOT);
      Put(moved, to, Restamped(At(moved, to), stats, now)) == Put(taken, to, Moved(At(taken, to), At(db, from), now))
  {
    hide At, Put, Touch;
    var base := Put(db, from, At(db, from).(stats := None));
    PutAt(db, from, At(db, from).(stats := None));
    var mid := WithData(base, from, EMPTY_SLOT);
    PutAt(base, from, EMPTY_SLOT.(stats := At(base, from).stats));
    var moved := WithData(mid, to, At(base, from));
    PutAt(mid, to, At(base, from).(stats := At(mid, to).stats));
    var taken := Put(db, from, EMPTY_SLOT);
    PutAt(db, from, EMPTY_SLOT);
    PutAt(moved, to, Restamped(At(moved, to), stats, now));
    PutAt(taken, to, Moved(At(taken, to), At(db, from), now));
    SameSlots(Put(moved, to, Restamped(At(moved, to), stats, now)),
              Put(taken, to, Moved(At(taken, to), At(db, from), now)));
  }
}
