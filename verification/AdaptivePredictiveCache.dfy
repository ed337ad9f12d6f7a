/**
 The adaptive predictive cache as the object it is (src/AdaptivePredictiveCache.cpp): its methods
 update meta_store in place, cached scores included. Meta() is what Scoring reasons about.
 */
module PredictiveCache {
  import opened Bytes
  import opened Scoring
  import opened ScoreLaws

  datatype KeyStats = KeyStats(accessCount: nat, lastAccess: int, ttlInitialSeconds: real, ttlSetTime: int, score: real)

  /** The metadata without the cached score. */
  function Plain(s: KeyStats): Stats {
    Stats(s.accessCount, s.lastAccess, s.ttlInitialSeconds, s.ttlSetTime)
  }

  function StatsIn(meta: Meta, key: Str, now: int): Stats {
    if key in meta then meta[key] else NewStats(now)
  }

  class AdaptivePredictiveCache {
    var metaStore: map<Str, KeyStats>
    const policy: Policy

    ghost function Meta(): (m: Meta)
      reads this
    {
      map k | k in metaStore :: Plain(metaStore[k])
    }

    constructor (policy: Policy)
      ensures this.policy == policy && Meta() == map[]
    {
      this.policy := policy;
      metaStore := map[];
    }

    /** meta_store[key]: a missing entry is created with default statistics. */
    method Entry(key: Str, now: int) returns (stats: KeyStats)
      ensures Plain(stats) == StatsIn(Meta(), key, now)
      ensures key in metaStore ==> stats == metaStore[key]
    {
      stats := if key in metaStore then metaStore[key] else KeyStats(0, now, 0.0, now, 0.0);
    }

    method RecordAccess(key: Str, now: int)
      modifies this
      ensures Meta() == old(Meta())[key := Touch(StatsIn(old(Meta()), key, now), now)]
      ensures key in Meta() && Meta()[key].lastAccess == now
      ensures key in old(Meta()) ==> var s := old(Meta()[key]);
        Meta()[key] == Stats(s.accessCount + 1, now, s.ttl, s.ttlSetTime)
      ensures key !in old(Meta()) ==> Meta()[key] == Stats(1, now, 0.0, now)
      ensures metaStore[key].score == Score(policy, Meta()[key], now)
    {
      var stats := Entry(key, now);
      stats := stats.(accessCount := stats.accessCount + 1);
      stats := stats.(lastAccess := now);
      metaStore := metaStore[key := stats];
      UpdateScore(key, now);
    }

    method SetTTL(key: Str, ttlSeconds: real, now: int)
      modifies this
      ensures Meta() == old(Meta())[key := WithTtl(StatsIn(old(Meta()), key, now), ttlSeconds, now)]
      ensures key in Meta()
      ensures var count := if key in old(Meta()) then old(Meta()[key].accessCount) else 0;
        Meta()[key] == Stats(count, now, ttlSeconds, now)
      ensures metaStore[key].score == Score(policy, Meta()[key], now)
    {
      var stats := Entry(key, now);
      stats := stats.(ttlInitialSeconds := ttlSeconds);
      stats := stats.(ttlSetTime := now);
      stats := stats.(lastAccess := now);
      metaStore := metaStore[key := stats];
      UpdateScore(key, now);
    }

    /** The four assignments rename makes to an entry of meta_store. */
    method CopyStats(key: Str, stats: KeyStats)
      requires Contains(key)
      modifies this
      ensures Meta() == old(Meta())[key := Plain(stats)]
    {
      var entry := metaStore[key];
      entry := entry.(accessCount := stats.accessCount);
      entry := entry.(lastAccess := stats.lastAccess);
      entry := entry.(ttlInitialSeconds := stats.ttlInitialSeconds);
      entry := entry.(ttlSetTime := stats.ttlSetTime);
      metaStore := metaStore[key := entry];
    }

    method GetTTLRemaining(key: Str, now: int) returns (left: real)
      ensures left == if key in Meta() then TtlRemaining(Meta()[key], now) else 0.0
      ensures forall e: nat :: key in Meta() && SecondsAfter(Meta()[key].ttlSetTime, e, now) ==>
        left == if e as real < Meta()[key].ttl then Meta()[key].ttl - e as real else 0.0
    {
      forall e: nat | key in Meta() && SecondsAfter(Meta()[key].ttlSetTime, e, now)
        ensures TtlRemaining(Meta()[key], now)
             == if e as real < Meta()[key].ttl then Meta()[key].ttl - e as real else 0.0
      {
        RemainingRunsDown(Meta()[key], e, now);
      }
      if key !in metaStore || metaStore[key].ttlInitialSeconds <= 0.0 {
        return 0.0;
      }
      var s := metaStore[key];
      var elapsed := ElapsedSeconds(s.ttlSetTime, now) as real;
      left := if 0.0 < s.ttlInitialSeconds - elapsed then s.ttlInitialSeconds - elapsed else 0.0;
    }

    /** Only the cached score of this key changes, and it becomes current. */
    method UpdateScore(key: Str, now: int)
      modifies this
      ensures Meta() == old(Meta())
      ensures key !in metaStore ==> metaStore == old(metaStore)
      ensures key in metaStore ==>
        metaStore == old(metaStore)[key := old(metaStore)[key].(score := Score(policy, Meta()[key], now))]
    {
      if key !in metaStore { return; }
      var s := metaStore[key];
      ghost var before := Meta();
      var sinceAccess := ElapsedSeconds(s.lastAccess, now) as real;
      var recencyFactor := 1.0 / (1.0 + sinceAccess);
      var frequencyFactor := policy.log1p(s.accessCount);
      var ttlFactor := 0.0;
      if s.ttlInitialSeconds > 0.0 {
        var remaining := GetTTLRemaining(key, now);
        if remaining <= 0.0 {
          metaStore := metaStore[key := s.(score := -policy.maxDouble)];
          assert Meta() == before;
          return;
        }
        ttlFactor := remaining / s.ttlInitialSeconds;
      }
      metaStore := metaStore[key := s.(score := ALPHA * recencyFactor + BETA * frequencyFactor + GAMMA * ttlFactor)];
      assert Meta() == before;
    }

    /** Visits the keys in the given order; the scores cached before the call play no part. */
    method EvictCandidate(now: int, order: seq<Str>) returns (key: Str)
      requires Enumerates(order, Meta().Keys)
      modifies this
      ensures Meta() == old(Meta()) && forall k <- order :: k in Meta()
      ensures key == ScanResult(policy, Meta(), now, order)
    {
      hide Score, Expired, ScanResult, TtlRemaining;
      ghost var meta := Meta();
      var lowestKey: Str := [];
      var lowestScore := policy.maxDouble;
      var foundCandidate := false;
      assert order[0..] == order;
      for i := 0 to |order|
        invariant Meta() == meta
        invariant if foundCandidate then lowestKey in meta else lowestKey == []
        invariant lowestScore == if foundCandidate then Score(policy, meta[lowestKey], now) else policy.maxDouble
        invariant forall k <- order :: k in meta
        invariant forall k <- order[i..] :: k in meta
        invariant Scan(policy, meta, now, order[i..], if foundCandidate then Some(lowestKey) else None)
               == Scan(policy, meta, now, order, None)
      {
        var k := order[i];
        assert order[i..][0] == k && order[i..][1..] == order[i + 1..];
        UpdateScore(k, now);
        var left := GetTTLRemaining(k, now);
        ExpiredMeans(meta[k], now);
        if left <= 0.0 && metaStore[k].ttlInitialSeconds > 0.0 {
          ScanResultIs(policy, meta, now, order);
          return k;
        }
        if metaStore[k].score < lowestScore {
          lowestScore := metaStore[k].score;
          lowestKey := k;
          foundCandidate := true;
        }
      }
      assert order[|order|..] == [];
      ScanResultIs(policy, meta, now, order);
      EnumeratesNothing(order, meta.Keys);
      assert meta.Keys == metaStore.Keys;
      if !foundCandidate && metaStore != map[] {
        return order[0];
      }
      return lowestKey;
    }

    method RemoveKey(key: Str)
      modifies this
      ensures Meta() == old(Meta()) - {key}
    {
      metaStore := metaStore - {key};
    }

    predicate Contains(key: Str)
      reads this
    {
      key in metaStore
    }

    method GetScore(key: Str, now: int) returns (score: real)
      modifies this
      ensures Meta() == old(Meta())
      ensures score == if key in Meta() then Score(policy, Meta()[key], now) else 0.0
    {
      UpdateScore(key, now);
      score := if key in metaStore then metaStore[key].score else 0.0;
    }

    method Clear()
      modifies this
      ensures Meta() == map[]
    {
      metaStore := map[];
    }
  }

  lemma ExpiredMeans(s: Stats, now: int)
    ensures Expired(s, now) <==> TtlRemaining(s, now) <= 0.0 && s.ttl > 0.0
  {
  }

  lemma ScanResultIs(p: Policy, meta: Meta, now: int, order: seq<Str>)
    requires forall k <- order :: k in meta
    ensures ScanResult(p, meta, now, order) ==
      match Scan(p, meta, now, order, None)
      case Some(key) => key
      case None => if order == [] then [] else order[0]
  {
  }
}
