/**
 Per-key metadata and the retention score of the adaptive predictive cache
 (src/AdaptivePredictiveCache.cpp), on values: everything but the cached score, which is always
 recomputed before it is used.
 */
module Scoring {
  import opened Bytes

  /** The steady clock counts ticks; durations are truncated to whole seconds. */
  const TICKS_PER_SECOND: int := 1_000_000_000

  datatype Stats = Stats(accessCount: nat, lastAccess: int, ttl: real, ttlSetTime: int)

  type Meta = map<Str, Stats>

  function NewStats(now: int): Stats {
    Stats(0, now, 0.0, now)
  }

  /** A steady clock never runs backwards, so since <= now; otherwise nothing has elapsed. */
  function ElapsedSeconds(since: int, now: int): nat {
    if now <= since then 0 else (now - since) / TICKS_PER_SECOND
  }

  function Touch(s: Stats, now: int): Stats {
    s.(accessCount := s.accessCount + 1, lastAccess := now)
  }

  function WithTtl(s: Stats, ttl: real, now: int): Stats {
    s.(ttl := ttl, ttlSetTime := now, lastAccess := now)
  }

  function TtlRemaining(s: Stats, now: int): real {
    if s.ttl <= 0.0 then 0.0
    else
      var left := s.ttl - ElapsedSeconds(s.ttlSetTime, now) as real;
      if left < 0.0 then 0.0 else left
  }

  predicate Expired(s: Stats, now: int) {
    TtlRemaining(s, now) <= 0.0 && s.ttl > 0.0
  }

  /** The first tick at which a key with a TTL counts as expired. */
  function Deadline(s: Stats): int {
    s.ttlSetTime - (-s.ttl).Floor * TICKS_PER_SECOND
  }

  lemma TruncatedAtLeast(n: nat, d: int)
    requires d >= 0
    ensures d / TICKS_PER_SECOND >= n <==> d >= n * TICKS_PER_SECOND
  {
  }

  /**
   Truncation to whole seconds never fires early or late: a key expires exactly at its deadline,
   which for a whole number of seconds is the set time plus the TTL, and otherwise the next whole
   second after it.
   */
  lemma ExpiredExactly(s: Stats, now: int)
    ensures Expired(s, now) <==> s.ttl > 0.0 && now >= Deadline(s)
    ensures s.ttl.Floor as real == s.ttl ==> Deadline(s) == s.ttlSetTime + s.ttl.Floor * TICKS_PER_SECOND
  {
    if s.ttl > 0.0 {
      var n := -((-s.ttl).Floor);
      assert n >= 1;
      if now > s.ttlSetTime {
        TruncatedAtLeast(n, now - s.ttlSetTime);
      }
    }
  }

  /** Once expired, a key stays expired. */
  lemma ExpiryIsForGood(s: Stats, now: int, later: int)
    requires now <= later && Expired(s, now)
    ensures Expired(s, later)
  {
    ExpiredExactly(s, now);
    ExpiredExactly(s, later);
  }

  // ----- the score -----

  /** The library's log1p on access counts, and the largest double, which bounds every score. */
  datatype Policy = Policy(log1p: nat -> real, maxDouble: real) {
    ghost predicate Valid() {
      && maxDouble > 1.0
      && log1p(0) == 0.0
      && (forall n: nat :: log1p(n) < maxDouble)
      && (forall m: nat, n: nat :: m < n ==> log1p(m) < log1p(n))
    }
  }

  const ALPHA: real := 0.5
  const BETA: real := 0.3
  const GAMMA: real := 0.2

  function Recency(s: Stats, now: int): real {
    1.0 / (1.0 + ElapsedSeconds(s.lastAccess, now) as real)
  }

  function TtlFraction(s: Stats, now: int): real {
    if s.ttl > 0.0 then TtlRemaining(s, now) / s.ttl else 0.0
  }

  function Score(p: Policy, s: Stats, now: int): real {
    if Expired(s, now) then -p.maxDouble
    else ALPHA * Recency(s, now) + BETA * p.log1p(s.accessCount) + GAMMA * TtlFraction(s, now)
  }

  lemma PositiveProduct(x: real, t: real)
    requires t > 0.0
    ensures x > 0.0 <==> x * t > 0.0
  {
  }

  lemma Scaled(x: real, y: real, t: real)
    requires t > 0.0
    ensures x > y <==> x * t > y * t
  {
    PositiveProduct(x - y, t);
    assert (x - y) * t == x * t - y * t;
  }

  lemma ShareBounds(left: real, ttl: real)
    requires 0.0 <= left <= ttl && ttl > 0.0
    ensures 0.0 <= left / ttl <= 1.0
  {
    var share := left / ttl;
    assert share * ttl == left;
    Scaled(share, 1.0, ttl);
    Scaled(0.0, share, ttl);
  }

  lemma FractionBounds(s: Stats, now: int)
    ensures 0.0 <= TtlFraction(s, now) <= 1.0
  {
    if s.ttl > 0.0 {
      ShareBounds(TtlRemaining(s, now), s.ttl);
    }
  }

  lemma RecencyBounds(s: Stats, now: int)
    ensures 0.0 < Recency(s, now) <= 1.0
  {
    var d := 1.0 + ElapsedSeconds(s.lastAccess, now) as real;
    assert d >= 1.0 && Recency(s, now) * d == 1.0;
  }

  /** A live score is positive and below the largest double, so the scan's start value never wins. */
  lemma ScoreBounds(p: Policy, s: Stats, now: int)
    requires p.Valid()
    ensures Score(p, s, now) < p.maxDouble
    ensures !Expired(s, now) ==> Score(p, s, now) > 0.0
  {
    FractionBounds(s, now);
    RecencyBounds(s, now);
    assert p.log1p(s.accessCount) >= 0.0 by {
      assert s.accessCount == 0 || p.log1p(0) < p.log1p(s.accessCount);
    }
  }

  // ----- the victim -----

  predicate AnyExpired(meta: Meta, now: int) {
    exists k :: k in meta && Expired(meta[k], now)
  }

  /** The promise of the eviction policy: an expired key if there is one, else a lowest-scoring one. */
  ghost predicate Candidate(p: Policy, meta: Meta, now: int, key: Str) {
    && key in meta
    && if AnyExpired(meta, now) then Expired(meta[key], now)
       else forall k :: k in meta ==> Score(p, meta[key], now) <= Score(p, meta[k], now)
  }

  /** One pass over the keys in iteration order, keeping the first of the lowest-scoring keys so far. */
  function Scan(p: Policy, meta: Meta, now: int, order: seq<Str>, lowest: Option<Str>): Option<Str>
    requires forall k <- order :: k in meta
    requires lowest.Some? ==> lowest.value in meta
  {
    if order == [] then lowest
    else
      var key := order[0];
      if Expired(meta[key], now) then Some(key)
      else
        var bar := if lowest.None? then p.maxDouble else Score(p, meta[lowest.value], now);
        Scan(p, meta, now, order[1..], if Score(p, meta[key], now) < bar then Some(key) else lowest)
  }

  /** The key evictCandidate returns for this iteration order; [] is the empty string. */
  function ScanResult(p: Policy, meta: Meta, now: int, order: seq<Str>): Str
    requires forall k <- order :: k in meta
  {
    match Scan(p, meta, now, order, None)
    case Some(key) => key
    case None => if order == [] then [] else order[0]
  }

  lemma ScanOfNothing(p: Policy, meta: Meta, now: int)
    ensures ScanResult(p, meta, now, []) == []
  {
  }

  lemma {:induction false} ScanIsLowest(p: Policy, meta: Meta, now: int, order: seq<Str>, lowest: Option<Str>)
    requires p.Valid()
    requires forall k <- order :: k in meta
    requires lowest.Some? ==> lowest.value in meta && !Expired(meta[lowest.value], now)
    ensures var r := Scan(p, meta, now, order, lowest);
            && (r.None? <==> order == [] && lowest.None?)
            && (r.Some? ==> r.value in meta && (r == lowest || r.value in order))
            && ((exists k <- order :: Expired(meta[k], now)) ==> Expired(meta[r.value], now))
            && ((forall k <- order :: !Expired(meta[k], now)) && r.Some? ==>
              && (forall k <- order :: Score(p, meta[r.value], now) <= Score(p, meta[k], now))
              && (lowest.Some? ==> Score(p, meta[r.value], now) <= Score(p, meta[lowest.value], now)))
  {
    hide Score, Expired;
    if order != [] {
      var key := order[0];
      ScoreBounds(p, meta[key], now);
      assert forall k :: k in order <==> k == key || k in order[1..];
      if !Expired(meta[key], now) {
        var bar := if lowest.None? then p.maxDouble else Score(p, meta[lowest.value], now);
        ScanIsLowest(p, meta, now, order[1..], if Score(p, meta[key], now) < bar then Some(key) else lowest);
      }
    }
  }

  /** In whatever order the keys are visited, the pass picks a key the policy promises. */
  lemma ScanMeetsPolicy(p: Policy, meta: Meta, now: int, order: seq<Str>)
    requires p.Valid() && Enumerates(order, meta.Keys) && meta != map[]
    ensures Candidate(p, meta, now, ScanResult(p, meta, now, order))
  {
    hide Score, Expired, Scan;
    var k :| k in meta;
    assert k in order;
    ScanIsLowest(p, meta, now, order, None);
  }

  /** And every key the policy allows is picked in some order: the cached scores have no say. */
  lemma EveryCandidateReachable(p: Policy, meta: Meta, now: int, key: Str, order: seq<Str>)
    returns (order': seq<Str>)
    requires p.Valid() && Enumerates(order, meta.Keys)
    requires Candidate(p, meta, now, key)
    ensures Enumerates(order', meta.Keys)
    ensures ScanResult(p, meta, now, order') == key
  {
    var i :| 0 <= i < |order| && order[i] == key;
    MoveToFront(order, meta.Keys, i);
    order' := [key] + (order[..i] + order[i + 1..]);
    var rest := order[..i] + order[i + 1..];
    assert order'[1..] == rest;
    forall k | k in rest ensures k in meta {
      assert k in order[..i] || k in order[i + 1..];
    }
    ScanFirst(p, meta, now, key, rest);
  }

  lemma ScanFirst(p: Policy, meta: Meta, now: int, key: Str, rest: seq<Str>)
    requires p.Valid() && Candidate(p, meta, now, key)
    requires forall k <- rest :: k in meta
    ensures forall k <- [key] + rest :: k in meta
    ensures ScanResult(p, meta, now, [key] + rest) == key
  {
    hide Score, Expired;
    assert ([key] + rest)[1..] == rest;
    ScoreBounds(p, meta[key], now);
    if !Expired(meta[key], now) {
      assert !AnyExpired(meta, now);
      LowestStays(p, meta, now, rest, key);
    }
  }

  lemma {:induction false} LowestStays(p: Policy, meta: Meta, now: int, order: seq<Str>, key: Str)
    requires key in meta && forall k <- order :: k in meta
    requires !AnyExpired(meta, now)
    requires forall k :: k in meta ==> Score(p, meta[key], now) <= Score(p, meta[k], now)
    ensures Scan(p, meta, now, order, Some(key)) == Some(key)
  {
    hide Score, Expired;
    if order != [] {
      assert order[0] in meta;
      LowestStays(p, meta, now, order[1..], key);
    }
  }

  // ----- dominance -----

  /** a was used at least as recently as b, strictly more often, and has as large a share of its TTL left. */
  predicate Dominates(a: Stats, b: Stats, now: int) {
    && a.lastAccess >= b.lastAccess
    && a.accessCount > b.accessCount
    && TtlFraction(a, now) >= TtlFraction(b, now)
  }

  lemma RecencyMonotone(a: Stats, b: Stats, now: int)
    requires a.lastAccess >= b.lastAccess
    ensures Recency(a, now) >= Recency(b, now)
  {
    var m, n := ElapsedSeconds(a.lastAccess, now), ElapsedSeconds(b.lastAccess, now);
    assert m <= n;
    var x, y := 1.0 + m as real, 1.0 + n as real;
    RecencyBounds(a, now);
    RecencyBounds(b, now);
    assert 1.0 / x * x == 1.0 && 1.0 / y * y == 1.0;
    assert 1.0 / y <= 1.0 / x by {
      Reciprocal(x, y);
    }
  }

  lemma Reciprocal(x: real, y: real)
    requires 0.0 < x <= y
    ensures 1.0 / y <= 1.0 / x
  {
    var q := 1.0 / y;
    assert q * y == 1.0 && q > 0.0;
    assert q * x <= q * y;
    assert q * x / x == q;
  }

  /** A live key that dominates another scores strictly higher. */
  lemma DominanceScores(p: Policy, a: Stats, b: Stats, now: int)
    requires p.Valid() && !Expired(a, now) && Dominates(a, b, now)
    ensures Score(p, a, now) > Score(p, b, now)
  {
    ScoreBounds(p, a, now);
    ScoreBounds(p, b, now);
    RecencyMonotone(a, b, now);
    assert p.log1p(a.accessCount) > p.log1p(b.accessCount);
  }
}
