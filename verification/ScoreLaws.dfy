/**
 What a remaining TTL and a score come to, in numbers and in order: how TTLs run down, what a second
 of idleness, an access and a fresh TTL are worth, and which of two keys scores higher.
 */
module ScoreLaws {
  import opened Bytes
  import opened Scoring

  /** now lies in the second that begins d whole seconds after since. */
  predicate SecondsAfter(since: int, d: nat, now: int) {
    since + d * TICKS_PER_SECOND <= now < since + (d + 1) * TICKS_PER_SECOND
  }

  lemma ElapsedIs(since: int, d: nat, now: int)
    requires SecondsAfter(since, d, now)
    ensures ElapsedSeconds(since, now) == d
  {
  }

  /** A TTL runs down second by second, and stops at zero. */
  lemma RemainingRunsDown(s: Stats, e: nat, now: int)
    requires SecondsAfter(s.ttlSetTime, e, now)
    ensures TtlRemaining(s, now) == if e as real < s.ttl then s.ttl - e as real else 0.0
  {
    ElapsedIs(s.ttlSetTime, e, now);
  }

  /** The score of a key idle for d whole seconds, in the e-th second of its TTL if it has one. */
  lemma ScoreInNumbers(p: Policy, s: Stats, d: nat, e: nat, now: int)
    requires SecondsAfter(s.lastAccess, d, now) && SecondsAfter(s.ttlSetTime, e, now)
    ensures s.ttl <= 0.0 ==> Score(p, s, now) == 0.5 / (1 + d) as real + 0.3 * p.log1p(s.accessCount)
    ensures s.ttl > e as real ==>
      Score(p, s, now) == 0.5 / (1 + d) as real + 0.3 * p.log1p(s.accessCount) + 0.2 * ((s.ttl - e as real) / s.ttl)
    ensures 0.0 < s.ttl <= e as real ==> Score(p, s, now) == -p.maxDouble
  {
    ElapsedIs(s.lastAccess, d, now);
    RemainingRunsDown(s, e, now);
    HalfShare(1 + d);
  }

  lemma HalfShare(n: nat)
    requires n > 0
    ensures ALPHA * (1.0 / n as real) == 0.5 / n as real
  {
    var q := 1.0 / n as real;
    assert q * n as real == 1.0;
    assert (ALPHA * q) * n as real == ALPHA * (q * n as real) == 0.5;
  }

  /** What d idle seconds cost: half of d / (1 + d). */
  lemma IdlenessCosts(p: Policy, s: Stats, d: nat, now: int)
    requires s.ttl <= 0.0 && SecondsAfter(s.lastAccess, d, now)
    ensures Score(p, s, s.lastAccess) - Score(p, s, now) == 0.5 * (d as real / (1 + d) as real)
  {
    ElapsedIs(s.lastAccess, d, now);
    var n := (1 + d) as real;
    assert 1.0 / 1.0 == 1.0;
    assert 1.0 / n * n == 1.0 && d as real / n * n == d as real;
    assert (1.0 - 1.0 / n) * n == d as real / n * n;
    SameQuotient(1.0 - 1.0 / n, d as real / n, n);
  }

  lemma SameQuotient(x: real, y: real, n: real)
    requires n > 0.0 && x * n == y * n
    ensures x == y
  {
    assert (x * n) / n == x && (y * n) / n == y;
  }

  /** What accesses are worth. */
  lemma AccessesAreWorth(p: Policy, s: Stats, n: nat, now: int)
    requires !Expired(s, now)
    ensures Score(p, s.(accessCount := n), now) - Score(p, s, now) == 0.3 * (p.log1p(n) - p.log1p(s.accessCount))
  {
    assert !Expired(s.(accessCount := n), now);
    assert Recency(s.(accessCount := n), now) == Recency(s, now);
    assert TtlFraction(s.(accessCount := n), now) == TtlFraction(s, now);
  }

  /** What a TTL just set is worth. */
  lemma FreshTtlIsWorth(p: Policy, s: Stats, ttl: real, now: int)
    requires ttl > 0.0
    ensures Score(p, s.(ttl := ttl, ttlSetTime := now), now) - Score(p, s.(ttl := 0.0), now) == 0.2
  {
    assert ttl / ttl == 1.0;
  }

  /** An expired key scores below every live one. */
  lemma ExpiredScoresLowest(p: Policy, a: Stats, b: Stats, now: int)
    requires p.Valid() && Expired(a, now) && !Expired(b, now)
    ensures Score(p, a, now) == -p.maxDouble < 0.0 < Score(p, b, now)
  {
    ScoreBounds(p, b, now);
  }

  // ----- order -----

  /** a is as good as b in all three respects, and better in one. */
  predicate Beats(a: Stats, b: Stats, now: int) {
    && ElapsedSeconds(a.lastAccess, now) <= ElapsedSeconds(b.lastAccess, now)
    && a.accessCount >= b.accessCount
    && TtlFraction(a, now) >= TtlFraction(b, now)
    && (|| ElapsedSeconds(a.lastAccess, now) < ElapsedSeconds(b.lastAccess, now)
        || a.accessCount > b.accessCount
        || TtlFraction(a, now) > TtlFraction(b, now))
  }

  lemma StrictReciprocal(m: nat, n: nat)
    requires 0 < m
    ensures m < n ==> 1.0 / n as real < 1.0 / m as real
    ensures m <= n ==> 1.0 / n as real <= 1.0 / m as real
  {
    if m < n {
      var x, y := 1.0 / m as real, 1.0 / n as real;
      assert x * m as real == 1.0 && y * n as real == 1.0;
      Scaled(y, 0.0, n as real);
      Scaled(n as real, m as real, y);
      assert x * m as real > y * m as real;
      Scaled(x, y, m as real);
    }
  }

  /** Whatever beats a key scores strictly higher. */
  lemma BeatsScores(p: Policy, a: Stats, b: Stats, now: int)
    requires p.Valid() && !Expired(a, now) && Beats(a, b, now)
    ensures Score(p, a, now) > Score(p, b, now)
  {
    if Expired(b, now) {
      ExpiredScoresLowest(p, b, a, now);
    } else {
      StrictReciprocal(1 + ElapsedSeconds(a.lastAccess, now), 1 + ElapsedSeconds(b.lastAccess, now));
      assert p.log1p(a.accessCount) >= p.log1p(b.accessCount) by {
        assert a.accessCount == b.accessCount || p.log1p(a.accessCount) > p.log1p(b.accessCount);
      }
    }
  }

  lemma DominatesBeats(a: Stats, b: Stats, now: int)
    requires Dominates(a, b, now)
    ensures Beats(a, b, now)
  {
  }

  /** Of two keys without TTL and equally often used, the one used a second or more later scores higher. */
  lemma LaterUseWins(a: Stats, b: Stats, now: int)
    requires a.ttl <= 0.0 && b.ttl <= 0.0 && a.accessCount == b.accessCount
    requires b.lastAccess + TICKS_PER_SECOND <= a.lastAccess <= now
    ensures Beats(a, b, now)
  {
    SecondLater(b.lastAccess, a.lastAccess, now);
  }

  lemma SecondLater(early: int, late: int, now: int)
    requires early + TICKS_PER_SECOND <= late <= now
    ensures ElapsedSeconds(late, now) < ElapsedSeconds(early, now)
  {
  }

  lemma SharesOrder(x: real, y: real, t: real)
    requires x > y && t > 0.0
    ensures x / t > y / t
  {
    assert x / t * t == x && y / t * t == y;
    Scaled(x / t, y / t, t);
  }

  lemma RemainingOrder(a: Stats, b: Stats, now: int)
    requires a.ttl == b.ttl > 0.0 && !Expired(a, now)
    requires ElapsedSeconds(a.ttlSetTime, now) < ElapsedSeconds(b.ttlSetTime, now)
    ensures TtlRemaining(a, now) > TtlRemaining(b, now)
  {
  }

  /** Of two keys with the same TTL and otherwise alike, the one whose TTL was set a second or more later. */
  lemma LaterTtlWins(a: Stats, b: Stats, now: int)
    requires a.accessCount == b.accessCount && a.lastAccess == b.lastAccess && a.ttl == b.ttl
    requires b.ttlSetTime + TICKS_PER_SECOND <= a.ttlSetTime <= now && !Expired(a, now) && a.ttl > 0.0
    ensures Beats(a, b, now)
  {
    SecondLater(b.ttlSetTime, a.ttlSetTime, now);
    RemainingOrder(a, b, now);
    SharesOrder(TtlRemaining(a, now), TtlRemaining(b, now), a.ttl);
  }
}
