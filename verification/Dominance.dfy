/**
 Eviction respects dominance, and goes on respecting it as time passes.
 */
module Dominance {
  import opened Bytes
  import opened Scoring
  import opened ScoreLaws
  import opened Keyspace
  import opened KeyspaceInvariants
  import EagerExpiry

  /**
   A live key is not evicted while a key it beats is tracked: one that is as good in recency, accesses
   and TTL share, and better in one of them. The one exception is that of the policy: when the key "" may
   be picked, and so the fallback takes any key of the first store.
   */
  lemma BeatenGoesFirst(cfg: Config, db: Db, now: int, a: Str, b: Str)
    requires cfg.policy.Valid() && Agrees(db)
    requires a in db.meta && b in db.meta
    requires !Expired(db.meta[a], now) && Beats(db.meta[a], db.meta[b], now)
    ensures Victim(cfg, db, now, a) <==> Candidate(cfg.policy, db.meta, now, []) && Fallback(db, a)
  {
    hide Score, Expired, Fallback, Beats;
    BeatsScores(cfg.policy, db.meta[a], db.meta[b], now);
    assert !Candidate(cfg.policy, db.meta, now, a);
  }

  /** Idle time counts: of two keys without TTL and equally often used, the one idle for a second more goes first. */
  lemma IdlerGoesFirst(cfg: Config, db: Db, now: int, a: Str, b: Str)
    requires cfg.policy.Valid() && Agrees(db) && a in db.meta && b in db.meta
    requires db.meta[a].ttl == db.meta[b].ttl == 0.0 && db.meta[a].accessCount == db.meta[b].accessCount
    requires db.meta[b].lastAccess + TICKS_PER_SECOND <= db.meta[a].lastAccess <= now
    ensures Victim(cfg, db, now, a) <==> Candidate(cfg.policy, db.meta, now, []) && Fallback(db, a)
  {
    hide Score, Fallback, Beats, Victim, Candidate;
    LaterUseWins(db.meta[a], db.meta[b], now);
    BeatenGoesFirst(cfg, db, now, a, b);
  }

  /** The TTL counts: of two keys with the same TTL and otherwise alike, the one with a second less of it left. */
  lemma EndingTtlGoesFirst(cfg: Config, db: Db, now: int, a: Str, b: Str)
    requires cfg.policy.Valid() && Agrees(db) && a in db.meta && b in db.meta
    requires db.meta[a].ttl == db.meta[b].ttl > 0.0 && !Expired(db.meta[a], now)
    requires db.meta[a].accessCount == db.meta[b].accessCount && db.meta[a].lastAccess == db.meta[b].lastAccess
    requires db.meta[b].ttlSetTime + TICKS_PER_SECOND <= db.meta[a].ttlSetTime <= now
    ensures Victim(cfg, db, now, a) <==> Candidate(cfg.policy, db.meta, now, []) && Fallback(db, a)
  {
    hide Score, Fallback, Beats, Victim, Candidate, Expired;
    LaterTtlWins(db.meta[a], db.meta[b], now);
    BeatenGoesFirst(cfg, db, now, a, b);
  }

  /**
   A live key is not evicted while a key it dominates is tracked, but for the one exception to the
   policy: when the key "" may be picked, and so the fallback takes any key of the first store.
   */
  lemma DominatedGoesFirst(cfg: Config, db: Db, now: int, a: Str, b: Str)
    requires cfg.policy.Valid() && Agrees(db)
    requires a in db.meta && b in db.meta
    requires !Expired(db.meta[a], now) && Dominates(db.meta[a], db.meta[b], now)
    ensures Victim(cfg, db, now, a) <==> Candidate(cfg.policy, db.meta, now, []) && Fallback(db, a)
  {
    hide Score, Fallback, Beats, Victim, Candidate, Expired;
    DominatesBeats(db.meta[a], db.meta[b], now);
    BeatenGoesFirst(cfg, db, now, a, b);
  }

  predicate Leaves(cmd: Cmd, key: Str) {
    match cmd
    case On(k, _) => k != key
    case Rename(from, to) => from != key && to != key
    case _ => false
  }

  lemma LeftAlone(db: Db, cmd: Cmd, now: int, key: Str)
    requires Leaves(cmd, key)
    ensures At(After(db, cmd, now), key) == At(db, key)
  {
    hide At, Put, SlotStep, AfterRename;
    match cmd
    case On(k, op) => PutAt(db, k, SlotStep(op, At(db, k), now).0);
    case Rename(from, to) => RenameAt(db, from, to, now);
  }

  /** a and b have no TTL, and a was used at least as recently and strictly more often. */
  predicate Outranks(a: Slot, b: Slot) {
    && a.stats.Some? && b.stats.Some?
    && a.stats.value.ttl == 0.0 && b.stats.value.ttl == 0.0
    && a.stats.value.lastAccess >= b.stats.value.lastAccess
    && a.stats.value.accessCount > b.stats.value.accessCount
  }

  lemma OutranksDominates(a: Slot, b: Slot, now: int)
    requires Outranks(a, b)
    ensures !Expired(a.stats.value, now) && Dominates(a.stats.value, b.stats.value, now)
  {
  }

  /** A command that singles out neither key: KEYS accesses both, and FLUSHALL deletes both. */
  predicate LeavesBoth(cmd: Cmd, a: Str, b: Str) {
    cmd == FlushAll || cmd == Keys || (Leaves(cmd, a) && Leaves(cmd, b))
  }

  predicate SameData(s: Slot, t: Slot) {
    s.str == t.str && s.list == t.list && s.hash == t.hash
  }

  /** KEYS keeps the ranking: it counts one access more for each key, at the same moment. */
  lemma KeysKeepsRanking(db: Db, now: int, a: Str, b: Str)
    requires Agrees(db) && Outranks(At(db, a), At(db, b))
    ensures Outranks(At(AfterKeys(db, now), a), At(AfterKeys(db, now), b))
    ensures SameData(At(AfterKeys(db, now), a), At(db, a)) && SameData(At(AfterKeys(db, now), b), At(db, b))
  {
    hide At, AfterKeys;
    KeysAt(db, now);
    assert SlotOk(At(db, a)) && SlotOk(At(db, b));
  }

  /** If the command has to evict, the policy does not pick the key "". */
  ghost predicate EvictsByPolicy(cfg: Config, db: Db, e: Event) {
    e.victim.Some? ==> !Candidate(cfg.policy, After(db, e.cmd, e.now).meta, e.now, [])
  }

  lemma OutrankedStep(cfg: Config, db: Db, e: Event, a: Str, b: Str)
    requires cfg.policy.Valid() && Agrees(db) && WellFormed(e.cmd)
    requires Allowed(cfg, db, e) && EvictsByPolicy(cfg, db, e)
    requires Leaves(e.cmd, a) && Leaves(e.cmd, b) && Outranks(At(db, a), At(db, b))
    ensures At(Next(db, e), a) == At(db, a)
    ensures At(Next(db, e), b) == At(db, b) || At(Next(db, e), b) == EMPTY_SLOT
  {
    hide After, At, Put, Victim, Expired;
    var mid := After(db, e.cmd, e.now);
    LeftAlone(db, e.cmd, e.now, a);
    LeftAlone(db, e.cmd, e.now, b);
    if e.victim.Some? {
      var v := e.victim.value;
      AfterAgrees(db, e.cmd, e.now);
      TrackedAt(mid, a);
      TrackedAt(mid, b);
      OutranksDominates(At(mid, a), At(mid, b), e.now);
      DominatedGoesFirst(cfg, mid, e.now, a, b);
      PutAt(mid, v, Erased(At(mid, v)));
      assert SlotOk(At(mid, v));
    }
  }

  lemma TrackedAt(db: Db, key: Str)
    requires At(db, key).stats.Some?
    ensures key in db.meta && db.meta[key] == At(db, key).stats.value
  {
  }

  ghost predicate AllByPolicy(cfg: Config, db: Db, tr: seq<Event>)
    decreases |tr|
  {
    tr == [] || (EvictsByPolicy(cfg, db, tr[0]) && AllByPolicy(cfg, Next(db, tr[0]), tr[1..]))
  }

  /** With all keys named, every eviction is by policy. */
  lemma {:induction false} NamedByPolicy(cfg: Config, db: Db, tr: seq<Event>)
    requires EagerExpiry.Named(db) && forall i :: 0 <= i < |tr| ==> EagerExpiry.NamesKeys(tr[i].cmd)
    ensures AllByPolicy(cfg, db, tr)
    decreases |tr|
  {
    hide After, Next, At;
    if tr != [] {
      EagerExpiry.NextNamed(db, tr[0]);
      EagerExpiry.NotTracked(After(db, tr[0].cmd, tr[0].now));
      NamedByPolicy(cfg, Next(db, tr[0]), tr[1..]);
    }
  }

  /**
   Stability: over any run that accesses neither key but by KEYS, however long, a key without TTL is still
   there, and still ahead, if one that it outranked at the start is.
   */
  lemma {:induction false} OutrankedGoesFirst(cfg: Config, db: Db, tr: seq<Event>, since: int, a: Str, b: Str)
    requires cfg.policy.Valid() && Inv(cfg, db)
    requires Run(cfg, db, tr, since) && AllByPolicy(cfg, db, tr)
    requires forall i :: 0 <= i < |tr| ==> LeavesBoth(tr[i].cmd, a, b)
    requires Outranks(At(db, a), At(db, b))
    ensures At(Final(db, tr), b) != EMPTY_SLOT ==>
      && Outranks(At(Final(db, tr), a), At(Final(db, tr), b))
      && SameData(At(Final(db, tr), a), At(db, a)) && SameData(At(Final(db, tr), b), At(db, b))
      && ((forall i :: 0 <= i < |tr| ==> tr[i].cmd != Keys) ==>
            At(Final(db, tr), a) == At(db, a) && At(Final(db, tr), b) == At(db, b))
    decreases |tr|
  {
    hide Next, Allowed, At, Inv, EvictsByPolicy, Outranks;
    if tr != [] {
      var e := tr[0];
      InvAgrees(cfg, db);
      if e.cmd == FlushAll {
        FlushedAt(cfg, db, e, b);
      } else if e.cmd == Keys {
        KeysKeepsRanking(db, e.now, a, b);
        KeysNext(cfg, db, e);
      } else {
        OutrankedStep(cfg, db, e, a, b);
      }
      InvNext(cfg, db, e);
      if At(Next(db, e), b) == EMPTY_SLOT {
        GoneStaysGone(cfg, Next(db, e), tr[1..], e.now, b);
      } else {
        OutrankedGoesFirst(cfg, Next(db, e), tr[1..], e.now, a, b);
      }
    }
  }

  lemma InvNext(cfg: Config, db: Db, e: Event)
    requires Inv(cfg, db) && WellFormed(e.cmd) && Allowed(cfg, db, e)
    ensures Inv(cfg, Next(db, e))
  {
    NextAgrees(db, e);
    NextWithinLimit(cfg, db, e);
  }

  lemma KeysNext(cfg: Config, db: Db, e: Event)
    requires Allowed(cfg, db, e) && e.cmd == Keys
    ensures Next(db, e) == AfterKeys(db, e.now)
  {
  }

  lemma FlushedAt(cfg: Config, db: Db, e: Event, key: Str)
    requires Allowed(cfg, db, e) && e.cmd == FlushAll
    ensures At(Next(db, e), key) == EMPTY_SLOT
  {
  }

  lemma InvAgrees(cfg: Config, db: Db)
    requires Inv(cfg, db)
    ensures Agrees(db)
  {
  }

  lemma {:induction false} GoneStaysGone(cfg: Config, db: Db, tr: seq<Event>, since: int, key: Str)
    requires At(db, key) == EMPTY_SLOT && Run(cfg, db, tr, since)
    requires forall i :: 0 <= i < |tr| ==> Leaves(tr[i].cmd, key) || tr[i].cmd == FlushAll || tr[i].cmd == Keys
    ensures At(Final(db, tr), key) == EMPTY_SLOT
    decreases |tr|
  {
    hide After, AfterKeys, At, Put, Allowed;
    if tr != [] {
      var e := tr[0];
      var mid := After(db, e.cmd, e.now);
      if e.cmd == FlushAll {
        FlushedAt(cfg, db, e, key);
      } else if e.cmd == Keys {
        KeysNext(cfg, db, e);
        KeysAt(db, e.now);
      } else {
        LeftAlone(db, e.cmd, e.now, key);
        if e.victim.Some? {
          PutAt(mid, e.victim.value, Erased(At(mid, e.victim.value)));
        }
      }
      GoneStaysGone(cfg, Next(db, e), tr[1..], e.now, key);
    }
  }
}
