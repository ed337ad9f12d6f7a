/**
 Lazy expiry plus eviction behaves like eager expiry: a database that drops every expired key
 before each command gives the same replies and, up to expired leftovers, the same states.
 */
module EagerExpiry {
  import opened Bytes
  import opened Scoring
  import opened Keyspace
  import opened KeyspaceInvariants
  import ListSurgery

  function ExpiredKeys(meta: Meta, now: int): set<Str> {
    set k | k in meta && Expired(meta[k], now)
  }

  /** Every expired key dropped from the stores and the metadata. */
  function Purge(db: Db, now: int): Db {
    var gone := ExpiredKeys(db.meta, now);
    Db(db.kv - gone, db.lists - gone, db.hashes - gone, db.meta - gone)
  }

  function Live(s: Slot, now: int): Slot {
    if SlotExpired(s, now) then EMPTY_SLOT else s
  }

  lemma PurgeAt(db: Db, now: int)
    ensures forall k :: At(Purge(db, now), k) == Live(At(db, k), now)
  {
  }

  lemma PurgeAgrees(db: Db, now: int)
    requires Agrees(db)
    ensures Agrees(Purge(db, now))
  {
    PurgeAt(db, now);
    forall k ensures SlotOk(At(Purge(db, now), k)) {
      assert SlotOk(At(db, k));
    }
  }

  /** Purging early and then again is purging late. */
  lemma PurgeTwice(db: Db, now: int, later: int)
    requires now <= later
    ensures Purge(Purge(db, now), later) == Purge(db, later)
  {
    hide Purge, At, Expired;
    var a, b := Purge(Purge(db, now), later), Purge(db, later);
    PurgeAt(db, now);
    PurgeAt(Purge(db, now), later);
    PurgeAt(db, later);
    forall k ensures At(a, k) == At(b, k) {
      var s := At(db, k);
      if SlotExpired(s, now) {
        ExpiryIsForGood(s.stats.value, now, later);
      }
    }
    SameSlots(a, b);
  }

  // ----- one command -----

  /**
   The commands that tell an expired key from a missing one: DEL and EXPIRE of an expired key, and
   RENAME of an expired key onto a live one.
   */
  predicate Divergent(db: Db, cmd: Cmd, now: int) {
    match cmd
    case On(key, op) => (op.Del? || op.Expire?) && SlotExpired(At(db, key), now)
    case Rename(from, to) =>
      from != to && SlotExpired(At(db, from), now) && HasData(At(db, to)) && !SlotExpired(At(db, to), now)
    case _ => false
  }

  ghost predicate SameAsEager(db: Db, cmd: Cmd, now: int) {
    && Answer(db, cmd, now) == Answer(Purge(db, now), cmd, now)
    && Purge(After(db, cmd, now), now) == Purge(After(Purge(db, now), cmd, now), now)
  }

  lemma SlotSame(op: Op, s: Slot, now: int)
    requires SlotOk(s)
    requires op.Del? || op.Expire? ==> !SlotExpired(s, now)
    ensures SlotStep(op, s, now).1 == SlotStep(op, Live(s, now), now).1
    ensures Live(SlotStep(op, s, now).0, now) == Live(SlotStep(op, Live(s, now), now).0, now)
  {
    hide Create, Expired;
  }

  /** A command run on a database without expired keys leaves none. */
  lemma SlotStepLive(op: Op, s: Slot, now: int)
    requires !SlotExpired(s, now)
    ensures !SlotExpired(SlotStep(op, s, now).0, now)
  {
    hide ListSurgery.Removed, ListSurgery.Occurrences;
  }

  lemma AfterLive(db: Db, cmd: Cmd, now: int, k: Str)
    requires forall j :: !SlotExpired(At(db, j), now)
    ensures !SlotExpired(At(After(db, cmd, now), k), now)
  {
    hide At, Put, SlotStep, AfterKeys, AfterRename;
    match cmd
    case On(key, op) =>
      PutAt(db, key, SlotStep(op, At(db, key), now).0);
      SlotStepLive(op, At(db, key), now);
    case Keys => KeysAt(db, now);
    case FlushAll => EmptyAt(k);
    case Rename(from, to) => RenameAt(db, from, to, now);
  }

  /** Running on the purged state gives the purged result. */
  lemma AfterPurged(db: Db, cmd: Cmd, now: int, k: Str)
    requires Agrees(db) && !Divergent(db, cmd, now)
    ensures Live(At(After(db, cmd, now), k), now) == Live(At(After(Purge(db, now), cmd, now), k), now)
  {
    hide At, Put, SlotStep, AfterKeys, AfterRename, Expired, Purge;
    var p := Purge(db, now);
    PurgeAt(db, now);
    assert SlotOk(At(db, k));
    match cmd
    case On(key, op) =>
      PutAt(db, key, SlotStep(op, At(db, key), now).0);
      PutAt(p, key, SlotStep(op, At(p, key), now).0);
      SlotSame(op, At(db, key), now);
    case Keys =>
      KeysAt(db, now);
      KeysAt(p, now);
    case FlushAll =>
    case Rename(from, to) =>
      RenameAt(db, from, to, now);
      RenameAt(p, from, to, now);
      assert SlotOk(At(db, from)) && SlotOk(At(db, to));
  }

  lemma AnswerPurged(db: Db, cmd: Cmd, now: int)
    requires Agrees(db) && !Divergent(db, cmd, now)
    ensures Answer(db, cmd, now) == Answer(Purge(db, now), cmd, now)
  {
    hide At, SlotStep, AfterRename, Expired, Purge;
    var p := Purge(db, now);
    PurgeAt(db, now);
    match cmd
    case On(key, op) =>
      assert SlotOk(At(db, key));
      SlotSame(op, At(db, key), now);
    case Keys => NamesPurged(db, now);
    case FlushAll =>
    case Rename(from, to) =>
      RenameAt(db, from, to, now);
      RenameAt(p, from, to, now);
  }

  lemma NamesPurged(db: Db, now: int)
    ensures DataKeys(db) - Doomed(db, now) == DataKeys(Purge(db, now)) - Doomed(Purge(db, now), now)
  {
    hide Expired, Purge, At;
    var p := Purge(db, now);
    PurgeAt(db, now);
    forall k
      ensures k in DataKeys(db) - Doomed(db, now) <==> k in DataKeys(p) - Doomed(p, now)
    {
      DataKeysAt(db, k);
      DataKeysAt(p, k);
    }
  }

  /** A command does the same on the lazy and on the purged state if and only if it is not divergent. */
  lemma SameExactly(db: Db, cmd: Cmd, now: int)
    requires Agrees(db)
    ensures SameAsEager(db, cmd, now) <==> !Divergent(db, cmd, now)
  {
    hide After, Answer, Purge, Expired;
    var p := Purge(db, now);
    var a, b := Purge(After(db, cmd, now), now), Purge(After(p, cmd, now), now);
    if !Divergent(db, cmd, now) {
      AnswerPurged(db, cmd, now);
      PurgeAt(After(db, cmd, now), now);
      PurgeAt(After(p, cmd, now), now);
      forall k ensures At(a, k) == At(b, k) {
        AfterPurged(db, cmd, now, k);
      }
      SameSlots(a, b);
    } else {
      DivergentDiffers(db, cmd, now);
    }
  }

  lemma DivergentDiffers(db: Db, cmd: Cmd, now: int)
    requires Agrees(db) && Divergent(db, cmd, now)
    ensures !SameAsEager(db, cmd, now)
  {
    hide At, Put, AfterRename, Expired, Purge;
    var p := Purge(db, now);
    PurgeAt(db, now);
    match cmd
    case On(key, op) => assert SlotOk(At(db, key));
    case Rename(from, to) =>
      RenameAt(db, from, to, now);
      RenameAt(p, from, to, now);
      PurgeAt(After(db, cmd, now), now);
      PurgeAt(After(p, cmd, now), now);
      assert SlotOk(At(db, to));
      assert At(Purge(After(db, cmd, now), now), to) != At(Purge(After(p, cmd, now), now), to);
  }

  // ----- one command and its eviction -----

  /**
   Unless the policy may pick the key "", which eviction takes for "no candidate", the fallback is never
   used: victims are exactly the policy's candidates, so an expired key goes if there is any.
   */
  lemma VictimIsCandidate(cfg: Config, db: Db, now: int, key: Str)
    requires Agrees(db) && KeyCount(db) > 0
    requires !Candidate(cfg.policy, db.meta, now, [])
    ensures Victim(cfg, db, now, key) <==> Candidate(cfg.policy, db.meta, now, key)
  {
    hide Candidate;
    MetaNotEmpty(db);
  }

  lemma MetaNotEmpty(db: Db)
    requires Agrees(db) && KeyCount(db) > 0
    ensures db.meta != map[]
  {
    AgreementMeans(db);
    assert db.meta.Keys != {} by {
      assert db.kv.Keys != {} || db.lists.Keys != {} || db.hashes.Keys != {};
    }
  }

  /** A victim against the policy is a string if there is any, else a list if there is any, else a hash. */
  lemma FallbackOrder(cfg: Config, db: Db, now: int, key: Str)
    requires Agrees(db) && KeyCount(db) > 0
    requires Victim(cfg, db, now, key) && !Candidate(cfg.policy, db.meta, now, key)
    ensures key in db.kv || (|db.kv| == 0 && (key in db.lists || (|db.lists| == 0 && key in db.hashes)))
  {
    hide Candidate;
  }

  /** And any such key may be the one, once the policy may pick "". */
  lemma FallbackAny(cfg: Config, db: Db, now: int, key: Str)
    requires Candidate(cfg.policy, db.meta, now, [])
    requires key in db.kv || (|db.kv| == 0 && (key in db.lists || (|db.lists| == 0 && key in db.hashes)))
    ensures Victim(cfg, db, now, key)
  {
    hide Candidate;
  }

  /**
   Exactly when eviction keeps to the policy: if the key "" may be picked, every key of the store that the
   fallback takes from must happen to be a candidate too.
   */
  lemma EvictionKeepsPolicyExactly(cfg: Config, db: Db, now: int)
    requires Agrees(db) && KeyCount(db) > 0
    ensures (forall v :: Victim(cfg, db, now, v) ==> Candidate(cfg.policy, db.meta, now, v))
            <==> (Candidate(cfg.policy, db.meta, now, []) ==>
                    forall v :: Fallback(db, v) ==> Candidate(cfg.policy, db.meta, now, v))
  {
    hide Candidate, Fallback;
    MetaNotEmpty(db);
    if Candidate(cfg.policy, db.meta, now, []) {
      assert forall v :: Fallback(db, v) ==> Victim(cfg, db, now, v);
    }
  }

  /** What purging takes away frees a place. */
  lemma PurgeCount(db: Db, now: int)
    requires Agrees(db)
    ensures KeyCount(Purge(db, now)) <= KeyCount(db)
    ensures AnyExpired(db.meta, now) ==> KeyCount(Purge(db, now)) < KeyCount(db)
    ensures !AnyExpired(db.meta, now) ==> Purge(db, now) == db
  {
    hide Expired, Agrees;
    AgreementMeans(db);
    var gone := ExpiredKeys(db.meta, now);
    MinusSize(db.kv, gone);
    MinusSize(db.lists, gone);
    MinusSize(db.hashes, gone);
    MinusSize(db.meta, gone);
    assert AnyExpired(db.meta, now) <==> gone != {} by {
      assert forall k :: k in gone <==> k in db.meta && Expired(db.meta[k], now);
    }
    hide AnyExpired, ExpiredKeys;
    if gone != {} {
      var k :| k in gone;
      assert k in db.meta by { ExpiredKeysTracked(db.meta, now); }
    }
  }

  lemma ExpiredKeysTracked(meta: Meta, now: int)
    ensures ExpiredKeys(meta, now) <= meta.Keys
  {
  }

  lemma MinusSize<V>(m: map<Str, V>, gone: set<Str>)
    ensures |m - gone| <= |m|
    ensures forall k :: k in gone && k in m ==> |m - gone| < |m|
    ensures gone == {} ==> m - gone == m
  {
    assert (m - gone).Keys == m.Keys - gone;
    assert |m.Keys - gone| == |m.Keys| - |m.Keys * gone|;
    forall k | k in gone && k in m ensures |m - gone| < |m| {
      assert k in m.Keys * gone;
    }
  }

  lemma AfterOfPurged(db: Db, cmd: Cmd, now: int)
    requires Agrees(db) && WellFormed(cmd) && !Divergent(db, cmd, now)
    ensures After(Purge(db, now), cmd, now) == Purge(After(db, cmd, now), now)
  {
    hide After, Purge, Expired, Divergent;
    var p := Purge(db, now);
    PurgeAt(db, now);
    PurgeAt(After(db, cmd, now), now);
    var a, b := After(p, cmd, now), Purge(After(db, cmd, now), now);
    forall k ensures At(a, k) == At(b, k) {
      AfterLive(p, cmd, now, k);
      AfterPurged(db, cmd, now, k);
    }
    SameSlots(a, b);
  }

  /** The eager system has nothing to evict where the lazy one evicts an expired key. */
  function EagerEvent(db: Db, e: Event): (r: Event)
    ensures r.cmd == e.cmd && r.now == e.now
  {
    if e.victim.Some? && SlotExpired(At(After(db, e.cmd, e.now), e.victim.value), e.now) then e.(victim := None) else e
  }

  /** An eager event that does what the lazy one does: the same answer, and the same state once purged. */
  ghost predicate Matches(cfg: Config, db: Db, lazy: Event, eager: Event) {
    var p := Purge(db, lazy.now);
    && eager.cmd == lazy.cmd && eager.now == lazy.now
    && Allowed(cfg, db, lazy) && Allowed(cfg, p, eager)
    && Answer(p, eager.cmd, eager.now) == Answer(db, lazy.cmd, lazy.now)
    && Purge(Next(p, eager), lazy.now) == Purge(Next(db, lazy), lazy.now)
  }

  /** The command is not divergent, and it evicts an expired key if there is one. */
  predicate Conforms(db: Db, e: Event) {
    var mid := After(db, e.cmd, e.now);
    && !Divergent(db, e.cmd, e.now)
    && (e.victim.Some? && AnyExpired(mid.meta, e.now) ==> SlotExpired(At(mid, e.victim.value), e.now))
  }

  /** An expired key that eviction may take: any but "", which it takes only as its fallback. */
  predicate Evictable(db: Db, now: int, key: Str) {
    key in db.meta && Expired(db.meta[key], now) && (key != [] || Fallback(db, key))
  }

  /** The command is not divergent, and if it must evict while some key is expired, it may take such a key. */
  ghost predicate Followable(cfg: Config, db: Db, e: Event) {
    var mid := After(db, e.cmd, e.now);
    && !Divergent(db, e.cmd, e.now)
    && (Evicting(cfg, e.cmd, mid) && AnyExpired(mid.meta, e.now) ==> exists v :: Evictable(mid, e.now, v))
  }

  lemma PurgeDropped(db: Db, now: int, key: Str)
    requires SlotExpired(At(db, key), now)
    ensures Purge(Drop(db, key), now) == Purge(db, now)
  {
    hide Purge, Expired, At, Put;
    PutAt(db, key, Erased(At(db, key)));
    PurgeAt(db, now);
    PurgeAt(Drop(db, key), now);
    forall k ensures At(Purge(Drop(db, key), now), k) == At(Purge(db, now), k) {
    }
    SameSlots(Purge(Drop(db, key), now), Purge(db, now));
  }

  lemma EvictableVictims(cfg: Config, db: Db, now: int, key: Str)
    ensures Evictable(db, now, key) <==> SlotExpired(At(db, key), now) && Victim(cfg, db, now, key)
  {
    hide Fallback, Score;
    if SlotExpired(At(db, key), now) {
      assert AnyExpired(db.meta, now) && Candidate(cfg.policy, db.meta, now, key);
    }
  }

  /** What a command does before eviction, seen from both systems. */
  lemma BothAfter(cfg: Config, db: Db, cmd: Cmd, now: int)
    requires Inv(cfg, db) && WellFormed(cmd) && !Divergent(db, cmd, now)
    ensures var p, mid := Purge(db, now), After(db, cmd, now);
            && Agrees(mid)
            && Answer(p, cmd, now) == Answer(db, cmd, now)
            && After(p, cmd, now) == Purge(mid, now)
            && (AnyExpired(mid.meta, now) ==> !Evicting(cfg, cmd, Purge(mid, now)))
            && (!AnyExpired(mid.meta, now) ==> Purge(mid, now) == mid)
            && (!Evicting(cfg, cmd, mid) ==> !Evicting(cfg, cmd, Purge(mid, now)))
            && Purge(Purge(mid, now), now) == Purge(mid, now)
  {
    hide After, Answer, Purge, Expired, Divergent, KeyCount, AnyExpired;
    AnswerPurged(db, cmd, now);
    AfterOfPurged(db, cmd, now);
    AfterAgrees(db, cmd, now);
    PurgeCount(After(db, cmd, now), now);
    AfterCount(db, cmd, now);
    PurgeTwice(After(db, cmd, now), now, now);
  }

  /** One step: a lazy step that conforms is an eager step. */
  lemma EagerStep(cfg: Config, db: Db, e: Event)
    requires Inv(cfg, db) && WellFormed(e.cmd) && Conforms(db, e)
    requires Allowed(cfg, db, e)
    ensures Matches(cfg, db, e, EagerEvent(db, e))
  {
    hide After, Answer, Purge, Expired, At, Put, Divergent, KeyCount, Evicting, Victim, AnyExpired;
    BothAfter(cfg, db, e.cmd, e.now);
    var mid := After(db, e.cmd, e.now);
    if e.victim.Some? && SlotExpired(At(mid, e.victim.value), e.now) {
      ExpiredTracked(mid, e.now, e.victim.value);
      PurgeDropped(mid, e.now, e.victim.value);
    }
  }

  lemma ExpiredTracked(db: Db, now: int, key: Str)
    ensures SlotExpired(At(db, key), now) <==> key in db.meta && Expired(db.meta[key], now)
    ensures SlotExpired(At(db, key), now) ==> AnyExpired(db.meta, now)
  {
    hide Expired;
  }

  /** A divergent command does not evict, so its difference stays. */
  lemma DivergentUnmatched(cfg: Config, db: Db, e: Event, e': Event)
    requires Agrees(db) && Matches(cfg, db, e, e')
    ensures !Divergent(db, e.cmd, e.now)
  {
    hide After, Answer, Purge, Expired, At, Put, KeyCount, Victim;
    SameExactly(db, e.cmd, e.now);
  }

  /** And a lazy step is matched by an eager one exactly if it conforms. */
  lemma EagerStepExactly(cfg: Config, db: Db, e: Event)
    requires Inv(cfg, db) && WellFormed(e.cmd) && Allowed(cfg, db, e)
    ensures (exists e' :: Matches(cfg, db, e, e')) <==> Conforms(db, e)
  {
    hide Matches, Conforms;
    if Conforms(db, e) {
      EagerStep(cfg, db, e);
    }
    forall e' | Matches(cfg, db, e, e') ensures Conforms(db, e) {
      MatchedConforms(cfg, db, e, e');
    }
  }

  lemma MatchedConforms(cfg: Config, db: Db, e: Event, e': Event)
    requires Inv(cfg, db) && WellFormed(e.cmd) && Matches(cfg, db, e, e')
    ensures Conforms(db, e)
  {
    hide After, Answer, Purge, Expired, At, Put, Divergent, KeyCount, Victim, AnyExpired, HasData;
    DivergentUnmatched(cfg, db, e, e');
    BothAfter(cfg, db, e.cmd, e.now);
    var mid := After(db, e.cmd, e.now);
    if e.victim.Some? && AnyExpired(mid.meta, e.now) {
      VictimHasData(cfg, mid, e.now, e.victim.value) by { SomeKeys(cfg, e.cmd, mid); }
      if !SlotExpired(At(mid, e.victim.value), e.now) {
        LiveDropShows(mid, e.now, e.victim.value);
      }
    }
  }

  lemma SomeKeys(cfg: Config, cmd: Cmd, db: Db)
    requires Evicting(cfg, cmd, db)
    ensures KeyCount(db) > 0
  {
  }

  lemma LiveDropShows(db: Db, now: int, key: Str)
    requires HasData(At(db, key)) && !SlotExpired(At(db, key), now)
    ensures Purge(Drop(db, key), now) != Purge(db, now)
  {
    hide Purge, Expired, At, Put;
    PutAt(db, key, Erased(At(db, key)));
    PurgeAt(db, now);
    PurgeAt(Drop(db, key), now);
    assert At(Purge(db, now), key) != At(Purge(Drop(db, key), now), key);
  }

  /** The key a lazy database evicts where the eager one need not: some expired key it may take. */
  ghost function LazyEvent(cfg: Config, db: Db, e: Event): (r: Event)
    ensures r.cmd == e.cmd && r.now == e.now
  {
    var mid := After(db, e.cmd, e.now);
    if Evicting(cfg, e.cmd, mid) && exists v :: Evictable(mid, e.now, v) then
      var v :| Evictable(mid, e.now, v);
      e.(victim := Some(v))
    else e
  }

  /** Conversely an eager step that can be followed is a lazy step. */
  lemma LazyStep(cfg: Config, db: Db, e: Event)
    requires Inv(cfg, db) && WellFormed(e.cmd) && Followable(cfg, db, e)
    requires Allowed(cfg, Purge(db, e.now), e)
    ensures Matches(cfg, db, LazyEvent(cfg, db, e), e)
  {
    hide After, Answer, Purge, Expired, At, Put, Divergent, KeyCount, Evicting, Victim, AnyExpired, Evictable;
    BothAfter(cfg, db, e.cmd, e.now);
    var mid := After(db, e.cmd, e.now);
    var v := LazyEvent(cfg, db, e).victim;
    if Evicting(cfg, e.cmd, mid) && exists v :: Evictable(mid, e.now, v) {
      EvictableVictims(cfg, mid, e.now, v.value);
      ExpiredTracked(mid, e.now, v.value);
      PurgeDropped(mid, e.now, v.value);
    }
  }

  /** Exactly: an eager step is matched by a lazy one if and only if it can be followed. */
  lemma LazyStepExactly(cfg: Config, db: Db, e: Event)
    requires Inv(cfg, db) && WellFormed(e.cmd) && Allowed(cfg, Purge(db, e.now), e)
    ensures (exists e' :: Matches(cfg, db, e', e)) <==> Followable(cfg, db, e)
  {
    hide Matches, Followable;
    if Followable(cfg, db, e) {
      LazyStep(cfg, db, e);
    }
    forall e' | Matches(cfg, db, e', e) ensures Followable(cfg, db, e) {
      MatchedFollowable(cfg, db, e, e');
    }
  }

  lemma MatchedFollowable(cfg: Config, db: Db, e: Event, e': Event)
    requires Inv(cfg, db) && WellFormed(e.cmd) && Matches(cfg, db, e', e)
    ensures Followable(cfg, db, e)
  {
    hide After, Purge, Expired, At, Divergent, Victim, AnyExpired, Evictable, Matches, Inv;
    MatchedAllowed(cfg, db, e', e);
    MatchedConforms(cfg, db, e', e);
    var mid := After(db, e.cmd, e.now);
    if Evicting(cfg, e.cmd, mid) && AnyExpired(mid.meta, e.now) {
      EvictableVictims(cfg, mid, e.now, e'.victim.value);
    }
  }

  lemma MatchedAllowed(cfg: Config, db: Db, lazy: Event, eager: Event)
    requires Matches(cfg, db, lazy, eager)
    ensures Allowed(cfg, db, lazy) && lazy.cmd == eager.cmd && lazy.now == eager.now
  {
  }

  // ----- runs -----

  /** The eager system: before each command, every expired key is dropped. */
  ghost predicate EagerRun(cfg: Config, db: Db, tr: seq<Event>, since: int)
    decreases |tr|
  {
    tr == [] ||
    (&& since <= tr[0].now && WellFormed(tr[0].cmd) && Allowed(cfg, Purge(db, tr[0].now), tr[0])
     && EagerRun(cfg, Next(Purge(db, tr[0].now), tr[0]), tr[1..], tr[0].now))
  }

  function EagerFinal(db: Db, tr: seq<Event>): Db
    decreases |tr|
  {
    if tr == [] then db else EagerFinal(Next(Purge(db, tr[0].now), tr[0]), tr[1..])
  }

  function EagerAnswers(db: Db, tr: seq<Event>): seq<Reply>
    decreases |tr|
  {
    if tr == [] then []
    else
      var p := Purge(db, tr[0].now);
      [Answer(p, tr[0].cmd, tr[0].now)] + EagerAnswers(Next(p, tr[0]), tr[1..])
  }

  lemma PurgedNextLive(db: Db, e: Event)
    ensures Purge(Next(Purge(db, e.now), e), e.now) == Next(Purge(db, e.now), e)
  {
    hide After, Purge, Expired, At, Put;
    var p := Purge(db, e.now);
    var db' := Next(p, e);
    PurgeAt(db, e.now);
    PurgeAt(db', e.now);
    forall k ensures At(Purge(db', e.now), k) == At(db', k) {
      AfterLive(p, e.cmd, e.now, k);
      if e.victim.Some? {
        PutAt(After(p, e.cmd, e.now), e.victim.value, Erased(At(After(p, e.cmd, e.now), e.victim.value)));
      }
    }
    SameSlots(Purge(db', e.now), db');
  }

  /** The eager system keeps the invariants too, and its state never holds an expired key. */
  lemma {:induction false} EagerKeepsInvariants(cfg: Config, db: Db, tr: seq<Event>, since: int)
    requires Inv(cfg, db) && EagerRun(cfg, db, tr, since)
    ensures Inv(cfg, EagerFinal(db, tr))
    ensures tr != [] ==> Purge(EagerFinal(db, tr), EndTime(tr, since)) == EagerFinal(db, tr)
    decreases |tr|
  {
    hide Purge, Next, Allowed, KeyCount, Agrees;
    if tr != [] {
      var e := tr[0];
      PurgeAgrees(db, e.now);
      PurgeCount(db, e.now);
      NextAgrees(Purge(db, e.now), e);
      NextWithinLimit(cfg, Purge(db, e.now), e);
      PurgedNextLive(db, e);
      assert EndTime(tr[1..], e.now) == EndTime(tr, since);
      EagerKeepsInvariants(cfg, Next(Purge(db, e.now), e), tr[1..], e.now);
    }
  }

  predicate AllConform(db: Db, tr: seq<Event>)
    decreases |tr|
  {
    tr == [] || (Conforms(db, tr[0]) && AllConform(Next(db, tr[0]), tr[1..]))
  }

  predicate SameCommands(tr: seq<Event>, tr': seq<Event>) {
    |tr| == |tr'| && forall i :: 0 <= i < |tr| ==> tr[i].cmd == tr'[i].cmd && tr[i].now == tr'[i].now
  }

  function EagerTrace(db: Db, tr: seq<Event>): (r: seq<Event>)
    ensures SameCommands(tr, r)
    decreases |tr|
  {
    if tr == [] then [] else [EagerEvent(db, tr[0])] + EagerTrace(Next(db, tr[0]), tr[1..])
  }

  /**
   Lazy expiry simulates eager expiry: every run without divergent commands, in which evictions take
   expired keys first, is matched by a run of the eager system on the same commands at the same times,
   with the same answers throughout and the same keyspace once the expired leftovers are purged.
   */
  lemma {:induction false} LazyRefinesEager(cfg: Config, db: Db, eager: Db, tr: seq<Event>, since: int)
    requires Inv(cfg, db)
    requires Run(cfg, db, tr, since) && AllConform(db, tr)
    requires Purge(db, since) == Purge(eager, since)
    ensures EagerRun(cfg, eager, EagerTrace(db, tr), since)
    ensures EagerAnswers(eager, EagerTrace(db, tr)) == Answers(db, tr)
    ensures Purge(EagerFinal(eager, EagerTrace(db, tr)), EndTime(tr, since)) == Purge(Final(db, tr), EndTime(tr, since))
    decreases |tr|
  {
    hide Purge, Next, Allowed, Answer, Conforms, KeyCount, Agrees, At, EagerEvent;
    if tr != [] {
      var e := tr[0];
      PurgeTwice(db, since, e.now);
      PurgeTwice(eager, since, e.now);
      EagerStep(cfg, db, e);
      NextAgrees(db, e);
      NextWithinLimit(cfg, db, e);
      var e' := EagerEvent(db, e);
      assert EagerTrace(db, tr)[1..] == EagerTrace(Next(db, e), tr[1..]);
      assert EndTime(tr[1..], e.now) == EndTime(tr, since);
      LazyRefinesEager(cfg, Next(db, e), Next(Purge(eager, e.now), e'), tr[1..], e.now);
    }
  }

  ghost function LazyTrace(cfg: Config, db: Db, tr: seq<Event>): (r: seq<Event>)
    ensures SameCommands(tr, r)
    decreases |tr|
  {
    if tr == [] then []
    else
      var e := LazyEvent(cfg, db, tr[0]);
      [e] + LazyTrace(cfg, Next(db, e), tr[1..])
  }

  /** Every step of the eager run can be followed from where the lazy system then is. */
  ghost predicate AllFollowable(cfg: Config, db: Db, tr: seq<Event>)
    decreases |tr|
  {
    tr == [] || (Followable(cfg, db, tr[0]) && AllFollowable(cfg, Next(db, LazyEvent(cfg, db, tr[0])), tr[1..]))
  }

  /** Conversely the lazy system follows the runs of the eager one, finding an expired key to evict if there is any. */
  lemma {:induction false} EagerRefinesLazy(cfg: Config, db: Db, eager: Db, tr: seq<Event>, since: int)
    requires Inv(cfg, db)
    requires EagerRun(cfg, eager, tr, since) && AllFollowable(cfg, db, tr)
    requires Purge(db, since) == Purge(eager, since)
    ensures Run(cfg, db, LazyTrace(cfg, db, tr), since)
    ensures Answers(db, LazyTrace(cfg, db, tr)) == EagerAnswers(eager, tr)
    ensures Purge(EagerFinal(eager, tr), EndTime(tr, since))
         == Purge(Final(db, LazyTrace(cfg, db, tr)), EndTime(tr, since))
    decreases |tr|
  {
    hide Purge, Next, Allowed, Answer, Followable, KeyCount, Agrees, At, LazyEvent;
    if tr != [] {
      var e := tr[0];
      var e' := LazyEvent(cfg, db, e);
      PurgeTwice(db, since, e.now);
      PurgeTwice(eager, since, e.now);
      assert LazyTrace(cfg, db, tr)[1..] == LazyTrace(cfg, Next(db, e'), tr[1..]);
      LazyStep(cfg, db, e);
      NextAgrees(db, e');
      NextWithinLimit(cfg, db, e');
      assert EndTime(tr[1..], e.now) == EndTime(tr, since);
      EagerRefinesLazy(cfg, Next(db, e'), Next(Purge(eager, e.now), e), tr[1..], e.now);
    }
  }

  // ----- named keys -----

  /** No key is called "". */
  predicate Named(db: Db) {
    At(db, []) == EMPTY_SLOT
  }

  predicate NamesKeys(cmd: Cmd) {
    match cmd
    case On(key, _) => key != []
    case Rename(from, to) => from != [] && to != []
    case _ => true
  }

  lemma NextNamed(db: Db, e: Event)
    requires Named(db) && NamesKeys(e.cmd)
    ensures Named(After(db, e.cmd, e.now)) && Named(Next(db, e))
  {
    hide At, Put, SlotStep, AfterKeys, AfterRename, Expired;
    var mid := After(db, e.cmd, e.now);
    assert Named(mid) by {
      match e.cmd
      case On(key, op) => PutAt(db, key, SlotStep(op, At(db, key), e.now).0);
      case Keys => KeysAt(db, e.now);
      case FlushAll => EmptyAt([]);
      case Rename(from, to) => RenameAt(db, from, to, e.now);
    }
    if e.victim.Some? {
      PutAt(mid, e.victim.value, Erased(At(mid, e.victim.value)));
    }
  }

  ghost predicate NeverDiverges(db: Db, tr: seq<Event>)
    decreases |tr|
  {
    tr == [] ||
    (&& NamesKeys(tr[0].cmd) && !Divergent(db, tr[0].cmd, tr[0].now)
     && NeverDiverges(Next(db, tr[0]), tr[1..]))
  }

  lemma NamedConforms(cfg: Config, db: Db, e: Event)
    requires Inv(cfg, db) && Named(db) && WellFormed(e.cmd) && Allowed(cfg, db, e)
    requires NamesKeys(e.cmd) && !Divergent(db, e.cmd, e.now)
    ensures Conforms(db, e)
  {
    hide After, At, Divergent, KeyCount, Victim, Score, Expired;
    var mid := After(db, e.cmd, e.now);
    NextNamed(db, e);
    NotTracked(mid);
    AfterAgrees(db, e.cmd, e.now);
    if e.victim.Some? && AnyExpired(mid.meta, e.now) {
      VictimIsCandidate(cfg, mid, e.now, e.victim.value);
      ExpiredTracked(mid, e.now, e.victim.value);
    }
  }

  /** As long as all keys have names, only divergent commands matter: evictions take expired keys first. */
  lemma {:induction false} NamedRunsConform(cfg: Config, db: Db, tr: seq<Event>, since: int)
    requires Inv(cfg, db) && Named(db) && Run(cfg, db, tr, since) && NeverDiverges(db, tr)
    ensures AllConform(db, tr)
    decreases |tr|
  {
    hide Next, Divergent, At, Conforms, Agrees, KeyCount, Named, Allowed;
    if tr != [] {
      NamedConforms(cfg, db, tr[0]);
      NextNamed(db, tr[0]);
      NextAgrees(db, tr[0]);
      NextWithinLimit(cfg, db, tr[0]);
      NamedRunsConform(cfg, Next(db, tr[0]), tr[1..], tr[0].now);
    }
  }

  lemma NamedEvictable(db: Db, now: int)
    requires Named(db)
    ensures AnyExpired(db.meta, now) ==> exists v :: Evictable(db, now, v)
  {
    hide Expired, Fallback;
    NotTracked(db);
    if AnyExpired(db.meta, now) {
      var v :| v in db.meta && Expired(db.meta[v], now);
      assert Evictable(db, now, v);
    }
  }

  /** And then the lazy system can follow every eager run. */
  lemma {:induction false} NamedRunsFollowable(cfg: Config, db: Db, tr: seq<Event>)
    requires Named(db) && NeverDiverges(db, LazyTrace(cfg, db, tr))
    ensures AllFollowable(cfg, db, tr)
    decreases |tr|
  {
    hide After, Next, Divergent, At, Named, Expired, LazyEvent;
    if tr != [] {
      var e := LazyEvent(cfg, db, tr[0]);
      assert LazyTrace(cfg, db, tr)[1..] == LazyTrace(cfg, Next(db, e), tr[1..]);
      NextNamed(db, e);
      NamedEvictable(After(db, e.cmd, e.now), e.now);
      NamedRunsFollowable(cfg, Next(db, e), tr[1..]);
    }
  }

  lemma NotTracked(db: Db)
    requires Named(db)
    ensures [] !in db.meta
  {
  }
}
