/**
 The capacity-limited database refines the unlimited one: it may have forgotten keys, but whatever it
 still has, with its deadline, is what the unlimited database has. A write that starts a forgotten key
 over is the only thing that can end this; on strings there is no such write.
 */
module Bounded {
  import opened Bytes
  import opened Scoring
  import opened Keyspace
  import opened KeyspaceInvariants
  import opened Runs
  import ListSurgery

  /** Forgotten, or the same contents with the same TTL, which if there is one was set at the same time. */
  predicate SubSlot(b: Slot, u: Slot) {
    && SlotOk(b) && SlotOk(u)
    && (b == EMPTY_SLOT ||
        (&& b.str == u.str && b.list == u.list && b.hash == u.hash && b.stats.Some? && u.stats.Some?
         && b.stats.value.ttl == u.stats.value.ttl
         && (b.stats.value.ttl > 0.0 ==> b.stats.value.ttlSetTime == u.stats.value.ttlSetTime)))
  }

  ghost predicate SubDb(b: Db, u: Db) {
    forall k :: SubSlot(At(b, k), At(u, k))
  }

  /** A bounded database is a sub-map of the unbounded one, contents and TTLs alike. */
  lemma SubDbMeans(b: Db, u: Db)
    requires SubDb(b, u)
    ensures forall k <- b.kv :: k in u.kv && b.kv[k] == u.kv[k]
    ensures forall k <- b.lists :: k in u.lists && b.lists[k] == u.lists[k]
    ensures forall k <- b.hashes :: k in u.hashes && b.hashes[k] == u.hashes[k]
    ensures forall k <- b.meta :: k in u.meta && b.meta[k].ttl == u.meta[k].ttl
    ensures forall k <- b.meta :: b.meta[k].ttl > 0.0 ==> b.meta[k].ttlSetTime == u.meta[k].ttlSetTime
    ensures forall k <- b.meta, now :: Expired(b.meta[k], now) <==> Expired(u.meta[k], now)
  {
    forall k
      ensures k in b.kv ==> k in u.kv && b.kv[k] == u.kv[k]
      ensures k in b.lists ==> k in u.lists && b.lists[k] == u.lists[k]
      ensures k in b.hashes ==> k in u.hashes && b.hashes[k] == u.hashes[k]
      ensures k in b.meta ==> k in u.meta && b.meta[k].ttl == u.meta[k].ttl
      ensures k in b.meta && b.meta[k].ttl > 0.0 ==> b.meta[k].ttlSetTime == u.meta[k].ttlSetTime
    {
      assert SubSlot(At(b, k), At(u, k));
    }
  }

  /** What a client of the bounded database may see where the unbounded one answers u. */
  predicate AnswerRefines(cmd: Cmd, b: Reply, u: Reply) {
    match cmd
    case On(_, op) =>
      if Creates(op) then b == u
      else if op.Del? || op.Expire? then b.Flag? && u.Flag? && (b.ok ==> u.ok)
      else b == Missing(op) || b == u
    case Keys => b.Names? && u.Names? && b.names <= u.names
    case FlushAll => b == u
    case Rename(_, _) => b.Flag? && u.Flag? && (b.ok ==> u.ok)
  }

  // ----- the writes that start a key over -----

  function FieldsOf(pairs: seq<(Str, Str)>): set<Str> {
    set p <- pairs :: p.0
  }

  /** The write leaves nothing of what the live key u holds, not even its TTL. */
  predicate Replaces(op: Op, u: Slot) {
    match op
    case Set(_, _) => u.list.None? && u.hash.None?
    case HSet(f, _) => OnlyHash(u, {f})
    case HMSet(pairs) => OnlyHash(u, FieldsOf(pairs))
    case _ => false
  }

  predicate OnlyHash(u: Slot, fields: set<Str>) {
    && u.str.None? && u.list.None? && HashOr(u).Keys <= fields
    && u.stats.Some? && u.stats.value.ttl == 0.0
  }

  predicate SlotStartsOver(op: Op, b: Slot, u: Slot, now: int) {
    Creates(op) && b == EMPTY_SLOT && u != EMPTY_SLOT && !SlotExpired(u, now) && !Replaces(op, u)
  }

  /** A creating write on a key that is forgotten in b, live in u, and not wholly replaced. */
  predicate StartsOver(cmd: Cmd, b: Db, u: Db, now: int) {
    cmd.On? && SlotStartsOver(cmd.op, At(b, cmd.key), At(u, cmd.key), now)
  }

  lemma {:induction false} WithPairsMerge(h: Hash, pairs: seq<(Str, Str)>)
    ensures WithPairs(h, pairs) == h + WithPairs(map[], pairs)
    ensures WithPairs(map[], pairs).Keys == FieldsOf(pairs)
    decreases |pairs|
  {
    if pairs != [] {
      var one: Hash := map[pairs[0].0 := pairs[0].1];
      WithPairsMerge(h + one, pairs[1..]);
      WithPairsMerge(one, pairs[1..]);
      assert h[pairs[0].0 := pairs[0].1] == h + one;
      var none: Hash := map[];
      assert none[pairs[0].0 := pairs[0].1] == one;
      FieldsOfSplit(pairs);
    }
  }

  lemma FieldsOfSplit(pairs: seq<(Str, Str)>)
    requires pairs != []
    ensures FieldsOf(pairs) == {pairs[0].0} + FieldsOf(pairs[1..])
  {
    assert pairs == [pairs[0]] + pairs[1..];
  }

  lemma PairsForget(h: Hash, pairs: seq<(Str, Str)>)
    ensures WithPairs(h, pairs) == WithPairs(map[], pairs) <==> h.Keys <= FieldsOf(pairs)
  {
    WithPairsMerge(h, pairs);
    var w := WithPairs(map[], pairs);
    if h.Keys <= w.Keys {
      assert h + w == w;
    } else {
      assert (h + w).Keys == h.Keys + w.Keys;
    }
  }

  lemma FieldForgets(h: Hash, f: Str, v: Str)
    ensures var none: Hash := map[];
            h[f := v] == none[f := v] <==> h.Keys <= {f}
  {
    var none: Hash := map[];
    assert none[f := v].Keys == {f} && h[f := v].Keys == h.Keys + {f};
    if h.Keys <= {f} {
      assert h[f := v] == none[f := v];
    }
  }

  lemma SameExpiry(b: Slot, u: Slot, now: int)
    requires SubSlot(b, u) && b != EMPTY_SLOT
    ensures SlotExpired(b, now) <==> SlotExpired(u, now)
  {
  }

  lemma EmptyLive(now: int)
    ensures !SlotExpired(EMPTY_SLOT, now)
  {
  }

  /** On a key that both know, every command does the same. */
  lemma KnownSlotRefines(key: Str, op: Op, b: Slot, u: Slot, now: int)
    requires SubSlot(b, u) && b != EMPTY_SLOT && WellFormed(On(key, op))
    ensures SubSlot(SlotStep(op, b, now).0, SlotStep(op, u, now).0)
    ensures SlotStep(op, b, now).1 == SlotStep(op, u, now).1
  {
    SlotStepOk(op, b, now);
    SlotStepOk(op, u, now);
    SameExpiry(b, u, now);
    hide SlotExpired, ListSurgery.Removed, ListSurgery.Occurrences, WithPairs, SlotOk;
  }

  /** On a key that b has forgotten, no command but a creating write does anything. */
  lemma ForgottenSlotRefines(key: Str, op: Op, u: Slot, now: int)
    requires SlotOk(u) && !Creates(op)
    ensures SlotStep(op, EMPTY_SLOT, now).0 == EMPTY_SLOT
    ensures AnswerRefines(On(key, op), SlotStep(op, EMPTY_SLOT, now).1, SlotStep(op, u, now).1)
  {
    EmptyLive(now);
    if !op.Del? && !op.Expire? {
      ForgottenMisses(op, now);
    }
  }

  lemma ForgottenMisses(op: Op, now: int)
    requires !Creates(op) && !op.Del? && !op.Expire?
    ensures SlotStep(op, EMPTY_SLOT, now) == (EMPTY_SLOT, Missing(op))
  {
    EmptyLive(now);
  }

  /** And a creating write keeps the relation exactly if it does not start the key over. */
  lemma CreatedSlotRefines(op: Op, u: Slot, now: int)
    requires SlotOk(u) && Creates(op) && (op.HMSet? ==> op.pairs != [])
    ensures SubSlot(SlotStep(op, EMPTY_SLOT, now).0, SlotStep(op, u, now).0)
            <==> !SlotStartsOver(op, EMPTY_SLOT, u, now)
    ensures SlotStep(op, EMPTY_SLOT, now).1 == SlotStep(op, u, now).1
  {
    SlotStepOk(op, EMPTY_SLOT, now);
    SlotStepOk(op, u, now);
    EmptyLive(now);
    hide SlotExpired, SlotOk;
    match op
    case Set(_, _) =>
    case LPush(v) => assert u.list.Some? ==> |[v] + u.list.value| != |[v]|;
    case RPush(v) => assert u.list.Some? ==> |u.list.value + [v]| != |[v]|;
    case HSet(f, v) =>
      hide WithPairs;
      FieldForgets(HashOr(u), f, v);
    case HMSet(pairs) =>
      hide WithPairs;
      PairsForget(HashOr(u), pairs);
  }

  lemma SlotStepRefines(key: Str, op: Op, b: Slot, u: Slot, now: int)
    requires SubSlot(b, u) && WellFormed(On(key, op))
    ensures SubSlot(SlotStep(op, b, now).0, SlotStep(op, u, now).0) <==> !SlotStartsOver(op, b, u, now)
    ensures AnswerRefines(On(key, op), SlotStep(op, b, now).1, SlotStep(op, u, now).1)
  {
    hide SlotStep, Creates;
    if b != EMPTY_SLOT {
      KnownSlotRefines(key, op, b, u, now);
      SlotFlags(op, b, now);
    } else if Creates(op) {
      CreatedSlotRefines(op, u, now);
    } else {
      ForgottenSlotRefines(key, op, u, now);
      SlotStepOk(op, u, now);
    }
  }

  lemma SlotFlags(op: Op, s: Slot, now: int)
    ensures op.Del? || op.Expire? ==> SlotStep(op, s, now).1.Flag?
  {
  }

  /**
   One command: its answer agrees or is a miss, and the bounded keyspace stays a sub-map if and only if
   the command does not start a forgotten key over.
   */
  lemma AfterRefines(b: Db, u: Db, cmd: Cmd, now: int)
    requires SubDb(b, u) && WellFormed(cmd)
    ensures SubDb(After(b, cmd, now), After(u, cmd, now)) <==> !StartsOver(cmd, b, u, now)
    ensures AnswerRefines(cmd, Answer(b, cmd, now), Answer(u, cmd, now))
  {
    match cmd
    case On(key, op) => OnRefines(b, u, key, op, now);
    case Keys => KeysRefines(b, u, now);
    case FlushAll =>
      forall k ensures SubSlot(At(EMPTY_DB, k), At(EMPTY_DB, k)) {
      }
    case Rename(from, to) => RenameRefines(b, u, from, to, now);
  }

  lemma OnRefines(b: Db, u: Db, key: Str, op: Op, now: int)
    requires SubDb(b, u) && WellFormed(On(key, op))
    ensures SubDb(After(b, On(key, op), now), After(u, On(key, op), now))
            <==> !SlotStartsOver(op, At(b, key), At(u, key), now)
    ensures AnswerRefines(On(key, op), Answer(b, On(key, op), now), Answer(u, On(key, op), now))
  {
    hide SlotStep, SubSlot, At, Put, SlotStartsOver;
    assert SubSlot(At(b, key), At(u, key));
    SlotStepRefines(key, op, At(b, key), At(u, key), now);
    PutAt(b, key, SlotStep(op, At(b, key), now).0);
    PutAt(u, key, SlotStep(op, At(u, key), now).0);
    var b', u' := After(b, On(key, op), now), After(u, On(key, op), now);
    assert SubSlot(At(b', key), At(u', key)) <==> !SlotStartsOver(op, At(b, key), At(u, key), now);
    assert forall k :: k != key ==> SubSlot(At(b, k), At(u, k));
  }

  lemma KeysRefines(b: Db, u: Db, now: int)
    requires SubDb(b, u)
    ensures SubDb(AfterKeys(b, now), AfterKeys(u, now))
    ensures AnswerRefines(Keys, Answer(b, Keys, now), Answer(u, Keys, now))
  {
    hide At, SlotExpired, AfterKeys;
    KeysAt(b, now);
    KeysAt(u, now);
    EmptyLive(now);
    forall k
      ensures SubSlot(KeysSlot(At(b, k), now), KeysSlot(At(u, k), now))
      ensures k in DataKeys(b) - Doomed(b, now) ==> k in DataKeys(u) - Doomed(u, now)
    {
      assert SubSlot(At(b, k), At(u, k));
      if At(b, k) != EMPTY_SLOT { SameExpiry(At(b, k), At(u, k), now); }
      DataKeysAt(b, k);
      DataKeysAt(u, k);
    }
  }

  lemma RenameRefines(b: Db, u: Db, from: Str, to: Str, now: int)
    requires SubDb(b, u)
    ensures SubDb(AfterRename(b, from, to, now).0, AfterRename(u, from, to, now).0)
    ensures AfterRename(b, from, to, now).1 ==> AfterRename(u, from, to, now).1
  {
    hide At, SlotExpired, AfterRename;
    RenameAt(b, from, to, now);
    RenameAt(u, from, to, now);
    EmptyLive(now);
    assert SubSlot(At(b, from), At(u, from)) && SubSlot(At(b, to), At(u, to));
    if At(b, from) != EMPTY_SLOT { SameExpiry(At(b, from), At(u, from), now); }
    forall k ensures SubSlot(RenamedSlot(b, from, to, now, k), RenamedSlot(u, from, to, now, k)) {
      assert SubSlot(At(b, k), At(u, k));
    }
  }

  lemma DropRefines(b: Db, u: Db, key: Str)
    requires SubDb(b, u)
    ensures SubDb(Drop(b, key), u)
  {
    hide At, Put;
    PutAt(b, key, Erased(At(b, key)));
    forall k ensures SubSlot(At(Drop(b, key), k), At(u, k)) {
      assert SubSlot(At(b, k), At(u, k));
    }
  }

  /** The same commands at the same times, without any eviction. */
  function Unlimited(tr: seq<Event>): (r: seq<Event>)
    ensures |r| == |tr|
    ensures forall i :: 0 <= i < |tr| ==> r[i] == tr[i].(victim := None)
    decreases |tr|
  {
    if tr == [] then [] else [tr[0].(victim := None)] + Unlimited(tr[1..])
  }

  /** It is a run of the same code under any limit the commands cannot reach. */
  lemma {:induction false} UnlimitedRuns(cfg: Config, b: Db, u: Db, tr: seq<Event>, since: int, high: Config)
    requires Run(cfg, b, tr, since)
    requires KeyCount(u) + |tr| <= high.limit
    ensures Run(high, u, Unlimited(tr), since)
    decreases |tr|
  {
    hide After, Victim, KeyCount, Drop;
    if tr != [] {
      AfterCount(u, tr[0].cmd, tr[0].now);
      UnlimitedRuns(cfg, Next(b, tr[0]), Next(u, tr[0].(victim := None)), tr[1..], tr[0].now, high);
      assert Unlimited(tr)[1..] == Unlimited(tr[1..]);
    }
  }

  lemma {:induction false} AnswersLength(db: Db, tr: seq<Event>)
    ensures |Answers(db, tr)| == |tr|
    decreases |tr|
  {
    if tr != [] { AnswersLength(Next(db, tr[0]), tr[1..]); }
  }

  /** No command of the run starts over a key that the bounded database has forgotten. */
  ghost predicate NeverStartsOver(b: Db, u: Db, tr: seq<Event>)
    decreases |tr|
  {
    tr == [] ||
    (&& WellFormed(tr[0].cmd) && !StartsOver(tr[0].cmd, b, u, tr[0].now)
     && NeverStartsOver(Next(b, tr[0]), Next(u, tr[0].(victim := None)), tr[1..]))
  }

  /**
   After any run of any commands, under any limit, that starts no forgotten key over, the bounded
   keyspace is a sub-map of the unlimited one, and each of its answers is the unlimited one's or a miss.
   */
  lemma {:induction false} BoundedRefinesUnlimited(b: Db, u: Db, tr: seq<Event>)
    requires SubDb(b, u) && NeverStartsOver(b, u, tr)
    ensures SubDb(Final(b, tr), Final(u, Unlimited(tr)))
    ensures |Answers(b, tr)| == |Answers(u, Unlimited(tr))| == |tr|
    ensures forall i :: 0 <= i < |tr| ==> AnswerRefines(tr[i].cmd, Answers(b, tr)[i], Answers(u, Unlimited(tr))[i])
    decreases |tr|
  {
    hide After, Drop, Answer, AnswerRefines, SubDb, StartsOver, WellFormed;
    AnswersLength(b, tr);
    AnswersLength(u, Unlimited(tr));
    if tr != [] {
      var e := tr[0];
      AfterRefines(b, u, e.cmd, e.now);
      if e.victim.Some? {
        DropRefines(After(b, e.cmd, e.now), After(u, e.cmd, e.now), e.victim.value);
      }
      assert Unlimited(tr)[1..] == Unlimited(tr[1..]);
      BoundedRefinesUnlimited(Next(b, e), Next(u, e.(victim := None)), tr[1..]);
    }
  }

  // ----- strings -----

  predicate StringCmd(cmd: Cmd) {
    match cmd
    case On(_, op) => op.Set? || op.Get? || op.Del? || op.Expire? || op.Type?
    case _ => true
  }

  ghost predicate StringsOnly(db: Db) {
    forall k :: At(db, k).list.None? && At(db, k).hash.None?
  }

  lemma AfterStrings(db: Db, cmd: Cmd, now: int)
    requires StringsOnly(db) && StringCmd(cmd)
    ensures StringsOnly(After(db, cmd, now))
  {
    hide At, Put, AfterKeys, AfterRename, SlotExpired;
    forall k ensures At(After(db, cmd, now), k).list.None? && At(After(db, cmd, now), k).hash.None? {
      match cmd
      case On(key, op) => PutAt(db, key, SlotStep(op, At(db, key), now).0);
      case Keys => KeysAt(db, now);
      case FlushAll => EmptyAt(k);
      case Rename(from, to) => RenameAt(db, from, to, now);
    }
  }

  /** SET replaces all that a string key holds, so runs of string commands never start a key over. */
  lemma {:induction false} StringsNeverStartOver(b: Db, u: Db, tr: seq<Event>)
    requires StringsOnly(u) && forall i :: 0 <= i < |tr| ==> StringCmd(tr[i].cmd)
    ensures NeverStartsOver(b, u, tr)
    decreases |tr|
  {
    hide After, At, Drop, SlotExpired;
    if tr != [] {
      AfterStrings(u, tr[0].cmd, tr[0].now);
      StringsNeverStartOver(Next(b, tr[0]), Next(u, tr[0].(victim := None)), tr[1..]);
    }
  }

  /** From an empty server, on runs of string commands: every GET misses or agrees with the unlimited server. */
  lemma EveryGetMissesOrAgrees(cfg: Config, tr: seq<Event>, since: int, i: nat)
    requires Run(cfg, EMPTY_DB, tr, since)
    requires forall j :: 0 <= j < |tr| ==> StringCmd(tr[j].cmd)
    requires i < |tr| && tr[i].cmd.On? && tr[i].cmd.op == Get
    ensures Run(cfg.(limit := |tr|), EMPTY_DB, Unlimited(tr), since)
    ensures |Answers(EMPTY_DB, tr)| == |Answers(EMPTY_DB, Unlimited(tr))| == |tr|
    ensures Answers(EMPTY_DB, tr)[i] in {Value(None), Answers(EMPTY_DB, Unlimited(tr))[i]}
    ensures SubDb(Final(EMPTY_DB, tr), Final(EMPTY_DB, Unlimited(tr)))
  {
    hide Run, Final, Answers, NeverStartsOver;
    assert SubDb(EMPTY_DB, EMPTY_DB) && StringsOnly(EMPTY_DB);
    StringsNeverStartOver(EMPTY_DB, EMPTY_DB, tr);
    BoundedRefinesUnlimited(EMPTY_DB, EMPTY_DB, tr);
    UnlimitedRuns(cfg, EMPTY_DB, EMPTY_DB, tr, since, cfg.(limit := |tr|));
    assert AnswerRefines(tr[i].cmd, Answers(EMPTY_DB, tr)[i], Answers(EMPTY_DB, Unlimited(tr))[i]);
  }

  // ----- a run that starts a key over -----

  const FIRST: Str := [1]
  const SECOND: Str := [2]

  function Pushes(key: Str, v: Str, victim: Option<Str>): Event {
    Event(On(key, RPush(v)), 0, victim)
  }

  /** With room for one key more: a list is pushed to, evicted, and pushed to again. */
  const RESTART: seq<Event> :=
    [Pushes(FIRST, [7], None), Pushes(SECOND, [8], Some(FIRST)), Pushes(FIRST, [9], Some(SECOND))]

  const ONCE: Stats := Stats(1, 0, 0.0, 0)

  /** A list for each of the given keys, each pushed to once, at time 0. */
  function Lists(lists: map<Str, seq<Str>>): Db {
    Db(map[], lists, map[], map k | k in lists :: ONCE)
  }

  lemma PushNew(lists: map<Str, seq<Str>>, key: Str, v: Str)
    requires key !in lists
    ensures After(Lists(lists), On(key, RPush(v)), 0) == Lists(lists[key := [v]])
  {
    EmptyLive(0);
    assert At(Lists(lists), key) == EMPTY_SLOT;
    assert [] + [v] == [v];
    assert Create(RPush(v), EMPTY_SLOT, 0) == Slot(None, Some([v]), None, Some(ONCE));
    assert Lists(lists).meta[key := ONCE] == Lists(lists[key := [v]]).meta;
  }

  lemma EvictOf(cfg: Config, lists: map<Str, seq<Str>>, key: Str, rest: map<Str, seq<Str>>)
    requires key in lists && key != [] && rest == lists - {key}
    ensures Victim(cfg, Lists(lists), 0, key)
    ensures Drop(Lists(lists), key) == Lists(rest)
  {
    assert !Expired(ONCE, 0);
    assert Lists(lists).meta - {key} == Lists(rest).meta;
  }

  lemma PushesNew(cfg: Config, lists: map<Str, seq<Str>>, key: Str, v: Str)
    requires key !in lists && |lists| < cfg.limit
    ensures Allowed(cfg, Lists(lists), Pushes(key, v, None))
    ensures Next(Lists(lists), Pushes(key, v, None)) == Lists(lists[key := [v]])
  {
    hide After, At, Put;
    PushNew(lists, key, v);
    assert lists[key := [v]].Keys == lists.Keys + {key};
    assert KeyCount(Lists(lists[key := [v]])) == |lists[key := [v]].Keys| == |lists| + 1;
  }

  lemma PushesOut(cfg: Config, lists: map<Str, seq<Str>>, key: Str, v: Str, victim: Str)
    requires key !in lists && victim in lists && victim != [] && |lists| >= cfg.limit
    ensures Allowed(cfg, Lists(lists), Pushes(key, v, Some(victim)))
    ensures Next(Lists(lists), Pushes(key, v, Some(victim))) == Lists(lists[key := [v]] - {victim})
  {
    hide After, At, Put, Victim, Drop;
    PushNew(lists, key, v);
    var after := lists[key := [v]];
    assert after.Keys == lists.Keys + {key};
    EvictOf(cfg, after, victim, after - {victim});
  }

  /** A list pushed to after its eviction holds only the push, and clients see that. */
  lemma ListsStartOver(b: Db, u: Db, key: Str, value: Str, now: int, later: int)
    requires At(b, key) == EMPTY_SLOT
    requires At(u, key).list.Some? && !SlotExpired(At(u, key), now) && !SlotExpired(At(u, key), later)
    ensures Answer(After(b, On(key, RPush(value)), now), On(key, LGet), later) == Items([value])
    ensures Answer(After(u, On(key, RPush(value)), now), On(key, LGet), later) == Items(At(u, key).list.value + [value])
  {
    hide Put, At;
    PutAt(b, key, SlotStep(RPush(value), At(b, key), now).0);
    PutAt(u, key, SlotStep(RPush(value), At(u, key), now).0);
    assert [] + [value] == [value];
  }

  // The same with any limit: first lists under other keys fill all but one place.

  function FillLists(n: nat): map<Str, seq<Str>> {
    map k | k in Fillers(n) :: [[7]]
  }

  function Fill(n: nat): seq<Event> {
    if n == 0 then [] else Fill(n - 1) + [Pushes(Filler(n - 1), [7], None)]
  }

  lemma EmptyLists()
    ensures Lists(FillLists(0)) == EMPTY_DB
  {
    assert FillLists(0) == map[];
    assert Lists(map[]).meta.Keys == {};
  }

  lemma FillListsNext(n: nat)
    ensures |FillLists(n)| == n && Filler(n) !in FillLists(n)
    ensures FillLists(n)[Filler(n) := [[7]]] == FillLists(n + 1)
    ensures FIRST !in FillLists(n) && SECOND !in FillLists(n)
  {
    hide Fillers, Filler;
    FillerFresh(n);
    assert FillLists(n).Keys == Fillers(n);
  }

  lemma {:induction false} Filled(cfg: Config, n: nat)
    requires n <= cfg.limit
    ensures Run(cfg, EMPTY_DB, Fill(n), 0) && EndTime(Fill(n), 0) == 0
    ensures Final(EMPTY_DB, Fill(n)) == Lists(FillLists(n))
  {
    hide Allowed, Next, Lists, FillLists, Run, Final, Answers, Filler, Fillers;
    if n == 0 {
      EmptyLists();
      NothingRun(cfg);
    } else {
      Filled(cfg, n - 1);
      FillListsNext(n - 1);
      PushesNew(cfg, FillLists(n - 1), Filler(n - 1), [7]);
      RunSnoc(cfg, EMPTY_DB, Fill(n - 1), 0, Pushes(Filler(n - 1), [7], None));
    }
  }

  lemma {:induction false} FillUnlimited(n: nat)
    ensures Unlimited(Fill(n)) == Fill(n)
  {
    hide Unlimited, Filler;
    if n > 0 {
      var e := Pushes(Filler(n - 1), [7], None);
      FillUnlimited(n - 1);
      UnlimitedConcat(Fill(n - 1), [e]);
      assert Unlimited([e]) == [e];
    }
  }

  lemma NothingRun(cfg: Config)
    ensures Run(cfg, EMPTY_DB, [], 0) && Final(EMPTY_DB, []) == EMPTY_DB
  {
  }

  lemma UnlimitedConcat(a: seq<Event>, b: seq<Event>)
    ensures Unlimited(a + b) == Unlimited(a) + Unlimited(b)
  {
    hide Unlimited;
  }

  lemma BaseLists(n: nat) returns (base: map<Str, seq<Str>>)
    ensures base == FillLists(n) && |base| == n && FIRST !in base && SECOND !in base
    ensures base[FIRST := [[7]]][SECOND := [[8]]] - {FIRST} == base[SECOND := [[8]]]
    ensures base[SECOND := [[8]]][FIRST := [[9]]] - {SECOND} == base[FIRST := [[9]]]
    ensures |base[FIRST := [[7]]]| == |base[SECOND := [[8]]]| == n + 1
  {
    hide FillLists;
    base := FillLists(n);
    FillListsNext(n);
    KeyOutAgain(base, FIRST, [[7]], SECOND, [[8]]);
    KeyOutAgain(base, SECOND, [[8]], FIRST, [[9]]);
    AddedKey(base, FIRST, [[7]]);
    AddedKey(base, SECOND, [[8]]);
  }

  lemma RestartBounded(p: Policy, n: nat)
    ensures Run(Config(p, n + 1), EMPTY_DB, Fill(n) + RESTART, 0)
    ensures Final(EMPTY_DB, Fill(n) + RESTART[..2]) == Lists(FillLists(n)[SECOND := [[8]]])
    ensures Final(EMPTY_DB, Fill(n) + RESTART) == Lists(FillLists(n)[FIRST := [[9]]])
  {
    hide Allowed, Next, After, Run, Final, Answers, Lists, FillLists, Fill;
    var cfg := Config(p, n + 1);
    Filled(cfg, n);
    var base := BaseLists(n);
    PushesNew(cfg, base, FIRST, [7]);
    PushesOut(cfg, base[FIRST := [[7]]], SECOND, [8], FIRST);
    PushesOut(cfg, base[SECOND := [[8]]], FIRST, [9], SECOND);
    assert RESTART == [RESTART[0], RESTART[1], RESTART[2]] && RESTART[..2] == [RESTART[0], RESTART[1]];
    RunOfThree(cfg, Lists(base), RESTART[0], RESTART[1], RESTART[2], 0);
    RunConcat(cfg, EMPTY_DB, Fill(n), RESTART, 0);
    RunConcat(cfg, EMPTY_DB, Fill(n), RESTART[..2], 0);
  }

  lemma RestartUnlimited(p: Policy, n: nat)
    ensures var both := Lists(FillLists(n)[FIRST := [[7]]][SECOND := [[8]]]);
            && Final(EMPTY_DB, Unlimited(Fill(n) + RESTART[..2])) == both
            && Final(EMPTY_DB, Unlimited(Fill(n) + RESTART)) == After(both, On(FIRST, RPush([9])), 0)
  {
    hide Allowed, After, Run, Final, Answers, Unlimited, Lists, FillLists, Fill;
    var cfg := Config(p, n + 4);
    Filled(cfg, n);
    FillUnlimited(n);
    var base := BaseLists(n);
    PushesNew(cfg, base, FIRST, [7]);
    PushesNew(cfg, base[FIRST := [[7]]], SECOND, [8]);
    var e, f, g := Pushes(FIRST, [7], None), Pushes(SECOND, [8], None), Pushes(FIRST, [9], None);
    assert Unlimited(RESTART) == [e, f, g] && Unlimited(RESTART[..2]) == [e, f];
    UnlimitedConcat(Fill(n), RESTART);
    UnlimitedConcat(Fill(n), RESTART[..2]);
    RunOfThree(cfg, Lists(base), e, f, g, 0);
    RunConcat(cfg, EMPTY_DB, Fill(n), [e, f, g], 0);
    RunConcat(cfg, EMPTY_DB, Fill(n), [e, f], 0);
  }

  /**
   The restriction is needed under every limit: from an empty server, LGET after this run answers the
   last push alone, where the unlimited server answers both.
   */
  lemma RestartReached(cfg: Config)
    requires cfg.limit > 0
    ensures var fill := Fill(cfg.limit - 1);
            && Run(cfg, EMPTY_DB, fill + RESTART, 0)
            && StartsOver(RESTART[2].cmd, Final(EMPTY_DB, fill + RESTART[..2]),
                          Final(EMPTY_DB, Unlimited(fill + RESTART[..2])), 0)
            && Answer(Final(EMPTY_DB, fill + RESTART), On(FIRST, LGet), 0) == Items([[9]])
            && Answer(Final(EMPTY_DB, Unlimited(fill + RESTART)), On(FIRST, LGet), 0) == Items([[7], [9]])
  {
    hide After, Answer, Run, Final, Unlimited, Fill, FillLists, SlotExpired;
    var n := cfg.limit - 1;
    RestartBounded(cfg.policy, n);
    RestartUnlimited(cfg.policy, n);
    var base := BaseLists(n);
    var b, u := Lists(base[SECOND := [[8]]]), Lists(base[FIRST := [[7]]][SECOND := [[8]]]);
    assert At(b, FIRST) == EMPTY_SLOT && At(u, FIRST) == Slot(None, Some([[7]]), None, Some(ONCE));
    OnceLive();
    ListsStartOver(b, u, FIRST, [9], 0, 0);
    PushNew(base, FIRST, [9]);
    ListsStartOver(Lists(base), u, FIRST, [9], 0, 0);
    assert [[7]] + [[9]] == [[7], [9]];
  }

  lemma OnceLive()
    ensures !SlotExpired(Slot(None, Some([[7]]), None, Some(ONCE)), 0)
  {
  }
}
