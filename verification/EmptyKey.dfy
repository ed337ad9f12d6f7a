/**
 A key may be called "", but eviction takes that name for "no candidate": a run in which it does.
 */
module EmptyKey {
  import opened Bytes
  import opened Scoring
  import opened Keyspace
  import opened KeyspaceInvariants
  import opened Runs

  const LATE: int := 5 * TICKS_PER_SECOND

  /** A key called "" with a TTL of one second, a key without TTL, and five seconds later one key more. */
  const SHIELDING: seq<Event> := [
    Event(On([], Set([], 1.0)), 0, None),
    Event(On([1], Set([], 0.0)), 0, None),
    Event(On([2], Set([], 0.0)), LATE, Some([1]))
  ]

  const STALE: Stats := Stats(1, 0, 1.0, 0)
  const LIVE: Stats := Stats(1, 0, 0.0, 0)
  const FRESH: Stats := Stats(1, LATE, 0.0, LATE)

  /** What it meets: n strings under other keys, set at time 0. */
  function FillStrings(n: nat): seq<Event> {
    if n == 0 then [] else FillStrings(n - 1) + [Event(On(Filler(n - 1), Set([], 0.0)), 0, None)]
  }

  /** A string under each key that has metadata. */
  function Strings(meta: Meta): Db {
    Db(map k | k in meta :: [], map[], map[], meta)
  }

  function FillMeta(n: nat): Meta {
    map k | k in Fillers(n) :: LIVE
  }

  lemma StringsCount(meta: Meta)
    ensures KeyCount(Strings(meta)) == |meta|
  {
    assert Strings(meta).kv.Keys == meta.Keys;
    assert |Strings(meta).kv| == |Strings(meta).kv.Keys| == |meta.Keys|;
  }

  lemma SetSlot(ttl: real, now: int)
    requires ttl >= 0.0
    ensures SlotStep(Set([], ttl), EMPTY_SLOT, now).0 == Slot(Some([]), None, None, Some(Stats(1, now, ttl, now)))
  {
  }

  lemma SetNew(meta: Meta, key: Str, ttl: real, now: int)
    requires key !in meta && ttl >= 0.0
    ensures After(Strings(meta), On(key, Set([], ttl)), now) == Strings(meta[key := Stats(1, now, ttl, now)])
    ensures KeyCount(Strings(meta[key := Stats(1, now, ttl, now)])) == |meta| + 1
  {
    hide SlotStep, KeyCount;
    SetSlot(ttl, now);
    assert At(Strings(meta), key) == EMPTY_SLOT;
    var meta' := meta[key := Stats(1, now, ttl, now)];
    StringsCount(meta');
    assert meta'.Keys == meta.Keys + {key};
  }

  /** A creating write that needs no eviction. */
  lemma SetFits(cfg: Config, meta: Meta, key: Str, ttl: real, now: int)
    requires key !in meta && ttl >= 0.0 && |meta| < cfg.limit
    ensures Allowed(cfg, Strings(meta), Event(On(key, Set([], ttl)), now, None))
    ensures Next(Strings(meta), Event(On(key, Set([], ttl)), now, None))
         == Strings(meta[key := Stats(1, now, ttl, now)])
  {
    hide After, KeyCount, Strings;
    SetNew(meta, key, ttl, now);
  }

  lemma FillMetaNext(n: nat)
    ensures |FillMeta(n)| == n && Filler(n) !in FillMeta(n)
    ensures FillMeta(n)[Filler(n) := LIVE] == FillMeta(n + 1)
    ensures [] !in FillMeta(n) && [1] !in FillMeta(n) && [2] !in FillMeta(n)
  {
    hide Fillers, Filler;
    FillerFresh(n);
    assert FillMeta(n).Keys == Fillers(n);
  }

  lemma {:induction false} StringsFilled(cfg: Config, n: nat)
    requires n <= cfg.limit
    ensures Run(cfg, EMPTY_DB, FillStrings(n), 0) && EndTime(FillStrings(n), 0) == 0
    ensures Final(EMPTY_DB, FillStrings(n)) == Strings(FillMeta(n))
  {
    hide Allowed, Next, Strings, Run, Final, Answers, FillMeta, Filler, Fillers;
    if n == 0 {
      NothingFilled(cfg);
    } else {
      StringsFilled(cfg, n - 1);
      FillMetaNext(n - 1);
      SetFits(cfg, FillMeta(n - 1), Filler(n - 1), 0.0, 0);
      RunSnoc(cfg, EMPTY_DB, FillStrings(n - 1), 0, Event(On(Filler(n - 1), Set([], 0.0)), 0, None));
    }
  }

  lemma NothingFilled(cfg: Config)
    ensures Run(cfg, EMPTY_DB, [], 0) && Final(EMPTY_DB, []) == EMPTY_DB == Strings(FillMeta(0))
  {
    assert FillMeta(0) == map[];
    assert Strings(map[]).kv.Keys == {};
  }

  lemma DropString(meta: Meta, key: Str)
    requires key in meta
    ensures Drop(Strings(meta), key) == Strings(meta - {key})
  {
  }

  /** The policy picks "", so the fallback may take any string, live or not. */
  lemma ShieldingVictim(p: Policy, meta: Meta, limit: nat)
    requires [] in meta && meta[[]] == STALE && [1] in meta && meta[[1]] == LIVE
    ensures !Candidate(p, meta, LATE, [1])
    ensures Victim(Config(p, limit), Strings(meta), LATE, [1])
    ensures Expired(STALE, LATE) && !Expired(LIVE, LATE)
  {
    hide Score;
    assert Expired(STALE, LATE) && !Expired(LIVE, LATE);
    assert AnyExpired(meta, LATE) && Candidate(p, meta, LATE, []);
  }

  lemma ShieldingEviction(cfg: Config, meta: Meta)
    requires [] in meta && meta[[]] == STALE && [1] in meta && meta[[1]] == LIVE
    requires [2] !in meta && |meta| == cfg.limit
    ensures Allowed(cfg, Strings(meta), SHIELDING[2])
    ensures Next(Strings(meta), SHIELDING[2]) == Strings(meta[[2] := FRESH] - {[1]})
  {
    hide After, KeyCount, Strings, Victim, Drop;
    SetNew(meta, [2], 0.0, LATE);
    ShieldingVictim(cfg.policy, meta[[2] := FRESH], cfg.limit);
    DropString(meta[[2] := FRESH], [1]);
  }

  /**
   The expired key called "" shields itself, under every limit: in this run from an empty server a live
   key is evicted, no candidate of the policy, and the expired one stays.
   */
  lemma EmptyKeyShieldsItself(cfg: Config)
    requires cfg.limit >= 2
    ensures var fill := FillStrings(cfg.limit - 2);
            && Run(cfg, EMPTY_DB, fill + SHIELDING, 0)
            && var mid := After(Final(EMPTY_DB, fill + SHIELDING[..2]), SHIELDING[2].cmd, LATE);
            && [] in mid.meta && [1] in mid.meta
            && Expired(mid.meta[[]], LATE) && !Expired(mid.meta[[1]], LATE)
            && !Candidate(cfg.policy, mid.meta, LATE, [1])
            && Final(EMPTY_DB, fill + SHIELDING).meta == mid.meta - {[1]}
  {
    hide Allowed, Next, After, Final, Run, Answers, Candidate, FillMeta;
    var n, base := cfg.limit - 2, FillMeta(cfg.limit - 2);
    StringsFilled(cfg, n);
    var one, two := MetaOfShielding(n);
    SetFits(cfg, base, [], 1.0, 0);
    SetFits(cfg, one, [1], 0.0, 0);
    ShieldingEviction(cfg, two);
    SetNew(two, [2], 0.0, LATE);
    ShieldingVictim(cfg.policy, two[[2] := FRESH], cfg.limit);
    assert SHIELDING == [SHIELDING[0], SHIELDING[1], SHIELDING[2]] && SHIELDING[..2] == [SHIELDING[0], SHIELDING[1]];
    RunOfThree(cfg, Strings(base), SHIELDING[0], SHIELDING[1], SHIELDING[2], 0);
    RunConcat(cfg, EMPTY_DB, FillStrings(n), SHIELDING, 0);
    RunConcat(cfg, EMPTY_DB, FillStrings(n), SHIELDING[..2], 0);
  }

  lemma MetaOfShielding(n: nat) returns (one: Meta, two: Meta)
    ensures one == FillMeta(n)[[] := STALE] && two == one[[1] := LIVE]
    ensures [] !in FillMeta(n) && [1] !in one && [2] !in two
    ensures |FillMeta(n)| == n && |one| == n + 1 && |two| == n + 2
  {
    hide FillMeta;
    FillMetaNext(n);
    one, two := FillMeta(n)[[] := STALE], FillMeta(n)[[] := STALE][[1] := LIVE];
    AddedKey(FillMeta(n), [], STALE);
    AddedKey(one, [1], LIVE);
  }
}
