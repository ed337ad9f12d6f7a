/**
 The keyspace engine of src/RedisDatabase.cpp on values: three stores and the metadata map, every
 command as a function of the state, and runs of commands under a clock that never goes back.
 A command on one key reads and writes that key's slot only, so it is a function on slots.
 */
module Keyspace {
  import opened Bytes
  import opened Scoring
  import ListSurgery

  type Hash = map<Str, Str>

  datatype Db = Db(kv: map<Str, Str>, lists: map<Str, seq<Str>>, hashes: map<Str, Hash>, meta: Meta)

  const EMPTY_DB: Db := Db(map[], map[], map[], map[])

  /** All that the database holds under one key, which may sit in several stores at once. */
  datatype Slot = Slot(str: Option<Str>, list: Option<seq<Str>>, hash: Option<Hash>, stats: Option<Stats>)

  const EMPTY_SLOT: Slot := Slot(None, None, None, None)

  function Lookup<V>(m: map<Str, V>, key: Str): Option<V> {
    if key in m then Some(m[key]) else None
  }

  function Store<V>(m: map<Str, V>, key: Str, v: Option<V>): map<Str, V> {
    if v.Some? then m[key := v.value] else m - {key}
  }

  function At(db: Db, key: Str): Slot {
    Slot(Lookup(db.kv, key), Lookup(db.lists, key), Lookup(db.hashes, key), Lookup(db.meta, key))
  }

  function Put(db: Db, key: Str, s: Slot): Db {
    Db(Store(db.kv, key, s.str), Store(db.lists, key, s.list), Store(db.hashes, key, s.hash),
       Store(db.meta, key, s.stats))
  }

  lemma PutAt(db: Db, key: Str, s: Slot)
    ensures forall k :: At(Put(db, key, s), k) == if k == key then s else At(db, k)
  {
  }

  lemma SameSlots(a: Db, b: Db)
    requires forall k :: At(a, k) == At(b, k)
    ensures a == b
  {
    forall k
      ensures k in a.kv <==> k in b.kv
      ensures k in a.lists <==> k in b.lists
      ensures k in a.hashes <==> k in b.hashes
      ensures k in a.meta <==> k in b.meta
      ensures k in a.kv ==> a.kv[k] == b.kv[k]
      ensures k in a.lists ==> a.lists[k] == b.lists[k]
      ensures k in a.hashes ==> a.hashes[k] == b.hashes[k]
      ensures k in a.meta ==> a.meta[k] == b.meta[k]
    {
      assert At(a, k) == At(b, k);
    }
    assert a.kv == b.kv && a.lists == b.lists && a.hashes == b.hashes && a.meta == b.meta;
  }

  // ----- slots -----

  predicate HasData(s: Slot) {
    s.str.Some? || s.list.Some? || s.hash.Some?
  }

  predicate SlotExpired(s: Slot, now: int) {
    s.stats.Some? && Expired(s.stats.value, now)
  }

  /** delInternal: the metadata goes only if there was data to go. */
  function Erased(s: Slot): Slot {
    if HasData(s) then EMPTY_SLOT else s
  }

  function StatsOr(s: Slot, now: int): Stats {
    if s.stats.Some? then s.stats.value else NewStats(now)
  }

  /** recordAccess */
  function Touched(s: Slot, now: int): Slot {
    s.(stats := Some(Touch(StatsOr(s, now), now)))
  }

  /** setTTL */
  function Timed(s: Slot, ttl: real, now: int): Slot {
    s.(stats := Some(WithTtl(StatsOr(s, now), ttl, now)))
  }

  // ----- commands -----

  datatype Op =
    | Set(value: Str, ttl: real)
    | Get
    | Type
    | Del
    | Expire(seconds: int)
    | LGet
    | LLen
    | LPush(value: Str)
    | RPush(value: Str)
    | RPop
    | LPop
    | LRem(count: int, value: Str)
    | LIndex(index: int)
    | LSet(index: int, value: Str)
    | HSet(field: Str, value: Str)
    | HGet(field: Str)
    | HExists(field: Str)
    | HDel(field: Str)
    | HGetAll
    | HLen
    | HMSet(pairs: seq<(Str, Str)>)

  /** HKEYS and HVALS list the two sides of what HGETALL returns. */
  datatype Cmd = On(key: Str, op: Op) | Keys | FlushAll | Rename(from: Str, to: Str)

  datatype Kind = KindNone | KindString | KindList | KindHash

  datatype Reply =
    | Done
    | Flag(ok: bool)
    | Value(value: Option<Str>)
    | TypeIs(kind: Kind)
    | Items(items: seq<Str>)
    | Count(n: int)
    | Fields(fields: Hash)
    | Names(names: set<Str>)

  function ListOr(s: Slot): seq<Str> {
    if s.list.Some? then s.list.value else []
  }

  function HashOr(s: Slot): Hash {
    if s.hash.Some? then s.hash.value else map[]
  }

  function WithPairs(h: Hash, pairs: seq<(Str, Str)>): Hash
    decreases |pairs|
  {
    if pairs == [] then h else WithPairs(h[pairs[0].0 := pairs[0].1], pairs[1..])
  }

  /** A negative index counts from the end. */
  function Position(index: int, size: nat): int {
    if index < 0 then size + index else index
  }

  function KindOf(s: Slot): Kind {
    if s.str.Some? then KindString
    else if s.list.Some? then KindList
    else if s.hash.Some? then KindHash
    else KindNone
  }

  /** The early return on an expired key: it is deleted and looks missing. */
  function Missing(op: Op): Reply {
    match op
    case Get | RPop | LPop | LIndex(_) | HGet(_) => Value(None)
    case Type => TypeIs(KindNone)
    case LGet => Items([])
    case LLen | LRem(_, _) | HLen => Count(0)
    case LSet(_, _) | HExists(_) | HDel(_) => Flag(false)
    case HGetAll => Fields(map[])
    case _ => Done
  }

  /** Writes that create the key if need be, and may push out another. */
  predicate Creates(op: Op) {
    op.Set? || op.LPush? || op.RPush? || op.HSet? || op.HMSet?
  }

  function Create(op: Op, s: Slot, now: int): Slot
    requires Creates(op)
  {
    match op
    case Set(v, ttl) => Timed(Touched(s.(str := Some(v)), now), if ttl > 0.0 then ttl else 0.0, now)
    case LPush(v) => Touched(s.(list := Some([v] + ListOr(s))), now)
    case RPush(v) => Touched(s.(list := Some(ListOr(s) + [v])), now)
    case HSet(f, v) => Touched(s.(hash := Some(HashOr(s)[f := v])), now)
    case HMSet(pairs) => Touched(if pairs == [] then s else s.(hash := Some(WithPairs(HashOr(s), pairs))), now)
  }

  /** A list or a hash that runs empty takes the whole key with it. */
  function WithList(s: Slot, lst: seq<Str>): Slot {
    if lst == [] then EMPTY_SLOT else s.(list := Some(lst))
  }

  function WithHash(s: Slot, h: Hash): Slot {
    if h == map[] then EMPTY_SLOT else s.(hash := Some(h))
  }

  /** Commands on the list of a key that is not expired. */
  function OnList(op: Op, s: Slot, now: int): (Slot, Reply)
    requires op.LGet? || op.LLen? || op.RPop? || op.LPop? || op.LRem? || op.LIndex? || op.LSet?
  {
    if s.list.None? then (s, Missing(op))
    else
      var lst, t := s.list.value, Touched(s, now);
      match op
      case LGet => (t, Items(lst))
      case LLen => (t, Count(|lst|))
      case RPop => if lst == [] then (s, Value(None)) else (WithList(t, lst[..|lst| - 1]), Value(Some(lst[|lst| - 1])))
      case LPop => if lst == [] then (s, Value(None)) else (WithList(t, lst[1..]), Value(Some(lst[0])))
      case LRem(count, v) =>
        var lst' := ListSurgery.Removed(lst, count, v);
        var removed := ListSurgery.Occurrences(lst, v) - ListSurgery.Occurrences(lst', v);
        (if removed > 0 then WithList(t, lst') else s, Count(removed))
      case LIndex(index) =>
        var i := Position(index, |lst|);
        if 0 <= i < |lst| then (t, Value(Some(lst[i]))) else (s, Value(None))
      case LSet(index, v) =>
        var i := Position(index, |lst|);
        if 0 <= i < |lst| then (t.(list := Some(lst[i := v])), Flag(true)) else (s, Flag(false))
  }

  /** Commands on the hash of a key that is not expired. */
  function OnHash(op: Op, s: Slot, now: int): (Slot, Reply)
    requires op.HGet? || op.HExists? || op.HDel? || op.HGetAll? || op.HLen?
  {
    if s.hash.None? then (s, Missing(op))
    else
      var h, t := s.hash.value, Touched(s, now);
      match op
      case HGet(f) => if f in h then (t, Value(Some(h[f]))) else (s, Value(None))
      case HExists(f) => (t, Flag(f in h))
      case HDel(f) => (WithHash(t, h - {f}), Flag(f in h))
      case HGetAll => (t, Fields(h))
      case HLen => (t, Count(|h|))
  }

  /** Every command on a single key: the slot after it, and the reply. */
  function SlotStep(op: Op, s: Slot, now: int): (Slot, Reply) {
    if Creates(op) then
      (Create(op, if SlotExpired(s, now) then Erased(s) else s, now),
       if op.HSet? || op.HMSet? then Flag(true) else Done)
    else if op.Del? then (Erased(s), Flag(HasData(s)))
    else if op.Expire? then
      if s.stats.None? && !HasData(s) then (s, Flag(false))
      else if op.seconds > 0 then (Touched(Timed(s, op.seconds as real, now), now), Flag(true))
      else (Erased(Timed(s, 0.0, now)), Flag(true))
    else if SlotExpired(s, now) then (Erased(s), Missing(op))
    else if op.Get? then
      if s.str.Some? then (Touched(s, now), Value(s.str)) else (s, Value(None))
    else if op.Type? then
      (if s.stats.Some? || HasData(s) then Touched(s, now) else s, TypeIs(KindOf(s)))
    else if op.HGet? || op.HExists? || op.HDel? || op.HGetAll? || op.HLen? then OnHash(op, s, now)
    else OnList(op, s, now)
  }

  // ----- commands on the whole database -----

  function DataKeys(db: Db): set<Str> {
    db.kv.Keys + db.lists.Keys + db.hashes.Keys
  }

  /** The keys KEYS finds expired. */
  function Doomed(db: Db, now: int): set<Str> {
    set k | k in DataKeys(db) && SlotExpired(At(db, k), now)
  }

  /** KEYS deletes the expired keys and counts as an access to all the others. */
  function AfterKeys(db: Db, now: int): Db {
    var gone := Doomed(db, now);
    Db(db.kv - gone, db.lists - gone, db.hashes - gone,
       map k | k in db.meta.Keys + DataKeys(db) && k !in gone ::
         if k in DataKeys(db) then Touch(StatsOr(At(db, k), now), now) else db.meta[k])
  }

  /** The same, seen from one key. */
  function KeysSlot(s: Slot, now: int): Slot {
    if !HasData(s) then s else if SlotExpired(s, now) then EMPTY_SLOT else Touched(s, now)
  }

  /** The slot a rename leaves at the target: the source's, with the access that renaming is. */
  function Moved(target: Slot, source: Slot, now: int): Slot {
    var first := Touch(StatsOr(target, now), now);
    var stats := if source.stats.Some? && source.stats.value.accessCount > 0 then source.stats.value else first;
    Slot(source.str, source.list, source.hash, Some(Touch(stats, now)))
  }

  /** An existing target is deleted before the source is looked for. */
  function AfterRename(db: Db, from: Str, to: Str, now: int): (Db, bool) {
    if SlotExpired(At(db, from), now) then (Put(db, from, Erased(At(db, from))), false)
    else
      var cleared := Put(db, to, Erased(At(db, to)));
      var source := At(cleared, from);
      var taken := Put(cleared, from, EMPTY_SLOT);
      if HasData(source) then (Put(taken, to, Moved(At(taken, to), source, now)), true) else (taken, false)
  }

  /** The state after a command, before a write looks for a key to evict. */
  function After(db: Db, cmd: Cmd, now: int): Db {
    match cmd
    case On(key, op) => Put(db, key, SlotStep(op, At(db, key), now).0)
    case Keys => AfterKeys(db, now)
    case FlushAll => EMPTY_DB
    case Rename(from, to) => AfterRename(db, from, to, now).0
  }

  function Answer(db: Db, cmd: Cmd, now: int): Reply {
    match cmd
    case On(key, op) => SlotStep(op, At(db, key), now).1
    case Keys => Names(DataKeys(db) - Doomed(db, now))
    case FlushAll => Flag(true)
    case Rename(from, to) => Flag(AfterRename(db, from, to, now).1)
  }

  // ----- eviction -----

  const MAX_CACHE_SIZE: nat := 10000

  datatype Config = Config(policy: Policy, limit: nat)

  /** The sizes of the three stores added up, as getTotalKeyCount does. */
  function KeyCount(db: Db): nat {
    |db.kv| + |db.lists| + |db.hashes|
  }

  /** delInternal */
  function Drop(db: Db, key: Str): Db {
    Put(db, key, Erased(At(db, key)))
  }

  /** Without a candidate, the first key of the first store that has any. */
  predicate Fallback(db: Db, key: Str) {
    if db.kv != map[] then key in db.kv
    else if db.lists != map[] then key in db.lists
    else key in db.hashes
  }

  /** The keys an overfull database may evict; the empty string stands for "no candidate". */
  ghost predicate Victim(cfg: Config, db: Db, now: int, key: Str) {
    || (key != [] && Candidate(cfg.policy, db.meta, now, key))
    || ((db.meta == map[] || Candidate(cfg.policy, db.meta, now, [])) && Fallback(db, key))
  }

  predicate Evicting(cfg: Config, cmd: Cmd, db: Db) {
    cmd.On? && Creates(cmd.op) && KeyCount(db) > cfg.limit
  }

  // ----- runs -----

  /** One command, when it ran, and the key it evicted, if any. */
  datatype Event = Event(cmd: Cmd, now: int, victim: Option<Str>)

  function Next(db: Db, e: Event): Db {
    var mid := After(db, e.cmd, e.now);
    if e.victim.Some? then Drop(mid, e.victim.value) else mid
  }

  ghost predicate Allowed(cfg: Config, db: Db, e: Event) {
    var mid := After(db, e.cmd, e.now);
    if Evicting(cfg, e.cmd, mid) then e.victim.Some? && Victim(cfg, mid, e.now, e.victim.value)
    else e.victim.None?
  }

  /** The handler of HMSET rejects a command without a field. */
  predicate WellFormed(cmd: Cmd) {
    cmd.On? && cmd.op.HMSet? ==> cmd.op.pairs != []
  }

  ghost predicate Run(cfg: Config, db: Db, tr: seq<Event>, since: int)
    decreases |tr|
  {
    tr == [] ||
    (&& since <= tr[0].now && WellFormed(tr[0].cmd)
     && Allowed(cfg, db, tr[0]) && Run(cfg, Next(db, tr[0]), tr[1..], tr[0].now))
  }

  function Final(db: Db, tr: seq<Event>): Db
    decreases |tr|
  {
    if tr == [] then db else Final(Next(db, tr[0]), tr[1..])
  }

  function Answers(db: Db, tr: seq<Event>): seq<Reply>
    decreases |tr|
  {
    if tr == [] then [] else [Answer(db, tr[0].cmd, tr[0].now)] + Answers(Next(db, tr[0]), tr[1..])
  }

  /** When the last command ran. */
  function EndTime(tr: seq<Event>, since: int): int {
    if tr == [] then since else tr[|tr| - 1].now
  }
}
