/**
 What the commands on one key mean to each other: what a write puts in is what a later read gives
 back, a pop undoes a push, and nothing else under the key is disturbed.
 */
module CommandLaws {
  import opened Bytes
  import opened Scoring
  import opened Keyspace
  import opened Pushes
  import opened KeyspaceInvariants
  import ListSurgery

  lemma SlotAfter(db: Db, key: Str, op: Op, now: int)
    ensures At(After(db, On(key, op), now), key) == SlotStep(op, At(db, key), now).0
  {
    hide At, Put, SlotStep;
    PutAt(db, key, SlotStep(op, At(db, key), now).0);
  }

  /** GET after SET: the value until the deadline, and nothing from then on. */
  lemma SetThenGet(db: Db, key: Str, v: Str, ttl: real, t: int, now: int)
    ensures Answer(After(db, On(key, Set(v, ttl)), t), On(key, Get), now)
         == Value(if ttl <= 0.0 || now < t - (-ttl).Floor * TICKS_PER_SECOND then Some(v) else None)
  {
    hide At, Put, After, Expired;
    SlotAfter(db, key, Set(v, ttl), t);
    var s := At(After(db, On(key, Set(v, ttl)), t), key);
    ExpiredExactly(s.stats.value, now);
  }

  /** The list a command sees: none of an expired key's elements. */
  function LiveList(db: Db, key: Str, now: int): seq<Str> {
    if SlotExpired(At(db, key), now) then [] else ListAt(db, key)
  }

  function PopOp(end: End): Op {
    match end
    case Front => LPop
    case Back => RPop
  }

  /** A push extends the list at its end, with fresh life for an expired key. */
  lemma PushedSlot(end: End, db: Db, key: Str, v: Str, now: int)
    requires SlotOk(At(db, key))
    ensures var s := At(After(db, On(key, PushOp(end, v)), now), key);
            && s.list == Some(Grown(end, LiveList(db, key, now), [v]))
            && !SlotExpired(s, now)
  {
    hide At, Put, After, Expired, Grown;
    hide ListSurgery.Removed, ListSurgery.Occurrences;
    SlotAfter(db, key, PushOp(end, v), now);
    PushedAlive(PushOp(end, v), At(db, key), now);
    GrownByOne(end, LiveList(db, key, now), v);
  }

  lemma PoppedSlot(end: End, s: Slot, lst: seq<Str>, v: Str, now: int)
    requires s.list == Some(if end == Front then [v] + lst else lst + [v]) && !SlotExpired(s, now)
    ensures SlotStep(PopOp(end), s, now).1 == Value(Some(v))
    ensures ListOr(SlotStep(PopOp(end), s, now).0) == lst
  {
    hide SlotExpired, ListSurgery.Removed, ListSurgery.Occurrences;
    assert (lst + [v])[..|lst|] == lst && ([v] + lst)[1..] == lst;
  }

  /** The pop at the end that a push extended gives the element and the old list back. */
  lemma PopUndoesPush(end: End, db: Db, key: Str, v: Str, now: int)
    requires SlotOk(At(db, key))
    ensures var pushed := After(db, On(key, PushOp(end, v)), now);
            && ListAt(pushed, key) == Grown(end, LiveList(db, key, now), [v])
            && Answer(pushed, On(key, PopOp(end)), now) == Value(Some(v))
            && ListAt(After(pushed, On(key, PopOp(end)), now), key) == LiveList(db, key, now)
  {
    hide At, After, SlotStep, SlotExpired, Grown;
    var pushed := After(db, On(key, PushOp(end, v)), now);
    PushedSlot(end, db, key, v, now);
    GrownByOne(end, LiveList(db, key, now), v);
    PoppedSlot(end, At(pushed, key), LiveList(db, key, now), v, now);
    SlotAfter(pushed, key, PopOp(end), now);
  }

  lemma GrownByOne(end: End, lst: seq<Str>, v: Str)
    ensures Grown(end, lst, [v]) == if end == Front then [v] + lst else lst + [v]
  {
    assert ListSurgery.Reverse([v]) == [v];
  }

  lemma PushedAlive(op: Op, s: Slot, now: int)
    requires SlotOk(s)
    requires op.LPush? || op.RPush? || op.HSet? || op.HMSet?
    ensures !SlotExpired(SlotStep(op, s, now).0, now)
  {
  }

  /** LINDEX after LSET: the new element at the position set, the old ones everywhere else. */
  lemma LSetThenLIndex(db: Db, key: Str, i: int, v: Str, j: int, now: int)
    requires Answer(db, On(key, LSet(i, v)), now) == Flag(true)
    ensures var n := |ListAt(db, key)|;
            Answer(After(db, On(key, LSet(i, v)), now), On(key, LIndex(j)), now)
            == if Position(j, n) == Position(i, n) then Value(Some(v)) else Answer(db, On(key, LIndex(j)), now)
  {
    hide At, Put, After, Expired;
    SlotAfter(db, key, LSet(i, v), now);
    TouchKeepsExpiry(At(db, key), now);
  }

  /** HGET after HSET: the field set, the others untouched. */
  lemma HSetThenHGet(db: Db, key: Str, f: Str, v: Str, g: Str, now: int)
    requires SlotOk(At(db, key))
    ensures Answer(After(db, On(key, HSet(f, v)), now), On(key, HGet(g)), now)
         == if g == f then Value(Some(v)) else Answer(db, On(key, HGet(g)), now)
  {
    hide At, Put, After, Expired;
    SlotAfter(db, key, HSet(f, v), now);
    PushedAlive(HSet(f, v), At(db, key), now);
  }

  /** What HMSET assigns to a field: the last of its pairs wins. */
  function Assigned(pairs: seq<(Str, Str)>, g: Str): Option<Str> {
    if pairs == [] then None
    else if pairs[|pairs| - 1].0 == g then Some(pairs[|pairs| - 1].1)
    else Assigned(pairs[..|pairs| - 1], g)
  }

  lemma {:induction false} WithPairsSnoc(h: Hash, pairs: seq<(Str, Str)>, p: (Str, Str))
    ensures WithPairs(h, pairs + [p]) == WithPairs(h, pairs)[p.0 := p.1]
    decreases |pairs|
  {
    if pairs == [] {
      assert [p][1..] == [];
      assert [] + [p] == [p];
    } else {
      assert (pairs + [p])[1..] == pairs[1..] + [p];
      WithPairsSnoc(h[pairs[0].0 := pairs[0].1], pairs[1..], p);
    }
  }

  lemma {:induction false} WithPairsLookup(h: Hash, pairs: seq<(Str, Str)>, g: Str)
    ensures Lookup(WithPairs(h, pairs), g) == if Assigned(pairs, g).Some? then Assigned(pairs, g) else Lookup(h, g)
    decreases |pairs|
  {
    if pairs != [] {
      var front, last := pairs[..|pairs| - 1], pairs[|pairs| - 1];
      assert pairs == front + [last];
      WithPairsSnoc(h, front, last);
      WithPairsLookup(h, front, g);
    }
  }

  lemma HMSetThenHGet(db: Db, key: Str, pairs: seq<(Str, Str)>, g: Str, now: int)
    requires SlotOk(At(db, key))
    ensures Answer(After(db, On(key, HMSet(pairs)), now), On(key, HGet(g)), now)
         == if Assigned(pairs, g).Some? then Value(Assigned(pairs, g)) else Answer(db, On(key, HGet(g)), now)
  {
    hide At, Put, After, Expired, WithPairs, Assigned;
    SlotAfter(db, key, HMSet(pairs), now);
    PushedAlive(HMSet(pairs), At(db, key), now);
    var s := At(db, key);
    WithPairsLookup(HashOr(if SlotExpired(s, now) then Erased(s) else s), pairs, g);
    if pairs == [] {
      NothingAssigned(g);
    }
  }

  lemma NothingAssigned(g: Str)
    ensures Assigned([], g) == None
  {
  }

  /** HDEL takes out its field and no other. */
  lemma HDelThenHGet(db: Db, key: Str, f: Str, g: Str, now: int)
    requires SlotOk(At(db, key))
    ensures Answer(After(db, On(key, HDel(f)), now), On(key, HGet(g)), now)
         == if g == f then Value(None) else Answer(db, On(key, HGet(g)), now)
  {
    hide At, Put, After, Expired;
    SlotAfter(db, key, HDel(f), now);
    var s := At(db, key);
    TouchKeepsExpiry(s, now);
    if s.hash.Some? {
      assert g != f && g in s.hash.value ==> g in s.hash.value - {f};
    }
  }

  /**
   A list that runs empty takes the whole key with it: a string under the same key survives a pop
   exactly when the list has more than the one element.
   */
  lemma PopMayTakeTheString(end: End, db: Db, key: Str, v: Str, now: int)
    requires var s := At(db, key);
             s.str == Some(v) && s.list.Some? && s.list.value != [] && !SlotExpired(s, now)
    ensures Answer(After(db, On(key, PopOp(end)), now), On(key, Get), now)
         == Value(if |ListAt(db, key)| > 1 then Some(v) else None)
  {
    hide At, Put, After, Expired;
    SlotAfter(db, key, PopOp(end), now);
    TouchKeepsExpiry(At(db, key), now);
  }

  /** So with the last field of a hash: the string survives exactly when another field does. */
  lemma HDelMayTakeTheString(db: Db, key: Str, f: Str, v: Str, now: int)
    requires var s := At(db, key);
             s.str == Some(v) && s.hash.Some? && !SlotExpired(s, now)
    ensures Answer(After(db, On(key, HDel(f)), now), On(key, Get), now)
         == Value(if At(db, key).hash.value.Keys - {f} == {} then None else Some(v))
  {
    hide At, Put, After, Expired;
    SlotAfter(db, key, HDel(f), now);
    TouchKeepsExpiry(At(db, key), now);
    var h := At(db, key).hash.value;
    assert (h - {f}).Keys == h.Keys - {f};
  }

  lemma {:induction false} OccurrencesAll(s: seq<Str>, x: Str)
    ensures ListSurgery.Occurrences(s, x) == |s| <==> forall y <- s :: y == x
    ensures ListSurgery.Without(s, x) == [] <==> forall y <- s :: y == x
  {
    if s != [] {
      OccurrencesAll(s[1..], x);
      assert s[0] in s && forall y :: y in s <==> y == s[0] || y in s[1..];
    }
  }

  lemma AllRemoved(s: seq<Str>, count: int, x: Str)
    requires s != []
    ensures ListSurgery.Removed(s, count, x) == [] <==>
      (forall y <- s :: y == x) && (count == 0 || |s| <= if count > 0 then count else -count)
  {
    hide ListSurgery.Removed, ListSurgery.Occurrences, ListSurgery.Without;
    var rest := ListSurgery.Removed(s, count, x);
    ListSurgery.RemovedConserves(s, count, x);
    OccurrencesAll(s, x);
    OccurrencesAll(rest, x);
    OccurrencesAll([], x);
  }

  /** And with LREM: the string survives exactly when some element is left. */
  lemma LRemMayTakeTheString(db: Db, key: Str, count: int, x: Str, v: Str, now: int)
    requires var s := At(db, key);
             s.str == Some(v) && s.list.Some? && s.list.value != [] && !SlotExpired(s, now)
    ensures Answer(After(db, On(key, LRem(count, x)), now), On(key, Get), now)
         == Value(if ListSurgery.Removed(ListAt(db, key), count, x) == [] then None else Some(v))
    ensures ListSurgery.Removed(ListAt(db, key), count, x) == [] <==>
      && (forall y <- ListAt(db, key) :: y == x)
      && (count == 0 || |ListAt(db, key)| <= if count > 0 then count else -count)
  {
    hide At, Put, After, Expired, ListSurgery.Removed, ListSurgery.Occurrences;
    var lst := At(db, key).list.value;
    SlotAfter(db, key, LRem(count, x), now);
    TouchKeepsExpiry(At(db, key), now);
    AllRemoved(lst, count, x);
    OccurrencesAll([], x);
    OccurrencesAll(lst, x);
  }

  lemma TouchKeepsExpiry(s: Slot, now: int)
    ensures SlotExpired(Touched(s, now), now) ==> SlotExpired(s, now)
  {
  }
}
