/**
 What a client sees of a key, and how each command changes it: the three contents, as GET, LGET and
 HGETALL answer them, determine every other answer, and each write is given by what it does to them.
 */
module Observations {
  import opened Bytes
  import opened Scoring
  import opened Keyspace
  import opened KeyspaceInvariants
  import CommandLaws
  import ListSurgery

  /** The contents under a key, none of which an expired key shows. */
  datatype View = View(str: Option<Str>, list: seq<Str>, hash: Hash)

  const NOTHING: View := View(None, [], map[])

  function SlotView(s: Slot, now: int): View {
    if SlotExpired(s, now) then NOTHING
    else View(s.str, if s.list.Some? then s.list.value else [], if s.hash.Some? then s.hash.value else map[])
  }

  function Seen(db: Db, key: Str, now: int): View {
    SlotView(At(db, key), now)
  }

  // ----- reads -----

  /** The three reads that answer the contents. */
  lemma ContentsAnswered(db: Db, key: Str, now: int)
    ensures Answer(db, On(key, Get), now) == Value(Seen(db, key, now).str)
    ensures Answer(db, On(key, LGet), now) == Items(Seen(db, key, now).list)
    ensures Answer(db, On(key, HGetAll), now) == Fields(Seen(db, key, now).hash)
  {
    hide At, SlotExpired;
  }

  lemma SizesAnswered(db: Db, key: Str, now: int)
    ensures Answer(db, On(key, LLen), now) == Count(|Seen(db, key, now).list|)
    ensures Answer(db, On(key, HLen), now) == Count(|Seen(db, key, now).hash|)
  {
    hide At, SlotExpired;
  }

  /** LINDEX counts from 0 at the head, and from -1 at the tail. */
  lemma IndexAnswered(db: Db, key: Str, i: int, now: int)
    ensures var lst := Seen(db, key, now).list;
            Answer(db, On(key, LIndex(i)), now)
            == if 0 <= i < |lst| then Value(Some(lst[i]))
               else if -|lst| <= i < 0 then Value(Some(lst[|lst| + i]))
               else Value(None)
  {
    hide At, SlotExpired;
    hide ListSurgery.Removed, ListSurgery.Occurrences;
  }

  lemma FieldAnswered(db: Db, key: Str, f: Str, now: int)
    ensures var h := Seen(db, key, now).hash;
            && Answer(db, On(key, HGet(f)), now) == Value(if f in h then Some(h[f]) else None)
            && Answer(db, On(key, HExists(f)), now) == Flag(f in h)
  {
    hide At, SlotExpired;
    hide ListSurgery.Removed, ListSurgery.Occurrences;
  }

  /** TYPE names the first kind of content there is: string, then list, then hash. */
  lemma TypeAnswered(db: Db, key: Str, now: int)
    requires Agrees(db)
    ensures var v := Seen(db, key, now);
            Answer(db, On(key, Type), now)
            == TypeIs(if v.str.Some? then KindString
                      else if v.list != [] then KindList
                      else if v.hash != map[] then KindHash
                      else KindNone)
  {
    hide Expired;
    assert SlotOk(At(db, key));
  }

  predicate Reads(op: Op) {
    op.Get? || op.Type? || op.LGet? || op.LLen? || op.LIndex? || op.HGet? || op.HExists? || op.HGetAll? || op.HLen?
  }

  /** A read changes nothing that can be seen. */
  lemma ReadsChangeNothing(db: Db, key: Str, op: Op, now: int)
    requires Reads(op)
    ensures Seen(After(db, On(key, op), now), key, now) == Seen(db, key, now)
  {
    hide At, Put, After, Expired;
    CommandLaws.SlotAfter(db, key, op, now);
    CommandLaws.TouchKeepsExpiry(At(db, key), now);
  }

  /** Any command but a creating write and EXPIRE deletes an expired key. */
  lemma ExpiredIsDeleted(db: Db, key: Str, op: Op, now: int)
    requires Agrees(db) && SlotExpired(At(db, key), now)
    requires !Creates(op) && !op.Expire?
    ensures At(After(db, On(key, op), now), key) == EMPTY_SLOT
  {
    hide At, Put, After, Expired;
    assert SlotOk(At(db, key));
    CommandLaws.SlotAfter(db, key, op, now);
  }

  // ----- strings, TTLs, deletion -----

  /** SET stores the string, and neither its list nor its hash changes. */
  lemma SetSeen(db: Db, key: Str, v: Str, ttl: real, now: int)
    requires SlotOk(At(db, key))
    ensures Seen(After(db, On(key, Set(v, ttl)), now), key, now) == Seen(db, key, now).(str := Some(v))
    ensures Answer(db, On(key, Set(v, ttl)), now) == Done
  {
    hide At, Put, After, Expired;
    CommandLaws.SlotAfter(db, key, Set(v, ttl), now);
    ExpiredExactly(At(After(db, On(key, Set(v, ttl)), now), key).stats.value, now);
  }

  /** DEL deletes whatever there is, expired or not, and says whether there was anything. */
  lemma DelSeen(db: Db, key: Str, now: int)
    requires Agrees(db)
    ensures At(After(db, On(key, Del), now), key) == EMPTY_SLOT
    ensures Answer(db, On(key, Del), now) == Flag(key in db.kv || key in db.lists || key in db.hashes)
  {
    assert SlotOk(At(db, key));
    hide Put, SlotExpired;
    CommandLaws.SlotAfter(db, key, Del, now);
  }

  /** EXPIRE with no seconds left deletes the key at once; it is gone at every later moment. */
  lemma ExpireNow(db: Db, key: Str, seconds: int, now: int, later: int)
    requires Agrees(db) && seconds <= 0
    ensures At(After(db, On(key, Expire(seconds)), now), key) == EMPTY_SLOT
    ensures Seen(After(db, On(key, Expire(seconds)), now), key, later) == NOTHING
    ensures Answer(After(db, On(key, Expire(seconds)), now), On(key, Get), later) == Value(None)
    ensures Answer(db, On(key, Expire(seconds)), now) == Flag(HasData(At(db, key)))
  {
    hide At, Put, After, Expired;
    assert SlotOk(At(db, key));
    CommandLaws.SlotAfter(db, key, Expire(seconds), now);
  }

  /** EXPIRE with seconds left takes effect exactly on a key that holds something, an expired one included. */
  lemma ExpireLater(db: Db, key: Str, seconds: int, now: int)
    requires Agrees(db) && seconds > 0
    ensures Answer(db, On(key, Expire(seconds)), now) == Flag(HasData(At(db, key)))
    ensures var s, t := At(db, key), At(After(db, On(key, Expire(seconds)), now), key);
            if HasData(s) then t == s.(stats := Some(Stats(s.stats.value.accessCount + 1, now, seconds as real, now)))
            else t == s == EMPTY_SLOT
  {
    hide At, Put, After, Expired;
    assert SlotOk(At(db, key));
    CommandLaws.SlotAfter(db, key, Expire(seconds), now);
  }

  /** FLUSHALL deletes everything. */
  lemma FlushAllSeen(db: Db, now: int)
    ensures After(db, FlushAll, now) == Db(map[], map[], map[], map[])
    ensures Answer(db, FlushAll, now) == Flag(true)
  {
  }

  // ----- lists -----

  lemma PushSeen(db: Db, key: Str, v: Str, now: int)
    requires SlotOk(At(db, key))
    ensures var was := Seen(db, key, now);
            && Seen(After(db, On(key, LPush(v)), now), key, now) == was.(list := [v] + was.list)
            && Seen(After(db, On(key, RPush(v)), now), key, now) == was.(list := was.list + [v])
    ensures Answer(db, On(key, LPush(v)), now) == Done == Answer(db, On(key, RPush(v)), now)
  {
    hide At, Put, After, Expired;
    CommandLaws.SlotAfter(db, key, LPush(v), now);
    CommandLaws.SlotAfter(db, key, RPush(v), now);
    CommandLaws.PushedAlive(LPush(v), At(db, key), now);
    CommandLaws.PushedAlive(RPush(v), At(db, key), now);
  }

  /** What is left under a key when its list becomes lst: nothing at all if lst is empty. */
  function ListLeft(was: View, lst: seq<Str>): View {
    if lst == [] then NOTHING else was.(list := lst)
  }

  /** LPOP takes the head, RPOP the last element; from no list they take nothing. */
  lemma PopSeen(db: Db, key: Str, now: int)
    ensures var was := Seen(db, key, now);
            var n := |was.list|;
            if n == 0 then
              && Answer(db, On(key, LPop), now) == Value(None) == Answer(db, On(key, RPop), now)
              && Seen(After(db, On(key, LPop), now), key, now) == was
              && Seen(After(db, On(key, RPop), now), key, now) == was
            else
              && Answer(db, On(key, LPop), now) == Value(Some(was.list[0]))
              && Answer(db, On(key, RPop), now) == Value(Some(was.list[n - 1]))
              && Seen(After(db, On(key, LPop), now), key, now) == ListLeft(was, was.list[1..])
              && Seen(After(db, On(key, RPop), now), key, now) == ListLeft(was, was.list[..n - 1])
  {
    hide At, Put, After, Expired;
    CommandLaws.SlotAfter(db, key, LPop, now);
    CommandLaws.SlotAfter(db, key, RPop, now);
    CommandLaws.TouchKeepsExpiry(At(db, key), now);
  }

  /** LSET replaces the element that LINDEX answers at the same index, and fails where there is none. */
  lemma LSetSeen(db: Db, key: Str, i: int, v: Str, now: int)
    ensures var was := Seen(db, key, now);
            var n := |was.list|;
            var now' := Seen(After(db, On(key, LSet(i, v)), now), key, now);
            && Answer(db, On(key, LSet(i, v)), now) == Flag(-n <= i < n)
            && now' == if 0 <= i < n then was.(list := was.list[i := v])
                       else if -n <= i < 0 then was.(list := was.list[n + i := v])
                       else was
  {
    hide At, Put, After, Expired;
    CommandLaws.SlotAfter(db, key, LSet(i, v), now);
    CommandLaws.TouchKeepsExpiry(At(db, key), now);
  }

  /** LREM in terms of what its mode makes of the list: the reply is the drop in length. */
  lemma LRemSeen(db: Db, key: Str, count: int, v: Str, now: int)
    requires SlotOk(At(db, key))
    ensures var was := Seen(db, key, now);
            var lst := ListSurgery.Removed(was.list, count, v);
            && Answer(db, On(key, LRem(count, v)), now) == Count(|was.list| - |lst|)
            && Seen(After(db, On(key, LRem(count, v)), now), key, now)
               == if was.list == [] then was else ListLeft(was, lst)
  {
    hide At, Put, After, Expired, ListSurgery.Removed, ListSurgery.Occurrences;
    CommandLaws.SlotAfter(db, key, LRem(count, v), now);
    CommandLaws.TouchKeepsExpiry(At(db, key), now);
    var s := At(db, key);
    if s.list.Some? {
      LengthDrop(s.list.value, count, v);
      if ListSurgery.Occurrences(s.list.value, v)
         == ListSurgery.Occurrences(ListSurgery.Removed(s.list.value, count, v), v) {
        ListSurgery.NothingToRemove(s.list.value, count, v);
      }
    }
    NothingFromNothing(count, v);
  }

  lemma NothingFromNothing(count: int, v: Str)
    ensures ListSurgery.Removed([], count, v) == []
  {
  }

  lemma LengthDrop(lst: seq<Str>, count: int, v: Str)
    ensures var lst' := ListSurgery.Removed(lst, count, v);
            |lst| - |lst'| == ListSurgery.Occurrences(lst, v) - ListSurgery.Occurrences(lst', v) >= 0
  {
    hide ListSurgery.Removed, ListSurgery.Occurrences, ListSurgery.Without;
    ListSurgery.RemovedConserves(lst, count, v);
    SplitLength(lst, v);
    SplitLength(ListSurgery.Removed(lst, count, v), v);
  }

  lemma {:induction false} SplitLength(lst: seq<Str>, v: Str)
    ensures |lst| == ListSurgery.Occurrences(lst, v) + |ListSurgery.Without(lst, v)|
  {
    if lst != [] {
      SplitLength(lst[1..], v);
    }
  }

  /** LREM with a positive count removes the first matches, up to a cut; from there on the list stays. */
  lemma LRemHead(db: Db, key: Str, count: int, v: Str, now: int) returns (cut: nat)
    requires SlotOk(At(db, key)) && count > 0
    ensures var was := Seen(db, key, now);
            && cut <= |was.list|
            && var k := ListSurgery.Occurrences(was.list[..cut], v);
            && k == ListSurgery.Min(count, ListSurgery.Occurrences(was.list, v))
            && Answer(db, On(key, LRem(count, v)), now) == Count(k)
            && Seen(After(db, On(key, LRem(count, v)), now), key, now).list
               == ListSurgery.Without(was.list[..cut], v) + was.list[cut..]
  {
    hide At, Put, After, Answer, Expired, ListSurgery.Occurrences, ListSurgery.Without, ListSurgery.RemoveFirst;
    var lst := Seen(db, key, now).list;
    LRemSeen(db, key, count, v, now);
    cut := ListSurgery.RemoveFirstCut(lst, v, count);
    SplitLength(lst[..cut], v);
  }

  /** With a negative count it removes the last matches, from a cut on; up to there the list stays. */
  lemma LRemTail(db: Db, key: Str, count: int, v: Str, now: int) returns (cut: nat)
    requires SlotOk(At(db, key)) && count < 0
    ensures var was := Seen(db, key, now);
            && cut <= |was.list|
            && var k := ListSurgery.Occurrences(was.list[cut..], v);
            && k == ListSurgery.Min(-count, ListSurgery.Occurrences(was.list, v))
            && Answer(db, On(key, LRem(count, v)), now) == Count(k)
            && Seen(After(db, On(key, LRem(count, v)), now), key, now).list
               == was.list[..cut] + ListSurgery.Without(was.list[cut..], v)
  {
    hide At, Put, After, Answer, Expired, ListSurgery.Occurrences, ListSurgery.Without, ListSurgery.RemoveLast;
    var lst := Seen(db, key, now).list;
    LRemSeen(db, key, count, v, now);
    cut := ListSurgery.RemoveLastCut(lst, v, -count);
    SplitLength(lst[cut..], v);
  }

  /** With count zero it removes every match. */
  lemma LRemAll(db: Db, key: Str, v: Str, now: int)
    requires SlotOk(At(db, key))
    ensures var was := Seen(db, key, now);
            && Answer(db, On(key, LRem(0, v)), now) == Count(ListSurgery.Occurrences(was.list, v))
            && Seen(After(db, On(key, LRem(0, v)), now), key, now).list == ListSurgery.Without(was.list, v)
            && v !in ListSurgery.Without(was.list, v)
  {
    hide At, Put, After, Answer, Expired, ListSurgery.Occurrences, ListSurgery.Without;
    var lst := Seen(db, key, now).list;
    LRemSeen(db, key, 0, v, now);
    SplitLength(lst, v);
    WithoutHasNone(lst, v);
  }

  lemma {:induction false} WithoutHasNone(lst: seq<Str>, v: Str)
    ensures v !in ListSurgery.Without(lst, v)
  {
    if lst != [] {
      WithoutHasNone(lst[1..], v);
    }
  }

  // ----- hashes -----

  lemma HSetSeen(db: Db, key: Str, f: Str, v: Str, now: int)
    requires SlotOk(At(db, key))
    ensures var was := Seen(db, key, now);
            Seen(After(db, On(key, HSet(f, v)), now), key, now) == was.(hash := was.hash[f := v])
    ensures Answer(db, On(key, HSet(f, v)), now) == Flag(true)
  {
    hide At, Put, After, Expired;
    CommandLaws.SlotAfter(db, key, HSet(f, v), now);
    CommandLaws.PushedAlive(HSet(f, v), At(db, key), now);
  }

  /** HMSET sets each of its fields to its last value, and leaves the other fields and contents alone. */
  lemma HMSetSeen(db: Db, key: Str, pairs: seq<(Str, Str)>, g: Str, now: int)
    requires SlotOk(At(db, key)) && pairs != []
    ensures var was, after := Seen(db, key, now), Seen(After(db, On(key, HMSet(pairs)), now), key, now);
            && after == was.(hash := after.hash)
            && Lookup(after.hash, g)
               == if CommandLaws.Assigned(pairs, g).Some? then CommandLaws.Assigned(pairs, g) else Lookup(was.hash, g)
    ensures Answer(db, On(key, HMSet(pairs)), now) == Flag(true)
  {
    hide At, Put, After, Expired, WithPairs, CommandLaws.Assigned;
    CommandLaws.SlotAfter(db, key, HMSet(pairs), now);
    CommandLaws.PushedAlive(HMSet(pairs), At(db, key), now);
    CommandLaws.WithPairsLookup(Seen(db, key, now).hash, pairs, g);
  }

  /** HMSET is its pairs set one after the other, as HSET would. */
  lemma HMSetIsHSets(db: Db, key: Str, pairs: seq<(Str, Str)>, f: Str, v: Str, now: int)
    requires SlotOk(At(db, key)) && pairs != []
    ensures var first := After(db, On(key, HMSet(pairs)), now);
            Seen(After(db, On(key, HMSet(pairs + [(f, v)])), now), key, now)
            == Seen(After(first, On(key, HSet(f, v)), now), key, now)
  {
    hide At, Put, After, Expired, WithPairs;
    var all, first := pairs + [(f, v)], After(db, On(key, HMSet(pairs)), now);
    CommandLaws.SlotAfter(db, key, HMSet(all), now);
    CommandLaws.SlotAfter(db, key, HMSet(pairs), now);
    CommandLaws.PushedAlive(HMSet(all), At(db, key), now);
    CommandLaws.PushedAlive(HMSet(pairs), At(db, key), now);
    SlotStepOk(HMSet(pairs), At(db, key), now);
    HSetSeen(first, key, f, v, now);
    CommandLaws.WithPairsSnoc(Seen(db, key, now).hash, pairs, (f, v));
  }

  lemma LastField(h: Hash, f: Str)
    requires h != map[]
    ensures h - {f} == map[] <==> h.Keys == {f}
  {
    assert (h - {f}).Keys == h.Keys - {f};
    assert h.Keys != {};
    if h - {f} == map[] {
      assert h.Keys - {f} == {};
    }
  }

  /** HDEL takes out the field and says whether it was there. */
  lemma HDelSeen(db: Db, key: Str, f: Str, now: int)
    requires SlotOk(At(db, key))
    ensures var was := Seen(db, key, now);
            && Answer(db, On(key, HDel(f)), now) == Flag(f in was.hash)
            && Seen(After(db, On(key, HDel(f)), now), key, now)
               == if was.hash == map[] then was
                  else if was.hash.Keys == {f} then NOTHING
                  else was.(hash := was.hash - {f})
  {
    hide At, Put, After, Expired;
    CommandLaws.SlotAfter(db, key, HDel(f), now);
    CommandLaws.TouchKeepsExpiry(At(db, key), now);
    var s := At(db, key);
    if s.hash.Some? {
      LastField(s.hash.value, f);
    }
  }
}
