/**
 Deadlines over whole runs: a key with a TTL is visible at every moment before its deadline and at
 none from the deadline on, whatever other commands run in between.
 */
module Deadlines {
  import opened Bytes
  import opened Scoring
  import opened ScoreLaws
  import opened Keyspace
  import opened KeyspaceInvariants
  import ListSurgery

  predicate Visible(db: Db, key: Str, now: int) {
    HasData(At(db, key)) && !SlotExpired(At(db, key), now)
  }

  /** Visible is what clients can see: TYPE finds the key, and KEYS lists it. */
  lemma VisibleToClients(db: Db, key: Str, now: int)
    ensures Visible(db, key, now) <==> Answer(db, On(key, Type), now) != TypeIs(KindNone)
    ensures Visible(db, key, now) <==> key in Answer(db, Keys, now).names
  {
  }

  /** The commands that set, clear or move a deadline, or delete the key outright. */
  predicate Resets(cmd: Cmd, key: Str) {
    match cmd
    case On(k, op) => k == key && (op.Set? || op.Expire? || op.Del?)
    case Rename(from, to) => from == key || to == key
    case FlushAll => true
    case Keys => false
  }

  /** The command takes the last element out of the key's list or hash. */
  predicate Empties(op: Op, s: Slot) {
    match op
    case RPop | LPop => s.list.Some? && |s.list.value| <= 1
    case LRem(count, v) => s.list.Some? && ListSurgery.Removed(s.list.value, count, v) == []
    case HDel(f) => s.hash.Some? && s.hash.value - {f} == map[]
    case _ => false
  }

  /** Nothing but time acts on the key's deadline, and nothing but expiry removes the key. */
  predicate Calm(db: Db, e: Event, key: Str) {
    && !Resets(e.cmd, key)
    && !(e.cmd.On? && e.cmd.key == key && Empties(e.cmd.op, At(db, key)))
    && e.victim != Some(key)
  }

  /** Calm throughout, and not created anew by a write from the deadline on. */
  predicate AllCalm(db: Db, tr: seq<Event>, key: Str, deadline: int)
    decreases |tr|
  {
    tr == [] ||
    (&& Calm(db, tr[0], key)
     && !(tr[0].now >= deadline && tr[0].cmd.On? && tr[0].cmd.key == key && Creates(tr[0].cmd.op))
     && AllCalm(Next(db, tr[0]), tr[1..], key, deadline))
  }

  predicate Armed(s: Slot, ttl: real, setTime: int) {
    HasData(s) && s.stats.Some? && s.stats.value.ttl == ttl && s.stats.value.ttlSetTime == setTime
  }

  lemma ArmedSlotStep(op: Op, s: Slot, now: int, ttl: real, setTime: int)
    requires Armed(s, ttl, setTime) && !SlotExpired(s, now)
    requires !op.Set? && !op.Expire? && !op.Del? && !Empties(op, s)
    ensures Armed(SlotStep(op, s, now).0, ttl, setTime)
  {
    hide ListSurgery.Removed, ListSurgery.Occurrences, SlotExpired;
  }

  lemma ExpiredSlotStep(op: Op, s: Slot, now: int)
    requires (SlotExpired(s, now) && HasData(s)) || s == EMPTY_SLOT
    requires !Creates(op) && !op.Expire? && !op.Del?
    ensures SlotStep(op, s, now).0 == EMPTY_SLOT
  {
  }

  lemma CalmNext(db: Db, e: Event, key: Str, ttl: real, setTime: int)
    requires Calm(db, e, key)
    ensures Armed(At(db, key), ttl, setTime) && !SlotExpired(At(db, key), e.now) ==>
      Armed(At(Next(db, e), key), ttl, setTime)
    ensures (Armed(At(db, key), ttl, setTime) && SlotExpired(At(db, key), e.now)) || At(db, key) == EMPTY_SLOT ==>
      At(Next(db, e), key) == EMPTY_SLOT || Armed(At(Next(db, e), key), ttl, setTime)
      || (e.cmd.On? && e.cmd.key == key && Creates(e.cmd.op))
  {
    hide At, Put, SlotStep, AfterKeys, AfterRename, SlotExpired, Empties;
    var s := At(db, key);
    match e.cmd {
      case On(k, op) =>
        PutAt(db, k, SlotStep(op, At(db, k), e.now).0);
        if k == key {
          if Armed(s, ttl, setTime) && !SlotExpired(s, e.now) {
            ArmedSlotStep(op, s, e.now, ttl, setTime);
          } else if (Armed(s, ttl, setTime) || s == EMPTY_SLOT) && !Creates(op) {
            ExpiredSlotStep(op, s, e.now);
          }
        }
      case Keys => KeysAt(db, e.now);
      case FlushAll =>
      case Rename(from, to) => RenameAt(db, from, to, e.now);
    }
    if e.victim.Some? {
      var mid := After(db, e.cmd, e.now);
      PutAt(mid, e.victim.value, Erased(At(mid, e.victim.value)));
    }
  }

  /** While a key is armed, what is left of its TTL runs down from the whole of it, second by second. */
  lemma ArmedRunsDown(db: Db, key: Str, ttl: real, setTime: int, e: nat, now: int)
    requires Armed(At(db, key), ttl, setTime) && SecondsAfter(setTime, e, now)
    ensures key in db.meta
    ensures TtlRemaining(db.meta[key], now) == if e as real < ttl then ttl - e as real else 0.0
  {
    RemainingRunsDown(db.meta[key], e, now);
  }

  /** Up to the deadline the key stands, with its deadline unmoved; after it, at most its remains do. */
  predicate OnCourse(s: Slot, ttl: real, setTime: int, deadline: int, since: int) {
    Armed(s, ttl, setTime) || (s == EMPTY_SLOT && since >= deadline)
  }

  lemma ArmedExpires(s: Slot, ttl: real, setTime: int, now: int)
    requires Armed(s, ttl, setTime) && ttl > 0.0
    ensures SlotExpired(s, now) <==> now >= Deadline(s.stats.value)
    ensures Deadline(s.stats.value) == setTime - (-ttl).Floor * TICKS_PER_SECOND
  {
    ExpiredExactly(s.stats.value, now);
  }

  lemma {:induction false} StaysOnCourse(cfg: Config, db: Db, tr: seq<Event>, since: int, key: Str,
                                         ttl: real, setTime: int, deadline: int)
    requires ttl > 0.0 && deadline == setTime - (-ttl).Floor * TICKS_PER_SECOND
    requires OnCourse(At(db, key), ttl, setTime, deadline, since)
    requires Run(cfg, db, tr, since) && AllCalm(db, tr, key, deadline)
    ensures OnCourse(At(Final(db, tr), key), ttl, setTime, deadline, EndTime(tr, since))
    ensures EndTime(tr, since) >= since
    decreases |tr|
  {
    hide At, Next, Allowed, Calm, SlotExpired, Armed;
    if tr != [] {
      var e := tr[0];
      if Armed(At(db, key), ttl, setTime) {
        ArmedExpires(At(db, key), ttl, setTime, e.now);
      }
      CalmNext(db, e, key, ttl, setTime);
      assert EndTime(tr[1..], e.now) == EndTime(tr, since);
      StaysOnCourse(cfg, Next(db, e), tr[1..], e.now, key, ttl, setTime, deadline);
    }
  }

  lemma VisibleOnCourse(db: Db, key: Str, ttl: real, setTime: int, deadline: int, since: int, now: int)
    requires ttl > 0.0 && deadline == setTime - (-ttl).Floor * TICKS_PER_SECOND
    requires OnCourse(At(db, key), ttl, setTime, deadline, since) && since <= now
    ensures Visible(db, key, now) <==> now < deadline
  {
    if Armed(At(db, key), ttl, setTime) {
      ArmedExpires(At(db, key), ttl, setTime, now);
    }
  }

  /** An armed key is visible exactly until its deadline, in every run that leaves the deadline alone. */
  lemma DeadlineExact(cfg: Config, db: Db, key: Str, ttl: real, t: int, deadline: int, tr: seq<Event>, now: int)
    requires ttl > 0.0 && deadline == t - (-ttl).Floor * TICKS_PER_SECOND
    requires Armed(At(db, key), ttl, t)
    requires Run(cfg, db, tr, t) && AllCalm(db, tr, key, deadline) && EndTime(tr, t) <= now
    ensures Visible(Final(db, tr), key, now) <==> now < deadline
  {
    hide At, Run, AllCalm, Final, Armed, Visible, EndTime;
    StaysOnCourse(cfg, db, tr, t, key, ttl, t, deadline);
    VisibleOnCourse(Final(db, tr), key, ttl, t, deadline, EndTime(tr, t), now);
  }

  lemma ExpireArms(db: Db, key: Str, seconds: int, t: int)
    requires HasData(At(db, key)) && seconds > 0
    ensures Armed(At(After(db, On(key, Expire(seconds)), t), key), seconds as real, t)
    ensures (-(seconds as real)).Floor == -seconds
  {
    hide At, Put;
    PutAt(db, key, SlotStep(Expire(seconds), At(db, key), t).0);
  }

  lemma SetArms(db: Db, key: Str, value: Str, ttl: real, t: int)
    requires ttl > 0.0
    ensures Armed(At(After(db, On(key, Set(value, ttl)), t), key), ttl, t)
  {
    hide At, Put, SlotExpired;
    PutAt(db, key, SlotStep(Set(value, ttl), At(db, key), t).0);
  }

  /**
   EXPIRE: from the command at time t on, the key is visible exactly at the moments before
   t + seconds, to the tick, in every run that leaves its deadline alone.
   */
  lemma ExpireDeadline(cfg: Config, before: Db, key: Str, seconds: int, t: int, tr: seq<Event>, now: int)
    requires HasData(At(before, key)) && seconds > 0
    requires Run(cfg, After(before, On(key, Expire(seconds)), t), tr, t)
    requires AllCalm(After(before, On(key, Expire(seconds)), t), tr, key, t + seconds * TICKS_PER_SECOND)
    requires EndTime(tr, t) <= now
    ensures Visible(Final(After(before, On(key, Expire(seconds)), t), tr), key, now)
            <==> now < t + seconds * TICKS_PER_SECOND
  {
    hide After, At, Run, AllCalm, Final, Armed, Visible, EndTime;
    ExpireArms(before, key, seconds, t);
    DeadlineExact(cfg, After(before, On(key, Expire(seconds)), t), key, seconds as real, t,
                  t + seconds * TICKS_PER_SECOND, tr, now);
  }

  /** SET with a TTL, fractions of a second included: those delay expiry to the next whole second. */
  lemma SetDeadline(cfg: Config, before: Db, key: Str, value: Str, ttl: real, t: int, tr: seq<Event>, now: int)
    requires ttl > 0.0
    requires Run(cfg, After(before, On(key, Set(value, ttl)), t), tr, t)
    requires AllCalm(After(before, On(key, Set(value, ttl)), t), tr, key, t - (-ttl).Floor * TICKS_PER_SECOND)
    requires EndTime(tr, t) <= now
    ensures Visible(Final(After(before, On(key, Set(value, ttl)), t), tr), key, now)
            <==> now < t - (-ttl).Floor * TICKS_PER_SECOND
  {
    hide After, At, Run, AllCalm, Final, Armed, Visible, EndTime;
    SetArms(before, key, value, ttl, t);
    DeadlineExact(cfg, After(before, On(key, Set(value, ttl)), t), key, ttl, t,
                  t - (-ttl).Floor * TICKS_PER_SECOND, tr, now);
  }

  /** After EXPIRE k s at t and any calm run, in the second that begins at t + e exactly s - e seconds remain. */
  lemma ExpireRunsDown(cfg: Config, before: Db, key: Str, seconds: int, t: int, tr: seq<Event>, e: nat, now: int)
    requires HasData(At(before, key)) && 0 <= e < seconds && SecondsAfter(t, e, now)
    requires Run(cfg, After(before, On(key, Expire(seconds)), t), tr, t)
    requires AllCalm(After(before, On(key, Expire(seconds)), t), tr, key, t + seconds * TICKS_PER_SECOND)
    requires EndTime(tr, t) <= now
    ensures var db := Final(After(before, On(key, Expire(seconds)), t), tr);
            key in db.meta && TtlRemaining(db.meta[key], now) == (seconds - e) as real
  {
    hide After, At, Run, AllCalm, Final, Armed, EndTime, TtlRemaining;
    var db0 := After(before, On(key, Expire(seconds)), t);
    ExpireArms(before, key, seconds, t);
    StartsOnCourse(db0, key, seconds as real, t);
    StaysOnCourse(cfg, db0, tr, t, key, seconds as real, t, t + seconds * TICKS_PER_SECOND);
    ArmedRunsDown(Final(db0, tr), key, seconds as real, t, e, now);
  }

  lemma StartsOnCourse(db: Db, key: Str, ttl: real, t: int)
    requires Armed(At(db, key), ttl, t)
    ensures forall deadline :: OnCourse(At(db, key), ttl, t, deadline, t)
  {
  }

  /** And after SET with a TTL. */
  lemma SetRunsDown(cfg: Config, before: Db, key: Str, value: Str, ttl: real, t: int, tr: seq<Event>, e: nat, now: int)
    requires e as real < ttl && SecondsAfter(t, e, now)
    requires Run(cfg, After(before, On(key, Set(value, ttl)), t), tr, t)
    requires AllCalm(After(before, On(key, Set(value, ttl)), t), tr, key, t - (-ttl).Floor * TICKS_PER_SECOND)
    requires EndTime(tr, t) <= now
    ensures var db := Final(After(before, On(key, Set(value, ttl)), t), tr);
            key in db.meta && TtlRemaining(db.meta[key], now) == ttl - e as real
  {
    hide After, At, Run, AllCalm, Final, Armed, EndTime, TtlRemaining;
    var db0 := After(before, On(key, Set(value, ttl)), t);
    SetArms(before, key, value, ttl, t);
    StartsOnCourse(db0, key, ttl, t);
    StaysOnCourse(cfg, db0, tr, t, key, ttl, t, t - (-ttl).Floor * TICKS_PER_SECOND);
    ArmedRunsDown(Final(db0, tr), key, ttl, t, e, now);
  }
}
