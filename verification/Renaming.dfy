/**
 RENAME is a move, except onto itself, where it is a deletion.
 */
module Renaming {
  import opened Bytes
  import opened Scoring
  import opened Keyspace
  import opened KeyspaceInvariants

  /**
   A live source that is not the target: the target ends up with exactly its contents in all three
   stores, its deadline, and one access more; nothing of the old target is left; nothing else moves.
   */
  lemma RenameMoves(db: Db, from: Str, to: Str, now: int)
    requires Agrees(db) && from != to
    requires HasData(At(db, from)) && !SlotExpired(At(db, from), now)
    ensures Answer(db, Rename(from, to), now) == Flag(true)
    ensures var s, db' := At(db, from), After(db, Rename(from, to), now);
            && var was := s.stats.value;
            && At(db', to) == s.(stats := Some(Stats(was.accessCount + 1, now, was.ttl, was.ttlSetTime)))
            && At(db', from) == EMPTY_SLOT
            && (forall k :: k != from && k != to ==> At(db', k) == At(db, k))
            && KeyCount(db') == KeyCount(db) - StoreCount(At(db, to))
  {
    hide At, Put, SlotExpired;
    assert SlotOk(At(db, from)) && SlotOk(At(db, to));
    RenameAt(db, from, to, now);
    var cleared := Put(db, to, Erased(At(db, to)));
    var taken := Put(cleared, from, EMPTY_SLOT);
    PutAt(db, to, Erased(At(db, to)));
    PutAt(cleared, from, EMPTY_SLOT);
    CountAfterPut(db, to, Erased(At(db, to)));
    CountAfterPut(cleared, from, EMPTY_SLOT);
    CountAfterPut(taken, to, Moved(At(taken, to), At(cleared, from), now));
  }

  /** Without a live source RENAME fails; yet an existing target is gone unless the source was expired. */
  lemma RenameFails(db: Db, from: Str, to: Str, now: int)
    requires Agrees(db)
    ensures Answer(db, Rename(from, to), now) == Flag(false) <==>
      from == to || !HasData(At(db, from)) || SlotExpired(At(db, from), now)
    ensures from == to || !HasData(At(db, from)) || SlotExpired(At(db, from), now) ==>
      var db' := After(db, Rename(from, to), now);
      forall k :: At(db', k) ==
        if k == from || (k == to && !SlotExpired(At(db, from), now)) then EMPTY_SLOT else At(db, k)
  {
    hide At, Put, SlotExpired, AfterRename;
    RenameAt(db, from, to, now);
    assert SlotOk(At(db, from)) && SlotOk(At(db, to));
  }

  /** In particular a key renamed to itself is deleted, and the client is told it failed. */
  lemma RenameToItselfDeletes(db: Db, key: Str, now: int)
    requires Agrees(db)
    ensures Answer(db, Rename(key, key), now) == Flag(false)
    ensures At(After(db, Rename(key, key), now), key) == EMPTY_SLOT
  {
    hide At, After, Answer, SlotExpired;
    RenameFails(db, key, key, now);
  }
}
