/**
 The handlers of LPUSH and RPUSH (src/RedisCommandHandler.cpp): one locked call per element, then
 LLEN. Run alone, a handler is the program that Pushes lets interleave.
 */
module PushHandlers {
  import opened Bytes
  import opened Keyspace
  import opened Database
  import opened Pushes
  import opened Runs

  lemma {:induction false} ProgramAt(end: End, key: Str, args: seq<Str>)
    ensures |Program(end, key, args)| == |args| + 1
    ensures forall i :: 0 <= i < |args| ==> Program(end, key, args)[i] == On(key, PushOp(end, args[i]))
    ensures Program(end, key, args)[|args|] == On(key, LLen)
    decreases |args|
  {
    if args != [] {
      ProgramAt(end, key, args[1..]);
      forall i | 0 <= i < |args| ensures Program(end, key, args)[i] == On(key, PushOp(end, args[i])) {
        if i > 0 { assert Program(end, key, args)[i] == Program(end, key, args[1..])[i - 1]; }
      }
    }
  }

  /** handleLpush wants an element, handleRpush only a key. */
  function MinTokens(end: End): nat {
    if end == Front then 3 else 2
  }

  /** db.lpush or db.rpush */
  method PushOne(end: End, db: RedisDatabase, key: Str, value: Str, now: int) returns (ghost e: Event)
    requires db.predictiveCache.policy.Valid()
    modifies db, db.predictiveCache
    ensures e.cmd == On(key, PushOp(end, value)) && e.now == now && WellFormed(e.cmd)
    ensures Allowed(db.Cfg(), old(db.State()), e) && db.State() == Next(old(db.State()), e)
  {
    hide Allowed, Next;
    ghost var victim;
    if end == Front {
      victim := db.LPush(key, value, now);
    } else {
      victim := db.RPush(key, value, now);
    }
    e := Event(On(key, PushOp(end, value)), now, victim);
  }

  /** clock holds the reading of each locked call. */
  method HandlePush(end: End, db: RedisDatabase, tokens: seq<Str>, clock: seq<int>)
    returns (length: Option<nat>, ghost tr: seq<Event>)
    requires db.predictiveCache.policy.Valid()
    requires |clock| == |tokens| && forall i, j :: 0 <= i < j < |clock| ==> clock[i] <= clock[j]
    modifies db, db.predictiveCache
    ensures |tokens| < (if end == Front then 3 else 2) ==> length == None && tr == [] && db.State() == old(db.State())
    ensures |tokens| >= (if end == Front then 3 else 2) ==>
      && |tr| == |tokens| - 1 == |Program(end, tokens[1], tokens[2..])|
      && (forall i :: 0 <= i < |tr| ==> tr[i].cmd == Program(end, tokens[1], tokens[2..])[i])
      && Run(db.Cfg(), old(db.State()), tr, clock[0])
      && db.State() == Final(old(db.State()), tr)
      && length.Some? && |Answers(old(db.State()), tr)| == |tr|
      && Answers(old(db.State()), tr)[|tr| - 1] == Count(length.value)
  {
    hide Allowed, Next, Answer, Program, Final, Run, Answers, WellFormed, PushOp;
    tr := [];
    if |tokens| < MinTokens(end) {
      return None, [];
    }
    ghost var before := db.State();
    StartRun(db.Cfg(), before, clock[0]);
    ProgramAt(end, tokens[1], tokens[2..]);
    for i := 2 to |tokens|
      invariant |tr| == i - 2
      invariant forall j :: 0 <= j < |tr| ==> tr[j].cmd == Program(end, tokens[1], tokens[2..])[j]
      invariant Run(db.Cfg(), before, tr, clock[0]) && db.State() == Final(before, tr)
      invariant |Answers(before, tr)| == |tr|
      invariant EndTime(tr, clock[0]) <= clock[i - 1]
    {
      ghost var e := PushOne(end, db, tokens[1], tokens[i], clock[i - 1]);
      RunSnoc(db.Cfg(), before, tr, clock[0], e);
      tr := tr + [e];
    }
    var n := db.LLen(tokens[1], clock[|tokens| - 1]);
    ghost var e := Event(On(tokens[1], LLen), clock[|tokens| - 1], None);
    ReadAllowed(db.Cfg(), Final(before, tr), e);
    RunSnoc(db.Cfg(), before, tr, clock[0], e);
    tr := tr + [e];
    length := Some(n);
  }

  lemma StartRun(cfg: Config, db: Db, since: int)
    ensures Run(cfg, db, [], since) && Final(db, []) == db && Answers(db, []) == []
  {
  }

  lemma ReadAllowed(cfg: Config, db: Db, e: Event)
    requires e.cmd.On? && !Creates(e.cmd.op) && e.victim == None
    ensures Allowed(cfg, db, e) && WellFormed(e.cmd) && Next(db, e) == After(db, e.cmd, e.now)
  {
  }
}
