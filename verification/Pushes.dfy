/**
 LPUSH and RPUSH with several elements take the lock once per element, so the elements of different
 clients interleave (the loops of handleLpush and handleRpush in src/RedisCommandHandler.cpp).
 */
module Pushes {
  import opened Bytes
  import opened Scoring
  import opened Keyspace
  import opened KeyspaceInvariants
  import Dominance
  import ListSurgery

  datatype End = Front | Back

  function PushOp(end: End, v: Str): Op {
    match end
    case Front => LPush(v)
    case Back => RPush(v)
  }

  /** What one handler call does to the database, lock by lock: a push per element, then LLEN. */
  function Program(end: End, key: Str, args: seq<Str>): seq<Cmd> {
    if args == [] then [On(key, LLen)]
    else [On(key, PushOp(end, args[0]))] + Program(end, key, args[1..])
  }

  /** The commands that client c issued in a run whose event i is due to client who[i]. */
  function IssuedBy(tr: seq<Event>, who: seq<nat>, c: nat): seq<Cmd>
    requires |tr| == |who|
    decreases |tr|
  {
    if tr == [] then []
    else if who[0] == c then [tr[0].cmd] + IssuedBy(tr[1..], who[1..], c)
    else IssuedBy(tr[1..], who[1..], c)
  }

  predicate IsPush(end: End, key: Str, cmd: Cmd) {
    cmd.On? && cmd.key == key && (if end == Front then cmd.op.LPush? else cmd.op.RPush?)
  }

  /** The elements pushed onto the key, in the order they took the lock. */
  function Pushed(end: End, key: Str, tr: seq<Event>): seq<Str>
    decreases |tr|
  {
    if tr == [] then []
    else if IsPush(end, key, tr[0].cmd) then [tr[0].cmd.op.value] + Pushed(end, key, tr[1..])
    else Pushed(end, key, tr[1..])
  }

  /** Which client pushed each of them. */
  function Pushers(end: End, key: Str, tr: seq<Event>, who: seq<nat>): (r: seq<nat>)
    requires |tr| == |who|
    ensures |r| == |Pushed(end, key, tr)|
    decreases |tr|
  {
    if tr == [] then []
    else if IsPush(end, key, tr[0].cmd) then [who[0]] + Pushers(end, key, tr[1..], who[1..])
    else Pushers(end, key, tr[1..], who[1..])
  }

  /** The elements of w that carry tag c, in order. */
  function Pick(w: seq<Str>, tags: seq<nat>, c: nat): seq<Str>
    requires |w| == |tags|
  {
    if w == [] then []
    else if tags[0] == c then [w[0]] + Pick(w[1..], tags[1..], c)
    else Pick(w[1..], tags[1..], c)
  }

  /** w is an order-preserving shuffle of the clients' argument lists. */
  ghost predicate Shuffle(w: seq<Str>, tags: seq<nat>, args: map<nat, seq<Str>>) {
    && |w| == |tags|
    && (forall t <- tags :: t in args)
    && (forall c <- args :: Pick(w, tags, c) == args[c])
  }

  /** What pushing the elements of w one after the other makes of a list. */
  function Grown(end: End, lst: seq<Str>, w: seq<Str>): seq<Str> {
    match end
    case Front => ListSurgery.Reverse(w) + lst
    case Back => lst + w
  }

  function ListAt(db: Db, key: Str): seq<Str> {
    ListOr(At(db, key))
  }

  /** The commands on a key that, while it is live, leave its list as it is. */
  predicate KeepsList(op: Op) {
    match op
    case Set(_, _) | Get | Type | LGet | LLen | LIndex(_) => true
    case HSet(_, _) | HGet(_) | HExists(_) | HGetAll | HLen | HMSet(_) => true
    case Expire(seconds) => seconds > 0
    case _ => false
  }

  /** A command that leaves the key's list as it is. */
  predicate Bystander(key: Str, cmd: Cmd) {
    cmd == Keys || Dominance.Leaves(cmd, key) || (cmd.On? && cmd.key == key && KeepsList(cmd.op))
  }

  /** The command pushes onto the key's list, at either end, or leaves it alone. */
  predicate Tolerated(key: Str, cmd: Cmd) {
    IsPush(Front, key, cmd) || IsPush(Back, key, cmd) || Bystander(key, cmd)
  }

  /** The key neither expires nor is evicted, and every command is tolerated. */
  ghost predicate Undisturbed(key: Str, db: Db, tr: seq<Event>)
    decreases |tr|
  {
    tr == [] ||
    (&& Tolerated(key, tr[0].cmd) && !SlotExpired(At(db, key), tr[0].now) && tr[0].victim != Some(key)
     && Undisturbed(key, Next(db, tr[0]), tr[1..]))
  }

  /** The list after one command. */
  function Pushing(key: Str, lst: seq<Str>, cmd: Cmd): seq<Str> {
    if IsPush(Front, key, cmd) then Grown(Front, lst, [cmd.op.value])
    else if IsPush(Back, key, cmd) then Grown(Back, lst, [cmd.op.value])
    else lst
  }

  lemma OnePushSlot(key: Str, s: Slot, cmd: Cmd, now: int)
    requires cmd.On? && cmd.key == key && Tolerated(key, cmd) && !SlotExpired(s, now)
    ensures ListOr(SlotStep(cmd.op, s, now).0) == Pushing(key, ListOr(s), cmd)
    ensures cmd.op == LLen ==> SlotStep(cmd.op, s, now).1 == Count(|ListOr(s)|)
  {
    hide SlotExpired, ListSurgery.Removed, ListSurgery.Occurrences, WithPairs;
    assert IsPush(Front, key, cmd) ==> ListSurgery.Reverse([cmd.op.value]) == [cmd.op.value];
  }

  lemma OnePush(key: Str, db: Db, e: Event)
    requires Tolerated(key, e.cmd) && !SlotExpired(At(db, key), e.now) && e.victim != Some(key)
    ensures ListAt(Next(db, e), key) == Pushing(key, ListAt(db, key), e.cmd)
    ensures e.cmd == On(key, LLen) ==> Answer(db, e.cmd, e.now) == Count(|ListAt(db, key)|)
  {
    hide At, Put, AfterKeys, AfterRename, SlotExpired, SlotStep, Grown;
    var mid := After(db, e.cmd, e.now);
    if e.cmd.On? && e.cmd.key == key {
      PutAt(db, key, SlotStep(e.cmd.op, At(db, key), e.now).0);
      OnePushSlot(key, At(db, key), e.cmd, e.now);
    } else if e.cmd == Keys {
      KeysAt(db, e.now);
    } else {
      Dominance.LeftAlone(db, e.cmd, e.now, key);
    }
    if e.victim.Some? {
      PutAt(mid, e.victim.value, Erased(At(mid, e.victim.value)));
    }
  }

  /** The list with one sequence of elements pushed at each end. */
  function GrownBoth(lst: seq<Str>, front: seq<Str>, back: seq<Str>): seq<Str> {
    ListSurgery.Reverse(front) + lst + back
  }

  lemma GrownTwice(lst: seq<Str>, v: Str, front: seq<Str>, back: seq<Str>)
    ensures GrownBoth(Grown(Front, lst, [v]), front, back) == GrownBoth(lst, [v] + front, back)
    ensures GrownBoth(Grown(Back, lst, [v]), front, back) == GrownBoth(lst, front, [v] + back)
    ensures GrownBoth(lst, [], []) == lst
  {
    var r := ListSurgery.Reverse(front);
    assert ([v] + front)[1..] == front;
    assert ListSurgery.Reverse([v] + front) == r + [v];
    assert ListSurgery.Reverse([v]) == [v];
    assert r + ([v] + lst) + back == r + [v] + lst + back;
    assert r + (lst + [v]) + back == r + lst + ([v] + back);
  }

  /** The list grows at each end by exactly the elements pushed there, in the order of the locks. */
  lemma {:induction false} ListGrows(key: Str, db: Db, tr: seq<Event>)
    requires Undisturbed(key, db, tr)
    ensures ListAt(Final(db, tr), key)
         == GrownBoth(ListAt(db, key), Pushed(Front, key, tr), Pushed(Back, key, tr))
    decreases |tr|
  {
    hide ListAt, Next, Grown, GrownBoth, Answer, At, SlotExpired, Bystander;
    if tr == [] {
      GrownTwice(ListAt(db, key), [], [], []);
    } else {
      var cmd := tr[0].cmd;
      OnePush(key, db, tr[0]);
      ListGrows(key, Next(db, tr[0]), tr[1..]);
      if IsPush(Front, key, cmd) || IsPush(Back, key, cmd) {
        GrownTwice(ListAt(db, key), cmd.op.value, Pushed(Front, key, tr[1..]), Pushed(Back, key, tr[1..]));
      }
    }
  }

  // ----- whose elements -----

  function Other(end: End): End {
    if end == Front then Back else Front
  }

  function PushValues(end: End, key: Str, cmds: seq<Cmd>): seq<Str> {
    if cmds == [] then []
    else if IsPush(end, key, cmds[0]) then [cmds[0].op.value] + PushValues(end, key, cmds[1..])
    else PushValues(end, key, cmds[1..])
  }

  lemma {:induction false} PickedByClient(end: End, key: Str, tr: seq<Event>, who: seq<nat>, c: nat)
    requires |tr| == |who|
    ensures Pick(Pushed(end, key, tr), Pushers(end, key, tr, who), c) == PushValues(end, key, IssuedBy(tr, who, c))
    decreases |tr|
  {
    if tr != [] {
      PickedByClient(end, key, tr[1..], who[1..], c);
      var rest := IssuedBy(tr[1..], who[1..], c);
      if who[0] == c {
        assert ([tr[0].cmd] + rest)[1..] == rest;
      }
      if IsPush(end, key, tr[0].cmd) {
        var w, tags := Pushed(end, key, tr), Pushers(end, key, tr, who);
        assert w[1..] == Pushed(end, key, tr[1..]) && tags[1..] == Pushers(end, key, tr[1..], who[1..]);
      }
    }
  }

  lemma {:induction false} ProgramPushes(end: End, key: Str, args: seq<Str>)
    ensures PushValues(end, key, Program(end, key, args)) == args
    ensures PushValues(Other(end), key, Program(end, key, args)) == []
    ensures |Program(end, key, args)| == |args| + 1
    ensures forall i :: 0 <= i <= |args| ==> (Program(end, key, args)[i] == On(key, LLen) <==> i == |args|)
    decreases |args|
  {
    var p := Program(end, key, args);
    if args != [] {
      ProgramPushes(end, key, args[1..]);
      assert p[1..] == Program(end, key, args[1..]);
      forall i | 0 <= i <= |args| ensures p[i] == On(key, LLen) <==> i == |args| {
        if i > 0 { assert p[i] == Program(end, key, args[1..])[i - 1]; }
      }
    } else {
      assert p[1..] == [];
    }
  }

  /** One client's LPUSH or RPUSH. */
  datatype Job = Job(end: End, args: seq<Str>)

  /** The clients of jobs run one push command each; all others leave the key's list as it is. */
  ghost predicate Concurrent(key: Str, jobs: map<nat, Job>, tr: seq<Event>, who: seq<nat>) {
    && |tr| == |who|
    && (forall c <- jobs :: IssuedBy(tr, who, c) == Program(jobs[c].end, key, jobs[c].args))
    && (forall i :: 0 <= i < |tr| && who[i] !in jobs ==> Bystander(key, tr[i].cmd))
  }

  /** The arguments of the clients that push at this end. */
  function ArgsAt(end: End, jobs: map<nat, Job>): map<nat, seq<Str>> {
    map c | c in jobs && jobs[c].end == end :: jobs[c].args
  }

  lemma {:induction false} PushersAre(end: End, key: Str, jobs: map<nat, Job>, tr: seq<Event>, who: seq<nat>)
    requires |tr| == |who|
    requires forall i :: 0 <= i < |tr| && who[i] !in jobs ==> Bystander(key, tr[i].cmd)
    ensures forall t <- Pushers(end, key, tr, who) :: t in jobs
    decreases |tr|
  {
    if tr != [] {
      PushersAre(end, key, jobs, tr[1..], who[1..]);
    }
  }

  lemma {:induction false} NothingPicked(w: seq<Str>, tags: seq<nat>, c: nat)
    requires |w| == |tags| && Pick(w, tags, c) == []
    ensures c !in tags
  {
    if w != [] {
      NothingPicked(w[1..], tags[1..], c);
    }
  }

  /** At each end, the elements pushed there are a shuffle of the arguments of the clients that push there. */
  lemma PushedIsShuffle(end: End, key: Str, jobs: map<nat, Job>, tr: seq<Event>, who: seq<nat>)
    requires Concurrent(key, jobs, tr, who)
    ensures Shuffle(Pushed(end, key, tr), Pushers(end, key, tr, who), ArgsAt(end, jobs))
  {
    hide Program, IssuedBy, Pick, Pushed, Pushers, PushValues, Bystander;
    var w, tags := Pushed(end, key, tr), Pushers(end, key, tr, who);
    PushersAre(end, key, jobs, tr, who);
    forall c | c in jobs
      ensures jobs[c].end == end ==> Pick(w, tags, c) == jobs[c].args
      ensures jobs[c].end != end ==> c !in tags
    {
      PickedByClient(end, key, tr, who, c);
      ProgramPushes(jobs[c].end, key, jobs[c].args);
      if jobs[c].end != end {
        NothingPicked(w, tags, c);
      }
    }
  }

  /**
   Any number of concurrent pushes at both ends, however their per-element lock sections interleave: the
   list grows at its back by an order-preserving shuffle of the arguments of the RPUSH commands, and at
   its front by the mirror image of one of the LPUSH commands'.
   */
  lemma InterleavedPushes(key: Str, jobs: map<nat, Job>, db: Db, tr: seq<Event>, who: seq<nat>)
    returns (front: seq<Str>, frontTags: seq<nat>, back: seq<Str>, backTags: seq<nat>)
    requires Concurrent(key, jobs, tr, who) && Undisturbed(key, db, tr)
    ensures ListAt(Final(db, tr), key) == ListSurgery.Reverse(front) + ListAt(db, key) + back
    ensures Shuffle(front, frontTags, ArgsAt(Front, jobs))
    ensures Shuffle(back, backTags, ArgsAt(Back, jobs))
  {
    hide Undisturbed, Concurrent, Shuffle, Pushed, Pushers, ListAt, Final;
    assert |tr| == |who| by { SameLength(key, jobs, tr, who); }
    front, frontTags := Pushed(Front, key, tr), Pushers(Front, key, tr, who);
    back, backTags := Pushed(Back, key, tr), Pushers(Back, key, tr, who);
    ListGrows(key, db, tr);
    PushedIsShuffle(Front, key, jobs, tr, who);
    PushedIsShuffle(Back, key, jobs, tr, who);
  }

  lemma SameLength(key: Str, jobs: map<nat, Job>, tr: seq<Event>, who: seq<nat>)
    requires Concurrent(key, jobs, tr, who)
    ensures |tr| == |who|
  {
  }

  // ----- the replies -----

  lemma {:induction false} AnswerAt(key: Str, db: Db, tr: seq<Event>, i: nat)
    requires Undisturbed(key, db, tr) && i < |tr| && tr[i].cmd == On(key, LLen)
    ensures i < |Answers(db, tr)|
    ensures Answers(db, tr)[i]
         == Count(|ListAt(db, key)| + |Pushed(Front, key, tr[..i])| + |Pushed(Back, key, tr[..i])|)
    decreases |tr|
  {
    hide ListAt, Next, Answer, At, IsPush, Bystander, SlotExpired;
    OnePush(key, db, tr[0]);
    if i > 0 {
      AnswerAt(key, Next(db, tr[0]), tr[1..], i - 1);
      assert tr[1..][..i - 1] == tr[..i][1..];
      OneEnd(key, tr[0].cmd);
    }
  }

  lemma OneEnd(key: Str, cmd: Cmd)
    ensures !(IsPush(Front, key, cmd) && IsPush(Back, key, cmd))
  {
  }

  lemma {:induction false} PushedSplit(end: End, key: Str, tr: seq<Event>, i: nat)
    requires i <= |tr|
    ensures Pushed(end, key, tr) == Pushed(end, key, tr[..i]) + Pushed(end, key, tr[i..])
    decreases |tr|
  {
    hide IsPush;
    if i == 0 {
      assert tr[..0] == [] && tr[0..] == tr;
    } else {
      PushedSplit(end, key, tr[1..], i - 1);
      assert tr[1..][..i - 1] == tr[..i][1..] && tr[1..][i - 1..] == tr[i..];
      assert tr[..i][0] == tr[0];
    }
  }

  lemma {:induction false} IssuedSplit(tr: seq<Event>, who: seq<nat>, c: nat, i: nat)
    requires |tr| == |who| && i <= |tr|
    ensures IssuedBy(tr, who, c) == IssuedBy(tr[..i], who[..i], c) + IssuedBy(tr[i..], who[i..], c)
    decreases |tr|
  {
    if i == 0 {
      assert tr[..0] == [] && tr[0..] == tr && who[0..] == who;
    } else {
      IssuedSplit(tr[1..], who[1..], c, i - 1);
      assert tr[1..][..i - 1] == tr[..i][1..] && tr[1..][i - 1..] == tr[i..];
      assert who[1..][..i - 1] == who[..i][1..] && who[1..][i - 1..] == who[i..];
    }
  }

  lemma {:induction false} PickIsShorter(w: seq<Str>, tags: seq<nat>, c: nat)
    requires |w| == |tags|
    ensures |Pick(w, tags, c)| <= |w|
  {
    if w != [] { PickIsShorter(w[1..], tags[1..], c); }
  }

  lemma {:induction false} AllPushValues(end: End, key: Str, cmds: seq<Cmd>)
    requires forall cmd <- cmds :: IsPush(end, key, cmd)
    ensures |PushValues(end, key, cmds)| == |cmds|
  {
    if cmds != [] { AllPushValues(end, key, cmds[1..]); }
  }

  lemma {:induction false} ProgramIsPushes(end: End, key: Str, args: seq<Str>)
    ensures |Program(end, key, args)| == |args| + 1
    ensures forall i :: 0 <= i < |args| ==> IsPush(end, key, Program(end, key, args)[i])
    decreases |args|
  {
    if args != [] {
      ProgramIsPushes(end, key, args[1..]);
      forall i | 0 <= i < |args| ensures IsPush(end, key, Program(end, key, args)[i]) {
        if i > 0 { assert Program(end, key, args)[i] == Program(end, key, args[1..])[i - 1]; }
      }
    }
  }

  /** When a client asks for the length, all of its own elements are in. */
  lemma OwnPushesFirst(end: End, key: Str, args: seq<Str>, tr: seq<Event>, who: seq<nat>, i: nat)
    requires |tr| == |who| && i < |tr| && tr[i].cmd == On(key, LLen)
    requires IssuedBy(tr, who, who[i]) == Program(end, key, args)
    ensures |Pushed(end, key, tr[..i])| >= |args|
  {
    hide Program, Pick, Pushed, PushValues;
    var c := who[i];
    var before := IssuedBy(tr[..i], who[..i], c);
    IssuedSplit(tr, who, c, i);
    ProgramPushes(end, key, args);
    ProgramIsPushes(end, key, args);
    var p := Program(end, key, args);
    assert IssuedBy(tr[i..], who[i..], c)[0] == On(key, LLen);
    assert p[|before|] == On(key, LLen);
    assert before == p[..|args|];
    AllPushValues(end, key, before);
    PickedByClient(end, key, tr[..i], who[..i], c);
    PickIsShorter(Pushed(end, key, tr[..i]), Pushers(end, key, tr[..i], who[..i]), c);
  }

  /** Each reply lies between the initial length plus the client's own elements and the final length. */
  lemma PushReplies(key: Str, jobs: map<nat, Job>, db: Db, tr: seq<Event>, who: seq<nat>, i: nat)
    requires Concurrent(key, jobs, tr, who) && Undisturbed(key, db, tr)
    requires i < |tr| && who[i] in jobs && tr[i].cmd == On(key, LLen)
    ensures i < |Answers(db, tr)| && Answers(db, tr)[i].Count?
    ensures |ListAt(db, key)| + |jobs[who[i]].args| <= Answers(db, tr)[i].n <= |ListAt(Final(db, tr), key)|
  {
    hide Undisturbed, Program, IssuedBy, Pushed, ListAt, Final, Answers, Bystander;
    AnswerAt(key, db, tr, i);
    ListGrows(key, db, tr);
    PushedSplit(Front, key, tr, i);
    PushedSplit(Back, key, tr, i);
    var end := jobs[who[i]].end;
    OwnPushesFirst(end, key, jobs[who[i]].args, tr, who, i);
    assert end == Front || end == Back;
  }
}
