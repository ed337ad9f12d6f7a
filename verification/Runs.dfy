/**
 How runs are put together, and a supply of keys to fill a database with.
 */
module Runs {
  import opened Bytes
  import opened Keyspace

  lemma {:induction false} RunConcat(cfg: Config, db: Db, a: seq<Event>, b: seq<Event>, since: int)
    ensures Final(db, a + b) == Final(Final(db, a), b)
    ensures Answers(db, a + b) == Answers(db, a) + Answers(Final(db, a), b)
    ensures Run(cfg, db, a + b, since) <==> Run(cfg, db, a, since) && Run(cfg, Final(db, a), b, EndTime(a, since))
    decreases |a|
  {
    hide Next, Allowed, Answer, WellFormed;
    if a == [] {
      assert a + b == b;
    } else {
      assert (a + b)[1..] == a[1..] + b;
      assert EndTime(a[1..], a[0].now) == EndTime(a, since);
      RunConcat(cfg, Next(db, a[0]), a[1..], b, a[0].now);
    }
  }

  lemma RunOfOne(cfg: Config, db: Db, e: Event, since: int)
    ensures Final(db, [e]) == Next(db, e)
    ensures Answers(db, [e]) == [Answer(db, e.cmd, e.now)]
    ensures Run(cfg, db, [e], since) <==> since <= e.now && WellFormed(e.cmd) && Allowed(cfg, db, e)
  {
    hide Next, Allowed, Answer, WellFormed;
    assert [e][1..] == [];
  }

  lemma RunSnoc(cfg: Config, db: Db, tr: seq<Event>, since: int, e: Event)
    requires Run(cfg, db, tr, since) && EndTime(tr, since) <= e.now
    requires WellFormed(e.cmd) && Allowed(cfg, Final(db, tr), e)
    ensures Run(cfg, db, tr + [e], since)
    ensures Final(db, tr + [e]) == Next(Final(db, tr), e)
    ensures Answers(db, tr + [e]) == Answers(db, tr) + [Answer(Final(db, tr), e.cmd, e.now)]
  {
    hide Next, Allowed, Answer, WellFormed, Run, Final, Answers;
    RunConcat(cfg, db, tr, [e], since);
    RunOfOne(cfg, Final(db, tr), e, EndTime(tr, since));
  }

  lemma RunOfThree(cfg: Config, db: Db, e: Event, f: Event, g: Event, since: int)
    requires since <= e.now <= f.now <= g.now
    requires WellFormed(e.cmd) && WellFormed(f.cmd) && WellFormed(g.cmd)
    ensures Final(db, [e, f]) == Next(Next(db, e), f)
    ensures Final(db, [e, f, g]) == Next(Next(Next(db, e), f), g)
    ensures Allowed(cfg, db, e) && Allowed(cfg, Next(db, e), f) && Allowed(cfg, Next(Next(db, e), f), g) ==>
      Run(cfg, db, [e, f, g], since)
  {
    hide Next, Allowed, Answer, WellFormed, Run, Final, Answers;
    RunOfOne(cfg, db, e, since);
    RunConcat(cfg, db, [e], [f], since);
    RunOfOne(cfg, Next(db, e), f, e.now);
    RunConcat(cfg, db, [e, f], [g], since);
    RunOfOne(cfg, Next(Next(db, e), f), g, f.now);
    assert [e] + [f] == [e, f] && [e, f] + [g] == [e, f, g];
  }

  // ----- keys to fill a database with -----

  /** A key of its own for each number, with at least two bytes. */
  function Filler(i: nat): Str {
    seq(i + 2, _ => DIGIT_ZERO)
  }

  function Fillers(n: nat): set<Str> {
    if n == 0 then {} else Fillers(n - 1) + {Filler(n - 1)}
  }

  lemma {:induction false} FillersCount(n: nat)
    ensures forall k <- Fillers(n) :: 2 <= |k| < n + 2
    ensures |Fillers(n)| == n
  {
    if n > 0 {
      FillersCount(n - 1);
      assert |Filler(n - 1)| == n + 1;
    }
  }

  lemma FillerFresh(n: nat)
    ensures |Fillers(n)| == n && Filler(n) !in Fillers(n)
    ensures Fillers(n + 1) == Fillers(n) + {Filler(n)}
    ensures forall k: Str :: |k| < 2 ==> k !in Fillers(n)
  {
    FillersCount(n);
    assert |Filler(n)| == n + 2;
  }

  lemma AddedKey<V>(m: map<Str, V>, key: Str, v: V)
    requires key !in m
    ensures |m[key := v]| == |m| + 1
  {
    assert m[key := v].Keys == m.Keys + {key};
  }

  lemma KeyOutAgain<V>(m: map<Str, V>, key: Str, v: V, other: Str, w: V)
    requires key !in m && key != other
    ensures m[key := v][other := w] - {key} == m[other := w]
  {
  }
}
