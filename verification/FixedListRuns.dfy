/** Whole runs of the fixed list, for every quantum: how late it may be, and exactly when it is not. */
module FixedListRuns {
  import opened TimerSpec
  import opened Agreement
  import F = FixedListModel

  /** Every run of a fixed list of any quantum: nothing is returned early or twice, each advance leaves
      only timers that came due less than a quantum ago, and each handle is exactly one of pending,
      cancelled or fired. */
  lemma FixedListLaw(q: nat, ops: seq<Op>)
    requires q > 0 && Admissible(0, 0, ops)
    ensures var s := FixedStore(F.NewFixed(q));
            var outs := Taken(Run(s, ops));
            && Returns(s, Run(s, ops), outs) && Follows(q, ZERO, ops, outs) && NoneTwice(outs)
            && F.View(Final(s, ops).fixed) == multiset(Ending(ZERO, ops, outs).pending)
            && Partition(Known(ZERO, ops), IdSet(Ending(ZERO, ops, outs).pending), Cancelled(ZERO, ops, outs),
                         Handles(outs))
  {
    var s := FixedStore(F.NewFixed(q));
    F.NewFixedView(q);
    RunRefines(s, ZERO, ops);
    assert Promises(s, ops) == ops;
    Conservation(q, ZERO, ops, Taken(Run(s, ops)));
  }

  /** Every delay of the run is one of `delays`. */
  ghost predicate From(ops: seq<Op>, delays: iset<nat>) {
    forall i :: 0 <= i < |ops| && ops[i].Schedule? ==> ops[i].delay in delays
  }

  lemma TidyStep(f: F.Fixed, c: Clock, delays: iset<nat>, op: Op)
    requires F.Tidy(f, delays) && F.KeysApart(delays, f.q) && (op.Schedule? ==> op.delay in delays)
    requires FixedInStep(f, c) && WellFormed(c) && Allowed(c, op)
    ensures var (g, out) := FixedStep(f, op);
            && F.Tidy(g, delays) == true && g.q == f.q
            && WithinSlack(1, c, op, Elems(out)) && FixedInStep(g, Taking(c, op, Elems(out))) == true
  {
    FixedStepRefines(f, c, op);
    match op
    case Schedule(delay) => F.TidyInsert(f, delays, delay);
    case Cancel(id) => F.TidyRemove(f, delays, id);
    case Advance(now) => TidyTakes(f, c, delays, now);
  }

  lemma TidyTakes(f: F.Fixed, c: Clock, delays: iset<nat>, now: nat)
    requires F.Tidy(f, delays) && FixedInStep(f, c) && c.now <= now
    ensures F.Tidy(F.AdvanceTo(f, now).0, delays) == true
    ensures WithinSlack(1, c, Advance(now), Elems(F.AdvanceTo(f, now).1))
  {
    var (g, out) := F.AdvanceTo(f, now);
    F.TidyAdvance(f, delays, now);
    FixedAdvanceRefines(f, c, now);
    assert forall t :: t in c.pending - Elems(out) <==> t in F.View(g);
  }

  lemma RunFollows(f: F.Fixed, c: Clock, ops: seq<Op>)
    requires F.Shaped(f) && ops != []
    requires var (g, out) := FixedStep(f, ops[0]);
             && F.Shaped(g) && WithinSlack(1, c, ops[0], Elems(out))
             && Follows(1, Taking(c, ops[0], Elems(out)), ops[1..], Taken(Run(FixedStore(g), ops[1..])))
    ensures Follows(1, c, ops, Taken(Run(FixedStore(f), ops)))
  {
    var (g, out) := FixedStep(f, ops[0]);
    assert Run(FixedStore(f), ops) == [out] + Run(FixedStore(g), ops[1..]);
    TakenCons(out, Run(FixedStore(g), ops[1..]));
  }

  /** A tidy store in step with the clock, before a run it can follow exactly. */
  ghost predicate Ready(f: F.Fixed, c: Clock, delays: iset<nat>, ops: seq<Op>) {
    && F.Tidy(f, delays) && F.KeysApart(delays, f.q) && From(ops, delays)
    && FixedInStep(f, c) && WellFormed(c) && Admissible(c.now, c.next, ops)
  }

  lemma ReadyNext(f: F.Fixed, c: Clock, delays: iset<nat>, ops: seq<Op>)
    requires Ready(f, c, delays, ops) && ops != []
    ensures var (g, out) := FixedStep(f, ops[0]);
            && WithinSlack(1, c, ops[0], Elems(out))
            && Ready(g, Taking(c, ops[0], Elems(out)), delays, ops[1..]) == true
  {
    var out := Elems(FixedStep(f, ops[0]).1);
    AdmissibleRest(c, ops, out);
    TidyStep(f, c, delays, ops[0]);
    StepPartition(c, ops[0], out);
    FromRest(ops, delays);
  }

  lemma AdmissibleRest(c: Clock, ops: seq<Op>, out: set<Timer>)
    requires ops != [] && Admissible(c.now, c.next, ops)
    ensures Allowed(c, ops[0])
    ensures var d := Taking(c, ops[0], out); Admissible(d.now, d.next, ops[1..])
  {
  }

  lemma FromRest(ops: seq<Op>, delays: iset<nat>)
    requires From(ops, delays) && ops != []
    ensures From(ops[1..], delays) == true
  {
  }

  lemma {:induction false} TidyRun(f: F.Fixed, c: Clock, delays: iset<nat>, ops: seq<Op>)
    requires Ready(f, c, delays, ops)
    ensures Follows(1, c, ops, Taken(Run(FixedStore(f), ops)))
    decreases |ops|
  {
    if ops != [] {
      var (g, out) := FixedStep(f, ops[0]);
      ReadyNext(f, c, delays, ops);
      TidyRun(g, Taking(c, ops[0], Elems(out)), delays, ops[1..]);
      RunFollows(f, c, ops);
    }
  }

  lemma ThirdReturn(s: Store, a: Op, b: Op, c: Op)
    requires Shaped(s)
    ensures Run(s, [a, b, c])[2] == Step(Step(Step(s, a).0, b).0, c).1
  {
    var t := Step(s, a).0;
    var u := Step(t, b).0;
    assert [a, b, c][1..] == [b, c] && [b, c][1..] == [c] && [c][1..] == [];
    assert Run(s, [a, b, c]) == [Step(s, a).1] + Run(t, [b, c]);
    assert Run(t, [b, c]) == [Step(t, b).1] + Run(u, [c]);
    assert Run(u, [c])[0] == Step(u, c).1;
  }

  lemma ThirdFired(a: Op, b: Op, c: Op)
    ensures Fired(ZERO, [a, b, c])[2] == StepClock(StepClock(StepClock(ZERO, a).0, b).0, c).1
  {
    var t := StepClock(ZERO, a).0;
    var u := StepClock(t, b).0;
    assert [a, b, c][1..] == [b, c] && [b, c][1..] == [c] && [c][1..] == [];
    assert Fired(ZERO, [a, b, c]) == [StepClock(ZERO, a).1] + Fired(t, [b, c]);
    assert Fired(t, [b, c]) == [StepClock(t, b).1] + Fired(u, [c]);
    assert Fired(u, [c])[0] == StepClock(u, c).1;
  }

  /** A run in which the shorter of two delays with one key is due and not returned. */
  lemma Missed(q: nat, d: nat, e: nat)
    requires q > 0 && d / q == e / q && d < e
    ensures var ops, s := [Schedule(e), Schedule(d), Advance(d)], FixedStore(F.NewFixed(q));
            && Admissible(0, 0, ops) && Run(s, ops)[2] == [] && Timer(1, d) in Fired(ZERO, ops)[2]
  {
    var ops := [Schedule(e), Schedule(d), Advance(d)];
    MissedRun(q, d, e);
    ThirdFired(ops[0], ops[1], ops[2]);
    assert ops[1..] == [Schedule(d), Advance(d)] && ops[1..][1..] == [Advance(d)] && [Advance(d)][1..] == [];
    assert Admissible(0, 2, [Advance(d)]);
    assert Admissible(0, 1, ops[1..]);
  }

  lemma MissedRun(q: nat, d: nat, e: nat)
    requires q > 0 && d / q == e / q && d < e
    ensures Run(FixedStore(F.NewFixed(q)), [Schedule(e), Schedule(d), Advance(d)])[2] == []
  {
    F.HeldBack(q, d, e, d);
    ThirdReturn(FixedStore(F.NewFixed(q)), Schedule(e), Schedule(d), Advance(d));
  }

  lemma SharedKey(q: nat, delays: iset<nat>) returns (d: nat, e: nat)
    requires q > 0 && !F.KeysApart(delays, q)
    ensures d in delays && e in delays && d / q == e / q && d < e
  {
    d, e :| d in delays && e in delays && d / q == e / q && d != e;
    if e < d { d, e := e, d; }
  }

  lemma ExactRun(q: nat, delays: iset<nat>, ops: seq<Op>)
    requires q > 0 && F.KeysApart(delays, q) && Admissible(0, 0, ops) && From(ops, delays)
    ensures var s := FixedStore(F.NewFixed(q)); Returns(s, Run(s, ops), Fired(ZERO, ops))
  {
    var s := FixedStore(F.NewFixed(q));
    FixedListLaw(q, ops);
    F.NewFixedView(q);
    TidyRun(s.fixed, ZERO, delays, ops);
    FollowsExactly(ZERO, ops, Taken(Run(s, ops)));
  }

  /** Every run with delays from a given set returns what the clock returns, operation by operation, if
      and only if no two different delays of the set share a key. */
  lemma FixedListExact(q: nat, delays: iset<nat>)
    requires q > 0
    ensures var s := FixedStore(F.NewFixed(q));
            (forall ops :: Admissible(0, 0, ops) && From(ops, delays) ==> Returns(s, Run(s, ops), Fired(ZERO, ops)))
              <==> F.KeysApart(delays, q)
  {
    var s := FixedStore(F.NewFixed(q));
    if F.KeysApart(delays, q) {
      forall ops | Admissible(0, 0, ops) && From(ops, delays) ensures Returns(s, Run(s, ops), Fired(ZERO, ops)) {
        ExactRun(q, delays, ops);
      }
    } else {
      var d, e := SharedKey(q, delays);
      Missed(q, d, e);
      var ops := [Schedule(e), Schedule(d), Advance(d)];
      assert From(ops, delays);
      assert Timer(1, d) in multiset(Fired(ZERO, ops)[2]);
    }
  }
}
