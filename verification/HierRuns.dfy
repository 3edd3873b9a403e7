/** The order in which the hierarchical wheel returns timers, over whole runs. */
module HierRuns {
  import opened TimerSpec
  import opened Agreement
  import opened HierOrder
  import opened FixedListRuns
  import V = HierWheelModel
  import W = HashedWheelModel

  /** When each handle of a run was scheduled. */
  function Births(now: nat, ops: seq<Op>): seq<nat>
    decreases |ops|
  {
    if ops == [] then [] else BirthOf(now, ops[0]) + Births(if ops[0].Advance? then ops[0].now else now, ops[1..])
  }

  function BirthOf(now: nat, op: Op): seq<nat> {
    if op.Schedule? then [now] else []
  }

  lemma LinedStep(born: seq<nat>, h: V.Hier, op: Op)
    requires Steady(born, h) && (op.Advance? ==> h.cursor <= op.now)
    ensures var (g, out) := HierStep(h, op);
            && Steady(born + BirthOf(h.cursor, op), g) == true && InLine(born, out) == true
            && g.cursor == if op.Advance? then op.now else h.cursor
  {
    match op {
      case Schedule(delay) => InsertLined(born, h, AtLeastOne(delay));
      case Cancel(id) =>
        RemoveLined(born, h, id);
        assert born + [] == born;
      case Advance(now) =>
        AdvanceLined(born, h, now);
        V.AdvanceView(h, now);
        assert born + [] == born;
    }
  }

  ghost predicate AllInLine(born: seq<nat>, outs: seq<seq<Timer>>) {
    forall k :: 0 <= k < |outs| ==> InLine(born, outs[k])
  }

  lemma InLineMore(born: seq<nat>, more: seq<nat>, out: seq<Timer>)
    requires InLine(born, out)
    ensures InLine(born + more, out) == true
  {
    forall t | t in out ensures Issued(born + more, t.id, t.when) && LifeOf(born + more, t) == LifeOf(born, t) {
    }
    forall i, j | 0 <= i < j < |out| ensures Before(born + more, out[i], out[j]) {
      assert out[i] in out && out[j] in out && Before(born, out[i], out[j]);
    }
  }

  lemma AllCons(born: seq<nat>, out: seq<Timer>, outs: seq<seq<Timer>>)
    requires InLine(born, out) == true && AllInLine(born, outs) == true
    ensures AllInLine(born, [out] + outs) == true
  {
  }

  lemma BirthsFirst(born: seq<nat>, now: nat, ops: seq<Op>)
    requires ops != []
    ensures (born + BirthOf(now, ops[0])) + Births(if ops[0].Advance? then ops[0].now else now, ops[1..])
            == born + Births(now, ops)
  {
  }

  lemma {:induction false} LinedRun(born: seq<nat>, h: V.Hier, ops: seq<Op>)
    requires |h.buckets| == V.BUCKETS && Steady(born, h) == true && Admissible(h.cursor, h.next, ops)
    ensures AllInLine(born + Births(h.cursor, ops), Run(HierStore(h), ops)) == true
    decreases |ops|
  {
    if ops == [] {
    } else {
      var (g, out) := HierStep(h, ops[0]);
      LinedStep(born, h, ops[0]);
      RunFirst(HierStore(h), ops);
      LinedRun(born + BirthOf(h.cursor, ops[0]), g, ops[1..]);
      BirthsFirst(born, h.cursor, ops);
      InLineMore(born, Births(h.cursor, ops), out);
      AllCons(born + Births(h.cursor, ops), out, Run(HierStore(g), ops[1..]));
    }
  }

  lemma NewSteady()
    ensures Steady([], V.NewHier())
  {
    V.NewHierView();
  }

  /** In every run of the hierarchical wheel each advance returns its timers by deadline, and those of one
      deadline in the order that their schedule times and handles settle. */
  lemma HierTieOrder(ops: seq<Op>)
    requires Admissible(0, 0, ops)
    ensures AllInLine(Births(0, ops), Run(HierStore(V.NewHier()), ops)) == true
  {
    assert AllInLine([] + Births(0, ops), Run(HierStore(V.NewHier()), ops)) == true by {
      NewSteady();
      LinedRun([], V.NewHier(), ops);
    }
    assert [] + Births(0, ops) == Births(0, ops);
  }

  // ----- Delays below 64 ticks -----

  /** No timer lives for 64 ticks or more. */
  ghost predicate ShortLived(born: seq<nat>, out: seq<Timer>) {
    forall t :: t in out ==> Issued(born, t.id, t.when) && t.when < born[t.id] + 64
  }

  lemma ShortSorted(born: seq<nat>, out: seq<Timer>)
    requires InLine(born, out) && ShortLived(born, out)
    ensures Sorted(true, out)
  {
    forall i, j | 0 <= i < j < |out| ensures Precedes(true, out[i], out[j]) {
      assert out[i] in out && out[j] in out && Before(born, out[i], out[j]);
      NeverMoved(out[i].when, born[out[i].id], out[i].when);
      NeverMoved(out[j].when, born[out[j].id], out[j].when);
    }
  }

  /** Timers scheduled at their birth with a delay of at most `max`. */
  ghost predicate Grown(born: seq<nat>, ts: set<Timer>, max: nat) {
    forall t :: t in ts ==> t.id < |born| && born[t.id] <= t.when <= born[t.id] + max
  }

  lemma GrownMore(born: seq<nat>, more: seq<nat>, ts: set<Timer>, max: nat)
    requires Grown(born, ts, max)
    ensures Grown(born + more, ts, max) == true
  {
  }

  lemma GrownStep(born: seq<nat>, c: Clock, max: nat, op: Op)
    requires c.next == |born| && Grown(born, c.pending, max) && (op.Schedule? ==> op.delay <= max)
    ensures var (d, out) := StepClock(c, op);
            var more := born + BirthOf(c.now, op);
            && d.next == |more| && Grown(more, d.pending, max) == true && Grown(born, out, max) == true
            && d.now == if op.Advance? then op.now else c.now
  {
  }

  ghost predicate AllGrown(born: seq<nat>, outs: seq<set<Timer>>, max: nat) {
    forall k :: 0 <= k < |outs| ==> Grown(born, outs[k], max)
  }

  lemma {:induction false} GrownRun(born: seq<nat>, c: Clock, max: nat, ops: seq<Op>)
    requires c.next == |born| && Grown(born, c.pending, max) == true && Delays(ops, max)
    ensures AllGrown(born + Births(c.now, ops), Fired(c, ops), max)
    decreases |ops|
  {
    if ops != [] {
      var (d, out) := StepClock(c, ops[0]);
      GrownStep(born, c, max, ops[0]);
      assert forall i :: 0 <= i < |ops[1..]| ==> ops[1..][i] == ops[i + 1];
      GrownRun(born + BirthOf(c.now, ops[0]), d, max, ops[1..]);
      BirthsFirst(born, c.now, ops);
      GrownMore(born, Births(c.now, ops), out, max);
    }
  }

  lemma Returned(s: Store, max: nat, ops: seq<Op>, k: nat)
    requires Fresh(s, max) && Delays(ops, max) && Admissible(0, 0, ops) && k < |ops|
    ensures Shaped(s) && multiset(Run(s, ops)[k]) == multiset(Fired(ZERO, ops)[k]) && InOrder(s, Run(s, ops)[k])
  {
    FourDesignsAgree(s, max, ops);
  }

  /** Over every run with delays of 1 to 63 ticks the hierarchical wheel returns the very sequences of the
      sized wheel: by deadline, and of one deadline the timer scheduled last first. */
  lemma ShortDelaysAreSized(max: nat, ops: seq<Op>)
    requires max < 64 && Delays(ops, max) && Admissible(0, 0, ops)
    ensures Run(HierStore(V.NewHier()), ops) == Run(WheelStore(W.NewWheel(max + 2)), ops)
    ensures forall k :: 0 <= k < |ops| ==> Sorted(true, Run(HierStore(V.NewHier()), ops)[k])
  {
    forall k | 0 <= k < |ops|
      ensures Run(HierStore(V.NewHier()), ops)[k] == Run(WheelStore(W.NewWheel(max + 2)), ops)[k]
      ensures Sorted(true, Run(HierStore(V.NewHier()), ops)[k])
    {
      ShortReturn(max, ops, k);
    }
  }

  lemma ShortReturn(max: nat, ops: seq<Op>, k: nat)
    requires max < 64 && Delays(ops, max) && Admissible(0, 0, ops) && k < |ops|
    ensures Run(HierStore(V.NewHier()), ops)[k] == Run(WheelStore(W.NewWheel(max + 2)), ops)[k]
    ensures Sorted(true, Run(HierStore(V.NewHier()), ops)[k]) == true
  {
    var xs, ys := Run(HierStore(V.NewHier()), ops)[k], Run(WheelStore(W.NewWheel(max + 2)), ops)[k];
    assert InLine(Births(0, ops), xs) by {
      HierTieOrder(ops);
    }
    assert Grown(Births(0, ops), Fired(ZERO, ops)[k], max) by {
      ShortBirths(max, ops);
    }
    Returned(HierStore(V.NewHier()), max, ops, k);
    Returned(WheelStore(W.NewWheel(max + 2)), max, ops, k);
    SameLine(Births(0, ops), xs, ys, Fired(ZERO, ops)[k], max);
  }

  lemma ShortBirths(max: nat, ops: seq<Op>)
    requires Delays(ops, max)
    ensures AllGrown(Births(0, ops), Fired(ZERO, ops), max)
  {
    GrownRun([], ZERO, max, ops);
    assert [] + Births(0, ops) == Births(0, ops);
  }

  lemma SameLine(born: seq<nat>, xs: seq<Timer>, ys: seq<Timer>, ts: set<Timer>, max: nat)
    requires InLine(born, xs) && Sorted(true, ys) && multiset(xs) == multiset(ts) == multiset(ys)
    requires max < 64 && Grown(born, ts, max)
    ensures xs == ys && Sorted(true, xs)
  {
    assert forall t :: (t in xs <==> t in multiset(xs)) && (t in ys <==> t in multiset(ys));
    ShortSorted(born, xs);
    SortedUnique(true, xs, ys);
  }

  // ----- Longer delays -----

  function Pair(delay: nat): seq<Op> {
    [Schedule(delay), Schedule(delay), Advance(delay)]
  }

  lemma PairRun(delay: nat)
    requires delay >= 1
    ensures Admissible(0, 0, Pair(delay)) && Delays(Pair(delay), delay) && Births(0, Pair(delay)) == [0, 0]
    ensures Fired(ZERO, Pair(delay))[2] == {Timer(0, delay), Timer(1, delay)}
  {
    var ops := Pair(delay);
    assert ops[1..] == [Schedule(delay), Advance(delay)] && ops[1..][1..] == [Advance(delay)];
    assert [Advance(delay)][1..] == [];
    assert Births(delay, []) == [] && Births(0, [Advance(delay)]) == [] + [];
    assert Births(0, ops[1..]) == [0] + Births(0, [Advance(delay)]);
    assert Births(0, ops) == [0] + Births(0, ops[1..]);
    assert Admissible(0, 2, [Advance(delay)]) && Admissible(0, 1, ops[1..]);
    ThirdFired(ops[0], ops[1], ops[2]);
  }

  lemma TwoTimers(out: seq<Timer>, when: nat)
    requires multiset(out) == multiset({Timer(0, when), Timer(1, when)})
    ensures out == [Timer(0, when), Timer(1, when)] || out == [Timer(1, when), Timer(0, when)]
  {
    assert |out| == |multiset(out)| == 2;
    assert out[0] in multiset(out) && out[1] in multiset(out);
    assert out == [out[0], out[1]];
    assert multiset(out)[out[0]] == 1;
  }

  lemma PairTies(delay: nat, out: seq<Timer>)
    requires 64 <= delay < 4096 && |out| == 2 && InLine([0, 0], out)
    requires out == [Timer(0, delay), Timer(1, delay)] || out == [Timer(1, delay), Timer(0, delay)]
    ensures out == [Timer(0, delay), Timer(1, delay)]
  {
    assert out[0] in out && out[1] in out;
    TiesUpTo4095([0, 0], out[0], out[1]);
  }

  /** Two timers of 64 ticks scheduled together come back in schedule order, for a cascade has turned them
      round once. */
  lemma TurnedRound()
    ensures Run(HierStore(V.NewHier()), Pair(64))[2] == [Timer(0, 64), Timer(1, 64)]
  {
    var out := Run(HierStore(V.NewHier()), Pair(64))[2];
    PairRun(64);
    assert multiset(out) == multiset({Timer(0, 64), Timer(1, 64)}) by {
      Returned(HierStore(V.NewHier()), 64, Pair(64), 2);
    }
    TwoTimers(out, 64);
    assert InLine([0, 0], out) by {
      HierTieOrder(Pair(64));
    }
    PairTies(64, out);
  }

  /** The sized wheel returns the second first. */
  lemma SizedPair(max: nat)
    requires max >= 64
    ensures Run(WheelStore(W.NewWheel(max + 2)), Pair(64))[2] == [Timer(1, 64), Timer(0, 64)]
  {
    var s := WheelStore(W.NewWheel(max + 2));
    var out := Run(s, Pair(64))[2];
    PairRun(64);
    Returned(s, max, Pair(64), 2);
    TwoTimers(out, 64);
    LastFirst(out, 64);
  }

  lemma LastFirst(out: seq<Timer>, when: nat)
    requires Sorted(true, out)
    ensures out != [Timer(0, when), Timer(1, when)]
  {
    assert |out| >= 2 ==> Precedes(true, out[0], out[1]);
  }

  /** The hierarchical and the sized wheel return the same sequences in all runs with delays of 1 to `max`
      ticks if and only if `max` is below 64. */
  lemma SameAsSizedExactly(max: nat)
    ensures (forall ops :: Delays(ops, max) && Admissible(0, 0, ops) ==>
               Run(HierStore(V.NewHier()), ops) == Run(WheelStore(W.NewWheel(max + 2)), ops))
            <==> max < 64
  {
    if max < 64 {
      forall ops | Delays(ops, max) && Admissible(0, 0, ops)
        ensures Run(HierStore(V.NewHier()), ops) == Run(WheelStore(W.NewWheel(max + 2)), ops)
      {
        ShortDelaysAreSized(max, ops);
      }
    } else {
      PairRun(64);
      TurnedRound();
      SizedPair(max);
      assert Delays(Pair(64), max);
    }
  }
}
