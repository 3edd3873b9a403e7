/**
 The wheels with ticks of several time units. A delay is rounded down to whole ticks, and time to the
 tick it falls in; so a wheel of resolution `r` is a clock of time units that changes every delay by what
 the two roundings lose.
 */
module Resolutions {
  import opened TimerSpec
  import opened Agreement

  predicate IsWheel(s: Store) {
    s.WheelStore? || s.HierStore?
  }

  /** The operation in ticks that an operation in time units amounts to. */
  function Coarse(op: Op, r: nat): Op
    requires r > 0
  {
    match op
    case Schedule(delay) => Schedule(delay / r)
    case Cancel(_) => op
    case Advance(now) => Advance(now / r)
  }

  function CoarseAll(ops: seq<Op>, r: nat): (cs: seq<Op>)
    requires r > 0
    ensures |cs| == |ops|
    decreases |ops|
  {
    if ops == [] then [] else [Coarse(ops[0], r)] + CoarseAll(ops[1..], r)
  }

  /** The ticks a wheel makes of a delay: at least one, and a rotation more for an exact multiple of the
      slot count. */
  function Counted(s: Store, r: nat, delay: nat): nat
    requires Shaped(s) && IsWheel(s) && r > 0
  {
    Promise(s, Schedule(delay / r)).delay
  }

  /** The time from which a wheel returns a timer scheduled at `now`: the start of its tick. */
  function Release(s: Store, r: nat, now: nat, delay: nat): (when: nat)
    requires Shaped(s) && IsWheel(s) && r > 0
    ensures when > now
  {
    var ticks := now / r + Counted(s, r, delay);
    TickAhead(r, now, Counted(s, r, delay));
    ticks * r
  }

  lemma TickAhead(r: nat, now: nat, ticks: nat)
    requires r > 0 && ticks > 0
    ensures (now / r + ticks) * r > now
  {
    assert (now / r + ticks) * r == (now / r) * r + ticks * r;
    assert ticks * r >= r;
  }

  /** The run of time units that a wheel's run amounts to. */
  function Rounded(s: Store, r: nat, now: nat, ops: seq<Op>): (rs: seq<Op>)
    requires Shaped(s) && IsWheel(s) && r > 0
    ensures |rs| == |ops|
    decreases |ops|
  {
    if ops == [] then [] else
    [RoundedOp(s, r, now, ops[0])] + Rounded(s, r, if ops[0].Advance? then ops[0].now else now, ops[1..])
  }

  function RoundedOp(s: Store, r: nat, now: nat, op: Op): Op
    requires Shaped(s) && IsWheel(s) && r > 0
  {
    if op.Schedule? then Schedule(Release(s, r, now, op.delay) - now) else op
  }

  // ----- Ticks and time units side by side -----

  function Stretch(t: Timer, r: nat): Timer {
    Timer(t.id, t.when * r)
  }

  function StretchSet(ts: set<Timer>, r: nat): set<Timer> {
    set t | t in ts :: Stretch(t, r)
  }

  /** The second clock is the first one in ticks. */
  ghost predicate InTicks(c: Clock, k: Clock, r: nat)
    requires r > 0
  {
    c.now / r == k.now && c.next == k.next && c.pending == StretchSet(k.pending, r)
  }

  lemma StretchDue(ts: set<Timer>, r: nat, now: nat)
    requires r > 0
    ensures Due(StretchSet(ts, r), now) == StretchSet(Due(ts, now / r), r)
    ensures StretchSet(ts, r) - Due(StretchSet(ts, r), now) == StretchSet(ts - Due(ts, now / r), r)
  {
    forall t | t in ts ensures t.when * r <= now <==> t.when <= now / r {
      InTime(t.when, r, now);
    }
    Apart(ts, Due(ts, now / r), r);
  }

  lemma InTime(when: nat, r: nat, now: nat)
    requires r > 0
    ensures when * r <= now <==> when <= now / r
  {
    if when < now / r {
      TicksApart(when, now / r, r);
    } else if when > now / r {
      TicksApart(now / r, when, r);
    }
  }

  lemma TicksApart(a: nat, b: nat, r: nat)
    requires a < b
    ensures a * r + r <= b * r
  {
    assert (b - a - 1) * r >= 0;
    assert b * r == a * r + r + (b - a - 1) * r;
  }

  /** Stretching keeps different timers different. */
  lemma Apart(ts: set<Timer>, us: set<Timer>, r: nat)
    requires r > 0 && us <= ts
    ensures StretchSet(ts, r) - StretchSet(us, r) == StretchSet(ts - us, r)
  {
    forall t, u | t in ts && u in us && Stretch(t, r) == Stretch(u, r) ensures t == u {
      SameWhen(t.when, u.when, r);
    }
  }

  lemma SameWhen(a: nat, b: nat, r: nat)
    requires r > 0 && a * r == b * r
    ensures a == b
  {
    assert (a - b) * r == 0;
  }

  lemma InTicksStep(s: Store, r: nat, c: Clock, k: Clock, op: Op)
    requires Shaped(s) && IsWheel(s) && r > 0 && InTicks(c, k, r)
    ensures var (d, out) := StepClock(c, RoundedOp(s, r, c.now, op));
            var (m, ticked) := StepClock(k, Promise(s, Coarse(op, r)));
            InTicks(d, m, r) && out == StretchSet(ticked, r)
  {
    match op {
      case Schedule(delay) =>
        var t := Timer(k.next, k.now + Counted(s, r, delay));
        assert StretchSet(k.pending + {t}, r) == StretchSet(k.pending, r) + {Stretch(t, r)};
      case Cancel(id) =>
        assert StretchSet(Without(k.pending, id), r) == Without(StretchSet(k.pending, r), id);
      case Advance(now) =>
        StretchDue(k.pending, r, now);
    }
  }

  lemma PromisesCons(s: Store, ops: seq<Op>)
    requires Shaped(s) && ops != []
    ensures Promises(s, ops) == [Promise(s, ops[0])] + Promises(s, ops[1..])
  {
  }

  ghost predicate Stretched(fired: seq<set<Timer>>, ticked: seq<set<Timer>>, r: nat) {
    |fired| == |ticked| && forall i :: 0 <= i < |fired| ==> fired[i] == StretchSet(ticked[i], r)
  }

  lemma {:induction false} InTicksRun(s: Store, r: nat, c: Clock, k: Clock, ops: seq<Op>)
    requires Shaped(s) && IsWheel(s) && r > 0 && InTicks(c, k, r)
    ensures Stretched(Fired(c, Rounded(s, r, c.now, ops)), Fired(k, Promises(s, CoarseAll(ops, r))), r)
    decreases |ops|
  {
    if ops != [] {
      var op, p := RoundedOp(s, r, c.now, ops[0]), Promise(s, Coarse(ops[0], r));
      InTicksStep(s, r, c, k, ops[0]);
      PromisesCons(s, CoarseAll(ops, r));
      assert CoarseAll(ops, r)[1..] == CoarseAll(ops[1..], r);
      InTicksRun(s, r, StepClock(c, op).0, StepClock(k, p).0, ops[1..]);
      FiredCons(c, op, Rounded(s, r, StepClock(c, op).0.now, ops[1..]));
      FiredCons(k, p, Promises(s, CoarseAll(ops[1..], r)));
    }
  }

  lemma FiredCons(c: Clock, op: Op, ops: seq<Op>)
    ensures Fired(c, [op] + ops) == [StepClock(c, op).1] + Fired(StepClock(c, op).0, ops)
  {
    assert ([op] + ops)[1..] == ops;
  }

  lemma {:induction false} CoarseAdmissible(now: nat, next: nat, ops: seq<Op>, r: nat)
    requires r > 0 && Admissible(now, next, ops)
    ensures Admissible(now / r, next, CoarseAll(ops, r))
    decreases |ops|
  {
    if ops != [] {
      assert CoarseAll(ops, r)[1..] == CoarseAll(ops[1..], r);
      match ops[0] {
        case Schedule(_) => CoarseAdmissible(now, next + 1, ops[1..], r);
        case Cancel(_) => CoarseAdmissible(now, next, ops[1..], r);
        case Advance(t) =>
          Later(now, t, r);
          CoarseAdmissible(t, next, ops[1..], r);
      }
    }
  }

  lemma Later(a: nat, b: nat, r: nat)
    requires r > 0 && a <= b
    ensures a / r <= b / r
  {
    InTime(a / r, r, b);
  }

  // ----- The law of the wheels -----

  function StretchAll(ts: seq<Timer>, r: nat): (us: seq<Timer>)
    ensures |us| == |ts|
  {
    seq(|ts|, i requires 0 <= i < |ts| => Stretch(ts[i], r))
  }

  /** What a run returned, its ticks read as time units. */
  function StretchRun(outs: seq<seq<Timer>>, r: nat): (us: seq<seq<Timer>>)
    ensures |us| == |outs|
  {
    seq(|outs|, i requires 0 <= i < |outs| => StretchAll(outs[i], r))
  }

  lemma FirstOut(t: Timer, rest: seq<Timer>, all: set<Timer>)
    requires multiset([t] + rest) == multiset(all)
    ensures t in all && multiset(rest) == multiset(all - {t})
  {
    assert multiset([t] + rest) == multiset{t} + multiset(rest);
    assert t in multiset(all);
    forall u ensures multiset(rest)[u] == multiset(all - {t})[u] {
      assert multiset(all)[u] == multiset{t}[u] + multiset(rest)[u];
    }
  }

  lemma {:induction false} StretchEach(ts: seq<Timer>, all: set<Timer>, r: nat)
    requires r > 0 && multiset(ts) == multiset(all)
    ensures multiset(StretchAll(ts, r)) == multiset(StretchSet(all, r))
    decreases |ts|
  {
    if ts == [] {
      assert |multiset(all)| == 0;
      assert all == {};
    } else {
      var t, rest := ts[0], ts[1..];
      assert ts == [t] + rest;
      FirstOut(t, rest, all);
      StretchEach(rest, all - {t}, r);
      assert StretchAll(ts, r) == [Stretch(t, r)] + StretchAll(rest, r);
      Apart(all, {t}, r);
      assert StretchSet({t}, r) == {Stretch(t, r)};
      assert StretchSet(all, r) == StretchSet(all - {t}, r) + {Stretch(t, r)};
    }
  }

  lemma StretchOrder(s: Store, ts: seq<Timer>, r: nat)
    requires IsWheel(s) && r > 0 && InOrder(s, ts)
    ensures InOrder(s, StretchAll(ts, r))
  {
    forall i, j | 0 <= i < j < |ts|
      ensures ts[i].when < ts[j].when ==> ts[i].when * r < ts[j].when * r
    {
      if ts[i].when < ts[j].when { TicksApart(ts[i].when, ts[j].when, r); }
    }
  }

  /** Every run of a wheel with ticks of `r` time units, from its empty state, is a run of the clock in
      time units whose timers are each released at the start of the tick the wheel counted for them. */
  lemma WheelLaw(s: Store, r: nat, ops: seq<Op>)
    requires Shaped(s) && IsWheel(s) && Simulates(s, ZERO) && r > 0 && Admissible(0, 0, ops)
    ensures Returns(s, StretchRun(Run(s, CoarseAll(ops, r)), r), Fired(ZERO, Rounded(s, r, 0, ops)))
  {
    var cs := CoarseAll(ops, r);
    var outs, fired, ticked := Run(s, cs), Fired(ZERO, Rounded(s, r, 0, ops)), Fired(ZERO, Promises(s, cs));
    CoarseAdmissible(0, 0, ops, r);
    RunExact(s, ZERO, cs);
    assert StretchSet({}, r) == {};
    InTicksRun(s, r, ZERO, ZERO, ops);
    StretchReturns(s, outs, ticked, fired, r);
  }

  lemma StretchReturns(s: Store, outs: seq<seq<Timer>>, ticked: seq<set<Timer>>, fired: seq<set<Timer>>, r: nat)
    requires IsWheel(s) && r > 0 && Returns(s, outs, ticked) && Stretched(fired, ticked, r)
    ensures Returns(s, StretchRun(outs, r), fired)
  {
    forall i | 0 <= i < |outs|
      ensures multiset(StretchAll(outs[i], r)) == multiset(fired[i]) && InOrder(s, StretchAll(outs[i], r))
    {
      StretchEach(outs[i], ticked[i], r);
      StretchOrder(s, outs[i], r);
    }
  }

  // ----- What the roundings cost -----

  /** What a wheel adds to a delay: a tick to one shorter than a tick, and a rotation to one whose ticks
      are an exact multiple of the slot count. */
  function Added(s: Store, r: nat, delay: nat): nat
    requires Shaped(s) && r > 0
  {
    (if delay < r then r else 0) + Turn(s, r, delay) * r
  }

  function Turn(s: Store, r: nat, delay: nat): nat
    requires Shaped(s) && r > 0
  {
    if s.WheelStore? && Ticks(delay, r) % s.wheel.n == 0 then s.wheel.n else 0
  }

  /** The release is off by exactly what the delay and the time lose to rounding, less what is added. So
      it is early by at most two ticks less two time units. */
  lemma RoundedExactly(s: Store, r: nat, now: nat, delay: nat)
    requires Shaped(s) && IsWheel(s) && r > 0
    ensures Release(s, r, now, delay) + now % r + delay % r == now + delay + Added(s, r, delay)
    ensures now + delay <= Release(s, r, now, delay) + 2 * (r - 1)
  {
    var turn := Turn(s, r, delay);
    var a, b := now / r, Ticks(delay, r);
    CountedTurn(s, r, delay);
    Spread(a, b, turn, r);
    WholeTicks(r, delay);
  }

  lemma Spread(a: nat, b: nat, c: nat, r: nat)
    ensures (a + (b + c)) * r == a * r + b * r + c * r
  {
  }

  lemma CountedTurn(s: Store, r: nat, delay: nat)
    requires Shaped(s) && IsWheel(s) && r > 0
    ensures Counted(s, r, delay) == Ticks(delay, r) + Turn(s, r, delay)
  {
  }

  lemma WholeTicks(r: nat, delay: nat)
    requires r > 0
    ensures Ticks(delay, r) * r == (delay - delay % r) + if delay < r then r else 0
  {
    if delay < r {
      assert delay / r == 0;
    } else {
      InTime(1, r, delay);
    }
  }

  /** Every schedule of the run is kept as it was asked for. */
  predicate OnTick(s: Store, r: nat, now: nat, ops: seq<Op>)
    requires Shaped(s) && r > 0
    decreases |ops|
  {
    ops != [] ==>
      && (ops[0].Schedule? ==> now % r + ops[0].delay % r == Added(s, r, ops[0].delay))
      && OnTick(s, r, if ops[0].Advance? then ops[0].now else now, ops[1..])
  }

  /** The run is the clock's own if and only if, at each schedule, what the roundings lose is what the
      wheel adds. */
  lemma {:induction false} RoundedSame(s: Store, r: nat, now: nat, ops: seq<Op>)
    requires Shaped(s) && IsWheel(s) && r > 0
    ensures Rounded(s, r, now, ops) == ops <==> OnTick(s, r, now, ops)
    decreases |ops|
  {
    if ops != [] {
      var later := if ops[0].Advance? then ops[0].now else now;
      if ops[0].Schedule? { RoundedExactly(s, r, now, ops[0].delay); }
      RoundedSame(s, r, later, ops[1..]);
      assert ops == [ops[0]] + ops[1..];
      assert Rounded(s, r, now, ops)[1..] == Rounded(s, r, later, ops[1..]);
    }
  }

  // ----- One timer -----

  function OneTimer(now: nat, delay: nat, t: nat): seq<Op> {
    [Advance(now), Schedule(delay), Advance(t)]
  }

  lemma OneFired(now: nat, delay: nat, t: nat)
    ensures Fired(ZERO, OneTimer(now, delay, t))[2] == if now + delay <= t then {Timer(0, now + delay)} else {}
  {
    var ops := OneTimer(now, delay, t);
    var c := StepClock(ZERO, ops[0]).0;
    var d := StepClock(c, ops[1]).0;
    assert ops[1..][1..] == [Advance(t)];
    assert Fired(ZERO, ops)[2] == Fired(c, ops[1..])[1] == Fired(d, [Advance(t)])[0];
    assert d.pending == {Timer(0, now + delay)};
  }

  lemma OneRounded(s: Store, r: nat, now: nat, delay: nat, t: nat)
    requires Shaped(s) && IsWheel(s) && r > 0
    ensures Rounded(s, r, 0, OneTimer(now, delay, t)) == OneTimer(now, Release(s, r, now, delay) - now, t)
  {
    var ops := OneTimer(now, delay, t);
    assert ops[1..] == [Schedule(delay), Advance(t)] && ops[1..][1..] == [Advance(t)] && [Advance(t)][1..] == [];
    assert Rounded(s, r, now, [Advance(t)]) == [Advance(t)];
    assert Rounded(s, r, now, ops[1..]) == [RoundedOp(s, r, now, Schedule(delay)), Advance(t)];
  }

  lemma OneAdmissible(now: nat, delay: nat, t: nat)
    requires now <= t
    ensures Admissible(0, 0, OneTimer(now, delay, t))
  {
    var ops := OneTimer(now, delay, t);
    assert ops[1..] == [Schedule(delay), Advance(t)] && ops[1..][1..] == [Advance(t)] && [Advance(t)][1..] == [];
    assert Admissible(now, 1, [Advance(t)]);
    assert Admissible(now, 0, ops[1..]);
  }

  /** A timer scheduled at `now` comes back from the next advance if and only if that reaches its release. */
  lemma ReturnedAt(s: Store, r: nat, now: nat, delay: nat, t: nat)
    requires Shaped(s) && IsWheel(s) && Simulates(s, ZERO) && r > 0 && now <= t
    ensures var out := Run(s, CoarseAll(OneTimer(now, delay, t), r))[2];
            if Release(s, r, now, delay) <= t then out == [Timer(0, now / r + Counted(s, r, delay))] else out == []
  {
    var ops := OneTimer(now, delay, t);
    var out, when := Run(s, CoarseAll(ops, r))[2], Release(s, r, now, delay);
    var fired := Fired(ZERO, Rounded(s, r, 0, ops));
    assert multiset(StretchAll(out, r)) == multiset(fired[2]) by {
      OneAdmissible(now, delay, t);
      WheelLaw(s, r, ops);
    }
    assert fired[2] == if when <= t then {Timer(0, when)} else {} by {
      OneRounded(s, r, now, delay, t);
      OneFired(now, when - now, t);
    }
    OnlyOne(out, r, now / r + Counted(s, r, delay), when <= t);
  }

  lemma OnlyOne(out: seq<Timer>, r: nat, ticks: nat, back: bool)
    requires r > 0
    requires multiset(StretchAll(out, r)) == multiset(if back then {Timer(0, ticks * r)} else {})
    ensures out == if back then [Timer(0, ticks)] else []
  {
    assert |multiset(StretchAll(out, r))| == |out|;
    if back {
      assert StretchAll(out, r)[0] in multiset(StretchAll(out, r));
      SameWhen(out[0].when, ticks, r);
    }
  }

  /** Scheduled at `now`, a delay is kept exactly, whenever the wheel is advanced next, if and only if what
      the time and the delay lose to rounding is what the wheel adds. */
  lemma KeptExactly(s: Store, r: nat, now: nat, delay: nat)
    requires Shaped(s) && IsWheel(s) && Simulates(s, ZERO) && r > 0
    ensures (forall t :: now <= t ==>
               (Run(s, CoarseAll(OneTimer(now, delay, t), r))[2] != [] <==> now + delay <= t))
            <==> now % r + delay % r == Added(s, r, delay)
  {
    var when := Release(s, r, now, delay);
    RoundedExactly(s, r, now, delay);
    forall t | now <= t
      ensures Run(s, CoarseAll(OneTimer(now, delay, t), r))[2] != [] <==> when <= t
    {
      ReturnedAt(s, r, now, delay, t);
    }
    if when != now + delay {
      var t := if when < now + delay then when else now + delay;
      assert Run(s, CoarseAll(OneTimer(now, delay, t), r))[2] != [] <==> when <= t;
    }
  }

  /** Ticks of two time units or more: a timer can come back two ticks less two time units early, and no
      more. A wheel of one slot is left out, for it adds a tick to every delay. */
  lemma EarlyTimer(s: Store, r: nat)
    requires Shaped(s) && IsWheel(s) && Simulates(s, ZERO) && r >= 2 && (s.WheelStore? ==> s.wheel.n > 1)
    ensures var now, delay := r - 1, 2 * r - 1;
            && Run(s, CoarseAll(OneTimer(now, delay, r), r))[2] == [Timer(0, 1)]
            && Fired(ZERO, OneTimer(now, delay, r))[2] == {} && now + delay == r + 2 * (r - 1)
  {
    var now, delay := r - 1, 2 * r - 1;
    InTime(1, r, delay);
    InTime(2, r, delay);
    assert delay / r == 1 && now / r == 0;
    assert Counted(s, r, delay) == 1;
    assert Release(s, r, now, delay) == r;
    ReturnedAt(s, r, now, delay, r);
    OneFired(now, delay, r);
  }
}
