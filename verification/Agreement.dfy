/**
 All the designs under one interface, any run of operations on any of them, and what the runs have in
 common: each design returns what the clock returns.
 */
module Agreement {
  import opened TimerSpec
  import H = HeapModel
  import W = HashedWheelModel
  import V = HierWheelModel
  import F = FixedListModel

  datatype Store =
    | HeapStore(heap: H.Heap)
    | WheelStore(wheel: W.Wheel)
    | HierStore(hier: V.Hier)
    | FixedStore(fixed: F.Fixed)

  predicate Shaped(s: Store) {
    match s
    case HeapStore(_) => true
    case WheelStore(w) => W.Shaped(w)
    case HierStore(h) => |h.buckets| == V.BUCKETS
    case FixedStore(f) => F.Shaped(f)
  }

  ghost function HeapStep(x: H.Heap, op: Op): (H.Heap, seq<Timer>) {
    match op
    case Schedule(d) => (H.Insert(x, d), [])
    case Cancel(id) => (H.Remove(x, id), [])
    case Advance(now) => H.AdvanceTo(x, now)
  }

  ghost function WheelStep(w: W.Wheel, op: Op): (W.Wheel, seq<Timer>)
    requires W.Shaped(w)
  {
    match op
    case Schedule(d) => (W.Insert(w, AtLeastOne(d)), [])
    case Cancel(id) => (W.Remove(w, id), [])
    case Advance(now) => W.AdvanceTo(w, now)
  }

  ghost function HierStep(h: V.Hier, op: Op): (V.Hier, seq<Timer>)
    requires |h.buckets| == V.BUCKETS
  {
    match op
    case Schedule(d) => (V.Insert(h, AtLeastOne(d)), [])
    case Cancel(id) => (V.Remove(h, id), [])
    case Advance(now) => V.AdvanceTo(h, now)
  }

  ghost function FixedStep(f: F.Fixed, op: Op): (F.Fixed, seq<Timer>)
    requires F.Shaped(f)
  {
    match op
    case Schedule(d) => (F.Insert(f, d), [])
    case Cancel(id) => (F.Remove(f, id), [])
    case Advance(now) => F.AdvanceTo(f, now)
  }

  ghost function Step(s: Store, op: Op): (r: (Store, seq<Timer>))
    requires Shaped(s)
    ensures Shaped(r.0) && SameKind(s, r.0)
  {
    match s
    case HeapStore(x) => (HeapStore(HeapStep(x, op).0), HeapStep(x, op).1)
    case WheelStore(w) => WheelKind(w, op); (WheelStore(WheelStep(w, op).0), WheelStep(w, op).1)
    case HierStore(h) => (HierStore(HierStep(h, op).0), HierStep(h, op).1)
    case FixedStore(f) => (FixedStore(FixedStep(f, op).0), FixedStep(f, op).1)
  }

  predicate SameKind(s: Store, t: Store) {
    match s
    case HeapStore(_) => t.HeapStore?
    case WheelStore(w) => t.WheelStore? && t.wheel.n == w.n
    case HierStore(_) => t.HierStore?
    case FixedStore(f) => t.FixedStore? && t.fixed.q == f.q
  }

  lemma WheelKind(w: W.Wheel, op: Op)
    requires W.Shaped(w)
    ensures W.Shaped(WheelStep(w, op).0) && WheelStep(w, op).0.n == w.n
  {
    if op.Advance? { AdvanceKind(w, op.now); }
  }

  lemma {:induction false} AdvanceKind(w: W.Wheel, target: nat)
    requires W.Shaped(w)
    ensures W.AdvanceTo(w, target).0.n == w.n
    decreases target - w.cursor
  {
    if w.cursor < target {
      AdvanceKind(W.Tick(w).0, target);
    }
  }

  /** What a run returns, one sequence for each operation. */
  ghost function Run(s: Store, ops: seq<Op>): (outs: seq<seq<Timer>>)
    requires Shaped(s)
    ensures |outs| == |ops|
    decreases |ops|
  {
    if ops == [] then [] else
    var (t, out) := Step(s, ops[0]);
    [out] + Run(t, ops[1..])
  }

  lemma RunFirst(s: Store, ops: seq<Op>)
    requires Shaped(s) && ops != []
    ensures Run(s, ops) == [Step(s, ops[0]).1] + Run(Step(s, ops[0]).0, ops[1..])
  {
  }

  /** The store at the end of a run. */
  ghost function Final(s: Store, ops: seq<Op>): (r: Store)
    requires Shaped(s)
    ensures Shaped(r) && SameKind(s, r)
    decreases |ops|
  {
    if ops == [] then s else Final(Step(s, ops[0]).0, ops[1..])
  }

  // ----- Refinement of the clock -----

  ghost predicate HeapInStep(x: H.Heap, c: Clock) {
    H.Inv(x) && x.now == c.now && x.next == c.next && H.Live(x) == c.pending
  }

  ghost predicate WheelInStep(w: W.Wheel, c: Clock) {
    W.Inv(w) && w.cursor == c.now && w.next == c.next && W.View(w) == c.pending
  }

  ghost predicate HierInStep(h: V.Hier, c: Clock) {
    V.Inv(h) && h.cursor == c.now && h.next == c.next && V.View(h) == multiset(c.pending)
  }

  ghost predicate FixedInStep(f: F.Fixed, c: Clock) {
    F.Inv(f) && f.now == c.now && f.next == c.next && F.View(f) == multiset(c.pending)
  }

  /** The store keeps its invariant and holds exactly the clock's pending timers. */
  ghost predicate Simulates(s: Store, c: Clock)
    requires Shaped(s)
  {
    && WellFormed(c)
    && match s
       case HeapStore(x) => HeapInStep(x, c)
       case WheelStore(w) => WheelInStep(w, c)
       case HierStore(h) => HierInStep(h, c)
       case FixedStore(f) => FixedInStep(f, c)
  }

  /** The operation on the clock that a store's own operation amounts to. Only the delay can differ: the
      wheels turn a delay of no ticks into one, and the hashed wheel adds a rotation to every exact
      multiple of its slot count. */
  function Promise(s: Store, op: Op): Op
    requires Shaped(s)
  {
    if !op.Schedule? then op else
    match s
    case WheelStore(w) => Schedule(W.Shift(AtLeastOne(op.delay), w.n))
    case HierStore(_) => Schedule(AtLeastOne(op.delay))
    case _ => op
  }

  /** How many ticks late a design may be, less one: none, but for the fixed list's quantum. */
  function Slack(s: Store): nat {
    if s.FixedStore? then s.fixed.q else 1
  }

  function Promises(s: Store, ops: seq<Op>): (r: seq<Op>)
    requires Shaped(s)
    ensures |r| == |ops|
  {
    seq(|ops|, i requires 0 <= i < |ops| => Promise(s, ops[i]))
  }

  /** The order in which a design returns timers that come due together. */
  ghost predicate InOrder(s: Store, out: seq<Timer>) {
    match s
    case HeapStore(_) => Sorted(false, out)
    case WheelStore(_) => Sorted(true, out)
    case HierStore(_) => forall i, j :: 0 <= i < j < |out| ==> out[i].when <= out[j].when
    case FixedStore(_) => true
  }

  lemma SortedMultiset(lifo: bool, xs: seq<Timer>)
    requires Sorted(lifo, xs)
    ensures multiset(xs) == multiset(Elems(xs))
  {
    forall t ensures multiset(xs)[t] == multiset(Elems(xs))[t] {
      if t in xs {
        var i :| 0 <= i < |xs| && xs[i] == t;
        assert xs == xs[..i] + [t] + xs[i + 1..];
        assert t !in xs[..i] && t !in xs[i + 1..];
        assert multiset(xs)[t] == 1;
      }
    }
  }

  lemma WithoutCount(pending: set<Timer>, left: multiset<Timer>, id: nat)
    requires forall t :: left[t] == if t.id == id then 0 else multiset(pending)[t]
    ensures left == multiset(Without(pending, id))
  {
    forall t ensures left[t] == multiset(Without(pending, id))[t] {
    }
  }

  lemma SplitDue(pending: set<Timer>, left: multiset<Timer>, out: seq<Timer>, now: nat)
    requires multiset(pending) == left + multiset(out)
    requires forall t :: t in out ==> t.when <= now
    requires forall t :: t in left ==> t.when > now
    ensures left == multiset(pending - Due(pending, now)) && multiset(out) == multiset(Due(pending, now))
  {
    forall t
      ensures left[t] == multiset(pending - Due(pending, now))[t]
      ensures multiset(out)[t] == multiset(Due(pending, now))[t]
    {
      assert multiset(pending)[t] == left[t] + multiset(out)[t];
      assert t in out <==> t in multiset(out);
    }
  }

  predicate Allowed(c: Clock, op: Op) {
    match op
    case Schedule(_) => true
    case Cancel(id) => id < c.next
    case Advance(now) => c.now <= now
  }

  /** One operation of any design: it returns only what is due and keeps nothing beyond its slack, each
      timer once and in the design's order, and the store keeps in step. */
  lemma StepRefines(s: Store, c: Clock, op: Op)
    requires Shaped(s) && Simulates(s, c) && Allowed(c, op)
    ensures var (t, out) := Step(s, op);
            var p := Promise(s, op);
            && WithinSlack(Slack(s), c, p, Elems(out)) && Simulates(t, Taking(c, p, Elems(out)))
            && multiset(out) == multiset(Elems(out)) && InOrder(s, out)
  {
    var p, out := Promise(s, op), Step(s, op).1;
    match s {
      case HeapStore(x) =>
        HeapStepRefines(x, c, op);
        ExactStep(c, p, out);
      case WheelStore(w) =>
        WheelStepRefines(w, c, op);
        ExactStep(c, p, out);
      case HierStore(h) =>
        HierStepRefines(h, c, op);
        ExactStep(c, p, out);
      case FixedStore(f) => FixedStepRefines(f, c, op);
    }
    StepPartition(c, p, Elems(out));
  }

  /** Returning what the clock returns is staying within a slack of one. */
  lemma ExactStep(c: Clock, op: Op, out: seq<Timer>)
    requires multiset(out) == multiset(StepClock(c, op).1)
    ensures Elems(out) == StepClock(c, op).1 && Taking(c, op, Elems(out)) == StepClock(c, op).0
    ensures WithinSlack(1, c, op, Elems(out)) && multiset(out) == multiset(Elems(out))
  {
    assert forall t :: t in out <==> t in multiset(out);
  }

  lemma HeapStepRefines(x: H.Heap, c: Clock, op: Op)
    requires HeapInStep(x, c) && WellFormed(c) && Allowed(c, op)
    ensures var (y, out) := HeapStep(x, op);
            var (d, fired) := StepClock(c, op);
            HeapInStep(y, d) && multiset(out) == multiset(fired) && Sorted(false, out)
  {
    match op
    case Schedule(delay) => H.InsertLive(x, delay);
    case Cancel(id) => HeapRemoveRefines(x, c, id);
    case Advance(now) => HeapAdvanceRefines(x, c, now);
  }

  lemma HeapRemoveRefines(x: H.Heap, c: Clock, id: nat)
    requires H.Inv(x) && id < x.next && H.Live(x) == c.pending
    ensures var y := H.Remove(x, id);
            H.Inv(y) && y.now == x.now && y.next == x.next && H.Live(y) == Without(c.pending, id)
  {
    H.RemoveLive(x, id);
  }

  lemma HeapAdvanceRefines(x: H.Heap, c: Clock, now: nat)
    requires H.Inv(x) && H.Live(x) == c.pending
    ensures var (y, out) := H.AdvanceTo(x, now);
            && H.Inv(y) && H.Live(y) == c.pending - Due(c.pending, now)
            && multiset(out) == multiset(Due(c.pending, now)) && Sorted(false, out)
  {
    H.AdvanceLive(x, now);
    SortedMultiset(false, H.AdvanceTo(x, now).1);
  }

  lemma WheelStepRefines(w: W.Wheel, c: Clock, op: Op)
    requires W.Shaped(w) && WheelInStep(w, c) && WellFormed(c) && Allowed(c, op)
    ensures var (v, out) := WheelStep(w, op);
            var (d, fired) := StepClock(c, Promise(WheelStore(w), op));
            WheelInStep(v, d) && multiset(out) == multiset(fired) && Sorted(true, out)
  {
    match op
    case Schedule(delay) => W.InsertView(w, AtLeastOne(delay));
    case Cancel(id) => W.RemoveView(w, id);
    case Advance(now) =>
      W.AdvanceView(w, now);
      SortedMultiset(true, W.AdvanceTo(w, now).1);
  }

  lemma HierStepRefines(h: V.Hier, c: Clock, op: Op)
    requires |h.buckets| == V.BUCKETS && HierInStep(h, c) && WellFormed(c) && Allowed(c, op)
    ensures var (g, out) := HierStep(h, op);
            var (d, fired) := StepClock(c, Promise(HierStore(h), op));
            HierInStep(g, d) && multiset(out) == multiset(fired) && InOrder(HierStore(h), out)
  {
    match op
    case Schedule(delay) => HierInsertRefines(h, c, AtLeastOne(delay));
    case Cancel(id) => HierRemoveRefines(h, c, id);
    case Advance(now) => HierAdvanceRefines(h, c, now);
  }

  lemma HierInsertRefines(h: V.Hier, c: Clock, ticks: nat)
    requires WellFormed(c) && V.Inv(h) && ticks >= 1
    requires h.cursor == c.now && h.next == c.next && V.View(h) == multiset(c.pending)
    ensures var g := V.Insert(h, ticks);
            V.Inv(g) && g.cursor == h.cursor && V.View(g) == multiset(c.pending + {Timer(c.next, c.now + ticks)})
  {
    V.InsertView(h, ticks);
    Added(c, ticks);
  }

  lemma HierRemoveRefines(h: V.Hier, c: Clock, id: nat)
    requires V.Inv(h) && V.View(h) == multiset(c.pending)
    ensures V.Inv(V.Remove(h, id)) && V.View(V.Remove(h, id)) == multiset(Without(c.pending, id))
  {
    V.RemoveView(h, id);
    WithoutCount(c.pending, V.View(V.Remove(h, id)), id);
  }

  lemma HierAdvanceRefines(h: V.Hier, c: Clock, now: nat)
    requires V.Inv(h) && h.cursor <= now && V.View(h) == multiset(c.pending)
    ensures var (g, out) := V.AdvanceTo(h, now);
            && V.Inv(g) && g.cursor == now && g.next == h.next
            && V.View(g) == multiset(c.pending - Due(c.pending, now))
            && multiset(out) == multiset(Due(c.pending, now))
            && (forall i, j :: 0 <= i < j < |out| ==> out[i].when <= out[j].when)
  {
    V.AdvanceView(h, now);
    var (g, out) := V.AdvanceTo(h, now);
    SplitDue(c.pending, V.View(g), out, now);
  }

  lemma Added(c: Clock, delay: nat)
    requires WellFormed(c)
    ensures multiset(c.pending + {Timer(c.next, c.now + delay)})
            == multiset(c.pending) + multiset{Timer(c.next, c.now + delay)}
  {
    assert Timer(c.next, c.now + delay) !in c.pending;
  }

  lemma FixedStepRefines(f: F.Fixed, c: Clock, op: Op)
    requires F.Shaped(f) && FixedInStep(f, c) && WellFormed(c) && Allowed(c, op)
    ensures var (g, out) := FixedStep(f, op);
            && WithinSlack(f.q, c, op, Elems(out)) && FixedInStep(g, Taking(c, op, Elems(out))) == true
            && multiset(out) == multiset(Elems(out))
  {
    match op
    case Schedule(delay) => FixedInsertRefines(f, c, delay);
    case Cancel(id) => FixedRemoveRefines(f, c, id);
    case Advance(now) => FixedAdvanceRefines(f, c, now);
  }

  lemma FixedRemoveRefines(f: F.Fixed, c: Clock, id: nat)
    requires FixedInStep(f, c)
    ensures FixedInStep(F.Remove(f, id), StepClock(c, Cancel(id)).0) == true
  {
    F.RemoveView(f, id);
    WithoutCount(c.pending, F.View(F.Remove(f, id)), id);
  }

  lemma FixedInsertRefines(f: F.Fixed, c: Clock, delay: nat)
    requires FixedInStep(f, c) && WellFormed(c)
    ensures FixedInStep(F.Insert(f, delay), StepClock(c, Schedule(delay)).0) == true
  {
    F.InsertView(f, delay);
    FixedAdded(f, F.Insert(f, delay), c, delay);
  }

  lemma FixedAdded(f: F.Fixed, g: F.Fixed, c: Clock, delay: nat)
    requires FixedInStep(f, c) && WellFormed(c) && F.Inv(g) && g.now == f.now && g.next == f.next + 1
    requires F.View(g) == F.View(f) + multiset{Timer(f.next, f.now + delay)}
    ensures FixedInStep(g, StepClock(c, Schedule(delay)).0) == true
  {
    Added(c, delay);
  }

  lemma FixedAdvanceRefines(f: F.Fixed, c: Clock, now: nat)
    requires FixedInStep(f, c) && f.now <= now
    ensures var (g, out) := F.AdvanceTo(f, now);
            && FixedInStep(g, Clock(now, c.next, c.pending - Elems(out))) == true
            && multiset(out) == multiset(Elems(out))
            && WithinSlack(f.q, c, Advance(now), Elems(out))
  {
    F.AdvanceView(f, now);
    var (g, out) := F.AdvanceTo(f, now);
    SplitTaken(c.pending, F.View(g), out);
    assert forall t :: t in F.View(g) <==> t in c.pending - Elems(out);
  }

  lemma SplitTaken(pending: set<Timer>, left: multiset<Timer>, out: seq<Timer>)
    requires multiset(pending) == left + multiset(out)
    ensures Elems(out) <= pending && multiset(out) == multiset(Elems(out)) && left == multiset(pending - Elems(out))
  {
    forall t
      ensures t in out ==> t in pending
      ensures multiset(out)[t] == multiset(Elems(out))[t]
      ensures left[t] == multiset(pending - Elems(out))[t]
    {
      assert multiset(pending)[t] == left[t] + multiset(out)[t];
      assert t in out <==> t in multiset(out);
    }
  }

  /** Operation by operation, the given timers, each exactly once, in the store's order. */
  ghost predicate Returns(s: Store, outs: seq<seq<Timer>>, fired: seq<set<Timer>>) {
    && |outs| == |fired|
    && (forall k :: 0 <= k < |outs| ==> multiset(outs[k]) == multiset(fired[k]) && InOrder(s, outs[k]))
  }

  /** What each operation of a run returned, as sets. */
  ghost function Taken(outs: seq<seq<Timer>>): (r: seq<set<Timer>>)
    ensures |r| == |outs|
  {
    seq(|outs|, k requires 0 <= k < |outs| => Elems(outs[k]))
  }

  lemma ReturnsCons(s: Store, t: Store, out: seq<Timer>, outs: seq<seq<Timer>>, now: set<Timer>, fired: seq<set<Timer>>)
    requires SameKind(s, t) && Returns(t, outs, fired)
    requires multiset(out) == multiset(now) && InOrder(s, out)
    ensures Returns(s, [out] + outs, [now] + fired)
  {
  }

  /** A run returns only what is due, every timer once and in the design's order, leaves nothing pending
      beyond the design's slack, and ends in step. */
  ghost predicate Refines(s: Store, c: Clock, ops: seq<Op>)
    requires Shaped(s)
  {
    var outs := Taken(Run(s, ops));
    && Returns(s, Run(s, ops), outs) && Follows(Slack(s), c, Promises(s, ops), outs)
    && Simulates(Final(s, ops), Ending(c, Promises(s, ops), outs))
  }

  /** Every run of any design, late or not. */
  lemma {:induction false} RunRefines(s: Store, c: Clock, ops: seq<Op>)
    requires Shaped(s) && Simulates(s, c) && Admissible(c.now, c.next, ops)
    ensures Refines(s, c, ops)
    decreases |ops|
  {
    if ops != [] {
      var out := Step(s, ops[0]).1;
      StepRefines(s, c, ops[0]);
      RunRefines(Step(s, ops[0]).0, Taking(c, Promise(s, ops[0]), Elems(out)), ops[1..]);
      RefinesMore(s, c, ops);
    }
  }

  lemma RefinesMore(s: Store, c: Clock, ops: seq<Op>)
    requires Shaped(s) && ops != []
    requires var (t, out) := Step(s, ops[0]);
             && WithinSlack(Slack(s), c, Promise(s, ops[0]), Elems(out))
             && multiset(out) == multiset(Elems(out)) && InOrder(s, out)
             && Refines(t, Taking(c, Promise(s, ops[0]), Elems(out)), ops[1..])
    ensures Refines(s, c, ops)
  {
    var (t, out) := Step(s, ops[0]);
    KindPromises(s, t, ops);
    ReturnsCons(s, t, out, Run(t, ops[1..]), Elems(out), Taken(Run(t, ops[1..])));
    TakenCons(out, Run(t, ops[1..]));
  }

  lemma TakenCons(out: seq<Timer>, outs: seq<seq<Timer>>)
    ensures Taken([out] + outs) == [Elems(out)] + Taken(outs)
    ensures Taken([out] + outs)[0] == Elems(out) && Taken([out] + outs)[1..] == Taken(outs)
  {
    var all := [out] + outs;
    forall k | 0 <= k < |outs| ensures Taken(all)[k + 1] == Taken(outs)[k] {
      assert all[k + 1] == outs[k];
    }
    assert Taken(all) == [Elems(out)] + Taken(outs);
  }

  /** Every run of a design without slack: operation by operation, the timers the clock returns for the
      promised operations. */
  lemma RunExact(s: Store, c: Clock, ops: seq<Op>)
    requires Shaped(s) && Simulates(s, c) && Admissible(c.now, c.next, ops) && Slack(s) == 1
    ensures Returns(s, Run(s, ops), Fired(c, Promises(s, ops)))
    ensures Simulates(Final(s, ops), RunClock(c, Promises(s, ops)))
  {
    RunRefines(s, c, ops);
    FollowsExactly(c, Promises(s, ops), Taken(Run(s, ops)));
  }

  lemma KindPromises(s: Store, t: Store, ops: seq<Op>)
    requires ops != [] && Shaped(s) && Shaped(t) && SameKind(s, t)
    ensures Promises(s, ops)[1..] == Promises(t, ops[1..])
  {
  }

  // ----- The designs against each other -----

  predicate Delays(ops: seq<Op>, max: nat) {
    forall i :: 0 <= i < |ops| && ops[i].Schedule? ==> 1 <= ops[i].delay <= max
  }

  /** The four exact designs as they start, the sized wheel with room for delays up to `max`. */
  predicate Fresh(s: Store, max: nat) {
    s in {HeapStore(H.EMPTY), WheelStore(W.NewWheel(max + 2)), HierStore(V.NewHier()), FixedStore(F.NewFixed(1))}
  }

  lemma FreshSimulates(s: Store, max: nat)
    requires Fresh(s, max)
    ensures Shaped(s) && Simulates(s, ZERO)
  {
    H.EmptyInv();
    W.NewWheelView(max + 2);
    V.NewHierView();
    F.NewFixedView(1);
  }

  lemma FreshPromises(s: Store, max: nat, ops: seq<Op>)
    requires Fresh(s, max) && Shaped(s) && Delays(ops, max)
    ensures Promises(s, ops) == ops
  {
    forall i | 0 <= i < |ops| ensures Promise(s, ops[i]) == ops[i] {
      if ops[i].Schedule? && s.WheelStore? { Unshifted(ops[i].delay, max); }
    }
  }

  /** A sized wheel keeps every delay up to its maximum as it is. */
  lemma Unshifted(delay: nat, max: nat)
    requires 1 <= delay <= max
    ensures W.Shift(AtLeastOne(delay), max + 2) == delay
  {
    assert delay % (max + 2) == delay;
  }

  /** Agreement: over every run with delays of 1 to `max` ticks, each operation on the heap, the sized
      wheel, the hierarchical wheel and the fixed list returns exactly what the clock returns. */
  lemma FourDesignsAgree(s: Store, max: nat, ops: seq<Op>)
    requires Fresh(s, max) && Delays(ops, max) && Admissible(0, 0, ops)
    ensures Shaped(s) && Returns(s, Run(s, ops), Fired(ZERO, ops))
    ensures Simulates(Final(s, ops), RunClock(ZERO, ops))
  {
    FreshSimulates(s, max);
    FreshPromises(s, max, ops);
    RunExact(s, ZERO, ops);
  }

  /** Order: the sized wheel returns the heap's sequence with every block of equal deadlines reversed. */
  lemma SizedWheelOrder(max: nat, ops: seq<Op>)
    requires Delays(ops, max) && Admissible(0, 0, ops)
    ensures var heap, wheel := HeapStore(H.EMPTY), WheelStore(W.NewWheel(max + 2));
            forall k :: 0 <= k < |ops| ==> Run(wheel, ops)[k] == ReverseTies(Run(heap, ops)[k])
  {
    var heap, wheel := HeapStore(H.EMPTY), WheelStore(W.NewWheel(max + 2));
    FourDesignsAgree(heap, max, ops);
    FourDesignsAgree(wheel, max, ops);
    forall k | 0 <= k < |ops| ensures Run(wheel, ops)[k] == ReverseTies(Run(heap, ops)[k]) {
      var xs, ys := Run(heap, ops)[k], Run(wheel, ops)[k];
      assert multiset(xs) == multiset(ys);
      SameElems(xs, ys);
      ReverseTiesLifo(xs);
      SortedUnique(true, ReverseTies(xs), ys);
    }
  }

  lemma SameElems(xs: seq<Timer>, ys: seq<Timer>)
    requires multiset(xs) == multiset(ys)
    ensures Elems(xs) == Elems(ys)
  {
    assert forall t :: t in xs <==> t in multiset(xs);
    assert forall t :: t in ys <==> t in multiset(ys);
  }

  // ----- The hashed wheel's law -----

  function Shifted(ops: seq<Op>, n: nat): (r: seq<Op>)
    requires n > 0
    ensures |r| == |ops|
  {
    seq(|ops|, i requires 0 <= i < |ops| =>
      if ops[i].Schedule? then Schedule(W.Shift(AtLeastOne(ops[i].delay), n)) else ops[i])
  }

  /** Every run of a hashed wheel with `n` slots is a run of the clock in which each delay that is an
      exact multiple of `n` is one rotation longer. */
  lemma HashedWheelLaw(n: nat, ops: seq<Op>)
    requires n > 0 && Admissible(0, 0, ops)
    ensures var s := WheelStore(W.NewWheel(n));
            Returns(s, Run(s, ops), Fired(ZERO, Shifted(ops, n)))
  {
    var s := WheelStore(W.NewWheel(n));
    W.NewWheelView(n);
    RunExact(s, ZERO, ops);
    assert Promises(s, ops) == Shifted(ops, n);
  }

  predicate Only(ops: seq<Op>, delay: nat) {
    forall i :: 0 <= i < |ops| && ops[i].Schedule? ==> ops[i].delay == delay
  }

  /** A delay is kept exactly, in every run that uses it, if and only if it is not a multiple of the
      slot count. */
  lemma HashedWheelExact(n: nat, delay: nat)
    requires n > 0 && delay > 0
    ensures var s := WheelStore(W.NewWheel(n));
            (forall ops :: Admissible(0, 0, ops) && Only(ops, delay) ==> Returns(s, Run(s, ops), Fired(ZERO, ops)))
              <==> delay % n != 0
  {
    var s := WheelStore(W.NewWheel(n));
    if delay % n != 0 {
      forall ops | Admissible(0, 0, ops) && Only(ops, delay) ensures Returns(s, Run(s, ops), Fired(ZERO, ops)) {
        assert Shifted(ops, n) == ops;
        HashedWheelLaw(n, ops);
      }
    } else {
      LateByARotation(n, delay);
      var ops := [Schedule(delay), Advance(delay)];
      assert Admissible(0, 0, ops) && Only(ops, delay);
      assert !Returns(s, Run(s, ops), Fired(ZERO, ops));
    }
  }

  /** A delay of exactly so many rotations: nothing comes back when it is due, and the timer comes back
      one rotation later. */
  lemma LateByARotation(n: nat, delay: nat)
    requires n > 0 && delay > 0 && delay % n == 0
    ensures var ops, s := [Schedule(delay), Advance(delay)], WheelStore(W.NewWheel(n));
            Admissible(0, 0, ops) && Run(s, ops)[1] == [] && Fired(ZERO, ops)[1] == {Timer(0, delay)}
    ensures var ops, s := [Schedule(delay), Advance(delay + n)], WheelStore(W.NewWheel(n));
            Admissible(0, 0, ops) && multiset(Run(s, ops)[1]) == multiset{Timer(0, delay + n)}
  {
    LateShown(n, delay, delay);
    LateShown(n, delay, delay + n);
    TwoOps(delay, delay, delay);
    var s := WheelStore(W.NewWheel(n));
    assert |multiset(Run(s, [Schedule(delay), Advance(delay)])[1])| == 0;
  }

  lemma LateShown(n: nat, delay: nat, now: nat)
    requires n > 0 && delay > 0 && delay % n == 0
    ensures var ops, s := [Schedule(delay), Advance(now)], WheelStore(W.NewWheel(n));
            && Admissible(0, 0, ops)
            && multiset(Run(s, ops)[1]) == multiset(if delay + n <= now then {Timer(0, delay + n)} else {})
  {
    var ops := [Schedule(delay), Advance(now)];
    TwoOps(delay + n, now, delay);
    assert Shifted(ops, n) == [Schedule(delay + n), Advance(now)];
    HashedWheelLaw(n, ops);
  }

  lemma TwoOps(delay: nat, now: nat, asked: nat)
    ensures Fired(ZERO, [Schedule(delay), Advance(now)])[1] == if delay <= now then {Timer(0, delay)} else {}
    ensures Admissible(0, 0, [Schedule(asked), Advance(now)])
  {
    var ops := [Schedule(delay), Advance(now)];
    var c := StepClock(ZERO, ops[0]).0;
    assert ops[1..] == [Advance(now)];
    assert Fired(ZERO, ops) == [{}] + Fired(c, [Advance(now)]);
    assert Fired(c, [Advance(now)])[0] == Due(c.pending, now);
    var asks := [Schedule(asked), Advance(now)];
    assert asks[1..] == [Advance(now)];
    assert [Advance(now)][1..] == [];
  }

  // ----- What happens to handles, in any design -----

  ghost function AllHandles(outs: seq<seq<Timer>>): set<nat> {
    set i, t | 0 <= i < |outs| && t in outs[i] :: t.id
  }

  /** At the end of any run of any design, late or not, each handle is exactly one of pending, cancelled or
      fired, and no handle is returned by two operations or twice by one. */
  lemma StoreConservation(s: Store, c: Clock, ops: seq<Op>)
    requires Shaped(s) && Simulates(s, c) && Admissible(c.now, c.next, ops)
    ensures var ps, outs := Promises(s, ops), Taken(Run(s, ops));
            && Simulates(Final(s, ops), Ending(c, ps, outs))
            && Partition(Known(c, ps), IdSet(Ending(c, ps, outs).pending), Cancelled(c, ps, outs),
                         AllHandles(Run(s, ops)))
    ensures forall j, k, t, u :: 0 <= j < k < |ops| && t in Run(s, ops)[j] && u in Run(s, ops)[k] ==> t.id != u.id
    ensures forall k :: 0 <= k < |ops| ==> NoRepeat(Run(s, ops)[k])
  {
    var ps, outs := Promises(s, ops), Run(s, ops);
    RunRefines(s, c, ops);
    Conservation(Slack(s), c, ps, Taken(outs));
    HandlesTaken(outs);
    OutsApart(outs);
    EachOnce(s, c, ps, outs);
  }

  lemma EachOnce(s: Store, c: Clock, ps: seq<Op>, outs: seq<seq<Timer>>)
    requires WellFormed(c) && Follows(Slack(s), c, ps, Taken(outs)) && Returns(s, outs, Taken(outs))
    ensures forall k :: 0 <= k < |outs| ==> NoRepeat(outs[k])
  {
    forall k | 0 <= k < |outs| ensures NoRepeat(outs[k]) {
      TakenOnce(Slack(s), c, ps, Taken(outs), k);
      Unrepeated(outs[k], Taken(outs)[k]);
    }
  }

  lemma OutsApart(outs: seq<seq<Timer>>)
    requires NoneTwice(Taken(outs))
    ensures forall j, k, t, u :: 0 <= j < k < |outs| && t in outs[j] && u in outs[k] ==> t.id != u.id
  {
    forall j, k, t: Timer, u: Timer | 0 <= j < k < |outs| && t in outs[j] && u in outs[k] ensures t.id != u.id {
      assert t.id in IdSet(Taken(outs)[j]) && u.id in IdSet(Taken(outs)[k]);
    }
  }

  lemma HandlesTaken(outs: seq<seq<Timer>>)
    ensures AllHandles(outs) == Handles(Taken(outs))
  {
    forall k, t | 0 <= k < |outs| ensures t in outs[k] <==> t in Taken(outs)[k] {
    }
  }

  ghost predicate NoRepeat(out: seq<Timer>) {
    forall i, j :: 0 <= i < j < |out| ==> out[i].id != out[j].id
  }

  lemma {:induction false} TakenOnce(q: nat, c: Clock, ops: seq<Op>, outs: seq<set<Timer>>, k: nat)
    requires WellFormed(c) && Follows(q, c, ops, outs) && k < |ops|
    ensures forall t, u :: t in outs[k] && u in outs[k] && t.id == u.id ==> t == u
    decreases |ops|
  {
    if k > 0 {
      StepPartition(c, ops[0], outs[0]);
      TakenOnce(q, Taking(c, ops[0], outs[0]), ops[1..], outs[1..], k - 1);
    }
  }

  lemma Unrepeated(xs: seq<Timer>, s: set<Timer>)
    requires multiset(xs) == multiset(s)
    requires forall t, u :: t in s && u in s && t.id == u.id ==> t == u
    ensures NoRepeat(xs)
  {
    forall i, j | 0 <= i < j < |xs| ensures xs[i].id != xs[j].id {
      assert xs == xs[..i] + [xs[i]] + xs[i + 1..j] + [xs[j]] + xs[j + 1..];
      assert multiset(xs)[xs[i]] <= 1;
      assert xs[i] in multiset(xs) && xs[j] in multiset(xs);
    }
  }

  // ----- Heap: garbage and compaction -----

  /** Two heaps with the same live timers cannot be told apart by any run, however much garbage either
      holds; compaction only removes garbage. */
  lemma GarbageInvisible(x: H.Heap, y: H.Heap, ops: seq<Op>)
    requires H.Inv(x) && H.Inv(y) && x.now == y.now && x.next == y.next && H.Live(x) == H.Live(y)
    requires Admissible(x.now, x.next, ops)
    ensures Run(HeapStore(x), ops) == Run(HeapStore(y), ops)
  {
    var c := Clock(x.now, x.next, H.Live(x));
    HeapReturns(x, c, ops);
    HeapReturns(y, c, ops);
    SameReturns(Run(HeapStore(x), ops), Run(HeapStore(y), ops), Fired(c, ops));
  }

  ghost predicate SortedReturns(outs: seq<seq<Timer>>, fired: seq<set<Timer>>) {
    && |outs| == |fired|
    && forall k :: 0 <= k < |outs| ==> multiset(outs[k]) == multiset(fired[k]) && Sorted(false, outs[k])
  }

  lemma HeapReturns(x: H.Heap, c: Clock, ops: seq<Op>)
    requires HeapInStep(x, c) && WellFormed(c) && Admissible(c.now, c.next, ops)
    ensures SortedReturns(Run(HeapStore(x), ops), Fired(c, ops))
  {
    RunExact(HeapStore(x), c, ops);
    assert Promises(HeapStore(x), ops) == ops;
  }

  lemma SameReturns(xs: seq<seq<Timer>>, ys: seq<seq<Timer>>, fired: seq<set<Timer>>)
    requires SortedReturns(xs, fired) && SortedReturns(ys, fired)
    ensures xs == ys
  {
    forall k | 0 <= k < |xs| ensures xs[k] == ys[k] {
      SameElems(xs[k], ys[k]);
      SortedUnique(false, xs[k], ys[k]);
    }
  }

  lemma CompactionInvisible(x: H.Heap, ops: seq<Op>)
    requires H.Inv(x) && H.Crowded(x) && Admissible(x.now, x.next, ops)
    ensures Run(HeapStore(H.Compacted(x)), ops) == Run(HeapStore(x), ops)
  {
    var y := H.Compacted(x);
    assert H.Garbage(y) == {};
    assert H.Live(y) == H.Live(x);
    GarbageInvisible(y, x, ops);
  }

  /** Over any run the counter covers the cancelled nodes still in the heap, and compactions have
      scanned fewer than two nodes for each effective cancel. */
  lemma HeapAccounting(ops: seq<Op>)
    requires Admissible(0, 0, ops)
    ensures var x := Final(HeapStore(H.EMPTY), ops).heap;
            && x.count >= |H.Garbage(x)|
            && (x.rebuilt == 0 || x.rebuilt < 2 * x.cancels)
  {
    H.EmptyInv();
    RunExact(HeapStore(H.EMPTY), ZERO, ops);
  }

  /** The counter is the number of cancelled nodes in the heap. */
  ghost predicate Counts(x: H.Heap) {
    x.count == |H.Garbage(x)|
  }

  /** Every cancel of the run that hits a node already popped makes the heap compact. */
  ghost predicate Redeemed(x: H.Heap, ops: seq<Op>)
    decreases |ops|
  {
    ops != [] ==> Repaired(x, ops[0]) && Redeemed(HeapStep(x, ops[0]).0, ops[1..])
  }

  predicate Repaired(x: H.Heap, op: Op) {
    op.Cancel? && op.id !in x.dead && op.id !in IdSet(x.h) ==> H.Crowded(H.Marked(x, op.id))
  }

  /** The heap at every moment of the run. */
  ghost predicate CountsThrough(x: H.Heap, ops: seq<Op>) {
    forall k :: 0 <= k <= |ops| ==> Counts(Final(HeapStore(x), ops[..k]).heap)
  }

  /** From a heap that counts right, the counter is right after every operation of a run if and only if
      each cancel of a fired handle makes the heap compact. */
  lemma {:induction false} CounterExact(x: H.Heap, ops: seq<Op>)
    requires H.Inv(x) && Counts(x) && Admissible(x.now, x.next, ops)
    ensures CountsThrough(x, ops) <==> Redeemed(x, ops)
    decreases |ops|
  {
    if ops == [] {
    } else {
      var y := HeapStep(x, ops[0]).0;
      CountStep(x, ops);
      ThroughCons(x, ops);
      if Counts(y) {
        CounterExact(y, ops[1..]);
      }
    }
  }

  lemma CountStep(x: H.Heap, ops: seq<Op>)
    requires H.Inv(x) && Counts(x) && ops != [] && Admissible(x.now, x.next, ops)
    ensures var y := HeapStep(x, ops[0]).0;
            H.Inv(y) && Admissible(y.now, y.next, ops[1..]) && (Counts(y) <==> Repaired(x, ops[0]))
  {
    match ops[0] {
      case Schedule(delay) => H.InsertLive(x, delay);
      case Cancel(id) => H.RemoveLive(x, id);
      case Advance(now) => H.AdvanceLive(x, now);
    }
  }

  lemma ThroughCons(x: H.Heap, ops: seq<Op>)
    requires ops != [] && Counts(x)
    ensures CountsThrough(x, ops) <==> CountsThrough(HeapStep(x, ops[0]).0, ops[1..])
    ensures CountsThrough(x, ops) ==> Counts(HeapStep(x, ops[0]).0)
  {
    var y := HeapStep(x, ops[0]).0;
    forall k | 0 <= k < |ops|
      ensures Final(HeapStore(x), ops[..k + 1]) == Final(HeapStore(y), ops[1..][..k])
    {
      assert ops[..k + 1][1..] == ops[1..][..k];
    }
    assert Final(HeapStore(x), ops[..0]) == HeapStore(x);
    if CountsThrough(x, ops) {
      forall k | 0 <= k <= |ops[1..]| ensures Counts(Final(HeapStore(y), ops[1..][..k]).heap) {
        assert Counts(Final(HeapStore(x), ops[..k + 1]).heap);
      }
      assert Final(HeapStore(y), ops[1..][..0]) == HeapStore(y);
    }
    if CountsThrough(y, ops[1..]) {
      forall k | 0 <= k <= |ops| ensures Counts(Final(HeapStore(x), ops[..k]).heap) {
        if k > 0 { assert Counts(Final(HeapStore(y), ops[1..][..k - 1]).heap); }
      }
    }
  }

  /** Cancelling a handle that has fired leaves the counter at one over an empty heap. */
  lemma CountedForNothing(delay: nat)
    ensures var ops := [Schedule(delay), Advance(delay), Cancel(0)];
            var x := Final(HeapStore(H.EMPTY), ops).heap;
            Admissible(0, 0, ops) && x.h == {} && x.count == 1 && !Redeemed(H.EMPTY, ops)
  {
    var ops := [Schedule(delay), Advance(delay), Cancel(0)];
    var a := H.Insert(H.EMPTY, delay);
    var b := H.AdvanceTo(a, delay).0;
    PoppedAlone(delay);
    assert ops[1..] == [Advance(delay), Cancel(0)] && ops[1..][1..] == [Cancel(0)] && [Cancel(0)][1..] == [];
    assert Final(HeapStore(H.EMPTY), ops) == Final(HeapStore(b), [Cancel(0)]) == HeapStore(H.Marked(b, 0));
    assert Redeemed(H.EMPTY, ops) ==> Redeemed(a, ops[1..]);
    assert Redeemed(a, ops[1..]) ==> Redeemed(b, [Cancel(0)]);
    assert Admissible(delay, 1, [Cancel(0)]) && Admissible(0, 1, ops[1..]);
  }

  lemma PoppedAlone(delay: nat)
    ensures var b := H.AdvanceTo(H.Insert(H.EMPTY, delay), delay).0;
            b.h == {} && b.dead == {} && b.count == 0 && H.Remove(b, 0) == H.Marked(b, 0) && !Repaired(b, Cancel(0))
  {
    var a := H.Insert(H.EMPTY, delay);
    var b := H.AdvanceTo(a, delay).0;
    assert forall t :: t in a.h ==> t == Timer(0, delay);
    assert a.dead == {};
    assert |Due(H.Garbage(a), delay)| == 0;
    assert b.h == {};
  }

  // ----- Batching -----

  /** With nothing between them, two advances return together what the second alone would return: the
      same sequence, or for the fixed list the same timers. */
  lemma AdvancesBatch(s: Store, a: nat, b: nat)
    requires Shaped(s) && a <= b
    ensures var (s1, first) := Step(s, Advance(a));
            var (s2, second) := Step(s1, Advance(b));
            && Step(s, Advance(b)).0 == s2
            && multiset(Step(s, Advance(b)).1) == multiset(first + second)
            && (!s.FixedStore? ==> Step(s, Advance(b)).1 == first + second)
  {
    match s
    case HeapStore(x) => H.AdvanceBatches(x, a, b);
    case WheelStore(w) => W.AdvanceBatches(w, a, b);
    case HierStore(h) => V.AdvanceBatches(h, a, b);
    case FixedStore(f) => F.AdvanceBatches(f, a, b);
  }
}
