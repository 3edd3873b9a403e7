/** The four linked stores driven through the same run: every admissible sequence of schedule, cancel
    and advance, whatever its length. */
module Shootout {
  import opened TimerSpec
  import opened Agreement
  import opened Links
  import opened Resolutions
  import H = HeapModel
  import W = HashedWheelModel
  import V = HierWheelModel
  import F = FixedListModel
  import HeapStores
  import HashedWheels
  import HierWheels
  import FixedLists

  /** Where a run stands: what has been returned, then what the rest returns. */
  ghost predicate Following(start: Store, ops: seq<Op>, s: Store, todo: seq<Op>, done: seq<seq<Timer>>) {
    Shaped(start) && Shaped(s) && Run(start, ops) == done + Run(s, todo)
  }

  lemma FollowNext(start: Store, ops: seq<Op>, s: Store, todo: seq<Op>, done: seq<seq<Timer>>)
    requires todo != [] && Following(start, ops, s, todo, done)
    ensures Following(start, ops, Step(s, todo[0]).0, todo[1..], done + [Step(s, todo[0]).1])
  {
    var (t, out) := Step(s, todo[0]);
    assert Run(s, todo) == [out] + Run(t, todo[1..]);
    assert done + ([out] + Run(t, todo[1..])) == (done + [out]) + Run(t, todo[1..]);
  }

  lemma FollowStart(start: Store, ops: seq<Op>)
    requires Shaped(start)
    ensures Following(start, ops, start, ops, [])
  {
    assert [] + Run(start, ops) == Run(start, ops);
  }

  lemma FollowEnd(start: Store, ops: seq<Op>, s: Store, done: seq<seq<Timer>>)
    requires Following(start, ops, s, [], done)
    ensures Run(start, ops) == done
  {
    assert done + [] == done;
  }

  /** What the proof keeps of a drive: the time, and what the run has returned. */
  datatype Ledger = Ledger(now: nat, done: seq<seq<Timer>>)

  /** The objects returned are the handles of the timers, in order. */
  ghost predicate Picked<N>(out: seq<N>, ts: seq<Timer>, handles: seq<N>) {
    |out| == |ts| && forall i :: 0 <= i < |out| ==> ts[i].id < |handles| && out[i] == handles[ts[i].id]
  }

  ghost predicate AllDistinct<N>(xs: seq<N>) {
    forall i, j :: 0 <= i < j < |xs| ==> xs[i] != xs[j]
  }

  /** How many handles a run hands out. */
  function Schedules(ops: seq<Op>): nat {
    if ops == [] then 0 else (if ops[0].Schedule? then 1 else 0) + Schedules(ops[1..])
  }

  /** Each operation returned the handles of the timers the run returns. */
  ghost predicate Match<N>(outs: seq<seq<N>>, run: seq<seq<Timer>>, handles: seq<N>) {
    |outs| == |run| && forall k :: 0 <= k < |outs| ==> Picked(outs[k], run[k], handles)
  }

  lemma MatchNext<N>(outs: seq<seq<N>>, run: seq<seq<Timer>>, handles: seq<N>, out: seq<N>, ts: seq<Timer>,
                     more: seq<N>)
    requires Match(outs, run, handles) && Picked(out, ts, more) && handles <= more
    ensures Match(outs + [out], run + [ts], more)
  {
    forall k | 0 <= k < |outs| ensures Picked(outs[k], run[k], more) {
      assert Picked(outs[k], run[k], handles);
    }
  }

  lemma NumberedDistinct(issued: seq<Node>, nodes: set<Node>)
    requires Numbered(issued, nodes)
    ensures AllDistinct(issued) && forall x :: x in issued ==> x in nodes
  {
  }

  lemma IssuedDistinct(issued: seq<HeapStores.HeapNode>, nodes: set<HeapStores.HeapNode>)
    requires HeapStores.Numbered(issued) && forall i :: 0 <= i < |issued| ==> issued[i] in nodes
    ensures AllDistinct(issued) && forall x :: x in issued ==> x in nodes
  {
  }

  lemma PickFired(out: seq<Node>, ts: seq<Timer>, issued: seq<Node>, nodes: set<Node>)
    requires Fires(out, ts) && Inside(out, nodes) && Numbered(issued, nodes)
    ensures Picked(out, ts, issued)
  {
  }

  lemma PickPopped(out: seq<HeapStores.HeapNode>, ts: seq<Timer>, issued: seq<HeapStores.HeapNode>,
                   nodes: set<HeapStores.HeapNode>)
    requires HeapStores.Fires(out, ts) && HeapStores.Inside(out, nodes) && HeapStores.Ours(nodes, issued)
    ensures Picked(out, ts, issued)
  {
  }

  lemma CoarseNext(ops: seq<Op>, r: nat)
    requires r > 0 && ops != []
    ensures CoarseAll(ops, r)[0] == Coarse(ops[0], r) && CoarseAll(ops, r)[1..] == CoarseAll(ops[1..], r)
  {
  }

  lemma {:induction false} CoarseOne(ops: seq<Op>)
    ensures CoarseAll(ops, 1) == ops
    decreases |ops|
  {
    if ops != [] {
      CoarseOne(ops[1..]);
      assert Coarse(ops[0], 1) == ops[0];
      assert ops == [ops[0]] + ops[1..];
    }
  }

  method StepHier(w: HierWheels.HierWheel, handles: seq<Node>, op: Op) returns (more: seq<Node>, out: seq<Node>)
    requires w.Valid() && handles == w.g.issued && (op.Cancel? ==> op.id < |handles|)
    modifies w, w.heads, w.g.nodes
    ensures w.Valid() && more == w.g.issued && handles <= more && |more| == |handles| + (if op.Schedule? then 1 else 0)
    ensures forall x :: x in w.g.nodes ==> x in old(w.g.nodes) || fresh(x)
    ensures w.g.model == HierStep(old(w.g.model), Coarse(op, w.res)).0
            && Picked(out, HierStep(old(w.g.model), Coarse(op, w.res)).1, more)
  {
    more, out := handles, [];
    match op
    case Schedule(delay) =>
      var node := w.Schedule(delay);
      more := handles + [node];
    case Cancel(id) => w.Cancel(handles[id]);
    case Advance(now) =>
      ghost var ts := HierStep(w.g.model, Coarse(op, w.res)).1;
      out := w.Advance(now);
      PickFired(out, ts, w.g.issued, w.g.nodes);
  }

  ghost predicate DrivingHier(w: HierWheels.HierWheel, handles: seq<Node>, start: Store, ops: seq<Op>, todo: seq<Op>,
                               outs: seq<seq<Node>>, l: Ledger)
    reads w, w.heads, w.g.nodes
  {
    && w.Valid() && handles == w.g.issued && Admissible(l.now, |handles|, todo)
    && Following(start, CoarseAll(ops, w.res), HierStore(w.g.model), CoarseAll(todo, w.res), l.done)
       && Match(outs, l.done, handles)
    && |handles| + Schedules(todo) == Schedules(ops)
  }

  method NextHier(w: HierWheels.HierWheel, handles: seq<Node>, ghost start: Store, ghost ops: seq<Op>, todo: seq<Op>,
                  outs: seq<seq<Node>>, ghost l: Ledger)
    returns (more: seq<Node>, said: seq<seq<Node>>, ghost m: Ledger)
    requires DrivingHier(w, handles, start, ops, todo, outs, l) && todo != []
    modifies w, w.heads, w.g.nodes
    ensures DrivingHier(w, more, start, ops, todo[1..], said, m) == true
    ensures forall x :: x in w.g.nodes ==> x in old(w.g.nodes) || fresh(x)
  {
    ghost var ts := Step(HierStore(w.g.model), Coarse(todo[0], w.res)).1;
    CoarseNext(todo, w.res);
    FollowNext(start, CoarseAll(ops, w.res), HierStore(w.g.model), CoarseAll(todo, w.res), l.done);
    var out;
    more, out := StepHier(w, handles, todo[0]);
    MatchNext(outs, l.done, handles, out, ts, more);
    said := outs + [out];
    m := Ledger(if todo[0].Advance? then todo[0].now else l.now, l.done + [ts]);
  }

  method DriveHier(res: nat, ops: seq<Op>) returns (outs: seq<seq<Node>>, handles: seq<Node>)
    requires res > 0 && Admissible(0, 0, ops)
    ensures Match(outs, Run(HierStore(V.NewHier()), CoarseAll(ops, res)), handles)
    ensures AllDistinct(handles) && |handles| == Schedules(ops) && forall x :: x in handles ==> fresh(x)
  {
    var w := new HierWheels.HierWheel(res);
    var todo := ops;
    outs, handles := [], [];
    ghost var start, l := HierStore(w.g.model), Ledger(0, []);
    FollowStart(start, CoarseAll(ops, res));
    while todo != []
      invariant w.res == res && fresh(w) && fresh(w.heads) && fresh(w.g.nodes)
                && DrivingHier(w, handles, start, ops, todo, outs, l) == true
      decreases |todo|
    {
      handles, outs, l := NextHier(w, handles, start, ops, todo, outs, l);
      todo := todo[1..];
    }
    FollowEnd(start, CoarseAll(ops, res), HierStore(w.g.model), l.done);
    NumberedDistinct(handles, w.g.nodes);
  }

  method StepHashed(w: HashedWheels.HashedWheel, handles: seq<Node>, op: Op) returns (more: seq<Node>, out: seq<Node>)
    requires w.Valid() && handles == w.g.issued && (op.Cancel? ==> op.id < |handles|)
    modifies w, w.slots, w.g.nodes
    ensures w.Valid() && more == w.g.issued && handles <= more && |more| == |handles| + (if op.Schedule? then 1 else 0)
    ensures forall x :: x in w.g.nodes ==> x in old(w.g.nodes) || fresh(x)
    ensures w.g.model == WheelStep(old(w.g.model), Coarse(op, w.res)).0
            && Picked(out, WheelStep(old(w.g.model), Coarse(op, w.res)).1, more)
  {
    more, out := handles, [];
    match op
    case Schedule(delay) =>
      var node := w.Schedule(delay);
      more := handles + [node];
    case Cancel(id) => w.Cancel(handles[id]);
    case Advance(now) =>
      ghost var ts := WheelStep(w.g.model, Coarse(op, w.res)).1;
      out := w.Advance(now);
      PickFired(out, ts, w.g.issued, w.g.nodes);
  }

  ghost predicate DrivingHashed(w: HashedWheels.HashedWheel, handles: seq<Node>, start: Store, ops: seq<Op>,
                                todo: seq<Op>, outs: seq<seq<Node>>, l: Ledger)
    reads w, w.slots, w.g.nodes
  {
    && w.Valid() && handles == w.g.issued && Admissible(l.now, |handles|, todo)
    && Following(start, CoarseAll(ops, w.res), WheelStore(w.g.model), CoarseAll(todo, w.res), l.done)
       && Match(outs, l.done, handles)
    && |handles| + Schedules(todo) == Schedules(ops)
  }

  method NextHashed(w: HashedWheels.HashedWheel, handles: seq<Node>, ghost start: Store, ghost ops: seq<Op>,
                    todo: seq<Op>, outs: seq<seq<Node>>, ghost l: Ledger)
    returns (more: seq<Node>, said: seq<seq<Node>>, ghost m: Ledger)
    requires DrivingHashed(w, handles, start, ops, todo, outs, l) && todo != []
    modifies w, w.slots, w.g.nodes
    ensures DrivingHashed(w, more, start, ops, todo[1..], said, m) == true
    ensures forall x :: x in w.g.nodes ==> x in old(w.g.nodes) || fresh(x)
  {
    ghost var ts := Step(WheelStore(w.g.model), Coarse(todo[0], w.res)).1;
    CoarseNext(todo, w.res);
    FollowNext(start, CoarseAll(ops, w.res), WheelStore(w.g.model), CoarseAll(todo, w.res), l.done);
    var out;
    more, out := StepHashed(w, handles, todo[0]);
    MatchNext(outs, l.done, handles, out, ts, more);
    said := outs + [out];
    m := Ledger(if todo[0].Advance? then todo[0].now else l.now, l.done + [ts]);
  }

  method DriveHashed(res: nat, n: nat, ops: seq<Op>) returns (outs: seq<seq<Node>>, handles: seq<Node>)
    requires res > 0 && n > 0 && Admissible(0, 0, ops)
    ensures Match(outs, Run(WheelStore(W.NewWheel(n)), CoarseAll(ops, res)), handles)
    ensures AllDistinct(handles) && |handles| == Schedules(ops) && forall x :: x in handles ==> fresh(x)
  {
    var w := new HashedWheels.HashedWheel(res, n);
    var todo := ops;
    outs, handles := [], [];
    ghost var start, l := WheelStore(w.g.model), Ledger(0, []);
    FollowStart(start, CoarseAll(ops, res));
    while todo != []
      invariant w.res == res && fresh(w) && fresh(w.slots) && fresh(w.g.nodes)
                && DrivingHashed(w, handles, start, ops, todo, outs, l) == true
      decreases |todo|
    {
      handles, outs, l := NextHashed(w, handles, start, ops, todo, outs, l);
      todo := todo[1..];
    }
    FollowEnd(start, CoarseAll(ops, res), WheelStore(w.g.model), l.done);
    NumberedDistinct(handles, w.g.nodes);
  }

  method StepHeap(w: HeapStores.HeapTimers, handles: seq<HeapStores.HeapNode>, op: Op)
    returns (more: seq<HeapStores.HeapNode>, out: seq<HeapStores.HeapNode>)
    requires w.Valid() && handles == w.g.issued && (op.Cancel? ==> op.id < |handles|)
    modifies w, w.g.nodes
    ensures w.Valid() && more == w.g.issued && handles <= more && |more| == |handles| + (if op.Schedule? then 1 else 0)
    ensures forall x :: x in w.g.nodes ==> x in old(w.g.nodes) || fresh(x)
    ensures w.g.model == HeapStep(old(w.g.model), op).0 && Picked(out, HeapStep(old(w.g.model), op).1, more)
  {
    more, out := handles, [];
    match op
    case Schedule(delay) =>
      var node := w.Schedule(delay);
      more := handles + [node];
    case Cancel(id) => w.Cancel(handles[id]);
    case Advance(now) =>
      ghost var ts := HeapStep(w.g.model, op).1;
      out := w.Advance(now);
      PickPopped(out, ts, w.g.issued, w.g.nodes);
  }

  ghost predicate DrivingHeap(w: HeapStores.HeapTimers, handles: seq<HeapStores.HeapNode>, start: Store, ops: seq<Op>,
                              todo: seq<Op>, outs: seq<seq<HeapStores.HeapNode>>, l: Ledger)
    reads w, w.g.nodes
  {
    && w.Valid() && handles == w.g.issued && Admissible(l.now, |handles|, todo)
    && Following(start, ops, HeapStore(w.g.model), todo, l.done) && Match(outs, l.done, handles)
    && |handles| + Schedules(todo) == Schedules(ops)
  }

  method NextHeap(w: HeapStores.HeapTimers, handles: seq<HeapStores.HeapNode>, ghost start: Store, ghost ops: seq<Op>,
                  todo: seq<Op>, outs: seq<seq<HeapStores.HeapNode>>, ghost l: Ledger)
    returns (more: seq<HeapStores.HeapNode>, said: seq<seq<HeapStores.HeapNode>>, ghost m: Ledger)
    requires DrivingHeap(w, handles, start, ops, todo, outs, l) && todo != []
    modifies w, w.g.nodes
    ensures DrivingHeap(w, more, start, ops, todo[1..], said, m) == true
    ensures forall x :: x in w.g.nodes ==> x in old(w.g.nodes) || fresh(x)
  {
    ghost var ts := Step(HeapStore(w.g.model), todo[0]).1;
    FollowNext(start, ops, HeapStore(w.g.model), todo, l.done);
    var out;
    more, out := StepHeap(w, handles, todo[0]);
    MatchNext(outs, l.done, handles, out, ts, more);
    said := outs + [out];
    m := Ledger(if todo[0].Advance? then todo[0].now else l.now, l.done + [ts]);
  }

  method DriveHeap(ops: seq<Op>) returns (outs: seq<seq<HeapStores.HeapNode>>, handles: seq<HeapStores.HeapNode>)
    requires Admissible(0, 0, ops)
    ensures Match(outs, Run(HeapStore(H.EMPTY), ops), handles)
    ensures AllDistinct(handles) && |handles| == Schedules(ops) && forall x :: x in handles ==> fresh(x)
  {
    var w := new HeapStores.HeapTimers();
    var todo := ops;
    outs, handles := [], [];
    ghost var start, l := HeapStore(w.g.model), Ledger(0, []);
    FollowStart(start, ops);
    while todo != []
      invariant fresh(w) && fresh(w.g.nodes) && DrivingHeap(w, handles, start, ops, todo, outs, l) == true
      decreases |todo|
    {
      handles, outs, l := NextHeap(w, handles, start, ops, todo, outs, l);
      todo := todo[1..];
    }
    FollowEnd(start, ops, HeapStore(w.g.model), l.done);
    IssuedDistinct(handles, w.g.nodes);
  }

  /** The objects a fixed list may change are among `mine`. */
  ghost predicate Owned(w: FixedLists.FixedList, mine: set<object>)
    reads w
  {
    w in mine && (forall b :: b in w.buckets ==> b in mine) && (forall x :: x in w.g.nodes ==> x in mine)
  }

  method StepFixed(w: FixedLists.FixedList, handles: seq<Node>, op: Op) returns (more: seq<Node>, out: seq<Node>)
    requires w.Valid() && handles == w.g.issued && (op.Cancel? ==> op.id < |handles|)
    modifies w, w.buckets, w.g.nodes
    ensures w.Valid() && more == w.g.issued && handles <= more && |more| == |handles| + (if op.Schedule? then 1 else 0)
    ensures forall x :: x in w.g.nodes ==> x in old(w.g.nodes) || fresh(x)
    ensures forall b :: b in w.buckets ==> b in old(w.buckets) || fresh(b)
    ensures w.g.model == FixedStep(old(w.g.model), op).0 && Picked(out, FixedStep(old(w.g.model), op).1, more)
  {
    more, out := handles, [];
    match op
    case Schedule(delay) =>
      var node := w.Schedule(delay);
      more := handles + [node];
    case Cancel(id) => w.Cancel(handles[id]);
    case Advance(now) =>
      ghost var ts := FixedStep(w.g.model, op).1;
      out := w.Advance(now);
      PickFired(out, ts, w.g.issued, w.g.nodes);
  }

  /** A step, with the objects it may change held in one set. */
  method TurnFixed(w: FixedLists.FixedList, handles: seq<Node>, op: Op, ghost mine: set<object>)
    returns (more: seq<Node>, out: seq<Node>, ghost ours: set<object>)
    requires w.Valid() && handles == w.g.issued && (op.Cancel? ==> op.id < |handles|) && Owned(w, mine)
    modifies mine
    ensures w.Valid() == true && more == w.g.issued && handles <= more
            && |more| == |handles| + (if op.Schedule? then 1 else 0)
    ensures Owned(w, ours) && fresh(ours - mine)
    ensures w.g.model == FixedStep(old(w.g.model), op).0 && Picked(out, FixedStep(old(w.g.model), op).1, more)
  {
    more, out := StepFixed(w, handles, op);
    ours := mine + w.g.nodes + set b | b in w.buckets;
  }

  ghost predicate DrivingFixed(w: FixedLists.FixedList, handles: seq<Node>, start: Store, ops: seq<Op>, todo: seq<Op>,
                               outs: seq<seq<Node>>, l: Ledger, mine: set<object>)
    reads w, w.buckets, w.g.nodes
  {
    && Owned(w, mine) && w.Valid() && handles == w.g.issued && Admissible(l.now, |handles|, todo)
    && Following(start, ops, FixedStore(w.g.model), todo, l.done) && Match(outs, l.done, handles)
    && |handles| + Schedules(todo) == Schedules(ops)
  }

  method NextFixed(w: FixedLists.FixedList, handles: seq<Node>, ghost start: Store, ghost ops: seq<Op>, todo: seq<Op>,
                   outs: seq<seq<Node>>, ghost l: Ledger, ghost mine: set<object>)
    returns (more: seq<Node>, said: seq<seq<Node>>, ghost m: Ledger, ghost ours: set<object>)
    requires DrivingFixed(w, handles, start, ops, todo, outs, l, mine) && todo != []
    modifies mine
    ensures DrivingFixed(w, more, start, ops, todo[1..], said, m, ours) == true && fresh(ours - mine)
  {
    ghost var s := FixedStore(w.g.model);
    ghost var ts := Step(s, todo[0]).1;
    FollowNext(start, ops, s, todo, l.done);
    var out;
    more, out, ours := TurnFixed(w, handles, todo[0], mine);
    MatchNext(outs, l.done, handles, out, ts, more);
    said := outs + [out];
    m := Ledger(if todo[0].Advance? then todo[0].now else l.now, l.done + [ts]);
  }

  method DriveFixed(q: nat, ops: seq<Op>) returns (outs: seq<seq<Node>>, handles: seq<Node>)
    requires q > 0 && Admissible(0, 0, ops)
    ensures Match(outs, Run(FixedStore(F.NewFixed(q)), ops), handles)
    ensures AllDistinct(handles) && |handles| == Schedules(ops) && forall x :: x in handles ==> fresh(x)
  {
    var w := new FixedLists.FixedList(q);
    var todo := ops;
    outs, handles := [], [];
    ghost var start, l, mine: set<object> := FixedStore(w.g.model), Ledger(0, []), {w};
    FollowStart(start, ops);
    while todo != []
      invariant DrivingFixed(w, handles, start, ops, todo, outs, l, mine) == true && fresh(mine)
      decreases |todo|
    {
      handles, outs, l, mine := NextFixed(w, handles, start, ops, todo, outs, l, mine);
      todo := todo[1..];
    }
    FollowEnd(start, ops, FixedStore(w.g.model), l.done);
    NumberedDistinct(handles, w.g.nodes);
  }

  /** What came back is the handles of the timers due, each once. */
  ghost predicate Tells<N>(out: seq<N>, handles: seq<N>, due: set<Timer>) {
    && |out| == |due| && AllDistinct(out)
    && (forall t :: t in due ==> t.id < |handles| && handles[t.id] in out)
    && (forall i :: 0 <= i < |out| ==> exists t :: t in due && t.id < |handles| && out[i] == handles[t.id])
  }

  lemma TellsDue<N>(out: seq<N>, ts: seq<Timer>, handles: seq<N>, due: set<Timer>)
    requires Picked(out, ts, handles) && AllDistinct(handles) && multiset(ts) == multiset(due) && NoRepeat(ts)
    ensures Tells(out, handles, due)
  {
    assert |ts| == |multiset(ts)| && |due| == |multiset(due)|;
    forall t | t in due ensures t.id < |handles| && handles[t.id] in out {
      assert t in multiset(ts);
      var i :| 0 <= i < |ts| && ts[i] == t;
      assert out[i] == handles[t.id];
    }
    forall i | 0 <= i < |out| ensures exists t :: t in due && t.id < |handles| && out[i] == handles[t.id] {
      assert ts[i] in multiset(ts);
      assert ts[i] in multiset(due);
    }
  }

  /** What a whole drive returned, and the handles it was given, in schedule order. */
  datatype Report<N> = Report(outs: seq<seq<N>>, handles: seq<N>)

  /** One handle, unlike all others, for each schedule of the run; and from each operation exactly the
      handles of the timers that are due then. */
  ghost predicate Faithful<N>(r: Report<N>, ops: seq<Op>) {
    && AllDistinct(r.handles) && |r.handles| == Schedules(ops)
    && |r.outs| == |ops| == |Fired(ZERO, ops)|
    && forall k :: 0 <= k < |ops| ==> Tells(r.outs[k], r.handles, Fired(ZERO, ops)[k])
  }

  /** A store that agrees with the clock reports faithfully. */
  lemma MatchFaithful<N>(s: Store, max: nat, ops: seq<Op>, outs: seq<seq<N>>, handles: seq<N>)
    requires Fresh(s, max) && Delays(ops, max) && Admissible(0, 0, ops) && Shaped(s)
    requires Match(outs, Run(s, ops), handles) && AllDistinct(handles) && |handles| == Schedules(ops)
    ensures Faithful(Report(outs, handles), ops)
  {
    FourDesignsAgree(s, max, ops);
    FreshSimulates(s, max);
    StoreConservation(s, ZERO, ops);
    forall k | 0 <= k < |ops| ensures Tells(outs[k], handles, Fired(ZERO, ops)[k]) {
      TellsDue(outs[k], Run(s, ops)[k], handles, Fired(ZERO, ops)[k]);
    }
  }

  /** The four stores, as objects with their links, side by side: each operation of every admissible
      run returns from each of them exactly the handles that are due then, and no handle twice. */
  method Compare(max: nat, ops: seq<Op>)
    returns (heap: Report<HeapStores.HeapNode>, sized: Report<Node>, hier: Report<Node>, fixed: Report<Node>)
    requires Delays(ops, max) && Admissible(0, 0, ops)
    ensures Faithful(heap, ops) && Faithful(sized, ops) && Faithful(hier, ops) && Faithful(fixed, ops)
  {
    var popped, nodes := DriveHeap(ops);
    MatchFaithful(HeapStore(H.EMPTY), max, ops, popped, nodes);
    heap := Report(popped, nodes);
    CoarseOne(ops);
    var outs, handles := DriveHashed(1, max + 2, ops);
    MatchFaithful(WheelStore(W.NewWheel(max + 2)), max, ops, outs, handles);
    sized := Report(outs, handles);
    outs, handles := DriveHier(1, ops);
    MatchFaithful(HierStore(V.NewHier()), max, ops, outs, handles);
    hier := Report(outs, handles);
    outs, handles := DriveFixed(1, ops);
    MatchFaithful(FixedStore(F.NewFixed(1)), max, ops, outs, handles);
    fixed := Report(outs, handles);
  }
}
