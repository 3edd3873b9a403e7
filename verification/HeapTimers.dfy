/**
 The lazy-cancel heap, updated in place, against its value model. `heapq` is taken at its contract: the
 heap list is the set of its nodes, a push adds one, a pop takes out the least, and rebuilding it from a
 filtered list keeps exactly the filtered nodes.
 */
module HeapStores {
  import opened TimerSpec
  import H = HeapModel

  class HeapNode {
    const when: nat
    const seqNo: nat       // counted from one, in schedule order
    var cancelled: bool

    constructor (when: nat, seqNo: nat)
      ensures this.when == when && this.seqNo == seqNo && !cancelled
    {
      this.when, this.seqNo, cancelled := when, seqNo, false;
    }
  }

  predicate Less(a: HeapNode, b: HeapNode) {
    a.when < b.when || (a.when == b.when && a.seqNo < b.seqNo)
  }

  ghost function TimerOf(n: HeapNode): Timer
    requires n.seqNo > 0
  {
    Timer(n.seqNo - 1, n.when)
  }

  /** Every node ever handed out, by number. */
  ghost predicate Numbered(issued: seq<HeapNode>) {
    forall i :: 0 <= i < |issued| ==> issued[i].seqNo == i + 1
  }

  /** The nodes are handles of this store. */
  ghost predicate Ours(h: set<HeapNode>, issued: seq<HeapNode>) {
    forall n :: n in h ==> 0 < n.seqNo <= |issued| && issued[n.seqNo - 1] == n
  }

  ghost function Times(h: set<HeapNode>, issued: seq<HeapNode>): set<Timer>
    requires Ours(h, issued)
  {
    set n | n in h :: TimerOf(n)
  }

  lemma InTimes(h: set<HeapNode>, issued: seq<HeapNode>, n: HeapNode)
    requires Ours(h, issued) && Ours({n}, issued)
    ensures TimerOf(n) in Times(h, issued) <==> n in h
  {
    assert n in {n};
    if TimerOf(n) in Times(h, issued) {
      var m :| m in h && TimerOf(m) == TimerOf(n);
      assert issued[m.seqNo - 1] == m;
    }
  }

  lemma {:induction false} TimesSize(h: set<HeapNode>, issued: seq<HeapNode>)
    requires Ours(h, issued)
    ensures |Times(h, issued)| == |h|
  {
    if h != {} {
      var n :| n in h;
      var rest := h - {n};
      TimesSize(rest, issued);
      assert n in {n};
      assert Ours({n}, issued);
      InTimes(rest, issued, n);
      assert Times(h, issued) == Times(rest, issued) + {TimerOf(n)};
    }
  }

  lemma TimesPush(h: set<HeapNode>, issued: seq<HeapNode>, n: HeapNode)
    requires Ours(h, issued) && n.seqNo == |issued| + 1
    ensures Ours(h + {n}, issued + [n]) && Times(h + {n}, issued + [n]) == Times(h, issued) + {TimerOf(n)}
  {
    forall t | t in Times(h, issued) + {TimerOf(n)} ensures t in Times(h + {n}, issued + [n]) {
      if t == TimerOf(n) {
        assert n in h + {n};
      } else {
        var m :| m in h && TimerOf(m) == t;
        assert m in h + {n};
      }
    }
  }

  datatype Shadow = Shadow(model: H.Heap, issued: seq<HeapNode>, nodes: set<HeapNode>)

  /** The heap's nodes are handles of this store, and a node's mark is what the model says. */
  ghost predicate Base(h: set<HeapNode>, seqNo: nat, g: Shadow)
    reads g.nodes
  {
    && |g.issued| == seqNo == g.model.next
    && Numbered(g.issued) && Ours(g.nodes, g.issued) && h <= g.nodes
    && (forall i :: 0 <= i < |g.issued| ==> g.issued[i] in g.nodes)
    && (forall id :: id in g.model.dead ==> id < |g.issued|)
    && (forall n :: n in g.nodes ==> (n.cancelled <==> n.seqNo - 1 in g.model.dead))
  }

  ghost predicate Holds(h: set<HeapNode>, count: int, seqNo: nat, now: nat, g: Shadow)
    reads g.nodes
  {
    Base(h, seqNo, g) && g.model.now == now && g.model.count == count && Times(h, g.issued) == g.model.h
  }

  lemma Keep(h: set<HeapNode>, kept: set<HeapNode>, count: int, seqNo: nat, now: nat, g: Shadow)
    requires Holds(h, count, seqNo, now, g) && kept == (set n | n in h && !n.cancelled)
    ensures Ours(kept, g.issued) && Times(kept, g.issued) == H.Live(g.model)
  {
    forall t | t in H.Live(g.model) ensures t in Times(kept, g.issued) {
      var n :| n in h && TimerOf(n) == t;
      assert n in kept;
    }
  }

  ghost predicate Inside(xs: seq<HeapNode>, nodes: set<HeapNode>) {
    forall i :: 0 <= i < |xs| ==> xs[i] in nodes
  }

  ghost predicate Fires(fired: seq<HeapNode>, ts: seq<Timer>) {
    |fired| == |ts| && forall i :: 0 <= i < |fired| ==> fired[i].seqNo == ts[i].id + 1
  }

  lemma {:induction false} LeastExists(h: set<HeapNode>, issued: seq<HeapNode>)
    requires Ours(h, issued) && h != {}
    ensures exists n :: n in h && forall m :: m in h && m != n ==> Less(n, m)
  {
    var x :| x in h;
    var rest := h - {x};
    if rest == {} {
      assert h == {x};
    } else {
      LeastExists(rest, issued);
      var n :| n in rest && forall m :: m in rest && m != n ==> Less(n, m);
      var least := if Less(n, x) then n else x;
      assert n.seqNo != x.seqNo by { assert issued[n.seqNo - 1] == n && issued[x.seqNo - 1] == x; }
      assert least != n ==> Less(x, n);
      forall m | m in h && m != least ensures Less(least, m) {
        assert m == x || m in rest;
      }
      assert least in h;
    }
  }

  method Least(h: set<HeapNode>, ghost issued: seq<HeapNode>) returns (n: HeapNode)
    requires Ours(h, issued) && h != {}
    ensures n in h && forall m :: m in h && m != n ==> Less(n, m)
  {
    LeastExists(h, issued);
    n :| n in h && forall m :: m in h && m != n ==> Less(n, m);
  }

  /** Part of the due nodes has been popped from the heap that the model still shows whole. */
  ghost predicate Midway(h: set<HeapNode>, count: int, seqNo: nat, now: nat, g: Shadow, fired: seq<HeapNode>,
                         ts: seq<Timer>)
    reads g.nodes
  {
    Base(h, seqNo, g) && Inside(fired, g.nodes)
    && Fires(fired, ts) && H.Popped(g.model, Times(h, g.issued), now, ts, count)
  }

  lemma LeastTimer(h: set<HeapNode>, g: Shadow, n: HeapNode)
    requires n in h && Ours(h, g.issued) && forall m :: m in h && m != n ==> Less(n, m)
    ensures TimerOf(n) in Times(h, g.issued)
    ensures forall u :: u in Times(h, g.issued) && u != TimerOf(n) ==> Precedes(false, TimerOf(n), u)
  {
    forall u | u in Times(h, g.issued) && u != TimerOf(n) ensures Precedes(false, TimerOf(n), u) {
      var m :| m in h && TimerOf(m) == u;
      assert Less(n, m);
    }
  }

  lemma FiresMore(fired: seq<HeapNode>, ts: seq<Timer>, n: HeapNode, nodes: set<HeapNode>)
    requires Fires(fired, ts) && Inside(fired, nodes) && n in nodes && n.seqNo > 0
    ensures Fires(fired + [n], ts + [TimerOf(n)]) && Inside(fired + [n], nodes)
  {
  }

  lemma PopNode(h: set<HeapNode>, count: int, seqNo: nat, now: nat, g: Shadow, fired: seq<HeapNode>, ts: seq<Timer>,
                n: HeapNode)
    requires Midway(h, count, seqNo, now, g, fired, ts) && n in h && n.when <= now
    requires forall m :: m in h && m != n ==> Less(n, m)
    ensures n.cancelled ==> Midway(h - {n}, count - 1, seqNo, now, g, fired, ts) == true
    ensures !n.cancelled ==> Midway(h - {n}, count, seqNo, now, g, fired + [n], ts + [TimerOf(n)]) == true
  {
    BaseLess(h, seqNo, g, n);
    PopTimes(h, count, now, g, ts, n);
    FiresMore(fired, ts, n, g.nodes);
  }

  lemma BaseLess(h: set<HeapNode>, seqNo: nat, g: Shadow, n: HeapNode)
    requires Base(h, seqNo, g) && n in h
    ensures Base(h - {n}, seqNo, g) == true && Ours(h, g.issued) && n in g.nodes && n.seqNo > 0
    ensures n.cancelled <==> TimerOf(n).id in g.model.dead
  {
  }

  lemma PopTimes(h: set<HeapNode>, count: int, now: nat, g: Shadow, ts: seq<Timer>, n: HeapNode)
    requires Ours(h, g.issued) && n in h && n.when <= now && H.Popped(g.model, Times(h, g.issued), now, ts, count)
    requires forall m :: m in h && m != n ==> Less(n, m)
    ensures TimerOf(n).id in g.model.dead ==> H.Popped(g.model, Times(h - {n}, g.issued), now, ts, count - 1) == true
    ensures TimerOf(n).id !in g.model.dead ==>
              H.Popped(g.model, Times(h - {n}, g.issued), now, ts + [TimerOf(n)], count) == true
  {
    var left, t := Times(h, g.issued), TimerOf(n);
    LeastTimer(h, g, n);
    H.PopStep(g.model, left, now, ts, count, t);
    TimesTake(h, g.issued, n);
  }

  lemma Begin(h: set<HeapNode>, count: int, seqNo: nat, now: nat, g: Shadow, time: nat)
    requires Holds(h, count, seqNo, now, g)
    ensures Midway(h, count, seqNo, time, g, [], [])
  {
    H.PopStart(g.model, time);
  }

  lemma Finish(h: set<HeapNode>, count: int, seqNo: nat, time: nat, g: Shadow, fired: seq<HeapNode>, ts: seq<Timer>)
    requires Midway(h, count, seqNo, time, g, fired, ts) && forall t :: t in Times(h, g.issued) ==> t.when > time
    ensures Holds(h, count, seqNo, time, g.(model := H.AdvanceTo(g.model, time).0))
    ensures Fires(fired, H.AdvanceTo(g.model, time).1)
  {
    H.PopEnd(g.model, Times(h, g.issued), time, ts, count);
  }

  lemma TimesTake(h: set<HeapNode>, issued: seq<HeapNode>, n: HeapNode)
    requires Ours(h, issued) && n in h
    ensures Times(h - {n}, issued) == Times(h, issued) - {TimerOf(n)}
  {
    assert Ours({n}, issued) && n in {n};
    InTimes(h - {n}, issued, n);
    forall t | t in Times(h, issued) - {TimerOf(n)} ensures t in Times(h - {n}, issued) {
      var m :| m in h && TimerOf(m) == t;
      assert m in h - {n};
    }
  }

  /** The shadow with one more handle. */
  ghost function Pushed(g: Shadow, n: HeapNode, delay: nat): Shadow {
    Shadow(H.Insert(g.model, delay), g.issued + [n], g.nodes + {n})
  }

  lemma HoldsPush(h: set<HeapNode>, count: int, seqNo: nat, now: nat, g: Shadow, n: HeapNode, delay: nat)
    requires Holds(h, count, seqNo, now, g) && n !in g.nodes && !n.cancelled && n.seqNo == seqNo + 1
             && n.when == now + delay
    ensures Holds(h + {n}, count, seqNo + 1, now, Pushed(g, n, delay)) == true
  {
    TimesPush(h, g.issued, n);
  }

  class HeapTimers {
    var h: set<HeapNode>
    var count: int
    var seqNo: nat
    var now: nat
    ghost var g: Shadow

    ghost predicate Valid()
      reads this, g.nodes
    {
      Holds(h, count, seqNo, now, g)
    }

    constructor ()
      ensures Valid() && g.model == H.EMPTY && g.issued == [] && g.nodes == {}
    {
      h, count, seqNo, now := {}, 0, 0, 0;
      g := Shadow(H.EMPTY, [], {});
    }

    method Schedule(delay: nat) returns (n: HeapNode)
      requires Valid()
      modifies this
      ensures Valid() == true && fresh(n) && g.issued == old(g.issued) + [n] && g.nodes == old(g.nodes) + {n}
              && !n.cancelled
      ensures g.model == H.Insert(old(g.model), delay)
    {
      n := new HeapNode(now + delay, seqNo + 1);
      HoldsPush(h, count, seqNo, now, g, n, delay);
      seqNo := seqNo + 1;
      h := h + {n};
      g := Pushed(g, n, delay);
    }

    /** Marks a node. When marked nodes seem to be the majority of a long heap, the heap is rebuilt from the
        others. */
    method Cancel(n: HeapNode)
      requires Valid() && n in g.nodes
      modifies this, n
      ensures Valid() && g.issued == old(g.issued) && g.nodes == old(g.nodes) && n.cancelled
      ensures g.model == H.Remove(old(g.model), n.seqNo - 1)
    {
      if !n.cancelled {
        Mark(n);
        TimesSize(h, g.issued);
        if |h| > H.MIN_SCHED && 2 * count > |h| {
          Compact();
        }
      }
    }

    method Mark(n: HeapNode)
      requires Valid() && n in g.nodes && !n.cancelled
      modifies this, n
      ensures Valid() && g == old(g).(model := H.Marked(old(g.model), n.seqNo - 1)) && n.cancelled
    {
      n.cancelled := true;
      count := count + 1;
      g := g.(model := H.Marked(g.model, n.seqNo - 1));
    }

    method Compact()
      requires Valid()
      modifies this
      ensures Valid() && g == old(g).(model := H.Compacted(old(g.model)))
    {
      var kept := set x | x in h && !x.cancelled;
      Keep(h, kept, count, seqNo, now, g);
      h, count := kept, 0;
      g := g.(model := H.Compacted(g.model));
    }

    /** Pops every due node; the ones not marked fire, in order of deadline and then of scheduling. */
    method Advance(time: nat) returns (fired: seq<HeapNode>)
      requires Valid()
      modifies this
      ensures Valid() && g.issued == old(g.issued) && g.nodes == old(g.nodes)
      ensures g.model == H.AdvanceTo(old(g.model), time).0 && Fires(fired, H.AdvanceTo(old(g.model), time).1)
      ensures Inside(fired, g.nodes)
    {
      ghost var ts;
      Begin(h, count, seqNo, now, g, time);
      fired, ts := PopDue(time);
      Conclude(time, fired, ts);
    }

    method Conclude(time: nat, ghost fired: seq<HeapNode>, ghost ts: seq<Timer>)
      requires Midway(h, count, seqNo, time, g, fired, ts) && forall t :: t in Times(h, g.issued) ==> t.when > time
      modifies this`now, this`g
      ensures Valid() && g.issued == old(g.issued) && g.nodes == old(g.nodes)
      ensures g.model == H.AdvanceTo(old(g.model), time).0 && Fires(fired, H.AdvanceTo(old(g.model), time).1)
      ensures Inside(fired, g.nodes)
    {
      Finish(h, count, seqNo, time, g, fired, ts);
      now := time;
      g := g.(model := H.AdvanceTo(g.model, time).0);
    }

    method PopDue(time: nat) returns (fired: seq<HeapNode>, ghost ts: seq<Timer>)
      requires Midway(h, count, seqNo, time, g, [], [])
      modifies this`h, this`count
      ensures Midway(h, count, seqNo, time, g, fired, ts)
      ensures forall t :: t in Times(h, g.issued) ==> t.when > time
    {
      fired, ts := [], [];
      var due := true;
      while h != {} && due
        invariant Midway(h, count, seqNo, time, g, fired, ts)
        invariant !due ==> forall t :: t in Times(h, g.issued) ==> t.when > time
        decreases h, due
      {
        due, fired, ts := Pop(time, fired, ts);
      }
    }

    /** Pops the least node if it is due. */
    method Pop(time: nat, before: seq<HeapNode>, ghost ts: seq<Timer>)
      returns (due: bool, fired: seq<HeapNode>, ghost ts1: seq<Timer>)
      requires Midway(h, count, seqNo, time, g, before, ts) && h != {}
      modifies this`h, this`count
      ensures Midway(h, count, seqNo, time, g, fired, ts1)
      ensures due ==> h < old(h)
      ensures !due ==> h == old(h) && forall t :: t in Times(h, g.issued) ==> t.when > time
    {
      fired, ts1 := before, ts;
      var n := Least(h, g.issued);
      due := n.when <= time;
      if due {
        fired, ts1 := Take(n, time, before, ts);
      }
    }

    method Take(n: HeapNode, ghost time: nat, before: seq<HeapNode>, ghost ts: seq<Timer>)
      returns (fired: seq<HeapNode>, ghost ts1: seq<Timer>)
      requires Midway(h, count, seqNo, time, g, before, ts) && n in h && n.when <= time
      requires forall m :: m in h && m != n ==> Less(n, m)
      modifies this`h, this`count
      ensures Midway(h, count, seqNo, time, g, fired, ts1) && h == old(h) - {n}
    {
      PopNode(h, count, seqNo, time, g, before, ts, n);
      fired, ts1 := before, ts;
      h := h - {n};
      if n.cancelled {
        count := count - 1;
      } else {
        fired, ts1 := fired + [n], ts + [TimerOf(n)];
      }
    }
  }
}
