/**
 The lazy-cancel heap as a value. The heap list is the set of its nodes: `heapq` is taken at its
 contract, so only which node is least matters, not where it lies. `dead` holds the handles whose
 node carries the cancelled flag, whether or not the node is still in the heap. `cancels` and
 `rebuilt` only record history: effective cancels, and nodes scanned by compactions.
 */
module HeapModel {
  import opened TimerSpec

  const MIN_SCHED := 100

  datatype Heap = Heap(now: nat, next: nat, h: set<Timer>, dead: set<nat>, count: int, cancels: nat, rebuilt: nat)

  const EMPTY := Heap(0, 0, {}, {}, 0, 0, 0)

  function Live(x: Heap): set<Timer> {
    set t | t in x.h && t.id !in x.dead
  }

  function Garbage(x: Heap): set<Timer> {
    set t | t in x.h && t.id in x.dead
  }

  function Insert(x: Heap, delay: nat): Heap {
    x.(next := x.next + 1, h := x.h + {Timer(x.next, x.now + delay)})
  }

  /** More than half of a heap of some size is counted as cancelled. */
  predicate Crowded(x: Heap) {
    |x.h| > MIN_SCHED && 2 * x.count > |x.h|
  }

  function Compacted(x: Heap): Heap {
    x.(h := Live(x), count := 0, rebuilt := x.rebuilt + |x.h|)
  }

  function Marked(x: Heap, id: nat): Heap {
    x.(dead := x.dead + {id}, count := x.count + 1, cancels := x.cancels + 1)
  }

  function Remove(x: Heap, id: nat): Heap {
    if id in x.dead then x
    else if Crowded(Marked(x, id)) then Compacted(Marked(x, id))
    else Marked(x, id)
  }

  ghost function AdvanceTo(x: Heap, now: nat): (Heap, seq<Timer>) {
    (x.(now := now, h := x.h - Due(x.h, now), count := x.count - |Due(Garbage(x), now)|), Ascending(Due(Live(x), now)))
  }

  /** Cancelled nodes are counted at least once each, and compactions have been paid for by cancels. */
  ghost predicate Inv(x: Heap) {
    && (forall t :: t in x.h ==> t.id < x.next)
    && (forall t, u :: t in x.h && u in x.h && t.id == u.id ==> t == u)
    && (forall id :: id in x.dead ==> id < x.next)
    && x.count >= |Garbage(x)|
    && x.rebuilt + 2 * x.count <= 2 * x.cancels
    && (x.rebuilt > 0 ==> x.rebuilt + 2 * x.count < 2 * x.cancels)
  }

  lemma EmptyInv()
    ensures Inv(EMPTY) && Live(EMPTY) == {}
  {
    assert Garbage(EMPTY) == {};
  }

  lemma InsertLive(x: Heap, delay: nat)
    requires Inv(x)
    ensures Inv(Insert(x, delay))
    ensures Live(Insert(x, delay)) == Live(x) + {Timer(x.next, x.now + delay)}
    ensures Insert(x, delay).count - |Garbage(Insert(x, delay))| == x.count - |Garbage(x)|
  {
    assert Garbage(Insert(x, delay)) == Garbage(x);
  }

  /** Marking a node adds one to the counter and one cancelled node to the heap, unless the node has
      already left the heap: then the counter alone grows. */
  lemma MarkedGarbage(x: Heap, id: nat)
    requires Inv(x) && id !in x.dead
    ensures |Garbage(Marked(x, id))| == |Garbage(x)| + if id in IdSet(x.h) then 1 else 0
    ensures Live(Marked(x, id)) == Without(Live(x), id)
    ensures |x.h| == |Live(x)| + |Garbage(x)|
  {
    SizeSplit(x);
    GarbageGrows(x, id);
  }

  lemma SizeSplit(x: Heap)
    ensures |x.h| == |Live(x)| + |Garbage(x)|
  {
    assert Live(x) + Garbage(x) == x.h;
  }

  lemma GarbageGrows(x: Heap, id: nat)
    requires Inv(x) && id !in x.dead
    ensures |Garbage(Marked(x, id))| == |Garbage(x)| + if id in IdSet(x.h) then 1 else 0
  {
    if t :| t in x.h && t.id == id {
      assert Garbage(Marked(x, id)) == Garbage(x) + {t};
    } else {
      assert Garbage(Marked(x, id)) == Garbage(x);
    }
  }

  /** A cancel takes its timer out and no other. Right after an effective one the heap is short or at
      least half alive, and the counter is off by exactly the cancels of nodes that had left the heap. */
  lemma RemoveLive(x: Heap, id: nat)
    requires Inv(x) && id < x.next
    ensures Inv(Remove(x, id)) && Live(Remove(x, id)) == Without(Live(x), id)
    ensures id !in x.dead ==> |Remove(x, id).h| <= 100 || |Remove(x, id).h| <= 2 * |Live(Remove(x, id))|
    ensures id !in x.dead && !Crowded(Marked(x, id)) ==>
              Remove(x, id).count - |Garbage(Remove(x, id))|
                == x.count - |Garbage(x)| + if id in IdSet(x.h) then 0 else 1
    ensures id !in x.dead && Crowded(Marked(x, id)) ==> Remove(x, id).count == |Garbage(Remove(x, id))| == 0
  {
    if id !in x.dead {
      MarkedGarbage(x, id);
      SizeSplit(Marked(x, id));
      CompactedLive(Marked(x, id));
    }
  }

  lemma CompactedLive(m: Heap)
    ensures Garbage(Compacted(m)) == {} && Live(Compacted(m)) == Live(m)
  {
  }

  /** An advance pops the due timers in heap order, drops the cancelled ones among them and keeps the
      counter's distance to the truth. */
  lemma AdvanceLive(x: Heap, now: nat)
    requires Inv(x)
    ensures var (y, fired) := AdvanceTo(x, now);
            && Inv(y) && Live(y) == Live(x) - Elems(fired)
            && Elems(fired) == Due(Live(x), now) && Sorted(false, fired)
            && y.count >= 0 && y.count - |Garbage(y)| == x.count - |Garbage(x)|
  {
    AdvanceGarbage(x, now);
  }

  /** The counter loses exactly the cancelled nodes that were popped. */
  lemma AdvanceGarbage(x: Heap, now: nat)
    ensures |Garbage(AdvanceTo(x, now).0)| == |Garbage(x)| - |Due(Garbage(x), now)|
  {
    var y := AdvanceTo(x, now).0;
    assert Garbage(y) == Garbage(x) - Due(Garbage(x), now);
    assert Garbage(x) == Garbage(y) + Due(Garbage(x), now);
  }

  /** Stopping on the way changes nothing. */
  lemma AdvanceBatches(x: Heap, a: nat, b: nat)
    requires a <= b
    ensures var (y, first) := AdvanceTo(x, a);
            var (z, second) := AdvanceTo(y, b);
            AdvanceTo(x, b) == (z, first + second)
  {
    var (y, first) := AdvanceTo(x, a);
    var (z, second) := AdvanceTo(y, b);
    assert y.h - Due(y.h, b) == x.h - Due(x.h, b);
    assert Garbage(y) == Garbage(x) - Due(Garbage(x), a);
    assert Due(Garbage(x), b) == Due(Garbage(x), a) + Due(Garbage(y), b);
    assert Due(Live(x), b) == Due(Live(x), a) + Due(Live(y), b);
    ElemsConcat(first, second);
    forall s, t | s in first && t in second ensures Precedes(false, s, t) {
      assert s in Elems(first) && t in Elems(second);
    }
    SortedConcat(false, first, second);
    SortedUnique(false, first + second, AdvanceTo(x, b).1);
  }

  // ----- Popping one node at a time -----

  /** The nodes outside `left` have been popped, least first; `ts` are the live ones among them. */
  ghost predicate Popped(x: Heap, left: set<Timer>, now: nat, ts: seq<Timer>, count: int) {
    && left <= x.h
    && (forall t, u :: t in x.h - left && u in left ==> Precedes(false, t, u))
    && (forall t :: t in x.h - left ==> t.when <= now)
    && Sorted(false, ts) && Elems(ts) == Live(x) - left
    && count == x.count - |Garbage(x) - left|
  }

  lemma PopStart(x: Heap, now: nat)
    ensures Popped(x, x.h, now, [], x.count)
  {
    assert Live(x) - x.h == {} && Garbage(x) - x.h == {};
  }

  /** Popping the least node keeps the popped ones in order. */
  lemma PopStep(x: Heap, left: set<Timer>, now: nat, ts: seq<Timer>, count: int, t: Timer)
    requires Popped(x, left, now, ts, count) && t in left && t.when <= now
    requires forall u :: u in left && u != t ==> Precedes(false, t, u)
    ensures t.id in x.dead ==> Popped(x, left - {t}, now, ts, count - 1)
    ensures t.id !in x.dead ==> Popped(x, left - {t}, now, ts + [t], count)
  {
    var rest := left - {t};
    assert forall s :: s in x.h - rest ==> s == t || s in x.h - left;
    if t.id in x.dead {
      assert Live(x) - rest == Live(x) - left;
      assert Garbage(x) - rest == (Garbage(x) - left) + {t};
    } else {
      assert Garbage(x) - rest == Garbage(x) - left;
      PopLive(x, left, ts, t);
    }
  }

  lemma PopLive(x: Heap, left: set<Timer>, ts: seq<Timer>, t: Timer)
    requires t in Live(x) && t in left && Sorted(false, ts) && Elems(ts) == Live(x) - left
    requires forall s :: s in x.h - left ==> Precedes(false, s, t)
    ensures Sorted(false, ts + [t]) && Elems(ts + [t]) == Live(x) - (left - {t})
  {
    assert Live(x) - (left - {t}) == (Live(x) - left) + {t};
    ElemsConcat(ts, [t]);
    assert Elems([t]) == {t};
    forall s, u | s in ts && u in [t] ensures Precedes(false, s, u) {
      assert s in Elems(ts);
    }
    SortedConcat(false, ts, [t]);
  }

  /** When the least node left is not due, exactly the due nodes have been popped. */
  lemma PopEnd(x: Heap, left: set<Timer>, now: nat, ts: seq<Timer>, count: int)
    requires Popped(x, left, now, ts, count) && forall t :: t in left ==> t.when > now
    ensures x.h - Due(x.h, now) == left && AdvanceTo(x, now) == (x.(now := now, h := left, count := count), ts)
  {
    assert x.h - left == Due(x.h, now);
    assert Garbage(x) - left == Due(Garbage(x), now);
    assert Live(x) - left == Due(Live(x), now);
    SortedUnique(false, ts, AdvanceTo(x, now).1);
  }
}
