/**
 The simple store that every timer design is meant to implement: a clock and a map from handle to
 deadline. Handles are numbered in the order they are scheduled, and the map is kept as the set of
 its (handle, deadline) pairs.
 */
module TimerSpec {

  datatype Timer = Timer(id: nat, when: nat)

  datatype Op = Schedule(delay: nat) | Cancel(id: nat) | Advance(now: nat)

  datatype Clock = Clock(now: nat, next: nat, pending: set<Timer>)

  const ZERO := Clock(0, 0, {})

  function AtLeastOne(ticks: nat): nat {
    if ticks == 0 then 1 else ticks
  }

  /** Whole ticks in a delay, at least one. */
  function Ticks(delay: nat, res: nat): nat
    requires res > 0
  {
    AtLeastOne(delay / res)
  }

  function Due(pending: set<Timer>, now: nat): set<Timer> {
    set t | t in pending && t.when <= now
  }

  function Without(pending: set<Timer>, id: nat): set<Timer> {
    set t | t in pending && t.id != id
  }

  function StepClock(c: Clock, op: Op): (Clock, set<Timer>) {
    match op
    case Schedule(delay) => (Clock(c.now, c.next + 1, c.pending + {Timer(c.next, c.now + delay)}), {})
    case Cancel(id) => (c.(pending := Without(c.pending, id)), {})
    case Advance(now) => (Clock(now, c.next, c.pending - Due(c.pending, now)), Due(c.pending, now))
  }

  /** Every operation of the run, from the first, is one a caller can make: a handle must have been
      handed out before it is cancelled, and time does not go backwards. */
  predicate Admissible(now: nat, next: nat, ops: seq<Op>)
    decreases |ops|
  {
    ops == [] ||
    match ops[0]
    case Schedule(_) => Admissible(now, next + 1, ops[1..])
    case Cancel(id) => id < next && Admissible(now, next, ops[1..])
    case Advance(t) => now <= t && Admissible(t, next, ops[1..])
  }

  // ----- Order of firing -----

  ghost function Elems(xs: seq<Timer>): set<Timer> {
    set t | t in xs
  }

  /** Order by deadline. Equal deadlines go by schedule order, the comparison of heap nodes, or, when
      `lifo` is set, the timer scheduled last goes first. */
  predicate Precedes(lifo: bool, a: Timer, b: Timer) {
    a.when < b.when || (a.when == b.when && if lifo then a.id > b.id else a.id < b.id)
  }

  ghost predicate Sorted(lifo: bool, xs: seq<Timer>) {
    forall i, j :: 0 <= i < j < |xs| ==> Precedes(lifo, xs[i], xs[j])
  }

  lemma {:induction false} EarliestExists(s: set<Timer>)
    requires s != {}
    ensures exists t :: t in s && forall u :: u in s && u != t ==> Precedes(false, t, u)
  {
    var x :| x in s;
    var rest := s - {x};
    if rest == {} {
      assert s == {x};
    } else {
      EarliestExists(rest);
      var t :| t in rest && forall u :: u in rest && u != t ==> Precedes(false, t, u);
      var best := if Precedes(false, t, x) then t else x;
      assert forall u :: u in s ==> u == x || u in rest;
      assert best in s && forall u :: u in s && u != best ==> Precedes(false, best, u);
    }
  }

  /** The timers of a set in the order a heap pops them. */
  ghost function Ascending(s: set<Timer>): (r: seq<Timer>)
    ensures Sorted(false, r)
    ensures Elems(r) == s
  {
    if s == {} then [] else
    EarliestExists(s);
    var t :| t in s && forall u :: u in s && u != t ==> Precedes(false, t, u);
    var rest := Ascending(s - {t});
    assert forall u :: u in rest <==> u in Elems(rest);
    assert forall u :: u in [t] + rest <==> u == t || u in s - {t};
    [t] + rest
  }

  /** A set has one sorted order only. */
  lemma {:induction false} SortedUnique(lifo: bool, xs: seq<Timer>, ys: seq<Timer>)
    requires Sorted(lifo, xs) && Sorted(lifo, ys) && Elems(xs) == Elems(ys)
    ensures xs == ys
  {
    assert forall t :: t in xs <==> t in Elems(xs);
    assert forall t :: t in ys <==> t in Elems(ys);
    assert xs == [] <==> ys == [] by {
      if xs != [] { assert xs[0] in ys; }
      if ys != [] { assert ys[0] in xs; }
    }
    if xs != [] {
      assert xs[0] in ys && ys[0] in xs;
      assert xs[0] == ys[0];
      forall t ensures t in Elems(xs[1..]) <==> t in Elems(ys[1..]) {
        TailElems(lifo, xs, t);
        TailElems(lifo, ys, t);
      }
      SortedUnique(lifo, xs[1..], ys[1..]);
    }
  }

  lemma TailElems(lifo: bool, xs: seq<Timer>, t: Timer)
    requires Sorted(lifo, xs) && xs != []
    ensures t in xs[1..] <==> t in xs && t != xs[0]
  {
    if t in xs[1..] {
      var i :| 0 <= i < |xs[1..]| && xs[1..][i] == t;
      assert xs[i + 1] == t;
    }
    if t in xs && t != xs[0] {
      var i :| 0 <= i < |xs| && xs[i] == t;
      assert xs[1..][i - 1] == t;
    }
  }

  function Reverse(xs: seq<Timer>): (r: seq<Timer>)
    ensures |r| == |xs|
  {
    seq(|xs|, i requires 0 <= i < |xs| => xs[|xs| - 1 - i])
  }

  /** Length of the leading block of timers that share the first one's deadline. */
  function BlockLength(xs: seq<Timer>): (k: nat)
    requires xs != []
    ensures 1 <= k <= |xs|
    ensures forall i :: 0 <= i < k ==> xs[i].when == xs[0].when
    ensures k < |xs| ==> xs[k].when != xs[0].when
  {
    if |xs| > 1 && xs[1].when == xs[0].when then
      var k := BlockLength(xs[1..]);
      assert forall i :: 1 <= i < k + 1 ==> xs[i] == xs[1..][i - 1];
      k + 1
    else 1
  }

  /** The same timers with every maximal block of equal deadlines reversed. */
  function ReverseTies(xs: seq<Timer>): seq<Timer>
    decreases |xs|
  {
    if xs == [] then [] else
    var k := BlockLength(xs);
    Reverse(xs[..k]) + ReverseTies(xs[k..])
  }

  lemma SortedConcat(lifo: bool, xs: seq<Timer>, ys: seq<Timer>)
    requires Sorted(lifo, xs) && Sorted(lifo, ys)
    requires forall x, y :: x in xs && y in ys ==> Precedes(lifo, x, y)
    ensures Sorted(lifo, xs + ys)
  {
    var zs := xs + ys;
    forall i, j | 0 <= i < j < |zs| ensures Precedes(lifo, zs[i], zs[j]) {
      if i < |xs| <= j {
        assert zs[i] in xs && zs[j] in ys;
      }
    }
  }

  lemma ElemsConcat(xs: seq<Timer>, ys: seq<Timer>)
    ensures Elems(xs + ys) == Elems(xs) + Elems(ys)
  {
  }

  lemma ReverseBlock(xs: seq<Timer>)
    requires Sorted(false, xs)
    requires forall i :: 0 <= i < |xs| ==> xs[i].when == xs[0].when
    ensures Sorted(true, Reverse(xs)) && Elems(Reverse(xs)) == Elems(xs)
  {
    var ys := Reverse(xs);
    forall t ensures t in ys <==> t in xs {
      if t in xs {
        var i :| 0 <= i < |xs| && xs[i] == t;
        assert ys[|xs| - 1 - i] == t;
      }
    }
    forall i, j | 0 <= i < j < |ys| ensures Precedes(true, ys[i], ys[j]) {
      assert Precedes(false, xs[|xs| - 1 - j], xs[|xs| - 1 - i]);
    }
  }

  /** Reversing ties turns heap order into last-scheduled-first order, and loses nothing. */
  lemma {:induction false} ReverseTiesLifo(xs: seq<Timer>)
    requires Sorted(false, xs)
    ensures Sorted(true, ReverseTies(xs)) && Elems(ReverseTies(xs)) == Elems(xs)
    decreases |xs|
  {
    if xs != [] {
      var k := BlockLength(xs);
      var head, rest := xs[..k], xs[k..];
      var front, back := Reverse(head), ReverseTies(rest);
      assert xs == head + rest;
      ReverseBlock(head);
      ReverseTiesLifo(rest);
      ElemsConcat(head, rest);
      ElemsConcat(front, back);
      BlocksApart(xs, front, back);
      SortedConcat(true, front, back);
    }
  }

  /** Whatever the order within, the first block of equal deadlines comes before the rest. */
  lemma BlocksApart(xs: seq<Timer>, front: seq<Timer>, back: seq<Timer>)
    requires xs != [] && Sorted(false, xs)
    requires Elems(front) == Elems(xs[..BlockLength(xs)]) && Elems(back) == Elems(xs[BlockLength(xs)..])
    ensures forall x, y :: x in front && y in back ==> Precedes(true, x, y)
  {
    var k := BlockLength(xs);
    forall x, y | x in front && y in back ensures Precedes(true, x, y) {
      assert x in Elems(front) && y in Elems(back);
      var i :| 0 <= i < k && xs[i] == x;
      var j :| 0 <= j < |xs[k..]| && xs[k..][j] == y;
      assert xs[k + j] == y;
      assert x.when == xs[0].when < xs[k].when <= y.when;
    }
  }

  // ----- What happens to every handle of a run -----

  function IdSet(ts: set<Timer>): set<nat> {
    set t | t in ts :: t.id
  }

  /** No two pending timers share a handle, and every handle has been handed out. */
  ghost predicate WellFormed(c: Clock) {
    && (forall t :: t in c.pending ==> t.id < c.next)
    && (forall t, u :: t in c.pending && u in c.pending && t.id == u.id ==> t == u)
  }

  function RunClock(c: Clock, ops: seq<Op>): Clock
    decreases |ops|
  {
    if ops == [] then c else RunClock(StepClock(c, ops[0]).0, ops[1..])
  }

  /** The timers that each operation of a run returns. */
  function Fired(c: Clock, ops: seq<Op>): (outs: seq<set<Timer>>)
    ensures |outs| == |ops|
    decreases |ops|
  {
    if ops == [] then [] else
    var (d, out) := StepClock(c, ops[0]);
    [out] + Fired(d, ops[1..])
  }

  // ----- Stores that may be late -----

  /** The clock after an operation that returned `out`. */
  function Taking(c: Clock, op: Op, out: set<Timer>): Clock {
    if op.Advance? then Clock(op.now, c.next, c.pending - out) else StepClock(c, op).0
  }

  /** Only what is due is returned, and what an advance leaves is not yet `q` ticks late: a timer that
      stays pending came due less than `q` ticks ago, for `q` of one not at all. */
  ghost predicate WithinSlack(q: nat, c: Clock, op: Op, out: set<Timer>) {
    && out <= StepClock(c, op).1
    && (op.Advance? ==> forall t :: t in c.pending - out ==> t.when + q > op.now + 1)
  }

  /** A whole run, `outs[k]` being what its operation `k` returned. */
  ghost predicate Follows(q: nat, c: Clock, ops: seq<Op>, outs: seq<set<Timer>>)
    decreases |ops|
  {
    && |outs| == |ops|
    && (ops != [] ==> WithinSlack(q, c, ops[0], outs[0]) && Follows(q, Taking(c, ops[0], outs[0]), ops[1..], outs[1..]))
  }

  function Ending(c: Clock, ops: seq<Op>, outs: seq<set<Timer>>): Clock
    requires |outs| == |ops|
    decreases |ops|
  {
    if ops == [] then c else Ending(Taking(c, ops[0], outs[0]), ops[1..], outs[1..])
  }

  /** With a slack of one tick a run has no choice: it is the clock's own. */
  lemma {:induction false} FollowsExactly(c: Clock, ops: seq<Op>, outs: seq<set<Timer>>)
    requires Follows(1, c, ops, outs)
    ensures outs == Fired(c, ops) && Ending(c, ops, outs) == RunClock(c, ops)
    decreases |ops|
  {
    if ops != [] {
      var (d, fired) := StepClock(c, ops[0]);
      assert outs[0] == fired;
      FollowsExactly(d, ops[1..], outs[1..]);
      assert outs == [outs[0]] + outs[1..];
    }
  }

  /** Handles that a cancel of the run took out while they were pending. */
  function Cancelled(c: Clock, ops: seq<Op>, outs: seq<set<Timer>>): set<nat>
    requires |outs| == |ops|
    decreases |ops|
  {
    if ops == [] then {} else
    TakenOut(c, ops[0]) + Cancelled(Taking(c, ops[0], outs[0]), ops[1..], outs[1..])
  }

  function Handles(outs: seq<set<Timer>>): set<nat> {
    set i, t | 0 <= i < |outs| && t in outs[i] :: t.id
  }

  function Between(lo: nat, hi: nat): (r: set<nat>)
    ensures forall i :: i in r <==> lo <= i < hi
    decreases hi - lo
  {
    if lo >= hi then {} else {lo} + Between(lo + 1, hi)
  }

  /** Every handle known before the run or handed out by it. */
  function Known(c: Clock, ops: seq<Op>): set<nat> {
    IdSet(c.pending) + Between(c.next, RunClock(c, ops).next)
  }

  lemma {:induction false} NextAlike(c: Clock, d: Clock, ops: seq<Op>)
    requires c.next == d.next
    ensures RunClock(c, ops).next == RunClock(d, ops).next
    decreases |ops|
  {
    if ops != [] { NextAlike(StepClock(c, ops[0]).0, StepClock(d, ops[0]).0, ops[1..]); }
  }

  ghost predicate Partition(all: set<nat>, a: set<nat>, b: set<nat>, c: set<nat>) {
    all == a + b + c && a !! b && a !! c && b !! c
  }

  ghost predicate NoneTwice(outs: seq<set<Timer>>) {
    forall j, k :: 0 <= j < k < |outs| ==> IdSet(outs[j]) !! IdSet(outs[k])
  }

  /** Conservation: at the end of any run, of an exact or of a late store, each handle is exactly one of
      pending, cancelled or fired, and no handle fires twice. */
  lemma {:induction false} Conservation(q: nat, c: Clock, ops: seq<Op>, outs: seq<set<Timer>>)
    requires WellFormed(c) && Follows(q, c, ops, outs)
    ensures WellFormed(Ending(c, ops, outs)) && c.next <= RunClock(c, ops).next
    ensures Partition(Known(c, ops), IdSet(Ending(c, ops, outs).pending), Cancelled(c, ops, outs), Handles(outs))
    ensures NoneTwice(outs)
    decreases |ops|
  {
    if ops == [] {
      assert Handles(outs) == {};
      assert Known(c, ops) == IdSet(c.pending);
    } else {
      var d, gone := Taking(c, ops[0], outs[0]), TakenOut(c, ops[0]);
      StepPartition(c, ops[0], outs[0]);
      Conservation(q, d, ops[1..], outs[1..]);
      assert outs == [outs[0]] + outs[1..];
      HandlesCons(outs[0], outs[1..]);
      KnownStep(c, ops, outs[0]);
      assert Known(d, ops[1..]) !! gone + IdSet(outs[0]);
      PartitionMore(Known(d, ops[1..]), IdSet(Ending(d, ops[1..], outs[1..]).pending),
                    Cancelled(d, ops[1..], outs[1..]), Handles(outs[1..]), gone, IdSet(outs[0]));
      NoneTwiceCons(outs[0], outs[1..]);
    }
  }

  lemma PartitionMore(all: set<nat>, a: set<nat>, b: set<nat>, c: set<nat>, gone: set<nat>, out: set<nat>)
    requires Partition(all, a, b, c) && all !! gone + out && gone !! out
    ensures Partition(all + gone + out, a, gone + b, out + c) && out !! c
  {
  }

  lemma KnownStep(c: Clock, ops: seq<Op>, out: set<Timer>)
    requires WellFormed(c) && ops != [] && out <= StepClock(c, ops[0]).1
    requires Taking(c, ops[0], out).next <= RunClock(Taking(c, ops[0], out), ops[1..]).next
    ensures Known(c, ops) == Known(Taking(c, ops[0], out), ops[1..]) + TakenOut(c, ops[0]) + IdSet(out)
    ensures c.next <= RunClock(c, ops).next
  {
    var d := Taking(c, ops[0], out);
    StepPartition(c, ops[0], out);
    NextAlike(d, StepClock(c, ops[0]).0, ops[1..]);
    assert Between(c.next, RunClock(c, ops).next) == Between(c.next, d.next) + Between(d.next, RunClock(c, ops).next);
  }

  /** The handle that an operation cancels, if it was pending. */
  function TakenOut(c: Clock, op: Op): set<nat> {
    if op.Cancel? then {op.id} * IdSet(c.pending) else {}
  }

  lemma StepPartition(c: Clock, op: Op, out: set<Timer>)
    requires WellFormed(c) && out <= StepClock(c, op).1
    ensures var d := Taking(c, op, out);
            && WellFormed(d) && c.next <= d.next
            && Partition(IdSet(c.pending) + Between(c.next, d.next), IdSet(d.pending), TakenOut(c, op), IdSet(out))
            && (forall x :: x in TakenOut(c, op) + IdSet(out) ==> x < c.next)
  {
    var d := Taking(c, op, out);
    match op
    case Schedule(delay) =>
      assert Timer(c.next, c.now + delay) in d.pending;
      assert IdSet(d.pending) == IdSet(c.pending) + {c.next};
    case Cancel(id) =>
      assert IdSet(d.pending) == IdSet(c.pending) - {id};
      assert Between(c.next, d.next) == {};
    case Advance(now) =>
      assert c.pending == d.pending + out;
      assert IdSet(c.pending) == IdSet(d.pending) + IdSet(out);
      assert Between(c.next, d.next) == {};
  }

  lemma HandlesCons(out: set<Timer>, outs: seq<set<Timer>>)
    ensures Handles([out] + outs) == IdSet(out) + Handles(outs)
  {
    var all := [out] + outs;
    forall x ensures x in Handles(all) <==> x in IdSet(out) + Handles(outs) {
      if x in IdSet(out) {
        assert all[0] == out;
      }
      if x in Handles(outs) {
        var i, t :| 0 <= i < |outs| && t in outs[i] && t.id == x;
        assert t in all[i + 1];
      }
    }
  }

  lemma NoneTwiceCons(out: set<Timer>, outs: seq<set<Timer>>)
    requires NoneTwice(outs) && IdSet(out) !! Handles(outs)
    ensures NoneTwice([out] + outs)
  {
    var all := [out] + outs;
    forall j, k | 0 <= j < k < |all| ensures IdSet(all[j]) !! IdSet(all[k]) {
      assert IdSet(outs[k - 1]) <= Handles(outs);
      assert j > 0 ==> all[j] == outs[j - 1];
    }
  }
}

/** All the timers held by a table of lists, with their multiplicity. */
module TimerTables {
  import opened TimerSpec

  function All(table: seq<seq<Timer>>): multiset<Timer> {
    if table == [] then multiset{} else multiset(table[0]) + All(table[1..])
  }

  lemma SumCancel(a: multiset<Timer>, b: multiset<Timer>, c: multiset<Timer>)
    requires a + c == b + c
    ensures a == b
  {
    forall t ensures a[t] == b[t] {
      assert (a + c)[t] == (b + c)[t];
    }
  }

  lemma {:induction false} AllUpdate(table: seq<seq<Timer>>, k: nat, xs: seq<Timer>)
    requires k < |table|
    ensures All(table[k := xs]) + multiset(table[k]) == All(table) + multiset(xs)
  {
    if k == 0 {
      assert table[k := xs][1..] == table[1..];
    } else {
      var u := table[k := xs];
      assert u[1..] == table[1..][k - 1 := xs];
      AllUpdate(table[1..], k - 1, xs);
      assert All(u) == multiset(table[0]) + All(u[1..]);
      assert All(table) == multiset(table[0]) + All(table[1..]);
      assert All(u) + multiset(table[k]) == multiset(table[0]) + (All(u[1..]) + multiset(table[1..][k - 1]));
    }
  }

  lemma {:induction false} InAll(table: seq<seq<Timer>>, t: Timer)
    ensures t in All(table) <==> exists k :: 0 <= k < |table| && t in table[k]
  {
    if table != [] {
      InAll(table[1..], t);
      if t in All(table) && t !in table[0] {
        var k :| 0 <= k < |table[1..]| && t in table[1..][k];
        assert t in table[k + 1];
      }
      if k :| 0 <= k < |table| && t in table[k] {
        assert k > 0 ==> t in table[1..][k - 1];
      }
    }
  }

  lemma {:induction false} AllEmpty(table: seq<seq<Timer>>)
    requires forall k :: 0 <= k < |table| ==> table[k] == []
    ensures All(table) == multiset{}
  {
    if table != [] { AllEmpty(table[1..]); }
  }

  function Drop(xs: seq<Timer>, id: nat): seq<Timer> {
    if xs == [] then []
    else if xs[0].id == id then Drop(xs[1..], id)
    else [xs[0]] + Drop(xs[1..], id)
  }

  lemma {:induction false} DropAbsent(xs: seq<Timer>, id: nat)
    requires forall i :: 0 <= i < |xs| ==> xs[i].id != id
    ensures Drop(xs, id) == xs
  {
    if xs != [] {
      DropAbsent(xs[1..], id);
    }
  }

  lemma {:induction false} DropAt(xs: seq<Timer>, k: nat)
    requires k < |xs| && forall i :: 0 <= i < |xs| && i != k ==> xs[i].id != xs[k].id
    ensures Drop(xs, xs[k].id) == xs[..k] + xs[k + 1..]
  {
    if k == 0 {
      DropAbsent(xs[1..], xs[0].id);
    } else {
      DropAt(xs[1..], k - 1);
      assert xs[..k] == [xs[0]] + xs[1..][..k - 1];
      assert xs[k + 1..] == xs[1..][k..];
    }
  }

  lemma {:induction false} DropCount(xs: seq<Timer>, id: nat, t: Timer)
    ensures multiset(Drop(xs, id))[t] == if t.id == id then 0 else multiset(xs)[t]
  {
    if xs != [] {
      DropCount(xs[1..], id, t);
      assert xs == [xs[0]] + xs[1..];
    }
  }

  lemma {:induction false} AllDrop(table: seq<seq<Timer>>, dropped: seq<seq<Timer>>, id: nat, t: Timer)
    requires |table| == |dropped| && forall k :: 0 <= k < |table| ==> dropped[k] == Drop(table[k], id)
    ensures All(dropped)[t] == if t.id == id then 0 else All(table)[t]
  {
    if table != [] {
      DropCount(table[0], id, t);
      AllDrop(table[1..], dropped[1..], id, t);
    }
  }
}
