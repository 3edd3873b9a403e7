/** The order in which a fixed list returns timers, over whole runs and for any quantum. */
module FixedListOrder {
  import opened TimerSpec
  import opened TimerTables
  import opened Agreement
  import opened FixedListRuns
  import F = FixedListModel
  import H = HeapModel

  function KeyOf(op: Op, q: nat): seq<nat>
    requires q > 0
  {
    if op.Schedule? then [op.delay / q] else []
  }

  /** The key of each handle of a run, in schedule order: the whole quanta of its delay. */
  function Keys(ops: seq<Op>, q: nat): seq<nat>
    requires q > 0
  {
    if ops == [] then [] else KeyOf(ops[0], q) + Keys(ops[1..], q)
  }

  /** The first handle with a key. */
  function First(ks: seq<nat>, key: nat): (i: nat)
    ensures i <= |ks| && (i < |ks| ==> ks[i] == key) && (key in ks <==> i < |ks|)
    ensures forall j :: 0 <= j < i ==> ks[j] != key
  {
    if ks == [] || ks[0] == key then 0 else
    var i := First(ks[1..], key);
    assert forall j :: 1 <= j < i + 1 ==> ks[j] == ks[1..][j - 1];
    1 + i
  }

  /** Keys come in the order of their first schedule, and the handles of one key in schedule order. */
  predicate Sooner(ks: seq<nat>, a: nat, b: nat)
    requires a < |ks| && b < |ks|
  {
    First(ks, ks[a]) < First(ks, ks[b]) || (ks[a] == ks[b] && a < b)
  }

  /** Of two handles exactly one is the sooner, so that the order of a set of them is settled. */
  lemma SoonerOneWay(ks: seq<nat>, a: nat, b: nat)
    requires a < |ks| && b < |ks| && a != b
    ensures Sooner(ks, a, b) <==> !Sooner(ks, b, a)
  {
  }

  ghost predicate InTurn(ks: seq<nat>, out: seq<Timer>) {
    && (forall i :: 0 <= i < |out| ==> out[i].id < |ks|)
    && (forall i, j :: 0 <= i < j < |out| ==> Sooner(ks, out[i].id, out[j].id))
  }

  // ----- The store -----

  /** A bucket holds handles of its key, in schedule order. */
  ghost predicate Queued(xs: seq<Timer>, key: nat, ks: seq<nat>) {
    Rising(xs) && forall t :: t in xs ==> t.id < |ks| && ks[t.id] == key
  }

  ghost predicate Rising(xs: seq<Timer>) {
    forall i, j :: 0 <= i < j < |xs| ==> xs[i].id < xs[j].id
  }

  /** The buckets stand in the order of their keys' first schedule. */
  ghost predicate Ranked(keys: seq<nat>, ks: seq<nat>) {
    && (forall i :: 0 <= i < |keys| ==> keys[i] in ks)
    && (forall i, j :: 0 <= i < j < |keys| ==> First(ks, keys[i]) < First(ks, keys[j]))
  }

  ghost predicate Fifo(f: F.Fixed, ks: seq<nat>) {
    && F.Shaped(f) && f.next == |ks| && Ranked(f.keys, ks) && (forall k :: k in ks ==> k in f.keys)
    && forall i :: 0 <= i < |f.keys| ==> Queued(f.lists[i], f.keys[i], ks)
  }

  lemma {:induction false} FirstMore(ks: seq<nat>, key: nat, k: nat)
    ensures k in ks ==> First(ks + [key], k) == First(ks, k)
    ensures k !in ks && k == key ==> First(ks + [key], k) == |ks|
  {
    if ks == [] {
    } else {
      assert (ks + [key])[1..] == ks[1..] + [key];
      FirstMore(ks[1..], key, k);
    }
  }

  lemma RankedMore(keys: seq<nat>, ks: seq<nat>, key: nat)
    requires Ranked(keys, ks)
    ensures Ranked(keys, ks + [key])
    ensures key !in ks ==> Ranked(keys + [key], ks + [key])
  {
    forall i | 0 <= i < |keys| ensures First(ks + [key], keys[i]) == First(ks, keys[i]) {
      FirstMore(ks, key, keys[i]);
    }
    if key !in ks { FirstMore(ks, key, key); }
  }

  lemma QueuedMore(xs: seq<Timer>, k: nat, ks: seq<nat>, key: nat, t: Timer)
    requires Queued(xs, k, ks) && t.id == |ks|
    ensures Queued(xs, k, ks + [key])
    ensures k == key ==> Queued(xs + [t], k, ks + [key])
  {
  }

  lemma FifoAppend(f: F.Fixed, i: nat, ks: seq<nat>, delay: nat)
    requires F.Shaped(f) && i < |f.keys| && f.keys[i] == delay / f.q && f.next == |ks|
    requires Ranked(f.keys, ks + [delay / f.q]) && forall k :: k in ks ==> k in f.keys
    requires forall j :: 0 <= j < |f.keys| ==> Queued(f.lists[j], f.keys[j], ks)
    ensures Fifo(F.AppendAt(f, i, delay), ks + [delay / f.q])
  {
    var key, t := delay / f.q, Timer(f.next, f.now + delay);
    var g := F.AppendAt(f, i, delay);
    forall j | 0 <= j < |g.keys| ensures Queued(g.lists[j], g.keys[j], ks + [key]) {
      QueuedMore(f.lists[j], f.keys[j], ks, key, t);
    }
  }

  lemma FifoInsert(f: F.Fixed, ks: seq<nat>, delay: nat)
    requires Fifo(f, ks)
    ensures Fifo(F.Insert(f, delay), ks + [delay / f.q])
  {
    var key := delay / f.q;
    var i := F.Index(f.keys, key);
    RankedMore(f.keys, ks, key);
    F.InsertSplit(f, delay);
    if i < |f.keys| {
      FifoAppend(f, i, ks, delay);
    } else {
      assert key !in ks;
      FifoAppend(F.AddKey(f, key), i, ks, delay);
    }
  }

  lemma {:induction false} RisingDrop(xs: seq<Timer>, id: nat)
    requires Rising(xs)
    ensures Rising(Drop(xs, id))
    ensures forall t :: t in Drop(xs, id) ==> t in xs
  {
    if xs != [] {
      RisingDrop(xs[1..], id);
      var rest := Drop(xs[1..], id);
      forall i | 0 <= i < |rest| ensures xs[0].id < rest[i].id {
        assert rest[i] in xs[1..];
        var j :| 0 <= j < |xs[1..]| && xs[1..][j] == rest[i];
        assert xs[j + 1] == rest[i];
      }
    }
  }

  lemma FifoRemove(f: F.Fixed, ks: seq<nat>, id: nat)
    requires Fifo(f, ks)
    ensures Fifo(F.Remove(f, id), ks)
  {
    forall i | 0 <= i < |f.keys| ensures Queued(Drop(f.lists[i], id), f.keys[i], ks) {
      RisingDrop(f.lists[i], id);
    }
  }

  lemma FifoAdvance(f: F.Fixed, ks: seq<nat>, now: nat)
    requires Fifo(f, ks)
    ensures Fifo(F.AdvanceTo(f, now).0, ks)
    ensures InTurn(ks, F.AdvanceTo(f, now).1)
  {
    forall i | 0 <= i < |f.keys| ensures Queued(F.Rest(f.lists, now)[i], f.keys[i], ks) {
      assert Queued(f.lists[i], f.keys[i], ks);
    }
    LeadsInTurn(f.keys, f.lists, ks, now);
  }

  lemma QueuedFront(xs: seq<Timer>, key: nat, ks: seq<nat>, n: nat)
    requires Queued(xs, key, ks) && n <= |xs|
    ensures Rising(xs[..n]) == true && forall t :: t in xs[..n] ==> t.id < |ks| && ks[t.id] == key
  {
    assert forall t :: t in xs[..n] ==> t in xs;
  }

  lemma BucketBehind(keys: seq<nat>, ks: seq<nat>, front: seq<Timer>, xs: seq<Timer>)
    requires keys != [] && Ranked(keys, ks)
    requires forall t :: t in front ==> t.id < |ks| && ks[t.id] in keys[..|keys| - 1]
    requires forall t :: t in xs ==> t.id < |ks| && ks[t.id] == keys[|keys| - 1]
    ensures forall t, u :: t in front && u in xs ==> Sooner(ks, t.id, u.id)
  {
    forall t, u | t in front && u in xs ensures Sooner(ks, t.id, u.id) {
      var i :| 0 <= i < |keys| - 1 && keys[i] == ks[t.id];
    }
  }

  lemma InTurnConcat(ks: seq<nat>, a: seq<Timer>, b: seq<Timer>)
    requires InTurn(ks, a) && Rising(b) && (forall t :: t in a + b ==> t.id < |ks|)
    requires forall t, u :: t in b && u in b ==> ks[t.id] == ks[u.id]
    requires forall t, u :: t in a && u in b ==> Sooner(ks, t.id, u.id)
    ensures InTurn(ks, a + b) == true
  {
    var all := a + b;
    forall i | 0 <= i < |all| ensures all[i].id < |ks| {
      assert all[i] in a || all[i] in b;
    }
    forall i, j | 0 <= i < j < |all| ensures Sooner(ks, all[i].id, all[j].id) {
      if i < |a| <= j {
        assert all[i] in a && all[j] in b;
      } else if |a| <= i {
        assert b[i - |a|] in b && b[j - |a|] in b;
      }
    }
  }

  /** The due fronts of the buckets, one bucket after the other. */
  lemma {:induction false} LeadsInTurn(keys: seq<nat>, lists: seq<seq<Timer>>, ks: seq<nat>, now: nat)
    requires |keys| == |lists| && Ranked(keys, ks)
    requires forall i :: 0 <= i < |keys| ==> Queued(lists[i], keys[i], ks)
    ensures InTurn(ks, F.Leads(lists, now))
    ensures forall t :: t in F.Leads(lists, now) ==> t.id < |ks| && ks[t.id] in keys
    decreases |lists|
  {
    if lists != [] {
      var n := |lists| - 1;
      var xs := lists[n][..F.Lead(lists[n], now)];
      LeadsInTurn(keys[..n], lists[..n], ks, now);
      var front := F.Leads(lists[..n], now);
      QueuedFront(lists[n], keys[n], ks, F.Lead(lists[n], now));
      BucketBehind(keys, ks, front, xs);
      InTurnConcat(ks, front, xs);
    }
  }

  // ----- Runs -----

  lemma FifoStep(f: F.Fixed, ks: seq<nat>, op: Op)
    requires Fifo(f, ks)
    ensures var (g, out) := FixedStep(f, op);
            g.q == f.q && Fifo(g, ks + KeyOf(op, f.q)) == true && InTurn(ks, out) == true
  {
    match op {
      case Schedule(delay) => FifoInsert(f, ks, delay);
      case Cancel(id) =>
        FifoRemove(f, ks, id);
        assert ks + [] == ks;
      case Advance(now) =>
        FifoAdvance(f, ks, now);
        assert ks + [] == ks;
    }
  }

  /** The order of more handles is the order of fewer, on those. */
  lemma {:induction false} FirstPrefix(ks: seq<nat>, more: seq<nat>, key: nat)
    requires key in ks
    ensures First(ks + more, key) == First(ks, key)
  {
    if ks[0] != key {
      assert (ks + more)[1..] == ks[1..] + more;
      FirstPrefix(ks[1..], more, key);
    }
  }

  lemma InTurnMore(ks: seq<nat>, more: seq<nat>, out: seq<Timer>)
    requires InTurn(ks, out)
    ensures InTurn(ks + more, out) == true
  {
    forall i | 0 <= i < |out| ensures First(ks + more, ks[out[i].id]) == First(ks, ks[out[i].id]) {
      FirstPrefix(ks, more, ks[out[i].id]);
    }
    forall i, j | 0 <= i < j < |out| ensures Sooner(ks + more, out[i].id, out[j].id) {
      assert Sooner(ks, out[i].id, out[j].id);
    }
  }

  ghost predicate AllInTurn(ks: seq<nat>, outs: seq<seq<Timer>>) {
    forall k :: 0 <= k < |outs| ==> InTurn(ks, outs[k])
  }

  lemma KeysFirst(ks: seq<nat>, ops: seq<Op>, q: nat)
    requires q > 0 && ops != []
    ensures (ks + KeyOf(ops[0], q)) + Keys(ops[1..], q) == ks + Keys(ops, q)
  {
    Joined(ks, KeyOf(ops[0], q), Keys(ops[1..], q));
  }

  lemma Joined(a: seq<nat>, b: seq<nat>, c: seq<nat>)
    ensures (a + b) + c == a + (b + c)
  {
  }

  lemma {:induction false} FifoRun(f: F.Fixed, ks: seq<nat>, ops: seq<Op>)
    requires F.Shaped(f) && Fifo(f, ks) == true
    ensures AllInTurn(ks + Keys(ops, f.q), Run(FixedStore(f), ops)) == true
    decreases |ops|
  {
    if ops == [] {
    } else {
      var (g, out) := FixedStep(f, ops[0]);
      FifoStep(f, ks, ops[0]);
      RunFirst(FixedStore(f), ops);
      FifoRun(g, ks + KeyOf(ops[0], f.q), ops[1..]);
      KeysFirst(ks, ops, f.q);
      InTurnMore(ks, Keys(ops, f.q), out);
      AllCons(ks + Keys(ops, f.q), out, Run(FixedStore(g), ops[1..]));
    }
  }

  lemma AllCons(ks: seq<nat>, out: seq<Timer>, outs: seq<seq<Timer>>)
    requires InTurn(ks, out) == true && AllInTurn(ks, outs) == true
    ensures AllInTurn(ks, [out] + outs) == true
  {
  }

  /** In every run of a fixed list with any quantum each advance returns buckets in the order in which
      their keys were first scheduled, and the timers of a bucket in schedule order. */
  lemma BucketOrder(q: nat, ops: seq<Op>)
    requires q > 0
    ensures AllInTurn(Keys(ops, q), Run(FixedStore(F.NewFixed(q)), ops))
  {
    FifoRun(F.NewFixed(q), [], ops);
    assert [] + Keys(ops, q) == Keys(ops, q);
  }

  // ----- One delay -----

  /** One bucket at most, in deadline order and in schedule order. */
  ghost predicate Line(f: F.Fixed, delay: nat) {
    && F.Shaped(f) && |f.keys| <= 1
    && (f.keys != [] ==> f.keys[0] == delay / f.q && F.Queue(f.lists[0], delay, f.now) && Rising(f.lists[0])
                         && forall t :: t in f.lists[0] ==> t.id < f.next)
  }

  lemma LineInsert(f: F.Fixed, delay: nat)
    requires Line(f, delay)
    ensures Line(F.Insert(f, delay), delay)
  {
    var key := delay / f.q;
    F.InsertSplit(f, delay);
    if f.keys == [] {
      assert F.AddKey(f, key).lists == [[]];
    } else {
      assert F.Index(f.keys, key) == 0;
    }
  }

  lemma LineRemove(f: F.Fixed, delay: nat, id: nat)
    requires Line(f, delay)
    ensures Line(F.Remove(f, id), delay)
  {
    if f.keys != [] {
      RisingDrop(f.lists[0], id);
      F.QueueDrop(f.lists[0], id, delay, f.now);
    }
  }

  lemma LineAdvance(f: F.Fixed, delay: nat, now: nat)
    requires Line(f, delay) && f.now <= now
    ensures Line(F.AdvanceTo(f, now).0, delay) && Sorted(false, F.AdvanceTo(f, now).1)
  {
    if f.keys == [] {
      assert f.lists == [];
    } else {
      var xs := f.lists[0];
      F.QueueRest(xs, delay, f.now, now);
      RisingRest(xs, F.Lead(xs, now));
      OneFront(f.lists, now);
      FrontSorted(xs, F.Lead(xs, now), delay, f.now);
    }
  }

  lemma OneFront(lists: seq<seq<Timer>>, now: nat)
    requires |lists| == 1
    ensures F.Leads(lists, now) == lists[0][..F.Lead(lists[0], now)]
  {
    assert lists == [] + [lists[0]];
    F.LeadsSnoc([], lists[0], now);
    assert F.Leads([], now) == [];
  }

  lemma RisingRest(xs: seq<Timer>, n: nat)
    requires Rising(xs) && n <= |xs|
    ensures Rising(xs[n..]) && forall t :: t in xs[n..] ==> t in xs
  {
  }

  lemma FrontSorted(xs: seq<Timer>, n: nat, delay: nat, now: nat)
    requires F.Queue(xs, delay, now) && Rising(xs) && n <= |xs|
    ensures Sorted(false, xs[..n])
  {
  }

  lemma LineStep(f: F.Fixed, delay: nat, op: Op)
    requires Line(f, delay) && (op.Schedule? ==> op.delay == delay) && (op.Advance? ==> f.now <= op.now)
    ensures Line(FixedStep(f, op).0, delay) == true && Sorted(false, FixedStep(f, op).1) == true
    ensures FixedStep(f, op).0.now == if op.Advance? then op.now else f.now
  {
    match op {
      case Schedule(_) => LineInsert(f, delay);
      case Cancel(id) => LineRemove(f, delay, id);
      case Advance(now) => LineAdvance(f, delay, now);
    }
  }

  lemma {:induction false} LineRun(f: F.Fixed, delay: nat, next: nat, ops: seq<Op>)
    requires Line(f, delay) && Only(ops, delay) && Admissible(f.now, next, ops)
    ensures forall k :: 0 <= k < |ops| ==> Sorted(false, Run(FixedStore(f), ops)[k])
    decreases |ops|
  {
    if ops != [] {
      var (g, out) := FixedStep(f, ops[0]);
      LineStep(f, delay, ops[0]);
      assert forall i :: 0 <= i < |ops[1..]| ==> ops[1..][i] == ops[i + 1];
      LineRun(g, delay, if ops[0].Schedule? then next + 1 else next, ops[1..]);
      assert Run(FixedStore(f), ops) == [out] + Run(FixedStore(g), ops[1..]);
    }
  }

  /** With one delay throughout, a fixed list of any quantum returns the very sequences the heap returns. */
  lemma OneDelayIsHeap(q: nat, delay: nat, ops: seq<Op>)
    requires q > 0 && Only(ops, delay) && Admissible(0, 0, ops)
    ensures Run(FixedStore(F.NewFixed(q)), ops) == Run(HeapStore(H.EMPTY), ops)
  {
    var fixed, heap := Run(FixedStore(F.NewFixed(q)), ops), Run(HeapStore(H.EMPTY), ops);
    assert From(ops, iset{delay});
    ExactRun(q, iset{delay}, ops);
    H.EmptyInv();
    RunExact(HeapStore(H.EMPTY), ZERO, ops);
    HeapPromises(ops);
    LineRun(F.NewFixed(q), delay, 0, ops);
    forall k | 0 <= k < |ops| ensures fixed[k] == heap[k] {
      SameSorted(fixed[k], heap[k], Fired(ZERO, ops)[k]);
    }
  }

  lemma HeapPromises(ops: seq<Op>)
    ensures Promises(HeapStore(H.EMPTY), ops) == ops
  {
  }

  lemma SameSorted(xs: seq<Timer>, ys: seq<Timer>, ts: set<Timer>)
    requires Sorted(false, xs) && Sorted(false, ys) && multiset(xs) == multiset(ts) == multiset(ys)
    ensures xs == ys
  {
    assert forall t :: (t in xs <==> t in multiset(xs)) && (t in ys <==> t in multiset(ys));
    SortedUnique(false, xs, ys);
  }
}
