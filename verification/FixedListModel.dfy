/**
 The list-per-duration store as a value: `keys` in the order the buckets were created, and the timers
 of each bucket in the order they were scheduled. Delays whose whole part in quanta agrees share a
 bucket, so a bucket is not sorted by deadline.
 */
module FixedListModel {
  import opened TimerSpec
  import opened TimerTables

  datatype Fixed = Fixed(q: nat, now: nat, next: nat, keys: seq<nat>, lists: seq<seq<Timer>>)

  predicate Shaped(f: Fixed) {
    f.q > 0 && |f.keys| == |f.lists|
  }

  function NewFixed(q: nat): Fixed {
    Fixed(q, 0, 0, [], [])
  }

  function Index(keys: seq<nat>, key: nat): (i: nat)
    ensures i <= |keys|
    ensures i < |keys| ==> keys[i] == key
    ensures key in keys <==> i < |keys|
  {
    if keys == [] || keys[0] == key then 0 else 1 + Index(keys[1..], key)
  }

  function AddKey(f: Fixed, key: nat): Fixed {
    f.(keys := f.keys + [key], lists := f.lists + [[]])
  }

  function AppendAt(f: Fixed, i: nat, delay: nat): Fixed
    requires i < |f.lists|
  {
    f.(next := f.next + 1, lists := f.lists[i := f.lists[i] + [Timer(f.next, f.now + delay)]])
  }

  function Insert(f: Fixed, delay: nat): Fixed
    requires Shaped(f)
  {
    var key := delay / f.q;
    var i := Index(f.keys, key);
    if i < |f.keys| then AppendAt(f, i, delay) else AppendAt(AddKey(f, key), i, delay)
  }

  lemma InsertSplit(f: Fixed, delay: nat)
    requires Shaped(f)
    ensures var key := delay / f.q;
            var i := Index(f.keys, key);
            && (i < |f.keys| ==> Insert(f, delay) == AppendAt(f, i, delay))
            && (i == |f.keys| ==> Insert(f, delay) == AppendAt(AddKey(f, key), i, delay))
  {
  }

  function Remove(f: Fixed, id: nat): Fixed {
    f.(lists := seq(|f.lists|, i requires 0 <= i < |f.lists| => Drop(f.lists[i], id)))
  }

  /** How many timers at the front of a bucket are due. */
  function Lead(xs: seq<Timer>, now: nat): (k: nat)
    ensures k <= |xs|
    ensures forall i :: 0 <= i < k ==> xs[i].when <= now
    ensures k < |xs| ==> xs[k].when > now
  {
    if xs == [] || xs[0].when > now then 0 else
    var k := Lead(xs[1..], now);
    assert forall i :: 1 <= i < k + 1 ==> xs[i] == xs[1..][i - 1];
    1 + k
  }

  function Leads(lists: seq<seq<Timer>>, now: nat): seq<Timer> {
    if lists == [] then [] else
    var xs := lists[|lists| - 1];
    Leads(lists[..|lists| - 1], now) + xs[..Lead(xs, now)]
  }

  function Rest(lists: seq<seq<Timer>>, now: nat): (r: seq<seq<Timer>>)
    ensures |r| == |lists|
  {
    seq(|lists|, i requires 0 <= i < |lists| => lists[i][Lead(lists[i], now)..])
  }

  function AdvanceTo(f: Fixed, now: nat): (Fixed, seq<Timer>) {
    (f.(now := now, lists := Rest(f.lists, now)), Leads(f.lists, now))
  }

  ghost function View(f: Fixed): multiset<Timer> {
    All(f.lists)
  }

  // ----- What holds of a bucket -----

  /** Upper end of the delays that share a bucket: (key + 1) quanta. */
  function Ceiling(key: nat, q: nat): nat {
    q + if key == 0 then 0 else Ceiling(key - 1, q)
  }

  lemma {:induction false} CeilingIs(key: nat, q: nat)
    ensures Ceiling(key, q) == key * q + q
  {
    if key > 0 {
      CeilingIs(key - 1, q);
      assert key * q == (key - 1) * q + q;
    }
  }

  lemma KeyBounds(delay: nat, q: nat)
    requires q > 0
    ensures delay < Ceiling(delay / q, q) <= delay + q
  {
    CeilingIs(delay / q, q);
    assert delay == (delay / q) * q + delay % q;
  }

  /** A timer is never a whole quantum later than one scheduled after it. */
  ghost predicate BucketInv(xs: seq<Timer>, key: nat, q: nat, now: nat) {
    && (forall i :: 0 <= i < |xs| ==> xs[i].when < now + Ceiling(key, q))
    && (forall i, j :: 0 <= i < j < |xs| ==> xs[i].when < xs[j].when + q)
  }

  ghost predicate Inv(f: Fixed) {
    && Shaped(f)
    && (forall i, j :: 0 <= i < j < |f.keys| ==> f.keys[i] != f.keys[j])
    && (forall i :: 0 <= i < |f.keys| ==> BucketInv(f.lists[i], f.keys[i], f.q, f.now))
  }

  lemma NewFixedView(q: nat)
    requires q > 0
    ensures Inv(NewFixed(q)) && View(NewFixed(q)) == multiset{}
  {
  }

  lemma {:induction false} AllAppend(table: seq<seq<Timer>>, xs: seq<Timer>)
    ensures All(table + [xs]) == All(table) + multiset(xs)
  {
    if table == [] {
      assert ([] + [xs])[1..] == [];
      assert All([xs]) == multiset(xs) + All([]);
    } else {
      AllAppend(table[1..], xs);
      assert (table + [xs])[1..] == table[1..] + [xs];
    }
  }

  lemma InsertView(f: Fixed, delay: nat)
    requires Inv(f)
    ensures var g := Insert(f, delay);
            && Inv(g) && g.q == f.q && g.now == f.now && g.next == f.next + 1
            && View(g) == View(f) + multiset{Timer(f.next, f.now + delay)}
  {
    var key := delay / f.q;
    var i := Index(f.keys, key);
    if i < |f.keys| {
      AppendAtView(f, i, delay);
    } else {
      AddKeyView(f, key);
      AppendAtView(AddKey(f, key), i, delay);
    }
  }

  lemma AddKeyView(f: Fixed, key: nat)
    requires Inv(f) && key !in f.keys
    ensures Inv(AddKey(f, key)) && View(AddKey(f, key)) == View(f)
  {
    AllAppend(f.lists, []);
  }

  lemma AppendAtView(f: Fixed, i: nat, delay: nat)
    requires Inv(f) && i < |f.keys| && f.keys[i] == delay / f.q
    ensures Inv(AppendAt(f, i, delay)) == true
    ensures View(AppendAt(f, i, delay)) == View(f) + multiset{Timer(f.next, f.now + delay)}
  {
    AppendAtInv(f, i, delay);
    AppendAtTable(f, i, delay);
  }

  lemma AppendAtTable(f: Fixed, i: nat, delay: nat)
    requires i < |f.lists|
    ensures View(AppendAt(f, i, delay)) == View(f) + multiset{Timer(f.next, f.now + delay)}
  {
    AppendTable(f.lists, i, Timer(f.next, f.now + delay));
  }

  lemma AppendAtInv(f: Fixed, i: nat, delay: nat)
    requires Inv(f) && i < |f.keys| && f.keys[i] == delay / f.q
    ensures Inv(AppendAt(f, i, delay)) == true
  {
    AppendInv(f.lists[i], Timer(f.next, f.now + delay), f.q, f.now, delay);
  }

  lemma AppendInv(xs: seq<Timer>, t: Timer, q: nat, now: nat, delay: nat)
    requires q > 0 && BucketInv(xs, delay / q, q, now) && t.when == now + delay
    ensures BucketInv(xs + [t], delay / q, q, now)
  {
    KeyBounds(delay, q);
  }

  lemma AppendTable(lists: seq<seq<Timer>>, i: nat, t: Timer)
    requires i < |lists|
    ensures All(lists[i := lists[i] + [t]]) == All(lists) + multiset{t}
  {
    var after := lists[i := lists[i] + [t]];
    AllUpdate(lists, i, lists[i] + [t]);
    assert multiset(lists[i] + [t]) == multiset{t} + multiset(lists[i]);
    SumMoved(All(after), All(lists), multiset(lists[i]), multiset{t});
  }

  lemma SumMoved(after: multiset<Timer>, before: multiset<Timer>, xs: multiset<Timer>, t: multiset<Timer>)
    requires after + xs == before + (t + xs)
    ensures after == before + t
  {
    forall u ensures after[u] == (before + t)[u] {
      assert (after + xs)[u] == (before + (t + xs))[u];
    }
  }

  lemma {:induction false} DropKeeps(xs: seq<Timer>, id: nat, key: nat, q: nat, now: nat)
    requires BucketInv(xs, key, q, now)
    ensures BucketInv(Drop(xs, id), key, q, now)
    ensures forall t :: t in Drop(xs, id) ==> t in xs
  {
    if xs != [] {
      DropKeeps(xs[1..], id, key, q, now);
      var rest := Drop(xs[1..], id);
      forall i | 0 <= i < |rest| ensures xs[0].when < rest[i].when + q {
        assert rest[i] in xs[1..];
        var j :| 0 <= j < |xs[1..]| && xs[1..][j] == rest[i];
        assert xs[j + 1] == rest[i];
      }
    }
  }

  lemma RemoveView(f: Fixed, id: nat)
    requires Inv(f)
    ensures Inv(Remove(f, id))
    ensures forall t :: View(Remove(f, id))[t] == if t.id == id then 0 else View(f)[t]
  {
    var f1 := Remove(f, id);
    forall i | 0 <= i < |f.keys| ensures BucketInv(f1.lists[i], f.keys[i], f.q, f.now) {
      DropKeeps(f.lists[i], id, f.keys[i], f.q, f.now);
    }
    forall t ensures View(f1)[t] == if t.id == id then 0 else View(f)[t] {
      AllDrop(f.lists, f1.lists, id, t);
    }
  }

  lemma {:induction false} RestTable(lists: seq<seq<Timer>>, now: nat)
    ensures All(lists) == All(Rest(lists, now)) + multiset(Leads(lists, now))
  {
    if lists != [] {
      var front, xs := lists[..|lists| - 1], lists[|lists| - 1];
      RestTable(front, now);
      RestAppend(front, xs, now);
      assert front + [xs] == lists;
    }
  }

  lemma RestAppend(front: seq<seq<Timer>>, xs: seq<Timer>, now: nat)
    requires All(front) == All(Rest(front, now)) + multiset(Leads(front, now))
    ensures All(front + [xs]) == All(Rest(front + [xs], now)) + multiset(Leads(front + [xs], now))
  {
    var k := Lead(xs, now);
    AllAppend(front, xs);
    AllAppend(Rest(front, now), xs[k..]);
    RestSnoc(front, xs, now);
    LeadsSnoc(front, xs, now);
    SplitAt(xs, k);
    Regroup(All(front), All(Rest(front, now)), multiset(Leads(front, now)), multiset(xs), multiset(xs[k..]),
            multiset(xs[..k]));
  }

  lemma SplitAt(xs: seq<Timer>, k: nat)
    requires k <= |xs|
    ensures multiset(xs) == multiset(xs[k..]) + multiset(xs[..k])
  {
    assert xs == xs[..k] + xs[k..];
  }

  lemma RestSnoc(front: seq<seq<Timer>>, xs: seq<Timer>, now: nat)
    ensures Rest(front + [xs], now) == Rest(front, now) + [xs[Lead(xs, now)..]]
  {
  }

  lemma LeadsSnoc(front: seq<seq<Timer>>, xs: seq<Timer>, now: nat)
    ensures Leads(front + [xs], now) == Leads(front, now) + xs[..Lead(xs, now)]
  {
    assert (front + [xs])[..|front|] == front;
  }

  lemma Regroup(a: multiset<Timer>, b: multiset<Timer>, c: multiset<Timer>,
                x: multiset<Timer>, y: multiset<Timer>, z: multiset<Timer>)
    requires a == b + c && x == y + z
    ensures a + x == (b + y) + (c + z)
  {
  }

  lemma {:induction false} LeadsDue(lists: seq<seq<Timer>>, now: nat)
    ensures forall t :: t in Leads(lists, now) ==> t.when <= now
  {
    if lists != [] {
      LeadsDue(lists[..|lists| - 1], now);
    }
  }

  /** Bounded lateness: nothing is returned early, nothing is lost, and a timer still pending is due
      less than a quantum ago. In whole time units that means not yet due when the quantum is one. */
  lemma AdvanceView(f: Fixed, now: nat)
    requires Inv(f) && f.now <= now
    ensures var (f1, fired) := AdvanceTo(f, now);
            && Inv(f1) && View(f) == View(f1) + multiset(fired)
            && (forall t :: t in fired ==> t.when <= now)
            && (forall t :: t in View(f1) ==> t.when + f.q > now + 1)
  {
    var (f1, fired) := AdvanceTo(f, now);
    RestTable(f.lists, now);
    LeadsDue(f.lists, now);
    forall i | 0 <= i < |f.keys|
      ensures BucketInv(f1.lists[i], f.keys[i], f.q, now)
      ensures forall t :: t in f1.lists[i] ==> t.when + f.q > now + 1
    {
      RestInv(f.lists[i], f.keys[i], f.q, f.now, now);
    }
    forall t | t in View(f1) ensures t.when + f.q > now + 1 {
      InAll(f1.lists, t);
    }
  }

  lemma RestInv(xs: seq<Timer>, key: nat, q: nat, was: nat, now: nat)
    requires q > 0 && was <= now && BucketInv(xs, key, q, was)
    ensures BucketInv(xs[Lead(xs, now)..], key, q, now)
    ensures forall t :: t in xs[Lead(xs, now)..] ==> t.when + q > now + 1
  {
    var n := Lead(xs, now);
    var ys := xs[n..];
    assert forall i :: 0 <= i < |ys| ==> ys[i] == xs[n + i];
    forall i | 0 <= i < |ys| ensures ys[i].when + q > now + 1 {
      assert ys[0].when > now;
    }
  }

  lemma {:induction false} LeadSplit(xs: seq<Timer>, a: nat, b: nat)
    requires a <= b
    ensures Lead(xs, b) == Lead(xs, a) + Lead(xs[Lead(xs, a)..], b)
  {
    if xs != [] && xs[0].when <= a {
      LeadSplit(xs[1..], a, b);
      assert xs[Lead(xs, a)..] == xs[1..][Lead(xs[1..], a)..];
    } else {
      assert xs[0..] == xs;
    }
  }

  /** Two advances leave the same store and return together the same timers as the longer one alone. */
  lemma AdvanceBatches(f: Fixed, a: nat, b: nat)
    requires a <= b
    ensures var (f1, first) := AdvanceTo(f, a);
            var (f2, second) := AdvanceTo(f1, b);
            AdvanceTo(f, b).0 == f2 && multiset(AdvanceTo(f, b).1) == multiset(first + second)
  {
    var (f1, first) := AdvanceTo(f, a);
    var (f2, second) := AdvanceTo(f1, b);
    var all := Leads(f.lists, b);
    RestSplit(f.lists, a, b);
    RestTable(f.lists, a);
    RestTable(f1.lists, b);
    RestTable(f.lists, b);
    TwoSteps(All(f.lists), All(f1.lists), All(f2.lists), multiset(first), multiset(second), multiset(all));
  }

  lemma TwoSteps(before: multiset<Timer>, between: multiset<Timer>, after: multiset<Timer>,
                 first: multiset<Timer>, second: multiset<Timer>, all: multiset<Timer>)
    requires before == between + first && between == after + second && before == after + all
    ensures all == first + second
  {
    forall t ensures all[t] == (first + second)[t] {
      assert before[t] == between[t] + first[t] && between[t] == after[t] + second[t];
      assert before[t] == (after + all)[t];
    }
  }

  lemma RestSplit(lists: seq<seq<Timer>>, a: nat, b: nat)
    requires a <= b
    ensures Rest(Rest(lists, a), b) == Rest(lists, b)
  {
    forall i | 0 <= i < |lists| ensures Rest(Rest(lists, a), b)[i] == Rest(lists, b)[i] {
      RestOnce(lists[i], a, b);
    }
  }

  lemma RestOnce(xs: seq<Timer>, a: nat, b: nat)
    requires a <= b
    ensures var ys := xs[Lead(xs, a)..]; ys[Lead(ys, b)..] == xs[Lead(xs, b)..]
  {
    LeadSplit(xs, a, b);
  }

  // ----- One delay for each key -----

  /** In deadline order, and none further off than the delay `d`. */
  ghost predicate Queue(xs: seq<Timer>, d: nat, now: nat) {
    && (forall i, j :: 0 <= i < j < |xs| ==> xs[i].when <= xs[j].when)
    && (forall i :: 0 <= i < |xs| ==> xs[i].when <= now + d)
  }

  lemma {:induction false} QueueDrop(xs: seq<Timer>, id: nat, d: nat, now: nat)
    requires Queue(xs, d, now)
    ensures Queue(Drop(xs, id), d, now)
    ensures forall t :: t in Drop(xs, id) ==> t in xs
  {
    if xs != [] {
      QueueDrop(xs[1..], id, d, now);
      var rest := Drop(xs[1..], id);
      forall i | 0 <= i < |rest| ensures xs[0].when <= rest[i].when {
        assert rest[i] in xs[1..];
        var j :| 0 <= j < |xs[1..]| && xs[1..][j] == rest[i];
        assert xs[j + 1] == rest[i];
      }
    }
  }

  lemma QueueRest(xs: seq<Timer>, d: nat, was: nat, now: nat)
    requires was <= now && Queue(xs, d, was)
    ensures Queue(xs[Lead(xs, now)..], d, now)
    ensures forall t :: t in xs[Lead(xs, now)..] ==> t.when > now
  {
    QueueFrom(xs, Lead(xs, now), d, was, now);
  }

  lemma QueueFrom(xs: seq<Timer>, n: nat, d: nat, was: nat, now: nat)
    requires was <= now && Queue(xs, d, was) && n <= |xs| && (n < |xs| ==> xs[n].when > now)
    ensures Queue(xs[n..], d, now)
    ensures forall t :: t in xs[n..] ==> t.when > now
  {
    var ys := xs[n..];
    assert forall i :: 0 <= i < |ys| ==> ys[i] == xs[n + i];
    forall i | 0 <= i < |ys| ensures ys[i].when > now {
      assert ys[0].when <= ys[i].when;
    }
  }

  ghost predicate QueueFor(xs: seq<Timer>, key: nat, q: nat, now: nat, delays: iset<nat>, d: nat)
    requires q > 0
  {
    d in delays && d / q == key && Queue(xs, d, now)
  }

  ghost predicate IsQueue(xs: seq<Timer>, key: nat, q: nat, now: nat, delays: iset<nat>)
    requires q > 0
  {
    exists d :: QueueFor(xs, key, q, now, delays, d)
  }

  /** Each bucket is the queue of one of the delays. */
  ghost predicate Tidy(f: Fixed, delays: iset<nat>) {
    Shaped(f) && forall i :: 0 <= i < |f.keys| ==> IsQueue(f.lists[i], f.keys[i], f.q, f.now, delays)
  }

  /** No two different delays share a key. */
  ghost predicate KeysApart(delays: iset<nat>, q: nat)
    requires q > 0
  {
    forall d, e :: d in delays && e in delays && d / q == e / q ==> d == e
  }

  lemma TidyInsert(f: Fixed, delays: iset<nat>, delay: nat)
    requires Tidy(f, delays) && KeysApart(delays, f.q) && delay in delays
    ensures Tidy(Insert(f, delay), delays)
  {
    var key := delay / f.q;
    var i := Index(f.keys, key);
    if i < |f.keys| {
      TidyAppend(f, delays, i, delay);
    } else {
      var g := AddKey(f, key);
      assert QueueFor([], key, f.q, f.now, delays, delay);
      TidyAppend(g, delays, i, delay);
    }
  }

  lemma TidyAppend(f: Fixed, delays: iset<nat>, i: nat, delay: nat)
    requires Tidy(f, delays) && KeysApart(delays, f.q) && delay in delays
    requires i < |f.keys| && f.keys[i] == delay / f.q
    ensures Tidy(AppendAt(f, i, delay), delays)
  {
    QueueAppend(f.lists[i], delay, f.q, f.now, delays, Timer(f.next, f.now + delay));
  }

  lemma QueueAppend(xs: seq<Timer>, delay: nat, q: nat, now: nat, delays: iset<nat>, t: Timer)
    requires q > 0 && KeysApart(delays, q) && delay in delays && t.when == now + delay
    requires IsQueue(xs, delay / q, q, now, delays)
    ensures IsQueue(xs + [t], delay / q, q, now, delays)
  {
    var d :| QueueFor(xs, delay / q, q, now, delays, d);
    assert QueueFor(xs + [t], delay / q, q, now, delays, d);
  }

  lemma TidyRemove(f: Fixed, delays: iset<nat>, id: nat)
    requires Tidy(f, delays)
    ensures Tidy(Remove(f, id), delays)
  {
    forall j | 0 <= j < |f.keys| ensures IsQueue(Drop(f.lists[j], id), f.keys[j], f.q, f.now, delays) {
      var d :| QueueFor(f.lists[j], f.keys[j], f.q, f.now, delays, d);
      QueueDrop(f.lists[j], id, d, f.now);
      assert QueueFor(Drop(f.lists[j], id), f.keys[j], f.q, f.now, delays, d);
    }
  }

  /** A tidy store leaves nothing due behind. */
  lemma TidyAdvance(f: Fixed, delays: iset<nat>, now: nat)
    requires Tidy(f, delays) && f.now <= now
    ensures Tidy(AdvanceTo(f, now).0, delays)
    ensures forall t :: t in View(AdvanceTo(f, now).0) ==> t.when > now
  {
    var g := AdvanceTo(f, now).0;
    forall j | 0 <= j < |g.keys|
      ensures IsQueue(g.lists[j], g.keys[j], g.q, now, delays)
      ensures forall t :: t in g.lists[j] ==> t.when > now
    {
      var d :| QueueFor(f.lists[j], f.keys[j], f.q, f.now, delays, d);
      QueueRest(f.lists[j], d, f.now, now);
      assert QueueFor(g.lists[j], g.keys[j], g.q, now, delays, d);
    }
    forall t | t in View(g) ensures t.when > now {
      InAll(g.lists, t);
    }
  }

  // ----- Two delays under one key -----

  /** A longer delay scheduled first holds a shorter one of the same key back, for as long as it is not
      due itself. */
  lemma HeldBack(q: nat, d: nat, e: nat, now: nat)
    requires q > 0 && d / q == e / q && d <= now < e
    ensures var f := Insert(Insert(NewFixed(q), e), d);
            AdvanceTo(f, now).1 == [] && Timer(1, d) in View(AdvanceTo(f, now).0)
  {
    var f0 := AddKey(NewFixed(q), e / q);
    assert f0.lists == [[]];
    var f1 := AppendAt(f0, 0, e);
    assert f1 == Insert(NewFixed(q), e);
    assert f1.lists[0] == [Timer(0, e)];
    var f := Insert(f1, d);
    assert f == AppendAt(f1, 0, d);
    assert f.lists[0] == [Timer(0, e), Timer(1, d)];
    assert Leads(f.lists[..0], now) == [];
    var g := AdvanceTo(f, now).0;
    assert g.lists[0][1] == Timer(1, d);
    InAll(g.lists, Timer(1, d));
  }

  /** The bound on lateness is tight: for every quantum of two ticks or more a timer still pending can
      have come due all but two ticks of a quantum ago, so that one tick more would break the bound. */
  lemma LateTimer(q: nat)
    requires q >= 2
    ensures var f := Insert(Insert(NewFixed(q), 2 * q - 1), q);
            && AdvanceTo(f, 2 * q - 2).1 == [] && Timer(1, q) in View(AdvanceTo(f, 2 * q - 2).0)
            && q + q == (2 * q - 2) + 2
  {
    assert (2 * q - 1) / q == q / q by { DivOne(q); }
    HeldBack(q, q, 2 * q - 1, 2 * q - 2);
  }

  lemma DivOne(q: nat)
    requires q >= 2
    ensures (2 * q - 1) / q == 1 && q / q == 1
  {
  }
}
