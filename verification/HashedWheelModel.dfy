/**
 The hashed wheel as a value: one list of entries per slot, in link order. The wheel stores only a
 slot and a count of rotations, so the tick at which an entry fires is derived, not stored; the
 lemmas prove what that derived tick is.
 */
module HashedWheelModel {
  import opened TimerSpec

  datatype Entry = Entry(id: nat, rounds: nat)

  datatype Wheel = Wheel(n: nat, cursor: nat, next: nat, slots: seq<seq<Entry>>)

  predicate Shaped(w: Wheel) {
    w.n > 0 && |w.slots| == w.n
  }

  function NewWheel(n: nat): Wheel
    requires n > 0
  {
    Wheel(n, 0, 0, seq(n, _ => []))
  }

  function Put(w: Wheel, s: nat, rounds: nat): Wheel
    requires Shaped(w) && s < w.n
  {
    w.(next := w.next + 1, slots := w.slots[s := [Entry(w.next, rounds)] + w.slots[s]])
  }

  function Insert(w: Wheel, ticks: nat): Wheel
    requires Shaped(w)
  {
    Put(w, (w.cursor + ticks) % w.n, ticks / w.n)
  }

  function Drop(xs: seq<Entry>, id: nat): seq<Entry> {
    if xs == [] then []
    else if xs[0].id == id then Drop(xs[1..], id)
    else [xs[0]] + Drop(xs[1..], id)
  }

  function Remove(w: Wheel, id: nat): Wheel
    requires Shaped(w)
  {
    w.(slots := seq(w.n, s requires 0 <= s < w.n => Drop(w.slots[s], id)))
  }

  /** The entries of a slot that fire when the cursor reaches it at tick `now`. */
  function Expired(xs: seq<Entry>, now: nat): seq<Timer> {
    if xs == [] then []
    else if xs[0].rounds == 0 then [Timer(xs[0].id, now)] + Expired(xs[1..], now)
    else Expired(xs[1..], now)
  }

  /** The entries that stay, one rotation closer. */
  function Kept(xs: seq<Entry>): seq<Entry> {
    if xs == [] then []
    else if xs[0].rounds == 0 then Kept(xs[1..])
    else [Entry(xs[0].id, xs[0].rounds - 1)] + Kept(xs[1..])
  }

  /** The cursor moves on by one tick and visits slot `s`. */
  function VisitSlot(w: Wheel, s: nat): (Wheel, seq<Timer>)
    requires Shaped(w) && s < w.n
  {
    (w.(cursor := w.cursor + 1, slots := w.slots[s := Kept(w.slots[s])]), Expired(w.slots[s], w.cursor + 1))
  }

  function Tick(w: Wheel): (Wheel, seq<Timer>)
    requires Shaped(w)
  {
    VisitSlot(w, (w.cursor + 1) % w.n)
  }

  function AdvanceTo(w: Wheel, target: nat): (r: (Wheel, seq<Timer>))
    requires Shaped(w)
    ensures Shaped(r.0)
    decreases target - w.cursor
  {
    if w.cursor >= target then (w, []) else
    var (w1, fired) := Tick(w);
    var (w2, later) := AdvanceTo(w1, target);
    (w2, fired + later)
  }

  // ----- When an entry fires -----

  /** Ticks until the cursor next reaches slot `s`: between 1 and `n`. */
  function Wait(n: nat, cursor: nat, s: nat): nat
    requires s < n
  {
    var m := (cursor + 1) % n;
    1 + if s >= m then s - m else s + n - m
  }

  /** The ticks in so many whole rotations. */
  function Rotations(rounds: nat, n: nat): nat {
    if rounds == 0 then 0 else n + Rotations(rounds - 1, n)
  }

  function FireTick(n: nat, cursor: nat, s: nat, rounds: nat): nat
    requires s < n
  {
    cursor + Wait(n, cursor, s) + Rotations(rounds, n)
  }

  ghost function View(w: Wheel): set<Timer>
    requires Shaped(w)
  {
    set s, e | 0 <= s < w.n && e in w.slots[s] :: Timer(e.id, FireTick(w.n, w.cursor, s, e.rounds))
  }

  ghost predicate NewestFirst(xs: seq<Entry>, next: nat) {
    && (forall i :: 0 <= i < |xs| ==> xs[i].id < next)
    && (forall i, j :: 0 <= i < j < |xs| ==> xs[i].id > xs[j].id)
  }

  ghost predicate Inv(w: Wheel) {
    Shaped(w) && forall s :: 0 <= s < w.n ==> NewestFirst(w.slots[s], w.next)
  }

  /** The delay the wheel really keeps: an exact multiple of the slot count waits one rotation more. */
  function Shift(ticks: nat, n: nat): nat
    requires n > 0
  {
    if ticks % n == 0 then ticks + n else ticks
  }

  lemma ModNext(x: nat, n: nat)
    requires n > 0
    ensures (x + 1) % n == if x % n + 1 == n then 0 else x % n + 1
  {
    var q, r := x / n, x % n;
    DivMod(x, n);
    if r + 1 == n {
      Distribute(q, 1, n);
      ModIs(x + 1, q + 1, n, 0);
    } else {
      ModIs(x + 1, q, n, r + 1);
    }
  }

  lemma ModIs(x: nat, q: nat, n: nat, r: nat)
    requires n > 0 && r < n && x == q * n + r
    ensures x % n == r
  {
    var k := x / n - q;
    DivMod(x, n);
    assert (x / n) * n == k * n + q * n;
    assert k >= 1 ==> k * n >= n;
    assert k <= -1 ==> k * n + n <= 0;
  }

  lemma {:induction false} RotationsIs(rounds: nat, n: nat)
    ensures Rotations(rounds, n) == rounds * n
  {
    if rounds > 0 {
      RotationsIs(rounds - 1, n);
      assert rounds * n == (rounds - 1) * n + n;
    }
  }

  lemma ModSum(a: nat, b: nat, n: nat)
    requires n > 0
    ensures (a + b) % n == if a % n + b % n < n then a % n + b % n else a % n + b % n - n
  {
    DivMod(a, n);
    DivMod(b, n);
    SumIs(a, a / n, a % n, b, b / n, b % n, n);
  }

  lemma DivMod(x: nat, n: nat)
    requires n > 0
    ensures x == (x / n) * n + x % n
  {
  }

  lemma SumIs(a: nat, p: nat, u: nat, b: nat, q: nat, v: nat, n: nat)
    requires u < n && v < n && a == p * n + u && b == q * n + v
    ensures (a + b) % n == if u + v < n then u + v else u + v - n
  {
    Distribute(p, q, n);
    if u + v < n {
      ModIs(a + b, p + q, n, u + v);
    } else {
      Distribute(p + q, 1, n);
      ModIs(a + b, p + q + 1, n, u + v - n);
    }
  }

  lemma Distribute(p: nat, q: nat, n: nat)
    ensures (p + q) * n == p * n + q * n
  {
  }

  /** Where a fresh entry fires: at cursor + ticks, or one whole rotation later when the delay is a
      multiple of the slot count. */
  lemma ScheduledFireTick(n: nat, cursor: nat, ticks: nat)
    requires n > 0
    ensures FireTick(n, cursor, (cursor + ticks) % n, ticks / n) == cursor + Shift(ticks, n)
  {
    ModSum(cursor, ticks, n);
    ModNext(cursor, n);
    RotationsIs(ticks / n, n);
    assert ticks == (ticks / n) * n + ticks % n;
  }

  /** One tick leaves every promise standing: an entry of the visited slot either fires now or loses
      one rotation, and every other entry is one tick closer. */
  lemma FireTickStep(n: nat, cursor: nat, s: nat, rounds: nat)
    requires s < n
    ensures FireTick(n, cursor, s, rounds) > cursor
    ensures s != (cursor + 1) % n ==> FireTick(n, cursor + 1, s, rounds) == FireTick(n, cursor, s, rounds) > cursor + 1
    ensures s == (cursor + 1) % n ==> FireTick(n, cursor, s, rounds) == cursor + 1 + Rotations(rounds, n)
    ensures s == (cursor + 1) % n && rounds > 0
            ==> FireTick(n, cursor + 1, s, rounds - 1) == FireTick(n, cursor, s, rounds) > cursor + 1
  {
    ModNext(cursor + 1, n);
  }

  // ----- The lists of a slot -----

  lemma {:induction false} ExpiredElems(xs: seq<Entry>, now: nat, t: Timer)
    ensures t in Expired(xs, now) <==> t.when == now && Entry(t.id, 0) in xs
  {
    if xs != [] {
      ExpiredElems(xs[1..], now, t);
      assert xs == [xs[0]] + xs[1..];
    }
  }

  lemma {:induction false} KeptElems(xs: seq<Entry>, e: Entry)
    ensures e in Kept(xs) <==> Entry(e.id, e.rounds + 1) in xs
  {
    if xs != [] {
      KeptElems(xs[1..], e);
      assert xs == [xs[0]] + xs[1..];
    }
  }

  lemma {:induction false} DropAbsent(xs: seq<Entry>, id: nat)
    requires forall i :: 0 <= i < |xs| ==> xs[i].id != id
    ensures Drop(xs, id) == xs
  {
    if xs != [] {
      DropAbsent(xs[1..], id);
    }
  }

  lemma {:induction false} DropAt(xs: seq<Entry>, k: nat)
    requires k < |xs| && forall i :: 0 <= i < |xs| && i != k ==> xs[i].id != xs[k].id
    ensures Drop(xs, xs[k].id) == xs[..k] + xs[k + 1..]
  {
    if k == 0 {
      DropAbsent(xs[1..], xs[0].id);
    } else {
      DropAt(xs[1..], k - 1);
      assert xs[..k] == [xs[0]] + xs[1..][..k - 1];
      assert xs[k + 1..] == xs[1..][k..];
    }
  }

  lemma {:induction false} DropElems(xs: seq<Entry>, id: nat, e: Entry)
    ensures e in Drop(xs, id) <==> e in xs && e.id != id
  {
    if xs != [] {
      DropElems(xs[1..], id, e);
      assert xs == [xs[0]] + xs[1..];
    }
  }

  lemma {:induction false} ExpiredOrder(xs: seq<Entry>, next: nat, now: nat)
    requires NewestFirst(xs, next)
    ensures Sorted(true, Expired(xs, now))
  {
    if xs != [] {
      NewestFirstTail(xs, next);
      ExpiredOrder(xs[1..], next, now);
      var later := Expired(xs[1..], now);
      forall t | t in later ensures t.when == now && t.id < xs[0].id {
        ExpiredElems(xs[1..], now, t);
      }
      SortedConcat(true, [Timer(xs[0].id, now)], later);
    }
  }

  lemma NewestFirstCons(e: Entry, xs: seq<Entry>, next: nat)
    requires NewestFirst(xs, next) && e.id < next && forall x :: x in xs ==> x.id < e.id
    ensures NewestFirst([e] + xs, next)
  {
    var ys := [e] + xs;
    forall i, j | 0 <= i < j < |ys| ensures ys[i].id > ys[j].id {
      assert ys[j] in xs;
    }
  }

  lemma NewestFirstTail(xs: seq<Entry>, next: nat)
    requires NewestFirst(xs, next) && xs != []
    ensures NewestFirst(xs[1..], next) && forall x :: x in xs[1..] ==> x.id < xs[0].id
  {
  }

  lemma {:induction false} KeptOrder(xs: seq<Entry>, next: nat)
    requires NewestFirst(xs, next)
    ensures NewestFirst(Kept(xs), next)
  {
    if xs != [] {
      var rest := Kept(xs[1..]);
      NewestFirstTail(xs, next);
      KeptOrder(xs[1..], next);
      forall x | x in rest ensures x.id < xs[0].id {
        KeptElems(xs[1..], x);
      }
      if xs[0].rounds > 0 {
        NewestFirstCons(Entry(xs[0].id, xs[0].rounds - 1), rest, next);
      }
    }
  }

  lemma {:induction false} DropOrder(xs: seq<Entry>, next: nat, id: nat)
    requires NewestFirst(xs, next)
    ensures NewestFirst(Drop(xs, id), next)
  {
    if xs != [] {
      var rest := Drop(xs[1..], id);
      NewestFirstTail(xs, next);
      DropOrder(xs[1..], next, id);
      forall x | x in rest ensures x.id < xs[0].id {
        DropElems(xs[1..], id, x);
      }
      NewestFirstCons(xs[0], rest, next);
    }
  }

  // ----- The operations against the clock -----

  lemma NewWheelView(n: nat)
    requires n > 0
    ensures Inv(NewWheel(n)) && View(NewWheel(n)) == {}
  {
  }

  lemma Witness(w: Wheel, t: Timer) returns (s: nat, e: Entry)
    requires Shaped(w) && t in View(w)
    ensures s < w.n && e in w.slots[s] && t == Timer(e.id, FireTick(w.n, w.cursor, s, e.rounds))
  {
    s, e :| 0 <= s < w.n && e in w.slots[s] && t == Timer(e.id, FireTick(w.n, w.cursor, s, e.rounds));
  }

  lemma InViewAt(w: Wheel, s: nat, e: Entry)
    requires Shaped(w) && s < w.n && e in w.slots[s]
    ensures Timer(e.id, FireTick(w.n, w.cursor, s, e.rounds)) in View(w)
  {
  }

  /** Scheduling adds exactly one timer, due at cursor + Shift(ticks, n). */
  lemma InsertView(w: Wheel, ticks: nat)
    requires Inv(w)
    ensures Inv(Insert(w, ticks))
    ensures View(Insert(w, ticks)) == View(w) + {Timer(w.next, w.cursor + Shift(ticks, w.n))}
  {
    var s := (w.cursor + ticks) % w.n;
    var w1, e := Insert(w, ticks), Entry(w.next, ticks / w.n);
    ScheduledFireTick(w.n, w.cursor, ticks);
    assert forall x :: x in w1.slots[s] <==> x == e || x in w.slots[s];
    var added := Timer(w.next, w.cursor + Shift(ticks, w.n));
    InViewAt(w1, s, e);
    forall t | t in View(w) ensures t in View(w1) {
      var s', x := Witness(w, t);
      InViewAt(w1, s', x);
    }
    forall t | t in View(w1) ensures t in View(w) + {added} {
      var s', x := Witness(w1, t);
      if x in w.slots[s'] { InViewAt(w, s', x); }
    }
  }

  lemma RemoveView(w: Wheel, id: nat)
    requires Inv(w)
    ensures Inv(Remove(w, id)) && View(Remove(w, id)) == Without(View(w), id)
  {
    var w1 := Remove(w, id);
    forall s | 0 <= s < w.n ensures NewestFirst(w1.slots[s], w.next) {
      DropOrder(w.slots[s], w.next, id);
    }
    forall s, e | 0 <= s < w.n ensures e in w1.slots[s] <==> e in w.slots[s] && e.id != id {
      DropElems(w.slots[s], id, e);
    }
    forall t | t in View(w1) ensures t in Without(View(w), id) {
      var s, x := Witness(w1, t);
      InViewAt(w, s, x);
    }
    forall t | t in Without(View(w), id) ensures t in View(w1) {
      var s, x := Witness(w, t);
      InViewAt(w1, s, x);
    }
  }

  /** A tick fires exactly the timers due at the new cursor, last scheduled first, and leaves the rest. */
  lemma TickView(w: Wheel)
    requires Inv(w)
    ensures var (w1, fired) := Tick(w);
            && Inv(w1) && Sorted(true, fired)
            && (forall t :: t in fired <==> t in View(w) && t.when == w.cursor + 1)
            && (forall t :: t in View(w1) <==> t in View(w) && t.when > w.cursor + 1)
            && (forall t :: t in View(w) ==> t.when > w.cursor)
  {
    var (w1, fired) := Tick(w);
    TickInv(w);
    forall t ensures t in fired <==> t in View(w) && t.when == w.cursor + 1 {
      TickFires(w, t);
    }
    forall t | t in View(w) ensures t.when > w.cursor && (t.when > w.cursor + 1 ==> t in View(w1)) {
      TickLater(w, t);
    }
    forall t | t in View(w1) ensures t in View(w) && t.when > w.cursor + 1 {
      TickKeeps(w, t);
    }
  }

  lemma TickInv(w: Wheel)
    requires Inv(w)
    ensures Inv(Tick(w).0) && Sorted(true, Tick(w).1)
  {
    var v := (w.cursor + 1) % w.n;
    ExpiredOrder(w.slots[v], w.next, w.cursor + 1);
    KeptOrder(w.slots[v], w.next);
  }

  lemma TickFires(w: Wheel, t: Timer)
    requires Inv(w)
    ensures t in Tick(w).1 <==> t in View(w) && t.when == w.cursor + 1
  {
    var v := (w.cursor + 1) % w.n;
    ExpiredElems(w.slots[v], w.cursor + 1, t);
    if t in Tick(w).1 {
      FireTickStep(w.n, w.cursor, v, 0);
      InViewAt(w, v, Entry(t.id, 0));
    } else if t in View(w) {
      var s, x := Witness(w, t);
      FireTickStep(w.n, w.cursor, s, x.rounds);
    }
  }

  lemma TickLater(w: Wheel, t: Timer)
    requires Inv(w) && t in View(w)
    ensures t.when > w.cursor
    ensures t.when > w.cursor + 1 ==> t in View(Tick(w).0)
  {
    var w1 := Tick(w).0;
    var s, x := Witness(w, t);
    FireTickStep(w.n, w.cursor, s, x.rounds);
    if t.when > w.cursor + 1 {
      var y := if s == (w.cursor + 1) % w.n then Entry(x.id, x.rounds - 1) else x;
      KeptElems(w.slots[s], y);
      InViewAt(w1, s, y);
    }
  }

  lemma TickKeeps(w: Wheel, t: Timer)
    requires Inv(w) && t in View(Tick(w).0)
    ensures t in View(w) && t.when > w.cursor + 1
  {
    var w1 := Tick(w).0;
    var s, x := Witness(w1, t);
    var y := if s == (w.cursor + 1) % w.n then Entry(x.id, x.rounds + 1) else x;
    KeptElems(w.slots[s], x);
    FireTickStep(w.n, w.cursor, s, y.rounds);
    InViewAt(w, s, y);
  }

  /** Advancing fires exactly the timers due by then, by deadline and, within a tick, last scheduled
      first; whatever was due later is still pending. */
  lemma {:induction false} AdvanceView(w: Wheel, target: nat)
    requires Inv(w)
    ensures var (w1, fired) := AdvanceTo(w, target);
            && Inv(w1) && w1.n == w.n && w1.next == w.next
            && w1.cursor == (if w.cursor < target then target else w.cursor)
            && Sorted(true, fired)
            && (w.cursor <= target ==> Elems(fired) == Due(View(w), target))
            && View(w1) == View(w) - Elems(fired)
            && (forall t :: t in fired ==> w.cursor < t.when <= target)
    decreases target - w.cursor
  {
    TickView(w);
    if w.cursor < target {
      var (w1, fired) := Tick(w);
      AdvanceView(w1, target);
      var (w2, later) := AdvanceTo(w1, target);
      SortedConcat(true, fired, later);
      ElemsConcat(fired, later);
      assert forall t :: t in later <==> t in Elems(later);
      assert forall t :: t in fired <==> t in Elems(fired);
    }
  }

  /** Stopping on the way changes nothing: two advances return what the longer one alone returns. */
  lemma {:induction false} AdvanceBatches(w: Wheel, a: nat, b: nat)
    requires Shaped(w) && a <= b
    ensures var (w1, first) := AdvanceTo(w, a);
            var (w2, second) := AdvanceTo(w1, b);
            AdvanceTo(w, b) == (w2, first + second)
    decreases a - w.cursor
  {
    if w.cursor < a {
      var (w1, fired) := Tick(w);
      AdvanceBatches(w1, a, b);
      var (wa, x) := AdvanceTo(w1, a);
      var (wb, y) := AdvanceTo(wa, b);
      assert fired + (x + y) == fired + x + y;
    } else {
      assert [] + AdvanceTo(w, b).1 == AdvanceTo(w, b).1;
    }
  }
}
