/**
 The hierarchical wheel as a value. Its four levels of 64 slots are laid end to end, so bucket
 64 * level + slot holds the list of that slot in link order. Each entry also carries the delay it
 was scheduled with and how often a cascade has moved it, which only the proofs look at.
 */
module HierWheelModel {
  import opened TimerSpec
  import opened TimerTables

  const LEVELS := 4
  const BUCKETS := 256
  const REACH := 16777216  // ticks spanned by all four levels

  datatype Entry = Entry(id: nat, when: nat, ticks: nat, moves: nat)

  datatype Hier = Hier(cursor: nat, next: nat, buckets: seq<seq<Entry>>)

  /** Ticks covered by one slot of a level. */
  function Span(lvl: nat): (r: nat)
    requires lvl < LEVELS
    ensures r > 0
  {
    if lvl == 0 then 1 else if lvl == 1 then 64 else if lvl == 2 then 4096 else 262144
  }

  function Level(when: nat, cursor: nat): (r: nat)
    ensures r < LEVELS
  {
    var rem := if when < cursor then 0 else when - cursor;
    if rem < 64 then 0 else if rem < 4096 then 1 else if rem < 262144 then 2 else 3
  }

  function Bucket(when: nat, cursor: nat): (k: nat)
    ensures k < BUCKETS && k / 64 == Level(when, cursor)
  {
    var lvl := Level(when, cursor);
    64 * lvl + (when / Span(lvl)) % 64
  }

  function NewHier(): Hier {
    Hier(0, 0, seq(BUCKETS, _ => []))
  }

  function Push(b: seq<seq<Entry>>, e: Entry, cursor: nat): seq<seq<Entry>>
    requires |b| == BUCKETS
  {
    var k := Bucket(e.when, cursor);
    b[k := [e] + b[k]]
  }

  function Put(h: Hier, k: nat, ticks: nat): Hier
    requires |h.buckets| == BUCKETS && k < BUCKETS
  {
    Hier(h.cursor, h.next + 1, h.buckets[k := [Entry(h.next, h.cursor + ticks, ticks, 0)] + h.buckets[k]])
  }

  function Insert(h: Hier, ticks: nat): Hier
    requires |h.buckets| == BUCKETS
  {
    Put(h, Bucket(h.cursor + ticks, h.cursor), ticks)
  }

  function DropEntry(xs: seq<Entry>, id: nat): seq<Entry> {
    if xs == [] then []
    else if xs[0].id == id then DropEntry(xs[1..], id)
    else [xs[0]] + DropEntry(xs[1..], id)
  }

  function Remove(h: Hier, id: nat): Hier
    requires |h.buckets| == BUCKETS
  {
    h.(buckets := seq(BUCKETS, k requires 0 <= k < BUCKETS => DropEntry(h.buckets[k], id)))
  }

  function Moved(e: Entry): Entry {
    e.(moves := e.moves + 1)
  }

  function Reinsert(b: seq<seq<Entry>>, xs: seq<Entry>, cursor: nat): (r: seq<seq<Entry>>)
    requires |b| == BUCKETS
    ensures |r| == BUCKETS
    decreases |xs|
  {
    if xs == [] then b else Reinsert(Push(b, Moved(xs[0]), cursor), xs[1..], cursor)
  }

  /** Bucket of level `lvl` that the cursor has just reached. */
  function Reached(cursor: nat, lvl: nat): (k: nat)
    requires lvl < LEVELS
    ensures k < BUCKETS && k / 64 == lvl
  {
    64 * lvl + (cursor / Span(lvl)) % 64
  }

  function DrainLevel(b: seq<seq<Entry>>, cursor: nat, lvl: nat): (r: seq<seq<Entry>>)
    requires |b| == BUCKETS && lvl < LEVELS
    ensures |r| == BUCKETS
  {
    var k := Reached(cursor, lvl);
    Reinsert(b[k := []], b[k], cursor)
  }

  /** The level has come round to its first slot, so the next level moves on too. */
  predicate Wraps(cursor: nat, lvl: nat)
    requires lvl < LEVELS
  {
    (cursor / Span(lvl)) % 64 == 0
  }

  function Cascade(b: seq<seq<Entry>>, cursor: nat, lvl: nat): (r: seq<seq<Entry>>)
    requires |b| == BUCKETS && lvl <= LEVELS
    ensures |r| == BUCKETS
    decreases LEVELS - lvl
  {
    if lvl == LEVELS then b
    else
      var b1 := DrainLevel(b, cursor, lvl);
      if Wraps(cursor, lvl) then Cascade(b1, cursor, lvl + 1) else b1
  }

  function Settle(b: seq<seq<Entry>>, cursor: nat): (r: seq<seq<Entry>>)
    requires |b| == BUCKETS
    ensures |r| == BUCKETS
  {
    if cursor % 64 == 0 then Cascade(b, cursor, 1) else b
  }

  function Timers(xs: seq<Entry>): (r: seq<Timer>)
    ensures |r| == |xs|
  {
    seq(|xs|, i requires 0 <= i < |xs| => Timer(xs[i].id, xs[i].when))
  }

  /** Empties the slot that the cursor stands on. */
  function Fire(b: seq<seq<Entry>>, cursor: nat, next: nat): (Hier, seq<Timer>)
    requires |b| == BUCKETS
  {
    (Hier(cursor, next, b[cursor % 64 := []]), Timers(b[cursor % 64]))
  }

  function Tick(h: Hier): (r: (Hier, seq<Timer>))
    requires |h.buckets| == BUCKETS
    ensures |r.0.buckets| == BUCKETS && r.0.cursor == h.cursor + 1 && r.0.next == h.next
  {
    Fire(Settle(h.buckets, h.cursor + 1), h.cursor + 1, h.next)
  }

  function AdvanceTo(h: Hier, target: nat): (r: (Hier, seq<Timer>))
    requires |h.buckets| == BUCKETS
    ensures |r.0.buckets| == BUCKETS
    decreases target - h.cursor
  {
    if h.cursor >= target then (h, []) else
    var (h1, fired) := Tick(h);
    var (h2, later) := AdvanceTo(h1, target);
    (h2, fired + later)
  }

  // ----- Where an entry may be -----

  /** Cascades still ahead of an entry that sits in level `lvl`: one for each level below, and one for
      each full turn of the top level before its own block. */
  function CascadesLeft(when: nat, lvl: nat, cursor: nat): int
    requires lvl < LEVELS
  {
    if lvl < 3 then lvl else 3 + (when / 262144 - cursor / 262144 - 1) / 64
  }

  /** An entry of level `lvl` >= 1 belongs to a block of that level that the cursor has yet to enter. */
  predicate AheadIn(when: nat, lvl: nat, cursor: nat)
    requires 1 <= lvl < LEVELS
  {
    && cursor / Span(lvl) < when / Span(lvl)
    && (lvl < 3 ==> when / Span(lvl) <= cursor / Span(lvl) + 64)
  }

  predicate Within(e: Entry, lvl: nat, cursor: nat)
    requires lvl < LEVELS
  {
    e.moves + CascadesLeft(e.when, lvl, cursor) <= 3 + e.ticks / REACH
  }

  /** Place of an entry while the cursor is moving to `c`: levels below `lvl` have been brought up to
      date with the new cursor, the others still reflect the tick before. */
  ghost predicate Settled(e: Entry, k: nat, c: nat, lvl: nat)
    requires k < BUCKETS && c > 0
  {
    var l := k / 64;
    && k % 64 == (e.when / Span(l)) % 64
    && (l == 0 ==> c <= e.when < c + 64)
    && (l > 0 ==> AheadIn(e.when, l, if l < lvl then c else c - 1))
    && Within(e, l, if l < lvl then c else c - 1)
  }

  ghost predicate AllSettled(b: seq<seq<Entry>>, c: nat, lvl: nat)
    requires c > 0
  {
    |b| == BUCKETS && forall k, e :: 0 <= k < BUCKETS && e in b[k] ==> Settled(e, k, c, lvl)
  }

  /** Between ticks: all levels agree with the cursor and nothing is due. */
  ghost predicate Placed(e: Entry, k: nat, cursor: nat)
    requires k < BUCKETS
  {
    var l := k / 64;
    && k % 64 == (e.when / Span(l)) % 64
    && (l == 0 ==> cursor < e.when < cursor + 64)
    && (l > 0 ==> AheadIn(e.when, l, cursor))
    && Within(e, l, cursor)
  }

  ghost predicate Inv(h: Hier) {
    |h.buckets| == BUCKETS && forall k, e :: 0 <= k < BUCKETS && e in h.buckets[k] ==> Placed(e, k, h.cursor)
  }

  /** The bucket chosen for a deadline that has not passed is right for that deadline. */
  lemma BucketAhead(when: nat, c: nat)
    requires c <= when
    ensures var l, k := Level(when, c), Bucket(when, c);
            && k % 64 == (when / Span(l)) % 64
            && (l == 0 ==> when < c + 64)
            && (l > 0 ==> AheadIn(when, l, c))
  {
  }

  /** A fresh timer is placed correctly, with at most three cascades ahead of it, and one more for each
      full reach of the wheel. */
  lemma ScheduledPlaced(id: nat, cursor: nat, ticks: nat)
    requires ticks >= 1
    ensures Placed(Entry(id, cursor + ticks, ticks, 0), Bucket(cursor + ticks, cursor), cursor)
  {
    BucketAhead(cursor + ticks, cursor);
    if ticks >= 262144 {
      var d := (cursor + ticks) / 262144 - cursor / 262144;
      assert d - 1 <= ticks / 262144;
      assert ticks / REACH == (ticks / 262144) / 64;
    }
  }

  /** On the tick that enters a block of level `lvl`, whatever sits in the slot just reached is due in
      that very block, or a whole number of turns of the top level later. */
  lemma DrainedBlock(when: nat, c: nat, lvl: nat)
    requires c > 0 && 1 <= lvl < LEVELS && c % Span(lvl) == 0
    requires AheadIn(when, lvl, c - 1) && (when / Span(lvl)) % 64 == (c / Span(lvl)) % 64
    ensures c <= when
    ensures lvl < 3 ==> when < c + Span(lvl)
    ensures lvl == 3 ==> when < c + 262144 || when / 262144 >= c / 262144 + 64
    ensures lvl == 3 ==> (when / 262144 - c / 262144) % 64 == 0
  {
    var d, g := when / Span(lvl), c / Span(lvl);
    assert g == (c - 1) / Span(lvl) + 1 by {
      BlockEntered(c, lvl);
    }
    assert (d - g) % 64 == 0;
    if lvl == 1 {
      assert d >= g;
    } else if lvl == 2 {
      assert d >= g;
    } else {
      assert d >= g;
    }
  }

  lemma BlockEntered(c: nat, lvl: nat)
    requires c > 0 && 1 <= lvl < LEVELS
    ensures c / Span(lvl) == (c - 1) / Span(lvl) + if c % Span(lvl) == 0 then 1 else 0
  {
  }

  /** An entry drained from level `lvl` on the tick its block is entered goes to a place that is right
      for the new cursor: strictly below, unless it lies beyond the reach of the wheel. */
  lemma DrainedSettled(e: Entry, c: nat, lvl: nat)
    requires c > 0 && 1 <= lvl < LEVELS && c % Span(lvl) == 0
    requires Settled(e, Reached(c, lvl), c, lvl)
    ensures Settled(Moved(e), Bucket(e.when, c), c, lvl + 1)
    ensures Level(e.when, c) < lvl || (lvl == 3 && e.when - c >= REACH)
  {
    DrainedBlock(e.when, c, lvl);
    BucketAhead(e.when, c);
    BlockEntered(c, lvl);
  }

  // ----- The buckets as a table of timers -----

  function Table(b: seq<seq<Entry>>): (r: seq<seq<Timer>>)
    ensures |r| == |b|
  {
    seq(|b|, k requires 0 <= k < |b| => Timers(b[k]))
  }

  ghost function View(h: Hier): multiset<Timer> {
    All(Table(h.buckets))
  }

  lemma TableUpdate(b: seq<seq<Entry>>, k: nat, xs: seq<Entry>)
    requires k < |b|
    ensures All(Table(b[k := xs])) + multiset(Timers(b[k])) == All(Table(b)) + multiset(Timers(xs))
  {
    assert Table(b[k := xs]) == Table(b)[k := Timers(xs)];
    AllUpdate(Table(b), k, Timers(xs));
  }

  lemma PushTable(b: seq<seq<Entry>>, e: Entry, cursor: nat)
    requires |b| == BUCKETS
    ensures All(Table(Push(b, e, cursor))) == All(Table(b)) + multiset{Timer(e.id, e.when)}
  {
    var k := Bucket(e.when, cursor);
    TableUpdate(b, k, [e] + b[k]);
    var t := Timer(e.id, e.when);
    assert Timers([e] + b[k]) == [t] + Timers(b[k]);
    assert All(Table(Push(b, e, cursor))) + multiset(Timers(b[k]))
           == All(Table(b)) + multiset{t} + multiset(Timers(b[k]));
    SumCancel(All(Table(Push(b, e, cursor))), All(Table(b)) + multiset{t}, multiset(Timers(b[k])));
  }

  lemma {:induction false} ReinsertTable(b: seq<seq<Entry>>, xs: seq<Entry>, cursor: nat)
    requires |b| == BUCKETS
    ensures All(Table(Reinsert(b, xs, cursor))) == All(Table(b)) + multiset(Timers(xs))
    decreases |xs|
  {
    if xs == [] {
      assert Timers(xs) == [];
    } else {
      var e := Moved(xs[0]);
      PushTable(b, e, cursor);
      ReinsertTable(Push(b, e, cursor), xs[1..], cursor);
      assert Timers(xs) == [Timer(e.id, e.when)] + Timers(xs[1..]);
    }
  }

  /** Draining a level moves timers between buckets and neither loses nor duplicates one. */
  lemma DrainLevelTable(b: seq<seq<Entry>>, cursor: nat, lvl: nat)
    requires |b| == BUCKETS && lvl < LEVELS
    ensures All(Table(DrainLevel(b, cursor, lvl))) == All(Table(b))
  {
    var k := Reached(cursor, lvl);
    TableUpdate(b, k, []);
    assert Timers([]) == [];
    ReinsertTable(b[k := []], b[k], cursor);
  }

  lemma {:induction false} CascadeTable(b: seq<seq<Entry>>, cursor: nat, lvl: nat)
    requires |b| == BUCKETS && lvl <= LEVELS
    ensures All(Table(Cascade(b, cursor, lvl))) == All(Table(b))
    decreases LEVELS - lvl
  {
    if lvl < LEVELS {
      DrainLevelTable(b, cursor, lvl);
      CascadeTable(DrainLevel(b, cursor, lvl), cursor, lvl + 1);
    }
  }

  lemma InView(h: Hier, t: Timer)
    requires |h.buckets| == BUCKETS && t in View(h)
    ensures exists k, e :: 0 <= k < BUCKETS && e in h.buckets[k] && t == Timer(e.id, e.when)
  {
    InAll(Table(h.buckets), t);
    var k :| 0 <= k < BUCKETS && t in Table(h.buckets)[k];
    var i :| 0 <= i < |h.buckets[k]| && Timers(h.buckets[k])[i] == t;
    assert h.buckets[k][i] in h.buckets[k];
  }

  // ----- Cascading keeps every entry in its place -----

  lemma {:induction false} ReinsertSettled(b: seq<seq<Entry>>, xs: seq<Entry>, c: nat, lvl: nat)
    requires c > 0 && AllSettled(b, c, lvl + 1)
    requires forall e :: e in xs ==> Settled(Moved(e), Bucket(e.when, c), c, lvl + 1)
    ensures AllSettled(Reinsert(b, xs, c), c, lvl + 1)
    decreases |xs|
  {
    if xs != [] {
      var e := Moved(xs[0]);
      assert xs[0] in xs;
      var b1 := Push(b, e, c);
      forall k, x | 0 <= k < BUCKETS && x in b1[k] ensures Settled(x, k, c, lvl + 1) {
        assert x in b[k] || (k == Bucket(e.when, c) && x == e);
      }
      ReinsertSettled(b1, xs[1..], c, lvl);
    }
  }

  /** Draining the slot just reached brings its whole level up to date with the new cursor. The moved
      entries never land in a slot of this tick that has already been drained. */
  lemma DrainLevelSettled(b: seq<seq<Entry>>, c: nat, lvl: nat)
    requires c > 0 && 1 <= lvl < LEVELS && c % Span(lvl) == 0 && AllSettled(b, c, lvl)
    ensures AllSettled(DrainLevel(b, c, lvl), c, lvl + 1)
  {
    var r := Reached(c, lvl);
    var b1 := b[r := []];
    forall k, e | 0 <= k < BUCKETS && e in b1[k] ensures Settled(e, k, c, lvl + 1) {
      assert e in b[k] && k != r;
      StaysSettled(e, k, c, lvl);
    }
    forall e | e in b[r] ensures Settled(Moved(e), Bucket(e.when, c), c, lvl + 1) {
      DrainedSettled(e, c, lvl);
    }
    ReinsertSettled(b1, b[r], c, lvl);
  }

  lemma StaysSettled(e: Entry, k: nat, c: nat, lvl: nat)
    requires c > 0 && 1 <= lvl < LEVELS && k < BUCKETS && c % Span(lvl) == 0
    requires Settled(e, k, c, lvl) && k != Reached(c, lvl)
    ensures Settled(e, k, c, lvl + 1)
  {
    BlockEntered(c, lvl);
    if k / 64 == lvl {
      assert e.when / Span(lvl) != c / Span(lvl);
    }
  }

  /** A level whose block the cursor did not enter needs no change. */
  lemma UntouchedSettled(e: Entry, k: nat, c: nat, lvl: nat)
    requires c > 0 && 1 <= lvl <= LEVELS && k < BUCKETS && Settled(e, k, c, lvl)
    requires forall l :: lvl <= l < LEVELS ==> c % Span(l) != 0
    ensures Settled(e, k, c, LEVELS)
  {
    if k / 64 >= lvl {
      BlockEntered(c, k / 64);
    }
  }

  lemma NextLevel(c: nat, lvl: nat)
    requires 1 <= lvl < LEVELS && c % Span(lvl) == 0
    ensures (c / Span(lvl)) % 64 == 0 && lvl + 1 < LEVELS ==> c % Span(lvl + 1) == 0
    ensures (c / Span(lvl)) % 64 != 0 ==> forall l :: lvl < l < LEVELS ==> c % Span(l) != 0
  {
  }

  lemma {:induction false} CascadeSettled(b: seq<seq<Entry>>, c: nat, lvl: nat)
    requires c > 0 && 1 <= lvl <= LEVELS && AllSettled(b, c, lvl)
    requires lvl < LEVELS ==> c % Span(lvl) == 0
    ensures AllSettled(Cascade(b, c, lvl), c, LEVELS)
    decreases LEVELS - lvl
  {
    if lvl < LEVELS {
      var b1 := DrainLevel(b, c, lvl);
      DrainLevelSettled(b, c, lvl);
      NextLevel(c, lvl);
      if (c / Span(lvl)) % 64 != 0 {
        forall k, e | 0 <= k < BUCKETS && e in b1[k] ensures Settled(e, k, c, LEVELS) {
          UntouchedSettled(e, k, c, lvl + 1);
        }
      } else {
        CascadeSettled(b1, c, lvl + 1);
      }
    }
  }

  lemma BeforeTick(e: Entry, k: nat, c: nat)
    requires k < BUCKETS && c > 0 && Placed(e, k, c - 1)
    ensures Settled(e, k, c, 1)
  {
  }

  lemma AfterTick(e: Entry, k: nat, c: nat)
    requires k < BUCKETS && c > 0 && Settled(e, k, c, LEVELS)
    ensures k == c % 64 ==> e.when == c
    ensures k != c % 64 ==> Placed(e, k, c)
  {
  }

  lemma NotEntered(c: nat)
    requires c % 64 != 0
    ensures forall l :: 1 <= l < LEVELS ==> c % Span(l) != 0
  {
  }

  /** Moving the cursor and cascading leaves every level up to date with it. */
  lemma SettleSettled(h: Hier)
    requires Inv(h)
    ensures AllSettled(Settle(h.buckets, h.cursor + 1), h.cursor + 1, LEVELS)
    ensures All(Table(Settle(h.buckets, h.cursor + 1))) == View(h)
  {
    var c := h.cursor + 1;
    forall k, e | 0 <= k < BUCKETS && e in h.buckets[k] ensures Settled(e, k, c, 1) {
      BeforeTick(e, k, c);
    }
    if c % 64 == 0 {
      CascadeTable(h.buckets, c, 1);
      CascadeSettled(h.buckets, c, 1);
    } else {
      NotEntered(c);
      forall k, e | 0 <= k < BUCKETS && e in h.buckets[k] ensures Settled(e, k, c, LEVELS) {
        UntouchedSettled(e, k, c, 1);
      }
    }
  }

  // ----- The operations against the clock -----

  lemma NewHierView()
    ensures Inv(NewHier()) && View(NewHier()) == multiset{}
  {
    AllEmpty(Table(NewHier().buckets));
  }

  lemma InsertView(h: Hier, ticks: nat)
    requires Inv(h) && ticks >= 1
    ensures Inv(Insert(h, ticks))
    ensures View(Insert(h, ticks)) == View(h) + multiset{Timer(h.next, h.cursor + ticks)}
  {
    var e := Entry(h.next, h.cursor + ticks, ticks, 0);
    var h1 := Insert(h, ticks);
    PushTable(h.buckets, e, h.cursor);
    ScheduledPlaced(h.next, h.cursor, ticks);
    forall k, x | 0 <= k < BUCKETS && x in h1.buckets[k] ensures Placed(x, k, h.cursor) {
      assert x in h.buckets[k] || (k == Bucket(e.when, h.cursor) && x == e);
    }
  }

  lemma {:induction false} DropAbsent(xs: seq<Entry>, id: nat)
    requires forall i :: 0 <= i < |xs| ==> xs[i].id != id
    ensures DropEntry(xs, id) == xs
  {
    if xs != [] {
      DropAbsent(xs[1..], id);
    }
  }

  lemma {:induction false} DropAt(xs: seq<Entry>, k: nat)
    requires k < |xs| && forall i :: 0 <= i < |xs| && i != k ==> xs[i].id != xs[k].id
    ensures DropEntry(xs, xs[k].id) == xs[..k] + xs[k + 1..]
  {
    if k == 0 {
      DropAbsent(xs[1..], xs[0].id);
    } else {
      DropAt(xs[1..], k - 1);
      assert xs[..k] == [xs[0]] + xs[1..][..k - 1];
      assert xs[k + 1..] == xs[1..][k..];
    }
  }

  lemma {:induction false} DropEntryIn(xs: seq<Entry>, id: nat)
    ensures Timers(DropEntry(xs, id)) == Drop(Timers(xs), id)
    ensures forall e :: e in DropEntry(xs, id) ==> e in xs
  {
    if xs != [] {
      DropEntryIn(xs[1..], id);
      assert Timers(xs)[1..] == Timers(xs[1..]);
      assert Timers([xs[0]] + DropEntry(xs[1..], id)) == [Timers(xs)[0]] + Timers(DropEntry(xs[1..], id));
    }
  }

  lemma RemoveView(h: Hier, id: nat)
    requires Inv(h)
    ensures Inv(Remove(h, id))
    ensures forall t :: View(Remove(h, id))[t] == if t.id == id then 0 else View(h)[t]
  {
    var h1 := Remove(h, id);
    forall k | 0 <= k < BUCKETS
      ensures Table(h1.buckets)[k] == Drop(Table(h.buckets)[k], id)
      ensures forall e :: e in h1.buckets[k] ==> e in h.buckets[k]
    {
      DropEntryIn(h.buckets[k], id);
    }
    forall t ensures View(h1)[t] == if t.id == id then 0 else View(h)[t] {
      AllDrop(Table(h.buckets), Table(h1.buckets), id, t);
    }
  }

  lemma ViewAhead(h: Hier)
    requires Inv(h)
    ensures forall t :: t in View(h) ==> t.when > h.cursor
  {
    forall t | t in View(h) ensures t.when > h.cursor {
      InView(h, t);
      var k, e :| 0 <= k < BUCKETS && e in h.buckets[k] && t == Timer(e.id, e.when);
      EntryAhead(h, k, e);
    }
  }

  lemma EntryAhead(h: Hier, k: nat, e: Entry)
    requires Inv(h) && k < BUCKETS && e in h.buckets[k]
    ensures e.when > h.cursor
  {
    assert Placed(e, k, h.cursor);
  }

  /** Exactness: what a tick fires is due on that very tick, nothing due is left behind, and no other
      timer is touched. */
  lemma TickView(h: Hier)
    requires Inv(h)
    ensures var (h1, fired) := Tick(h);
            && Inv(h1) && View(h) == View(h1) + multiset(fired)
            && (forall t :: t in fired ==> t.when == h.cursor + 1)
            && (forall t :: t in View(h1) ==> t.when > h.cursor + 1)
  {
    var c := h.cursor + 1;
    SettleSettled(h);
    FireView(Settle(h.buckets, c), c, h.next);
    FireInv(Settle(h.buckets, c), c, h.next);
    ViewAhead(Tick(h).0);
  }

  /** Emptying the cursor's bucket takes exactly its timers out, all of them due now. */
  lemma FireView(b: seq<seq<Entry>>, c: nat, next: nat)
    requires |b| == BUCKETS && c > 0 && AllSettled(b, c, LEVELS)
    ensures var (h, fired) := Fire(b, c, next);
            && All(Table(b)) == View(h) + multiset(fired) && (forall t :: t in fired ==> t.when == c)
  {
    var s := c % 64;
    var fired := Fire(b, c, next).1;
    TableUpdate(b, s, []);
    assert Timers([]) == [];
    forall t | t in fired ensures t.when == c {
      var i :| 0 <= i < |fired| && fired[i] == t;
      assert b[s][i] in b[s];
      AfterTick(b[s][i], s, c);
    }
  }

  lemma FireInv(b: seq<seq<Entry>>, c: nat, next: nat)
    requires |b| == BUCKETS && c > 0 && AllSettled(b, c, LEVELS)
    ensures Inv(Fire(b, c, next).0)
  {
    var h := Fire(b, c, next).0;
    forall k, e | 0 <= k < BUCKETS && e in h.buckets[k] ensures Placed(e, k, c) {
      assert e in b[k] && k != c % 64;
      AfterTick(e, k, c);
    }
  }

  /** From `h` to `h1` exactly the timers of `fired` are gone, due after `lo` and up to `hi`, in order. */
  ghost predicate Took(h: Hier, h1: Hier, fired: seq<Timer>, lo: nat, hi: nat) {
    && View(h) == View(h1) + multiset(fired)
    && (forall t :: t in fired ==> lo < t.when <= hi)
    && (forall i, j :: 0 <= i < j < |fired| ==> fired[i].when <= fired[j].when)
  }

  lemma TookThen(h: Hier, h1: Hier, h2: Hier, fired: seq<Timer>, later: seq<Timer>, lo: nat, mid: nat, hi: nat)
    requires lo <= mid <= hi && Took(h, h1, fired, lo, mid) && Took(h1, h2, later, mid, hi)
    ensures Took(h, h2, fired + later, lo, hi)
  {
    assert multiset(fired + later) == multiset(fired) + multiset(later);
    var all := fired + later;
    forall i, j | 0 <= i < j < |all| ensures all[i].when <= all[j].when {
      if i < |fired| <= j {
        assert all[i] in fired && all[j] in later;
      }
    }
  }

  lemma TickTook(h: Hier)
    requires Inv(h)
    ensures Inv(Tick(h).0) && Took(h, Tick(h).0, Tick(h).1, h.cursor, h.cursor + 1)
  {
    TickView(h);
    var fired := Tick(h).1;
    assert forall i :: 0 <= i < |fired| ==> fired[i] in fired;
  }

  /** Advancing returns exactly the timers due by then, in order of deadline. */
  lemma {:induction false} AdvanceView(h: Hier, target: nat)
    requires Inv(h)
    ensures var (h1, fired) := AdvanceTo(h, target);
            && Inv(h1) && h1.next == h.next
            && h1.cursor == (if h.cursor < target then target else h.cursor)
            && (h.cursor <= target ==> Took(h, h1, fired, h.cursor, target))
            && (forall t :: t in View(h1) ==> t.when > h1.cursor)
    decreases target - h.cursor
  {
    if h.cursor < target {
      var (h1, fired) := Tick(h);
      TickTook(h);
      AdvanceView(h1, target);
      var (h2, later) := AdvanceTo(h1, target);
      TookThen(h, h1, h2, fired, later, h.cursor, h.cursor + 1, target);
    } else {
      ViewAhead(h);
    }
  }

  lemma {:induction false} AdvanceBatches(h: Hier, a: nat, b: nat)
    requires |h.buckets| == BUCKETS && a <= b
    ensures var (h1, first) := AdvanceTo(h, a);
            var (h2, second) := AdvanceTo(h1, b);
            AdvanceTo(h, b) == (h2, first + second)
    decreases a - h.cursor
  {
    if h.cursor < a {
      var (h1, fired) := Tick(h);
      AdvanceBatches(h1, a, b);
      var (ha, x) := AdvanceTo(h1, a);
      var (hb, y) := AdvanceTo(ha, b);
      assert fired + (x + y) == fired + x + y;
    } else {
      assert [] + AdvanceTo(h, b).1 == AdvanceTo(h, b).1;
    }
  }

  /** No timer is cascaded more than three times, plus once for every full reach of the wheel that its
      delay spans: neither while it is pending nor by the time it fires. */
  lemma CascadeBound(h: Hier)
    requires Inv(h)
    ensures forall k, e :: 0 <= k < BUCKETS && e in h.buckets[k] ==> e.moves <= 3 + e.ticks / REACH
    ensures forall e :: e in Settle(h.buckets, h.cursor + 1)[(h.cursor + 1) % 64] ==> e.moves <= 3 + e.ticks / REACH
  {
    forall k, e | 0 <= k < BUCKETS && e in h.buckets[k] ensures e.moves <= 3 + e.ticks / REACH {
      assert Placed(e, k, h.cursor);
    }
    SettleSettled(h);
    var c := h.cursor + 1;
    var b := Settle(h.buckets, c);
    forall e: Entry | e in b[c % 64] ensures e.moves <= 3 + e.ticks / REACH {
      assert Settled(e, c % 64, c, LEVELS);
    }
  }
}
