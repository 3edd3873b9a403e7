/**
 The order in which the hierarchical wheel returns timers of one deadline. Whatever is linked later stands
 in front: a schedule links its timer, and a cascade links those it takes again, turning round the order
 they had among themselves. So the order of two timers follows from when each was linked, and that from
 its deadline and the time it was scheduled alone.
 */
module HierOrder {
  import opened TimerSpec
  import V = HierWheelModel

  // ----- One timer alone -----

  /** A cascade on the tick that took the timer out of this level. */
  datatype Move = Move(tick: nat, level: nat)

  /** The tick enters the timer's block of this level. */
  predicate Called(when: nat, level: nat, c: nat)
    requires level < V.LEVELS
  {
    level > 0 && c % V.Span(level) == 0 && (c / V.Span(level)) % 64 == (when / V.Span(level)) % 64
  }

  /** The level of a timer scheduled at `at`, once the cursor is at `c`. */
  function Spot(when: nat, at: nat, c: nat): (level: nat)
    requires at <= c
    ensures level < V.LEVELS
    decreases c
  {
    if c == at then V.Level(when, at) else
    var level := Spot(when, at, c - 1);
    if Called(when, level, c) then V.Level(when, c) else level
  }

  /** The cascades that have moved it since. */
  function Moves(when: nat, at: nat, c: nat): seq<Move>
    requires at <= c
    decreases c
  {
    if c == at then [] else
    var level := Spot(when, at, c - 1);
    Moves(when, at, c - 1) + if Called(when, level, c) then [Move(c, level)] else []
  }

  lemma {:induction false} MovesBefore(when: nat, at: nat, c: nat)
    requires at <= c
    ensures forall i :: 0 <= i < |Moves(when, at, c)| ==> at < Moves(when, at, c)[i].tick <= c
    decreases c
  {
    if c > at { MovesBefore(when, at, c - 1); }
  }

  // ----- Two timers -----

  /** Who a timer is, when it was scheduled, and the cascades that moved it. */
  datatype Life = Life(id: nat, at: nat, moves: seq<Move>)

  function Last(x: Life): Move
    requires x.moves != []
  {
    x.moves[|x.moves| - 1]
  }

  function Earlier(x: Life): Life
    requires x.moves != []
  {
    x.(moves := x.moves[..|x.moves| - 1])
  }

  /** On one tick the lower level is taken first. */
  predicate Later(a: Move, b: Move) {
    a.tick > b.tick || (a.tick == b.tick && a.level > b.level)
  }

  /** The first was linked after the second; if one cascade linked both, it stood behind before. */
  predicate Nearer(x: Life, y: Life)
    decreases |x.moves| + |y.moves|
  {
    if x.moves == [] && y.moves == [] then x.id > y.id
    else if x.moves == [] then x.at >= Last(y).tick
    else if y.moves == [] then Last(x).tick > y.at
    else if Last(x) == Last(y) then Nearer(Earlier(y), Earlier(x))
    else Later(Last(x), Last(y))
  }

  /** Of two timers exactly one is the nearer, so that the order of a set of them is settled. */
  lemma {:induction false} NearerOneWay(x: Life, y: Life)
    requires x.id != y.id
    ensures Nearer(x, y) <==> !Nearer(y, x)
    decreases |x.moves| + |y.moves|
  {
    if x.moves != [] && y.moves != [] && Last(x) == Last(y) {
      NearerOneWay(Earlier(y), Earlier(x));
    }
  }

  lemma NearerTaken(x: Life, y: Life, m: Move)
    ensures Nearer(x.(moves := x.moves + [m]), y.(moves := y.moves + [m])) <==> Nearer(y, x)
  {
    var a, b := x.(moves := x.moves + [m]), y.(moves := y.moves + [m]);
    assert Earlier(a) == x && Earlier(b) == y;
  }

  lemma NearerLinked(x: Life, y: Life, m: Move)
    requires y.moves == [] ==> y.at < m.tick
    requires y.moves != [] ==> Later(m, Last(y))
    ensures Nearer(x.(moves := x.moves + [m]), y)
  {
  }

  // ----- The wheel during a tick -----

  /** The lives of the handles: `born[id]` is when a handle was scheduled. */
  predicate Issued(born: seq<nat>, id: nat, c: nat) {
    id < |born| && born[id] <= c
  }

  /** While the cursor moves to `c` and the levels below `lvl` have been seen to. */
  function MidMoves(when: nat, at: nat, c: nat, lvl: nat): seq<Move>
    requires at < c
  {
    var level := Spot(when, at, c - 1);
    Moves(when, at, c - 1) + if Called(when, level, c) && level < lvl then [Move(c, level)] else []
  }

  function MidSpot(when: nat, at: nat, c: nat, lvl: nat): nat
    requires at < c
  {
    var level := Spot(when, at, c - 1);
    if Called(when, level, c) && level < lvl then V.Level(when, c) else level
  }

  function MidLife(born: seq<nat>, e: V.Entry, c: nat, lvl: nat): Life
    requires c > 0 && Issued(born, e.id, c - 1)
  {
    Life(e.id, born[e.id], MidMoves(e.when, born[e.id], c, lvl))
  }

  /** The entry is where its life says. One already moved on this tick has gone down. */
  ghost predicate Tracked(born: seq<nat>, e: V.Entry, k: nat, c: nat, lvl: nat)
    requires c > 0
  {
    && Issued(born, e.id, c - 1)
    && k / 64 == MidSpot(e.when, born[e.id], c, lvl)
    && var level := Spot(e.when, born[e.id], c - 1);
       Called(e.when, level, c) && level < lvl ==> V.Level(e.when, c) < level || level == 3
  }

  /** Of two entries with one deadline the one in front is the nearer. */
  ghost predicate Lined(born: seq<nat>, xs: seq<V.Entry>, c: nat, lvl: nat)
    requires c > 0
  {
    && (forall i :: 0 <= i < |xs| ==> Issued(born, xs[i].id, c - 1))
    && (forall i, j :: 0 <= i < j < |xs| && xs[i].when == xs[j].when ==>
          Nearer(MidLife(born, xs[i], c, lvl), MidLife(born, xs[j], c, lvl)))
  }

  ghost predicate AllLined(born: seq<nat>, b: seq<seq<V.Entry>>, c: nat, lvl: nat)
    requires c > 0
  {
    && |b| == V.BUCKETS
    && (forall k, e :: 0 <= k < V.BUCKETS && e in b[k] ==> Tracked(born, e, k, c, lvl))
    && (forall k :: 0 <= k < V.BUCKETS ==> Lined(born, b[k], c, lvl))
  }

  /** An entry that stays lives on unchanged. */
  lemma Stays(born: seq<nat>, e: V.Entry, k: nat, c: nat, lvl: nat)
    requires c > 0 && 1 <= lvl < V.LEVELS && k < V.BUCKETS && c % V.Span(lvl) == 0
    requires Tracked(born, e, k, c, lvl) && k % 64 == (e.when / V.Span(k / 64)) % 64 && k != V.Reached(c, lvl)
    ensures Tracked(born, e, k, c, lvl + 1) && MidLife(born, e, c, lvl + 1) == MidLife(born, e, c, lvl)
  {
    var level := Spot(e.when, born[e.id], c - 1);
    if level == lvl {
      assert k / 64 == lvl;
      assert !Called(e.when, lvl, c);
    }
  }

  /** An entry in the slot just reached is taken, and not before. */
  lemma IsTaken(born: seq<nat>, e: V.Entry, c: nat, lvl: nat)
    requires c > 0 && 1 <= lvl < V.LEVELS && c % V.Span(lvl) == 0
    requires Tracked(born, e, V.Reached(c, lvl), c, lvl) && V.Settled(e, V.Reached(c, lvl), c, lvl)
    ensures Tracked(born, V.Moved(e), V.Bucket(e.when, c), c, lvl + 1)
    ensures MidMoves(e.when, born[e.id], c, lvl + 1) == MidMoves(e.when, born[e.id], c, lvl) + [Move(c, lvl)]
  {
    var level := Spot(e.when, born[e.id], c - 1);
    V.DrainedSettled(e, c, lvl);
    assert level == lvl;
    assert Called(e.when, lvl, c);
  }

  lemma MidLast(born: seq<nat>, e: V.Entry, c: nat, lvl: nat)
    requires c > 0 && Issued(born, e.id, c - 1)
    ensures var x := MidLife(born, e, c, lvl);
            && x.at < c
            && (x.moves != [] ==> Later(Move(c, lvl), Last(x)))
  {
    MovesBefore(e.when, born[e.id], c - 1);
  }

  // ----- Cascading -----

  /** Each of `xs` is nearer than any entry of its deadline in the buckets, and than those before it. */
  ghost predicate Coming(born: seq<nat>, b: seq<seq<V.Entry>>, xs: seq<V.Entry>, c: nat, lvl: nat)
    requires c > 0
  {
    && |b| == V.BUCKETS
    && (forall k, y :: 0 <= k < V.BUCKETS && y in b[k] ==> Issued(born, y.id, c - 1))
    && (forall x :: x in xs ==> Issued(born, x.id, c - 1))
    && (forall x, k, y :: x in xs && 0 <= k < V.BUCKETS && y in b[k] && x.when == y.when ==>
          Nearer(MidLife(born, x, c, lvl), MidLife(born, y, c, lvl)))
    && (forall i, j :: 0 <= i < j < |xs| && xs[i].when == xs[j].when ==>
          Nearer(MidLife(born, xs[j], c, lvl), MidLife(born, xs[i], c, lvl)))
  }

  lemma PushLined(born: seq<nat>, b: seq<seq<V.Entry>>, e: V.Entry, c: nat, lvl: nat)
    requires c > 0 && AllLined(born, b, c, lvl) && Tracked(born, e, V.Bucket(e.when, c), c, lvl)
    requires forall y :: y in b[V.Bucket(e.when, c)] && e.when == y.when ==>
               Nearer(MidLife(born, e, c, lvl), MidLife(born, y, c, lvl))
    ensures AllLined(born, V.Push(b, e, c), c, lvl) == true
  {
    var r := V.Bucket(e.when, c);
    var b1 := V.Push(b, e, c);
    forall k, x | 0 <= k < V.BUCKETS && x in b1[k] ensures Tracked(born, x, k, c, lvl) {
      assert x in b[k] || (k == r && x == e);
    }
    forall k | 0 <= k < V.BUCKETS ensures Lined(born, b1[k], c, lvl) {
      assert Lined(born, b[k], c, lvl);
    }
  }

  lemma ComingNext(born: seq<nat>, b: seq<seq<V.Entry>>, xs: seq<V.Entry>, c: nat, lvl: nat)
    requires c > 0 && xs != [] && Coming(born, b, xs, c, lvl)
    ensures Coming(born, V.Push(b, V.Moved(xs[0]), c), xs[1..], c, lvl) == true
  {
    var e := V.Moved(xs[0]);
    var b1, rest := V.Push(b, e, c), xs[1..];
    assert xs[0] in xs && forall x :: x in rest ==> x in xs;
    forall k, y: V.Entry | 0 <= k < V.BUCKETS && y in b1[k] ensures Issued(born, y.id, c - 1) {
      assert y in b[k] || y == e;
    }
    forall x: V.Entry, k, y: V.Entry | x in rest && 0 <= k < V.BUCKETS && y in b1[k] && x.when == y.when
      ensures Nearer(MidLife(born, x, c, lvl), MidLife(born, y, c, lvl))
    {
      if y == e {
        var j :| 0 <= j < |rest| && rest[j] == x;
        assert xs[j + 1] == x;
        assert MidLife(born, e, c, lvl) == MidLife(born, xs[0], c, lvl);
      } else {
        assert y in b[k];
      }
    }
    forall i, j | 0 <= i < j < |rest| && rest[i].when == rest[j].when
      ensures Nearer(MidLife(born, rest[j], c, lvl), MidLife(born, rest[i], c, lvl))
    {
      assert rest[i] == xs[i + 1] && rest[j] == xs[j + 1];
    }
  }

  lemma {:induction false} ReinsertLined(born: seq<nat>, b: seq<seq<V.Entry>>, xs: seq<V.Entry>, c: nat, lvl: nat)
    requires c > 0 && AllLined(born, b, c, lvl) && Coming(born, b, xs, c, lvl)
    requires forall x :: x in xs ==> Tracked(born, V.Moved(x), V.Bucket(x.when, c), c, lvl)
    ensures AllLined(born, V.Reinsert(b, xs, c), c, lvl) == true
    decreases |xs|
  {
    if xs != [] {
      var e := V.Moved(xs[0]);
      assert xs[0] in xs;
      assert MidLife(born, e, c, lvl) == MidLife(born, xs[0], c, lvl);
      PushLined(born, b, e, c, lvl);
      ComingNext(born, b, xs, c, lvl);
      ReinsertLined(born, V.Push(b, e, c), xs[1..], c, lvl);
    }
  }

  /** What a level gives up has just been linked, in reverse. */
  lemma TakenComing(born: seq<nat>, b: seq<seq<V.Entry>>, c: nat, lvl: nat)
    requires c > 0 && 1 <= lvl < V.LEVELS && c % V.Span(lvl) == 0
    requires AllLined(born, b, c, lvl) && V.AllSettled(b, c, lvl)
    ensures var r := V.Reached(c, lvl); Coming(born, b[r := []], b[r], c, lvl + 1) == true
  {
    var r := V.Reached(c, lvl);
    var b1, xs := b[r := []], b[r];
    forall x: V.Entry, k, y: V.Entry | x in xs && 0 <= k < V.BUCKETS && y in b1[k] && x.when == y.when
      ensures Nearer(MidLife(born, x, c, lvl + 1), MidLife(born, y, c, lvl + 1))
    {
      assert y in b[k] && k != r;
      assert V.Settled(y, k, c, lvl);
      Stays(born, y, k, c, lvl);
      IsTaken(born, x, c, lvl);
      MidLast(born, y, c, lvl);
      NearerLinked(MidLife(born, x, c, lvl), MidLife(born, y, c, lvl), Move(c, lvl));
    }
    forall i, j | 0 <= i < j < |xs| && xs[i].when == xs[j].when
      ensures Nearer(MidLife(born, xs[j], c, lvl + 1), MidLife(born, xs[i], c, lvl + 1))
    {
      IsTaken(born, xs[i], c, lvl);
      IsTaken(born, xs[j], c, lvl);
      assert Lined(born, xs, c, lvl);
      NearerTaken(MidLife(born, xs[j], c, lvl), MidLife(born, xs[i], c, lvl), Move(c, lvl));
    }
  }

  lemma EmptiedLined(born: seq<nat>, b: seq<seq<V.Entry>>, c: nat, lvl: nat)
    requires c > 0 && 1 <= lvl < V.LEVELS && c % V.Span(lvl) == 0
    requires AllLined(born, b, c, lvl) && V.AllSettled(b, c, lvl)
    ensures AllLined(born, b[V.Reached(c, lvl) := []], c, lvl + 1) == true
  {
    var r := V.Reached(c, lvl);
    var b1 := b[r := []];
    forall k, e | 0 <= k < V.BUCKETS && e in b1[k]
      ensures Tracked(born, e, k, c, lvl + 1) && MidLife(born, e, c, lvl + 1) == MidLife(born, e, c, lvl)
    {
      assert e in b[k] && k != r;
      assert V.Settled(e, k, c, lvl);
      Stays(born, e, k, c, lvl);
    }
    forall k | 0 <= k < V.BUCKETS ensures Lined(born, b1[k], c, lvl + 1) {
      SameLives(born, b1[k], c, lvl, lvl + 1);
    }
  }

  lemma SameLives(born: seq<nat>, xs: seq<V.Entry>, c: nat, lvl: nat, top: nat)
    requires c > 0 && (xs == [] || Lined(born, xs, c, lvl))
    requires forall e :: e in xs ==> Issued(born, e.id, c - 1)
    requires forall e :: e in xs ==> MidLife(born, e, c, top) == MidLife(born, e, c, lvl)
    ensures Lined(born, xs, c, top)
  {
    assert forall i :: 0 <= i < |xs| ==> xs[i] in xs;
  }

  lemma DrainLevelLined(born: seq<nat>, b: seq<seq<V.Entry>>, c: nat, lvl: nat)
    requires c > 0 && 1 <= lvl < V.LEVELS && c % V.Span(lvl) == 0
    requires AllLined(born, b, c, lvl) && V.AllSettled(b, c, lvl)
    ensures AllLined(born, V.DrainLevel(b, c, lvl), c, lvl + 1) == true
  {
    var r := V.Reached(c, lvl);
    EmptiedLined(born, b, c, lvl);
    TakenComing(born, b, c, lvl);
    forall x | x in b[r] ensures Tracked(born, V.Moved(x), V.Bucket(x.when, c), c, lvl + 1) {
      IsTaken(born, x, c, lvl);
    }
    ReinsertLined(born, b[r := []], b[r], c, lvl + 1);
  }

  /** Levels whose block the cursor did not enter take nothing. */
  lemma RestLined(born: seq<nat>, b: seq<seq<V.Entry>>, c: nat, lvl: nat)
    requires c > 0 && 1 <= lvl <= V.LEVELS && AllLined(born, b, c, lvl)
    requires forall l :: lvl <= l < V.LEVELS ==> c % V.Span(l) != 0
    ensures AllLined(born, b, c, V.LEVELS) == true
  {
    forall k, e | 0 <= k < V.BUCKETS && e in b[k]
      ensures Tracked(born, e, k, c, V.LEVELS) && MidLife(born, e, c, V.LEVELS) == MidLife(born, e, c, lvl)
    {
      assert Tracked(born, e, k, c, lvl);
    }
    forall k | 0 <= k < V.BUCKETS ensures Lined(born, b[k], c, V.LEVELS) {
      SameLives(born, b[k], c, lvl, V.LEVELS);
    }
  }

  lemma {:induction false} CascadeLined(born: seq<nat>, b: seq<seq<V.Entry>>, c: nat, lvl: nat)
    requires c > 0 && 1 <= lvl <= V.LEVELS && |b| == V.BUCKETS
    requires AllLined(born, b, c, lvl) == true && V.AllSettled(b, c, lvl) == true
    requires lvl < V.LEVELS ==> c % V.Span(lvl) == 0
    ensures AllLined(born, V.Cascade(b, c, lvl), c, V.LEVELS) == true
    decreases V.LEVELS - lvl
  {
    if lvl < V.LEVELS {
      var b1 := V.DrainLevel(b, c, lvl);
      DrainLevelLined(born, b, c, lvl);
      V.DrainLevelSettled(b, c, lvl);
      V.NextLevel(c, lvl);
      if V.Wraps(c, lvl) {
        CascadeLined(born, b1, c, lvl + 1);
      } else {
        RestLined(born, b1, c, lvl + 1);
      }
    }
  }

  // ----- The operations -----

  /** Between ticks nothing of the next one has been taken yet. */
  ghost predicate Steady(born: seq<nat>, h: V.Hier) {
    V.Inv(h) && h.next == |born| && AllLined(born, h.buckets, h.cursor + 1, 1)
  }

  /** A timer when it comes back. */
  function LifeOf(born: seq<nat>, t: Timer): Life
    requires Issued(born, t.id, t.when)
  {
    Life(t.id, born[t.id], Moves(t.when, born[t.id], t.when))
  }

  predicate Before(born: seq<nat>, t: Timer, u: Timer)
    requires Issued(born, t.id, t.when) && Issued(born, u.id, u.when)
  {
    t.when < u.when || (t.when == u.when && Nearer(LifeOf(born, t), LifeOf(born, u)))
  }

  /** By deadline, and within a deadline the nearer first. */
  ghost predicate InLine(born: seq<nat>, out: seq<Timer>) {
    && (forall t :: t in out ==> Issued(born, t.id, t.when))
    && (forall i, j :: 0 <= i < j < |out| ==> Before(born, out[i], out[j]))
  }

  lemma NextTick(born: seq<nat>, e: V.Entry, k: nat, c: nat)
    requires c > 0 && k < V.BUCKETS && Tracked(born, e, k, c, V.LEVELS)
    ensures Tracked(born, e, k, c + 1, 1) && MidLife(born, e, c + 1, 1) == MidLife(born, e, c, V.LEVELS)
    ensures MidLife(born, e, c, V.LEVELS).moves == Moves(e.when, born[e.id], c)
  {
  }

  lemma FiredInLine(born: seq<nat>, xs: seq<V.Entry>, c: nat)
    requires c > 0 && Lined(born, xs, c, V.LEVELS) && forall i :: 0 <= i < |xs| ==> xs[i].when == c
    requires forall i :: 0 <= i < |xs| ==> Tracked(born, xs[i], c % 64, c, V.LEVELS)
    ensures InLine(born, V.Timers(xs)) == true
  {
    var out := V.Timers(xs);
    forall i | 0 <= i < |xs|
      ensures Issued(born, out[i].id, c) && LifeOf(born, out[i]) == MidLife(born, xs[i], c, V.LEVELS)
    {
      NextTick(born, xs[i], c % 64, c);
    }
  }

  lemma FireLined(born: seq<nat>, b: seq<seq<V.Entry>>, c: nat, next: nat)
    requires c > 0 && |b| == V.BUCKETS && AllLined(born, b, c, V.LEVELS) == true
    requires V.AllSettled(b, c, V.LEVELS) == true
    ensures AllLined(born, V.Fire(b, c, next).0.buckets, c + 1, 1) == true
    ensures InLine(born, V.Fire(b, c, next).1) == true
  {
    var b1 := b[c % 64 := []];
    forall k, e | 0 <= k < V.BUCKETS && e in b1[k]
      ensures Tracked(born, e, k, c + 1, 1) && MidLife(born, e, c + 1, 1) == MidLife(born, e, c, V.LEVELS)
    {
      assert e in b[k];
      NextTick(born, e, k, c);
    }
    forall k | 0 <= k < V.BUCKETS ensures Lined(born, b1[k], c + 1, 1) {
      LivesOn(born, b1[k], c);
    }
    var xs := b[c % 64];
    forall i | 0 <= i < |xs| ensures xs[i].when == c {
      assert xs[i] in xs;
      V.AfterTick(xs[i], c % 64, c);
    }
    FiredInLine(born, xs, c);
  }

  lemma LivesOn(born: seq<nat>, xs: seq<V.Entry>, c: nat)
    requires c > 0 && (xs == [] || Lined(born, xs, c, V.LEVELS))
    requires forall e :: e in xs ==> Issued(born, e.id, c - 1)
    requires forall e :: e in xs ==> MidLife(born, e, c + 1, 1) == MidLife(born, e, c, V.LEVELS)
    ensures Lined(born, xs, c + 1, 1)
  {
    assert forall i :: 0 <= i < |xs| ==> xs[i] in xs;
  }

  lemma TickLined(born: seq<nat>, h: V.Hier)
    requires Steady(born, h)
    ensures Steady(born, V.Tick(h).0) == true && InLine(born, V.Tick(h).1) == true
    ensures forall t :: t in V.Tick(h).1 ==> t.when == h.cursor + 1
  {
    SettleLined(born, h);
    V.SettleSettled(h);
    V.TickView(h);
    FireLined(born, V.Settle(h.buckets, h.cursor + 1), h.cursor + 1, h.next);
    IsSteady(born, V.Tick(h).0);
  }

  lemma SettleLined(born: seq<nat>, h: V.Hier)
    requires Steady(born, h)
    ensures AllLined(born, V.Settle(h.buckets, h.cursor + 1), h.cursor + 1, V.LEVELS) == true
  {
    var c := h.cursor + 1;
    forall k, e | 0 <= k < V.BUCKETS && e in h.buckets[k] ensures V.Settled(e, k, c, 1) {
      V.BeforeTick(e, k, c);
    }
    if c % 64 == 0 {
      CascadeLined(born, h.buckets, c, 1);
    } else {
      V.NotEntered(c);
      RestLined(born, h.buckets, c, 1);
    }
  }

  lemma {:induction false} AdvanceLined(born: seq<nat>, h: V.Hier, target: nat)
    requires Steady(born, h)
    ensures Steady(born, V.AdvanceTo(h, target).0) && InLine(born, V.AdvanceTo(h, target).1)
    ensures forall t :: t in V.AdvanceTo(h, target).1 ==> t.when > h.cursor
    decreases target - h.cursor
  {
    if h.cursor < target {
      var (h1, fired) := V.Tick(h);
      TickLined(born, h);
      AdvanceLined(born, h1, target);
      InLineConcat(born, fired, V.AdvanceTo(h1, target).1);
    }
  }

  lemma InLineConcat(born: seq<nat>, a: seq<Timer>, b: seq<Timer>)
    requires InLine(born, a) && InLine(born, b) && forall t, u :: t in a && u in b ==> t.when < u.when
    ensures InLine(born, a + b)
  {
    var all := a + b;
    forall i, j | 0 <= i < j < |all| ensures Before(born, all[i], all[j]) {
      if i < |a| <= j {
        assert all[i] in a && all[j] in b;
      }
    }
  }

  lemma MoreBorn(born: seq<nat>, at: nat, e: V.Entry, k: nat, c: nat)
    requires c > 0 && Tracked(born, e, k, c, 1)
    ensures Tracked(born + [at], e, k, c, 1) && MidLife(born + [at], e, c, 1) == MidLife(born, e, c, 1)
  {
  }

  lemma NewNearer(born: seq<nat>, e: V.Entry, y: V.Entry, k: nat, c: nat)
    requires e.id == |born| && Tracked(born, y, k, c + 1, 1)
    ensures Nearer(MidLife(born + [c], e, c + 1, 1), MidLife(born + [c], y, c + 1, 1))
  {
    MoreBorn(born, c, y, k, c + 1);
    MovesBefore(y.when, born[y.id], c);
    assert Moves(e.when, c, c) == [];
  }

  lemma InsertLined(born: seq<nat>, h: V.Hier, ticks: nat)
    requires Steady(born, h) && ticks >= 1
    ensures Steady(born + [h.cursor], V.Insert(h, ticks)) == true
  {
    V.InsertView(h, ticks);
    InsertLinked(born, h, ticks);
    IsSteady(born + [h.cursor], V.Insert(h, ticks));
  }

  lemma IsSteady(born: seq<nat>, h: V.Hier)
    requires V.Inv(h) == true && h.next == |born| && AllLined(born, h.buckets, h.cursor + 1, 1) == true
    ensures Steady(born, h) == true
  {
  }

  lemma InsertLinked(born: seq<nat>, h: V.Hier, ticks: nat)
    requires |h.buckets| == V.BUCKETS && h.next == |born| && AllLined(born, h.buckets, h.cursor + 1, 1) == true
    ensures AllLined(born + [h.cursor], V.Insert(h, ticks).buckets, h.cursor + 1, 1) == true
  {
    InsertPush(h, ticks);
    LinkedLined(born, h.buckets, V.Entry(h.next, h.cursor + ticks, ticks, 0), h.cursor);
  }

  lemma InsertPush(h: V.Hier, ticks: nat)
    requires |h.buckets| == V.BUCKETS
    ensures var e := V.Entry(h.next, h.cursor + ticks, ticks, 0);
            V.Insert(h, ticks) == V.Hier(h.cursor, h.next + 1, V.Push(h.buckets, e, h.cursor))
  {
  }

  /** A new entry in front of its bucket. */
  lemma LinkedLined(born: seq<nat>, b: seq<seq<V.Entry>>, e: V.Entry, c: nat)
    requires |b| == V.BUCKETS && AllLined(born, b, c + 1, 1) == true && e.id == |born|
    ensures AllLined(born + [c], V.Push(b, e, c), c + 1, 1) == true
  {
    var r, b1 := V.Bucket(e.when, c), V.Push(b, e, c);
    NewTracked(born, e, c);
    forall k, x | 0 <= k < V.BUCKETS && x in b1[k] ensures Tracked(born + [c], x, k, c + 1, 1) {
      if !(k == r && x == e) {
        assert x in b[k];
        MoreBorn(born, c, x, k, c + 1);
      }
    }
    forall k | 0 <= k < V.BUCKETS ensures Lined(born + [c], b1[k], c + 1, 1) {
      OldLined(born, c, b[k], k, c + 1);
      if k == r { FrontLined(born, e, b[k], k, c); }
    }
  }

  lemma NewTracked(born: seq<nat>, e: V.Entry, c: nat)
    requires e.id == |born|
    ensures Tracked(born + [c], e, V.Bucket(e.when, c), c + 1, 1) == true
  {
    assert Spot(e.when, c, c) == V.Level(e.when, c);
  }

  lemma OldLined(born: seq<nat>, at: nat, xs: seq<V.Entry>, k: nat, c: nat)
    requires c > 0 && Lined(born, xs, c, 1) && forall x :: x in xs ==> Tracked(born, x, k, c, 1)
    ensures Lined(born + [at], xs, c, 1) == true
  {
    forall i | 0 <= i < |xs|
      ensures Issued(born + [at], xs[i].id, c - 1) && MidLife(born + [at], xs[i], c, 1) == MidLife(born, xs[i], c, 1)
    {
      assert xs[i] in xs;
      MoreBorn(born, at, xs[i], k, c);
    }
  }

  lemma FrontLined(born: seq<nat>, e: V.Entry, xs: seq<V.Entry>, k: nat, c: nat)
    requires e.id == |born| && Lined(born + [c], xs, c + 1, 1) == true
    requires forall x :: x in xs ==> Tracked(born, x, k, c + 1, 1)
    ensures Lined(born + [c], [e] + xs, c + 1, 1) == true
  {
    forall x | x in xs ensures Nearer(MidLife(born + [c], e, c + 1, 1), MidLife(born + [c], x, c + 1, 1)) {
      NewNearer(born, e, x, k, c);
    }
    assert forall i :: 0 <= i < |xs| ==> xs[i] in xs;
  }

  lemma {:induction false} DropLined(born: seq<nat>, xs: seq<V.Entry>, id: nat, c: nat)
    requires c > 0 && Lined(born, xs, c, 1) == true
    ensures Lined(born, V.DropEntry(xs, id), c, 1) == true
    ensures forall x :: x in V.DropEntry(xs, id) ==> x in xs
  {
    if xs != [] {
      LinedTail(born, xs, c);
      DropLined(born, xs[1..], id, c);
      LinedCons(born, xs[0], V.DropEntry(xs[1..], id), c);
    }
  }

  lemma LinedTail(born: seq<nat>, xs: seq<V.Entry>, c: nat)
    requires c > 0 && xs != [] && Lined(born, xs, c, 1)
    ensures Issued(born, xs[0].id, c - 1) && Lined(born, xs[1..], c, 1) == true
    ensures forall x :: x in xs[1..] ==> Issued(born, x.id, c - 1)
    ensures forall x :: x in xs[1..] && x.when == xs[0].when ==>
              Nearer(MidLife(born, xs[0], c, 1), MidLife(born, x, c, 1))
  {
    assert forall i :: 0 <= i < |xs[1..]| ==> xs[1..][i] == xs[i + 1];
  }

  lemma LinedCons(born: seq<nat>, x: V.Entry, rest: seq<V.Entry>, c: nat)
    requires c > 0 && Issued(born, x.id, c - 1) && Lined(born, rest, c, 1) == true
    requires forall y :: y in rest ==> Issued(born, y.id, c - 1)
    requires forall y :: y in rest && y.when == x.when ==> Nearer(MidLife(born, x, c, 1), MidLife(born, y, c, 1))
    ensures Lined(born, [x] + rest, c, 1) == true
  {
    assert forall i :: 0 <= i < |rest| ==> rest[i] in rest;
  }

  lemma RemoveLined(born: seq<nat>, h: V.Hier, id: nat)
    requires Steady(born, h)
    ensures Steady(born, V.Remove(h, id))
  {
    V.RemoveView(h, id);
    forall k | 0 <= k < V.BUCKETS
      ensures Lined(born, V.DropEntry(h.buckets[k], id), h.cursor + 1, 1)
      ensures forall x :: x in V.DropEntry(h.buckets[k], id) ==> x in h.buckets[k]
    {
      DropLined(born, h.buckets[k], id, h.cursor + 1);
    }
  }

  // ----- The order in closed form -----

  /** Below 64 ticks a timer is never moved. */
  lemma {:induction false} NeverMoved(when: nat, at: nat, c: nat)
    requires at <= c && when < at + 64
    ensures Spot(when, at, c) == 0 && Moves(when, at, c) == []
    decreases c
  {
    if c > at { NeverMoved(when, at, c - 1); }
  }

  /** From 64 ticks to 4095 it is moved once, on the tick that enters its block of 64. */
  lemma {:induction false} MovedOnce(when: nat, at: nat, c: nat)
    requires at <= c <= when && at + 64 <= when < at + 4096
    ensures Spot(when, at, c) == if c < 64 * (when / 64) then 1 else 0
    ensures Moves(when, at, c) == if c < 64 * (when / 64) then [] else [Move(64 * (when / 64), 1)]
    decreases c
  {
    if c > at {
      MovedOnce(when, at, c - 1);
      CalledOnce(when, at, c);
    }
  }

  lemma CalledOnce(when: nat, at: nat, c: nat)
    requires at < c <= when && at + 64 <= when < at + 4096
    ensures Called(when, 1, c) <==> c == 64 * (when / 64)
    ensures c == 64 * (when / 64) ==> V.Level(when, c) == 0
  {
    if c % 64 == 0 {
      SameBlock(when / 64, c / 64);
    }
  }

  lemma SameBlock(a: nat, b: nat)
    requires b <= a < b + 64
    ensures a % 64 == b % 64 <==> a == b
  {
  }

  /** Timers scheduled together for one deadline: the newest first when each was moved an even number of
      times, in schedule order when odd. */
  lemma {:induction false} ScheduledTogether(x: Life, y: Life)
    requires x.id != y.id && x.moves == y.moves
    ensures Nearer(x, y) <==> (x.id > y.id <==> |x.moves| % 2 == 0)
    decreases |x.moves|
  {
    if x.moves != [] {
      ScheduledTogether(Earlier(y), Earlier(x));
    }
  }

  /** Two timers of one deadline and delays below 4096 ticks. Two that were never moved: the newest first.
      Two that were: in schedule order. One of each: the moved one first if it was moved after the other was
      scheduled. */
  lemma TiesUpTo4095(born: seq<nat>, t: Timer, u: Timer)
    requires Issued(born, t.id, t.when) && Issued(born, u.id, u.when) && t.when == u.when && t.id != u.id
    requires t.when < born[t.id] + 4096 && u.when < born[u.id] + 4096
    ensures var moved, later := t.when >= born[t.id] + 64, u.when >= born[u.id] + 64;
            Before(born, t, u) <==>
              if !moved && !later then t.id > u.id
              else if moved && later then t.id < u.id
              else if moved then born[u.id] < 64 * (t.when / 64)
              else born[t.id] >= 64 * (t.when / 64)
  {
    var x, y := LifeOf(born, t), LifeOf(born, u);
    KnownMoves(t.when, born[t.id]);
    KnownMoves(u.when, born[u.id]);
    if x.moves != [] && y.moves != [] {
      assert Nearer(x, y) == Nearer(Earlier(y), Earlier(x));
    }
  }

  lemma KnownMoves(when: nat, at: nat)
    requires at <= when < at + 4096
    ensures Moves(when, at, when) == if when < at + 64 then [] else [Move(64 * (when / 64), 1)]
  {
    if when < at + 64 { NeverMoved(when, at, when); } else { MovedOnce(when, at, when); }
  }
}
