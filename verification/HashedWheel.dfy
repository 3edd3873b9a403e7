/**
 The single-level hashed wheel, updated in place, against its value model.
 */
module HashedWheels {
  import opened TimerSpec
  import opened Links
  import W = HashedWheelModel

  /** The list at `head` holds the nodes `xs`, none of them cancelled, and they are the entries `es`. */
  ghost predicate Slot(head: Node?, xs: seq<Node>, es: seq<W.Entry>, home: nat)
    reads xs
  {
    Linked(head, xs) && Marks(xs, es, home)
  }

  /** The nodes carry the entries, all pending and all of one slot. */
  ghost predicate Marks(xs: seq<Node>, es: seq<W.Entry>, home: nat)
    reads xs`cancelled, xs`home, xs`rounds
  {
    && |xs| == |es|
    && (forall i :: 0 <= i < |xs| ==>
         !xs[i].cancelled && xs[i].home == home && xs[i].id == es[i].id && xs[i].rounds == es[i].rounds)
  }

  lemma MarksCut(xs: seq<Node>, front: seq<W.Entry>, e: W.Entry, after: seq<W.Entry>, home: nat)
    requires Marks(xs, front + [e] + after, home)
    ensures |front| < |xs| && Marks(Cut(xs, |front|), front + after, home) == true
  {
  }

  /** The walk stands at node number `k` of the list. */
  ghost predicate Walking(head: Node?, node: Node?, xs: seq<Node>, es: seq<W.Entry>, k: nat, home: nat,
                          nodes: set<Node>)
    reads xs
  {
    && Slot(head, xs, es, home) && Inside(xs, nodes)
    && k <= |xs| && node == if k < |xs| then xs[k] else null
  }

  /** The cursor meets one node: it loses a rotation, or it is taken out and fires. */
  method Visit(node: Node, head: Node?, home: nat,
               ghost xs: seq<Node>, ghost front: seq<W.Entry>, ghost e: W.Entry, ghost after: seq<W.Entry>,
               ghost nodes: set<Node>)
    returns (gone: bool, rest: Node?, nxt: Node?)
    requires Walking(head, node, xs, front + [e] + after, |front|, home, nodes)
    modifies nodes`prev, nodes`next, node`rounds, node`cancelled
    ensures !old(node.cancelled)
    ensures gone == (e.rounds == 0) == node.cancelled
    ensures |front| < |xs| && node.id == e.id
    ensures gone ==> Walking(rest, nxt, Cut(xs, |front|), front + after, |front|, home, nodes) == true
    ensures !gone ==>
              Walking(rest, nxt, xs, front + [W.Entry(e.id, e.rounds - 1)] + after, |front| + 1, home, nodes) == true
  {
    assert (front + [e] + after)[|front|] == e;
    nxt, rest := node.next, head;
    if node.rounds > 0 {
      Pass(node, head, home, xs, front, e, after, nodes);
      gone := false;
    } else {
      rest := Expire(node, head, home, xs, front, e, after, nodes);
      gone := true;
    }
  }

  method Pass(node: Node, head: Node?, home: nat, ghost xs: seq<Node>, ghost front: seq<W.Entry>, ghost e: W.Entry,
              ghost after: seq<W.Entry>, ghost nodes: set<Node>)
    requires Walking(head, node, xs, front + [e] + after, |front|, home, nodes) && node.rounds > 0
    modifies node`rounds
    ensures e.rounds > 0 && |front| < |xs|
            && Walking(head, old(node.next), xs, front + [W.Entry(e.id, e.rounds - 1)] + after,
                       |front| + 1, home, nodes)
  {
    OnlyAt(xs, |front|);
    node.rounds := node.rounds - 1;
  }

  method Expire(node: Node, head: Node?, home: nat, ghost xs: seq<Node>, ghost front: seq<W.Entry>, ghost e: W.Entry,
                ghost after: seq<W.Entry>, ghost nodes: set<Node>)
    returns (rest: Node?)
    requires Walking(head, node, xs, front + [e] + after, |front|, home, nodes)
    modifies nodes`prev, nodes`next, node`cancelled
    ensures node.cancelled && |front| < |xs|
    ensures Walking(rest, old(node.next), Cut(xs, |front|), front + after, |front|, home, nodes)
  {
    MarksCut(xs, front, e, after, home);
    CutOthers(xs, |front|);
    rest := Unlink(node, head, xs, |front|, nodes);
    node.cancelled := true;
    assert Marks(Cut(xs, |front|), front + after, home) == true;
  }

  /** `front` is what the entries met so far have become and `ts` the timers they fired. */
  ghost predicate Swept(es: seq<W.Entry>, front: seq<W.Entry>, todo: seq<W.Entry>, ts: seq<Timer>, now: nat) {
    W.Kept(es) == front + W.Kept(todo) && W.Expired(es, now) == ts + W.Expired(todo, now)
  }

  lemma SweptStep(es: seq<W.Entry>, front: seq<W.Entry>, e: W.Entry, after: seq<W.Entry>, ts: seq<Timer>, now: nat)
    requires Swept(es, front, [e] + after, ts, now)
    ensures e.rounds == 0 ==> Swept(es, front, after, ts + [Timer(e.id, now)], now)
    ensures e.rounds > 0 ==> Swept(es, front + [W.Entry(e.id, e.rounds - 1)], after, ts, now)
  {
    assert ([e] + after)[1..] == after;
  }

  /** A walk along slot `all` under way: `front` has been met, `todo` has not, and what left has fired. */
  datatype Walk = Walk(kept: seq<Node>, front: seq<W.Entry>, todo: seq<W.Entry>, ts: seq<Timer>)

  ghost predicate Underway(head: Node?, node: Node?, fired: seq<Node>, w: Walk,
                           all: seq<Node>, es: seq<W.Entry>, home: nat, now: nat, nodes: set<Node>)
    reads w.kept, fired
  {
    && Walking(head, node, w.kept, w.front + w.todo, |w.front|, home, nodes)
    && Swept(es, w.front, w.todo, w.ts, now) && Fires(fired, w.ts)
    && multiset(all) == multiset(w.kept) + multiset(fired)
    && (forall i :: 0 <= i < |fired| ==> fired[i].cancelled)
  }

  lemma NextEntry(w: Walk, e: W.Entry, after: seq<W.Entry>)
    requires w.todo != [] && e == w.todo[0] && after == w.todo[1..]
    ensures w.todo == [e] + after && w.front + w.todo == w.front + [e] + after
  {
  }

  /** One step of the walk. */
  method Meet(node: Node, head: Node?, before: seq<Node>, ghost w: Walk,
              ghost all: seq<Node>, ghost es: seq<W.Entry>, home: nat, ghost now: nat, ghost nodes: set<Node>)
    returns (rest: Node?, nxt: Node?, fired: seq<Node>, ghost w1: Walk)
    requires Underway(head, node, before, w, all, es, home, now, nodes)
    modifies nodes`prev, nodes`next, nodes`rounds, nodes`cancelled
    ensures Underway(rest, nxt, fired, w1, all, es, home, now, nodes) == true && |w1.todo| < |w.todo|
  {
    ghost var e, after := w.todo[0], w.todo[1..];
    NextEntry(w, e, after);
    SweptStep(es, w.front, e, after, w.ts, now);
    var gone;
    gone, rest, nxt := Visit(node, head, home, w.kept, w.front, e, after, nodes);
    if gone {
      fired := before + [node];
      w1 := Walk(Cut(w.kept, |w.front|), w.front, after, w.ts + [Timer(e.id, now)]);
      FiredMore(w.kept, |w.front|, all, before, w.ts, node, Timer(e.id, now));
    } else {
      fired := before;
      w1 := Walk(w.kept, w.front + [W.Entry(e.id, e.rounds - 1)], after, w.ts);
    }
    GoesOn(rest, nxt, fired, w1, all, es, home, now, nodes);
  }

  lemma GoesOn(head: Node?, node: Node?, fired: seq<Node>, w: Walk,
               all: seq<Node>, es: seq<W.Entry>, home: nat, now: nat, nodes: set<Node>)
    requires Walking(head, node, w.kept, w.front + w.todo, |w.front|, home, nodes) == true
    requires Swept(es, w.front, w.todo, w.ts, now) == true && Fires(fired, w.ts) == true
    requires multiset(all) == multiset(w.kept) + multiset(fired)
    requires forall i :: 0 <= i < |fired| ==> fired[i].cancelled
    ensures Underway(head, node, fired, w, all, es, home, now, nodes) == true
  {
  }

  lemma FiredMore(kept: seq<Node>, k: nat, all: seq<Node>, before: seq<Node>, ts: seq<Timer>, node: Node, t: Timer)
    requires k < |kept| && kept[k] == node && node.id == t.id && Fires(before, ts)
    requires multiset(all) == multiset(kept) + multiset(before)
    ensures Fires(before + [node], ts + [t])
    ensures multiset(all) == multiset(Cut(kept, k)) + multiset(before + [node])
  {
    CutMultiset(kept, k);
  }

  /** One visit of the cursor to one slot: the nodes with no rotation left are taken out and fire. */
  method Sweep(head: Node?, ghost now: nat, home: nat, ghost xs: seq<Node>, ghost es: seq<W.Entry>,
               ghost nodes: set<Node>)
    returns (fired: seq<Node>, rest: Node?, ghost kept: seq<Node>)
    requires Slot(head, xs, es, home) && Inside(xs, nodes)
    modifies nodes`prev, nodes`next, nodes`rounds, nodes`cancelled
    ensures Slot(rest, kept, W.Kept(es), home) == true && Fires(fired, W.Expired(es, now))
    ensures multiset(xs) == multiset(kept) + multiset(fired)
    ensures forall i :: 0 <= i < |fired| ==> fired[i].cancelled
  {
    fired, rest := [], head;
    var node := head;
    ghost var w := Walk(xs, [], es, []);
    SweepStart(head, xs, es, home, now, nodes);
    while node != null
      invariant Underway(rest, node, fired, w, xs, es, home, now, nodes) == true
      decreases |w.todo|
    {
      rest, node, fired, w := Meet(node, rest, fired, w, xs, es, home, now, nodes);
    }
    SweptAll(rest, fired, w, xs, es, home, now, nodes);
    kept := w.kept;
  }

  lemma SweepStart(head: Node?, xs: seq<Node>, es: seq<W.Entry>, home: nat, now: nat, nodes: set<Node>)
    requires Slot(head, xs, es, home) && Inside(xs, nodes)
    ensures Underway(head, head, [], Walk(xs, [], es, []), xs, es, home, now, nodes) == true
  {
    assert [] + es == es;
  }

  lemma SweptAll(rest: Node?, fired: seq<Node>, w: Walk, xs: seq<Node>, es: seq<W.Entry>, home: nat, now: nat,
                 nodes: set<Node>)
    requires Underway(rest, null, fired, w, xs, es, home, now, nodes)
    ensures Slot(rest, w.kept, W.Kept(es), home) == true && Fires(fired, W.Expired(es, now))
    ensures multiset(xs) == multiset(w.kept) + multiset(fired)
    ensures forall i :: 0 <= i < |fired| ==> fired[i].cancelled
  {
    assert w.todo == [];
  }

  /** The nodes of a slot are the entries of the model, in the same order. */
  ghost predicate Same(xs: seq<Node>, es: seq<W.Entry>)
    reads xs`rounds
  {
    |xs| == |es| && forall i :: 0 <= i < |xs| ==> es[i].id == xs[i].id && es[i].rounds == xs[i].rounds
  }

  ghost predicate Mirrors(lists: seq<seq<Node>>, slots: seq<seq<W.Entry>>, nodes: set<Node>)
    reads nodes`rounds
  {
    && |lists| == |slots|
    && (forall s :: 0 <= s < |lists| ==> Inside(lists[s], nodes) && Same(lists[s], slots[s]))
  }

  lemma MirrorsPush(lists: seq<seq<Node>>, slots: seq<seq<W.Entry>>, nodes: set<Node>, s: nat, x: Node, e: W.Entry)
    requires Mirrors(lists, slots, nodes) && s < |lists| && e == W.Entry(x.id, x.rounds)
    ensures Mirrors(lists[s := [x] + lists[s]], slots[s := [e] + slots[s]], nodes + {x})
  {
    assert Same([x] + lists[s], [e] + slots[s]);
  }

  /** What a wheel stands for: its model, the nodes on each slot, and every handle it has issued. */
  datatype Shadow = Shadow(model: W.Wheel, lists: seq<seq<Node>>, issued: seq<Node>, nodes: set<Node>)

  /** The slots hold disjoint linked lists of exactly the nodes that are neither cancelled nor fired, and
      they are the lists of the model. */
  ghost predicate Holds(slots: array<Node?>, g: Shadow)
    reads slots, g.nodes
  {
    && W.Shaped(g.model) && g.model.n == slots.Length && g.model.next == |g.issued|
    && Numbered(g.issued, g.nodes) && Threaded(slots, g.lists, g.nodes) && Mirrors(g.lists, g.model.slots, g.nodes)
  }

  lemma HoldsMoved(slots: array<Node?>, g: Shadow, cursor: nat)
    requires Holds(slots, g)
    ensures Holds(slots, g.(model := g.model.(cursor := cursor))) == true
  {
  }

  /** An entry of the model with a node's number belongs to that node. */
  lemma OwnEntry(slots: array<Node?>, g: Shadow, node: Node, s: nat, j: nat)
    requires Holds(slots, g) && node in g.nodes
    requires s < |g.lists| && j < |g.lists[s]|
    ensures j < |g.model.slots[s]|
    ensures g.model.slots[s][j].id == node.id ==> g.lists[s][j] == node && node.home == s && !node.cancelled
  {
    assert Same(g.lists[s], g.model.slots[s]);
    assert Inside(g.lists[s], g.nodes);
    assert g.issued[node.id] == node;
    assert g.issued[g.lists[s][j].id] == g.lists[s][j];
  }

  lemma NotPending(slots: array<Node?>, g: Shadow, node: Node)
    requires Holds(slots, g) && node in g.nodes && node.cancelled
    ensures W.Remove(g.model, node.id) == g.model
  {
    forall s | 0 <= s < |g.lists| ensures W.Drop(g.model.slots[s], node.id) == g.model.slots[s] {
      assert Same(g.lists[s], g.model.slots[s]);
      forall j | 0 <= j < |g.model.slots[s]| ensures g.model.slots[s][j].id != node.id {
        OwnEntry(slots, g, node, s, j);
      }
      W.DropAbsent(g.model.slots[s], node.id);
    }
    assert W.Remove(g.model, node.id).slots == g.model.slots;
  }

  lemma PendingAt(slots: array<Node?>, g: Shadow, node: Node, i: nat)
    requires Holds(slots, g) && node in g.nodes && !node.cancelled
    requires i < |g.lists[node.home]| && g.lists[node.home][i] == node
    ensures var es := g.model.slots[node.home];
            |es| == |g.lists[node.home]|
            && W.Remove(g.model, node.id).slots == g.model.slots[node.home := es[..i] + es[i + 1..]]
  {
    var k := node.home;
    var after := W.Remove(g.model, node.id).slots;
    assert Same(g.lists[k], g.model.slots[k]);
    OnlyAt(g.lists[k], i);
    forall s | 0 <= s < |g.lists| && s != k ensures after[s] == g.model.slots[s] {
      assert Same(g.lists[s], g.model.slots[s]);
      forall j | 0 <= j < |g.model.slots[s]| ensures g.model.slots[s][j].id != node.id {
        OwnEntry(slots, g, node, s, j);
      }
      W.DropAbsent(g.model.slots[s], node.id);
    }
    forall j | 0 <= j < |g.model.slots[k]| && j != i ensures g.model.slots[k][j].id != node.id {
      OwnEntry(slots, g, node, k, j);
    }
    W.DropAt(g.model.slots[k], i);
  }

  lemma MirrorsCut(lists: seq<seq<Node>>, slots: seq<seq<W.Entry>>, nodes: set<Node>, s: nat, i: nat)
    requires Mirrors(lists, slots, nodes) && s < |lists| && i < |lists[s]|
    ensures Mirrors(lists[s := Cut(lists[s], i)], slots[s := slots[s][..i] + slots[s][i + 1..]], nodes)
  {
    assert Same(Cut(lists[s], i), slots[s][..i] + slots[s][i + 1..]);
    assert Inside(Cut(lists[s], i), nodes);
  }

  method SweepAt(slots: array<Node?>, s: nat, now: nat, ghost xs: seq<Node>, ghost es: seq<W.Entry>,
                 ghost touched: set<Node>)
    returns (fired: seq<Node>, ghost kept: seq<Node>)
    requires s < slots.Length && Slot(slots[s], xs, es, s) && Inside(xs, touched)
    modifies slots, touched
    ensures forall j :: 0 <= j < slots.Length && j != s ==> slots[j] == old(slots[j])
    ensures Linked(slots[s], kept) && Same(kept, W.Kept(es)) && Fires(fired, W.Expired(es, now))
    ensures forall x :: x in xs <==> x in kept || x in fired
    ensures forall x :: x in kept ==> x.home == s && !x.cancelled
    ensures forall x :: x in fired ==> x.cancelled
  {
    var rest;
    fired, rest, kept := Sweep(slots[s], now, s, xs, es, touched);
    slots[s] := rest;
    SumMembers(xs, kept, fired);
  }

  /** The same, seen from the rest of the wheel, which it leaves alone. */
  method SweepAmong(slots: array<Node?>, s: nat, now: nat, ghost g: Shadow)
    returns (fired: seq<Node>, ghost kept: seq<Node>)
    requires Holds(slots, g) && s < slots.Length
    modifies slots, g.nodes
    ensures Linked(slots[s], kept) && Same(kept, W.Kept(g.model.slots[s]))
            && Fires(fired, W.Expired(g.model.slots[s], now))
    ensures forall j :: 0 <= j < |g.lists| && j != s ==>
              Linked(slots[j], g.lists[j]) && Same(g.lists[j], g.model.slots[j])
    ensures forall x :: x in kept ==> x in g.nodes && x.home == s && !x.cancelled
    ensures forall x :: x in g.lists[s] <==> x in kept || x in fired
    ensures forall x :: x in fired ==> x.cancelled
    ensures forall x :: x in g.nodes && x !in g.lists[s] ==> x.home == old(x.home) && x.cancelled == old(x.cancelled)
  {
    ghost var xs, es := g.lists[s], g.model.slots[s];
    assert Same(xs, es);
    ghost var touched := set x | x in xs;
    fired, kept := SweepAt(slots, s, now, xs, es, touched);
    forall j | 0 <= j < |g.lists| && j != s ensures Linked(slots[j], g.lists[j]) && Same(g.lists[j], g.model.slots[j]) {
      assert old(Linked(slots[j], g.lists[j]) && Same(g.lists[j], g.model.slots[j]));
    }
  }

  /** The whole wheel when the cursor visits slot `s` at tick `now`. */
  method SweepSlot(slots: array<Node?>, s: nat, now: nat, ghost g: Shadow)
    returns (fired: seq<Node>, ghost after: Shadow)
    requires Holds(slots, g) && s < slots.Length
    modifies slots, g.nodes
    ensures Holds(slots, after)
    ensures after == g.(model := g.model.(slots := g.model.slots[s := W.Kept(g.model.slots[s])]), lists := after.lists)
    ensures Fires(fired, W.Expired(g.model.slots[s], now))
    ensures forall x :: x in g.nodes ==> (x.cancelled <==> old(x.cancelled) || x in fired)
    ensures Inside(fired, g.nodes)
  {
    ghost var kept;
    fired, kept := SweepAmong(slots, s, now, g);
    after := g.(model := g.model.(slots := g.model.slots[s := W.Kept(g.model.slots[s])]), lists := g.lists[s := kept]);
    forall x | x in g.nodes ensures x.cancelled <==> old(x.cancelled) || x in fired {
      assert x in g.lists[s] ==> !old(x.cancelled);
    }
    forall k, i | 0 <= k < |after.lists| && 0 <= i < |after.lists[k]|
      ensures after.lists[k][i] in g.nodes && after.lists[k][i].home == k && !after.lists[k][i].cancelled
    {
      assert k != s ==> old(g.lists[k][i].home) == k;
    }
  }

  method SweepTo(slots: array<Node?>, s: nat, now: nat, ghost g: Shadow) returns (fired: seq<Node>, ghost after: Shadow)
    requires Holds(slots, g) && s < slots.Length && g.model.cursor + 1 == now
    modifies slots, g.nodes
    ensures Holds(slots, after) == true && after.issued == g.issued && after.nodes == g.nodes
    ensures after.model == W.VisitSlot(g.model, s).0 && Fires(fired, W.VisitSlot(g.model, s).1)
    ensures forall x :: x in g.nodes ==> (x.cancelled <==> old(x.cancelled) || x in fired)
    ensures Inside(fired, g.nodes)
  {
    fired, after := SweepSlot(slots, s, now, g);
    HoldsMoved(slots, after, now);
    after := after.(model := after.model.(cursor := now));
  }

  /** The rest of the way from `w`, after `ts`, is the whole way from `start`. */
  ghost predicate Ahead(start: W.Wheel, target: nat, w: W.Wheel, ts: seq<Timer>) {
    && W.Shaped(start) && W.Shaped(w)
    && W.AdvanceTo(start, target) == (W.AdvanceTo(w, target).0, ts + W.AdvanceTo(w, target).1)
  }

  lemma AheadStep(start: W.Wheel, target: nat, w: W.Wheel, ts: seq<Timer>)
    requires Ahead(start, target, w, ts) && w.cursor < target
    ensures Ahead(start, target, W.Tick(w).0, ts + W.Tick(w).1)
  {
    var (w1, fired) := W.Tick(w);
    var later := W.AdvanceTo(w1, target).1;
    assert ts + (fired + later) == ts + fired + later;
  }

  /** The shadow once a new node is in front of its slot. */
  ghost function Adopted(g: Shadow, node: Node): Shadow
    requires W.Shaped(g.model) && |g.lists| == |g.model.slots| && node.home < |g.lists|
    reads node
  {
    Shadow(W.Put(g.model, node.home, node.rounds), g.lists[node.home := [node] + g.lists[node.home]],
           g.issued + [node], g.nodes + {node})
  }

  lemma HoldsPut(slots: array<Node?>, g: Shadow, node: Node)
    requires W.Shaped(g.model) && g.model.n == slots.Length == |g.lists| && node.home < |g.lists|
    requires g.model.next == |g.issued| == node.id && Numbered(g.issued, g.nodes)
    requires Mirrors(g.lists, g.model.slots, g.nodes)
    requires Threaded(slots, g.lists[node.home := [node] + g.lists[node.home]], g.nodes + {node})
    ensures Holds(slots, Adopted(g, node)) == true
  {
    NumberedAppend(g.issued, g.nodes, node);
    MirrorsPush(g.lists, g.model.slots, g.nodes, node.home, node, W.Entry(node.id, node.rounds));
  }

  /** The shadow without the node at place `i` of slot `k`. */
  ghost function Removed(g: Shadow, id: nat, k: nat, i: nat): Shadow
    requires W.Shaped(g.model) && k < |g.lists| && i < |g.lists[k]|
  {
    g.(model := W.Remove(g.model, id), lists := g.lists[k := Cut(g.lists[k], i)])
  }

  lemma HoldsCut(slots: array<Node?>, g: Shadow, id: nat, k: nat, i: nat)
    requires k < |g.lists| == |g.model.slots| && i < |g.lists[k]| && W.Shaped(g.model) && g.model.n == slots.Length
    requires g.model.next == |g.issued| && Numbered(g.issued, g.nodes) && Mirrors(g.lists, g.model.slots, g.nodes)
    requires Threaded(slots, g.lists[k := Cut(g.lists[k], i)], g.nodes)
    requires var es := g.model.slots[k];
             |es| == |g.lists[k]| && W.Remove(g.model, id).slots == g.model.slots[k := es[..i] + es[i + 1..]]
    ensures Holds(slots, Removed(g, id, k, i)) == true
  {
    MirrorsCut(g.lists, g.model.slots, g.nodes, k, i);
  }

  class HashedWheel {
    const res: nat
    const slots: array<Node?>
    var cursor: nat
    ghost var g: Shadow

    ghost predicate Valid()
      reads this, slots, g.nodes
    {
      res > 0 && Holds(slots, g) && g.model.cursor == cursor
    }

    constructor (res: nat, n: nat)
      requires res > 0 && n > 0
      ensures Valid() && g.model == W.NewWheel(n) && g.issued == [] && fresh(slots) && this.res == res
    {
      this.res := res;
      slots := new Node?[n](_ => null);
      cursor := 0;
      g := Shadow(W.NewWheel(n), seq(n, _ => []), [], {});
    }

    /** Arms a timer `delay` time units from the cursor, rounded down to ticks but at least one. */
    method Schedule(delay: nat) returns (node: Node)
      requires Valid()
      modifies this, slots, g.nodes
      ensures Valid() && fresh(node) && g.issued == old(g.issued) + [node] && g.nodes == old(g.nodes) + {node}
              && !node.cancelled
      ensures g.model == W.Insert(old(g.model), Ticks(delay, res))
    {
      var ticks := delay / res;
      if ticks == 0 {
        ticks := 1;
      }
      assert ticks == Ticks(delay, res);
      var slot, rounds := (cursor + ticks) % slots.Length, ticks / slots.Length;
      assert W.Put(g.model, slot, rounds) == W.Insert(g.model, ticks);
      node := Place(slot, rounds);
    }

    /** Puts a new node at the front of a slot. */
    method Place(slot: nat, rounds: nat) returns (node: Node)
      requires Valid() && slot < slots.Length
      modifies this, slots, g.nodes
      ensures Valid() && fresh(node) && g.issued == old(g.issued) + [node] && g.nodes == old(g.nodes) + {node}
              && !node.cancelled
      ensures g.model == W.Put(old(g.model), slot, rounds)
    {
      node := new Node(|g.issued|, slot, rounds, 0, 0);
      Adopt(node);
    }

    /** Links a new node into the slot it names. */
    method Adopt(node: Node)
      requires Valid() && node !in g.nodes && node.id == |g.issued| && !node.cancelled && node.home < slots.Length
      modifies this`g, slots, node`prev, node`next, g.nodes`prev
      ensures Valid() == true && g.issued == old(g.issued) + [node] && g.nodes == old(g.nodes) + {node}
      ensures g.model == W.Put(old(g.model), node.home, node.rounds)
    {
      ghost var was := g;
      PushFront(node, slots, was.lists, was.nodes);
      HoldsPut(slots, was, node);
      Record(Adopted(was, node));
    }

    /** Takes a pending timer out; a handle that fired or was cancelled before is left alone. */
    method Cancel(node: Node)
      requires Valid() && node in g.nodes
      modifies this, slots, g.nodes
      ensures Valid() && g.issued == old(g.issued) && g.nodes == old(g.nodes) && node.cancelled
      ensures g.model == W.Remove(old(g.model), node.id)
      ensures forall x :: x in g.nodes && x != node ==> x.cancelled == old(x.cancelled)
    {
      if node.cancelled {
        NotPending(slots, g, node);
        return;
      }
      ghost var i :| 0 <= i < |g.lists[node.home]| && g.lists[node.home][i] == node;
      Release(node, i);
    }

    method Release(node: Node, ghost i: nat)
      requires Valid() && node in g.nodes && !node.cancelled
      requires i < |g.lists[node.home]| && g.lists[node.home][i] == node
      modifies this`g, slots, g.nodes`prev, g.nodes`next, node`cancelled
      ensures Valid() == true && g.issued == old(g.issued) && g.nodes == old(g.nodes) && node.cancelled
      ensures g.model == W.Remove(old(g.model), node.id)
    {
      ghost var was, k := g, node.home;
      PendingAt(slots, was, node, i);
      TakeOut(node, slots, was.lists, i, was.nodes);
      HoldsCut(slots, was, node.id, k, i);
      Record(Removed(was, node.id, k, i));
    }

    /** The shadow catches up with the lists. */
    ghost method Record(after: Shadow)
      requires res > 0 && Holds(slots, after) == true && after.model.cursor == cursor
      modifies this`g
      ensures g == after && Valid() == true
    {
      g := after;
    }

    /** Moves the cursor one tick and fires what is due on it. */
    method Tick() returns (fired: seq<Node>)
      requires Valid()
      modifies this, slots, g.nodes
      ensures Valid() && g.issued == old(g.issued) && g.nodes == old(g.nodes)
      ensures g.model == W.Tick(old(g.model)).0 && Fires(fired, W.Tick(old(g.model)).1)
      ensures forall x :: x in g.nodes ==> (x.cancelled <==> old(x.cancelled) || x in fired)
      ensures Inside(fired, g.nodes)
    {
      cursor := cursor + 1;
      var s := cursor % slots.Length;
      assert W.Tick(g.model) == W.VisitSlot(g.model, s);
      fired := VisitSlot(s);
    }

    method VisitSlot(s: nat) returns (fired: seq<Node>)
      requires res > 0 && Holds(slots, g) && g.model.cursor + 1 == cursor && s < slots.Length
      modifies this`g, slots, g.nodes
      ensures Valid() == true && g.issued == old(g.issued) && g.nodes == old(g.nodes)
      ensures g.model == W.VisitSlot(old(g.model), s).0 && Fires(fired, W.VisitSlot(old(g.model), s).1)
      ensures forall x :: x in g.nodes ==> (x.cancelled <==> old(x.cancelled) || x in fired)
      ensures Inside(fired, g.nodes)
    {
      ghost var after;
      fired, after := SweepTo(slots, s, cursor, g);
      g := after;
    }

    /** Fires, tick by tick, everything due up to `now`. */
    method Advance(now: nat) returns (fired: seq<Node>)
      requires Valid()
      modifies this, slots, g.nodes
      ensures Valid() && g.issued == old(g.issued) && g.nodes == old(g.nodes)
      ensures g.model == W.AdvanceTo(old(g.model), now / res).0 && Fires(fired, W.AdvanceTo(old(g.model), now / res).1)
      ensures forall x :: x in g.nodes ==> (x.cancelled <==> old(x.cancelled) || x in fired)
      ensures Inside(fired, g.nodes)
    {
      fired := [];
      var target := now / res;
      ghost var start, ts: seq<Timer> := g.model, [];
      assert ts + W.AdvanceTo(start, target).1 == W.AdvanceTo(start, target).1;
      while cursor < target
        invariant Valid() && g.issued == old(g.issued) && g.nodes == old(g.nodes)
        invariant Ahead(start, target, g.model, ts) && Fires(fired, ts)
        invariant forall x :: x in g.nodes ==> (x.cancelled <==> old(x.cancelled) || x in fired)
        invariant Inside(fired, g.nodes)
        decreases target - cursor
      {
        ghost var w := g.model;
        var f := Tick();
        AheadStep(start, target, w, ts);
        FiresConcat(fired, ts, f, W.Tick(w).1);
        ts := ts + W.Tick(w).1;
        fired := fired + f;
      }
    }
  }
}
