/**
 The hierarchical cascading wheel, updated in place, against its value model. The four levels of 64
 heads are one array, level after level, so a node's list and slot together are one index, its home.
 */
module HierWheels {
  import opened TimerSpec
  import opened Links
  import V = HierWheelModel

  /** The nodes of a list are the entries of the model, in the same order. */
  ghost predicate Same(xs: seq<Node>, es: seq<V.Entry>)
    reads xs`deadline, xs`ticks, xs`moves
  {
    && |xs| == |es|
    && (forall i :: 0 <= i < |xs| ==>
         es[i].id == xs[i].id && es[i].when == xs[i].deadline && es[i].ticks == xs[i].ticks
         && es[i].moves == xs[i].moves)
  }

  ghost predicate Mirrors(lists: seq<seq<Node>>, b: seq<seq<V.Entry>>, nodes: set<Node>)
    reads nodes`deadline, nodes`ticks, nodes`moves
  {
    && |lists| == |b|
    && (forall k :: 0 <= k < |lists| ==> Inside(lists[k], nodes) && Same(lists[k], b[k]))
  }

  /** The table of lists, held by the nodes of `table`, is the table of the model. */
  ghost predicate Tabled(heads: array<Node?>, lists: seq<seq<Node>>, b: seq<seq<V.Entry>>, table: set<Node>)
    reads heads, table
  {
    |b| == V.BUCKETS == heads.Length && Threaded(heads, lists, table) && Mirrors(lists, b, table)
  }

  // ----- Choosing a bucket and inserting -----

  method BucketOf(deadline: nat, cursor: nat) returns (k: nat)
    ensures k == V.Bucket(deadline, cursor)
  {
    var rem := if deadline < cursor then 0 else deadline - cursor;
    var lvl := 0;
    while lvl < V.LEVELS - 1 && rem >= V.Span(lvl + 1)
      invariant lvl < V.LEVELS && (lvl > 0 ==> rem >= V.Span(lvl))
    {
      lvl := lvl + 1;
    }
    k := 64 * lvl + (deadline / V.Span(lvl)) % 64;
  }

  ghost function EntryOf(node: Node): V.Entry
    reads node
  {
    V.Entry(node.id, node.deadline, node.ticks, node.moves)
  }

  lemma MirrorsPush(lists: seq<seq<Node>>, b: seq<seq<V.Entry>>, table: set<Node>, k: nat, x: Node, e: V.Entry)
    requires Mirrors(lists, b, table) && k < |lists| && e == EntryOf(x)
    ensures Mirrors(lists[k := [x] + lists[k]], b[k := [e] + b[k]], table + {x})
  {
    assert Same([x] + lists[k], [e] + b[k]);
  }

  method InsertAt(node: Node, heads: array<Node?>, ghost lists: seq<seq<Node>>, ghost b: seq<seq<V.Entry>>,
                  ghost table: set<Node>, ghost e: V.Entry)
    requires Tabled(heads, lists, b, table) && node !in table && !node.cancelled && node.home < heads.Length
             && e == EntryOf(node)
    modifies heads, node`prev, node`next, table`prev
    ensures Tabled(heads, lists[node.home := [node] + lists[node.home]], b[node.home := [e] + b[node.home]],
                   table + {node})
  {
    PushFront(node, heads, lists, table);
    MirrorsPush(lists, b, table, node.home, node, e);
  }

  /** Puts a node that is on no list at the front of the list for its deadline. */
  method Insert(node: Node, cursor: nat, heads: array<Node?>, ghost lists: seq<seq<Node>>, ghost b: seq<seq<V.Entry>>,
                ghost table: set<Node>, ghost e: V.Entry)
    requires Tabled(heads, lists, b, table) && node !in table && !node.cancelled && e == EntryOf(node)
    modifies heads, node`home, node`prev, node`next, table`prev
    ensures node.home == V.Bucket(node.deadline, cursor)
    ensures Tabled(heads, lists[node.home := [node] + lists[node.home]], V.Push(b, e, cursor), table + {node})
  {
    node.home := BucketOf(node.deadline, cursor);
    assert Tabled(heads, lists, b, table);
    InsertAt(node, heads, lists, b, table, e);
  }

  // ----- Moving the nodes of one list down -----

  /** A list has been taken off its slot; `rest` has yet to be put back, everything else is in the table. */
  datatype Drain = Drain(lists: seq<seq<Node>>, b: seq<seq<V.Entry>>, table: set<Node>, rest: seq<Node>,
                         todo: seq<V.Entry>)

  /** Pending nodes in a chain of their own, outside the table. */
  ghost predicate Loose(node: Node?, rest: seq<Node>, todo: seq<V.Entry>, table: set<Node>)
    reads rest
  {
    && Chain(node, rest) && Same(rest, todo)
    && (forall i :: 0 <= i < |rest| ==> rest[i] !in table && !rest[i].cancelled)
  }

  lemma LooseTail(node: Node, rest: seq<Node>, todo: seq<V.Entry>, table: set<Node>)
    requires Loose(node, rest, todo, table)
    ensures rest != [] && todo != [] && node == rest[0] && rest == [node] + rest[1..]
    ensures EntryOf(node) == todo[0] && node !in table && !node.cancelled
    ensures Loose(node.next, rest[1..], todo[1..], table + {node})
  {
    DistinctTail(rest);
  }

  ghost predicate Draining(heads: array<Node?>, node: Node?, d: Drain, nodes: set<Node>)
    reads heads, nodes
  {
    && d.table <= nodes && Inside(d.rest, nodes)
    && (forall x :: x in nodes ==> x in d.table || x in d.rest)
    && Loose(node, d.rest, d.todo, d.table)
    && Tabled(heads, d.lists, d.b, d.table)
  }

  method Reinsert(node: Node, cursor: nat, heads: array<Node?>, ghost d: Drain, ghost nodes: set<Node>)
    returns (nxt: Node?, ghost d1: Drain)
    requires Draining(heads, node, d, nodes)
    modifies heads, nodes`prev, nodes`next, nodes`home, nodes`moves
    ensures d.todo != [] && Draining(heads, nxt, d1, nodes)
    ensures d1.todo == d.todo[1..] && d1.b == V.Push(d.b, V.Moved(d.todo[0]), cursor)
  {
    LooseTail(node, d.rest, d.todo, d.table);
    nxt := node.next;
    ghost var later, e := d.rest[1..], V.Moved(d.todo[0]);
    node.moves := node.moves + 1;
    Insert(node, cursor, heads, d.lists, d.b, d.table, e);
    assert Loose(nxt, later, d.todo[1..], d.table + {node});
    d1 := Drain(d.lists[node.home := [node] + d.lists[node.home]], V.Push(d.b, e, cursor), d.table + {node}, later,
                d.todo[1..]);
  }

  /** Takes a whole list off its slot. */
  method TakeList(k: nat, heads: array<Node?>, ghost lists: seq<seq<Node>>, ghost b: seq<seq<V.Entry>>,
                  ghost nodes: set<Node>)
    returns (node: Node?, ghost d: Drain)
    requires Tabled(heads, lists, b, nodes) && k < heads.Length
    modifies heads
    ensures Draining(heads, node, d, nodes) == true
    ensures d.lists == lists[k := []] && d.b == b[k := []] && d.rest == lists[k] && d.todo == b[k]
  {
    ghost var loose := set x | x in lists[k];
    ghost var table := nodes - loose;
    d := Drain(lists[k := []], b[k := []], table, lists[k], b[k]);
    HousedWithout(lists, nodes, k, table);
    MirrorsWithout(lists, b, nodes, k, table);
    assert Loose(heads[k], d.rest, d.todo, d.table) == true by {
      assert Same(lists[k], b[k]) && Linked(heads[k], lists[k]);
    }
    node := heads[k];
    heads[k] := null;
    forall j | 0 <= j < |d.lists| ensures Linked(heads[j], d.lists[j]) {
      assert old(Linked(heads[j], lists[j]));
    }
    assert Tabled(heads, d.lists, d.b, d.table) == true;
  }

  /** The table without the nodes of one list. */
  lemma HousedWithout(lists: seq<seq<Node>>, nodes: set<Node>, k: nat, table: set<Node>)
    requires Housed(lists, nodes) && k < |lists| && forall x :: x in table <==> x in nodes && x !in lists[k]
    ensures Housed(lists[k := []], table) == true
  {
    var after := lists[k := []];
    forall j, i | 0 <= j < |after| && 0 <= i < |after[j]| ensures after[j][i] in table {
      assert lists[j][i].home == j;
    }
    forall x | x in table && !x.cancelled ensures x.home < |after| && x in after[x.home] {
      assert x in lists[x.home];
    }
  }

  lemma MirrorsWithout(lists: seq<seq<Node>>, b: seq<seq<V.Entry>>, nodes: set<Node>, k: nat, table: set<Node>)
    requires Mirrors(lists, b, nodes) && k < |lists| && Housed(lists[k := []], table)
    ensures Mirrors(lists[k := []], b[k := []], table) == true
  {
    var after := lists[k := []];
    assert forall j :: 0 <= j < |after| ==> Inside(after[j], table);
  }

  /** Moves every node of one list to the list for its deadline as seen from the cursor. */
  method DrainList(k: nat, cursor: nat, heads: array<Node?>, ghost lists: seq<seq<Node>>, ghost b: seq<seq<V.Entry>>,
                   ghost nodes: set<Node>)
    returns (ghost after: seq<seq<Node>>)
    requires Tabled(heads, lists, b, nodes) && k < heads.Length
    modifies heads, nodes`prev, nodes`next, nodes`home, nodes`moves
    ensures Tabled(heads, after, V.Reinsert(b[k := []], b[k], cursor), nodes)
  {
    ghost var d;
    var node;
    node, d := TakeList(k, heads, lists, b, nodes);
    while node != null
      invariant Draining(heads, node, d, nodes)
      invariant V.Reinsert(d.b, d.todo, cursor) == V.Reinsert(b[k := []], b[k], cursor)
      decreases |d.todo|
    {
      node, d := Reinsert(node, cursor, heads, d, nodes);
    }
    assert d.table == nodes;
    after := d.lists;
  }

  /** Brings down the block of one level that the cursor enters. */
  method DrainLevel(lvl: nat, cursor: nat, heads: array<Node?>, ghost lists: seq<seq<Node>>,
                    ghost b: seq<seq<V.Entry>>, ghost nodes: set<Node>)
    returns (wraps: bool, ghost after: seq<seq<Node>>)
    requires Tabled(heads, lists, b, nodes) && lvl < V.LEVELS
    modifies heads, nodes`prev, nodes`next, nodes`home, nodes`moves
    ensures wraps == V.Wraps(cursor, lvl) && Tabled(heads, after, V.DrainLevel(b, cursor, lvl), nodes)
  {
    var idx := (cursor / V.Span(lvl)) % 64;
    wraps := idx == 0;
    after := DrainList(64 * lvl + idx, cursor, heads, lists, b, nodes);
  }

  /** Brings down the blocks that the cursor enters, level by level while the levels wrap. */
  method Cascade(cursor: nat, heads: array<Node?>, ghost lists: seq<seq<Node>>, ghost b: seq<seq<V.Entry>>,
                 ghost nodes: set<Node>)
    returns (ghost after: seq<seq<Node>>)
    requires Tabled(heads, lists, b, nodes)
    modifies heads, nodes`prev, nodes`next, nodes`home, nodes`moves
    ensures Tabled(heads, after, V.Cascade(b, cursor, 1), nodes)
  {
    var lvl := 1;
    ghost var now := b;
    after := lists;
    while lvl < V.LEVELS
      invariant 1 <= lvl <= V.LEVELS && Tabled(heads, after, now, nodes) == true
      invariant V.Cascade(now, cursor, lvl) == V.Cascade(b, cursor, 1)
    {
      var wraps;
      wraps, after := DrainLevel(lvl, cursor, heads, after, now, nodes);
      now := V.DrainLevel(now, cursor, lvl);
      if !wraps {
        break;
      }
      lvl := lvl + 1;
    }
  }

  // ----- Firing one list -----

  /** Part of a detached chain has fired; the table is as it was. */
  ghost predicate Firing(heads: array<Node?>, node: Node?, fired: seq<Node>, rest: seq<Node>, d: Drain,
                         nodes: set<Node>)
    reads heads, nodes
  {
    && d.table <= nodes && Inside(d.rest, nodes) && Inside(rest, nodes) && d.rest == fired + rest
    && Chain(node, rest) && Distinct(d.rest)
    && (forall i :: 0 <= i < |d.rest| ==> d.rest[i] !in d.table)
    && (forall i :: 0 <= i < |d.rest| ==> (d.rest[i].cancelled <==> i < |fired|))
    && Tabled(heads, d.lists, d.b, d.table)
  }

  method FireOne(node: Node, heads: array<Node?>, before: seq<Node>, ghost rest: seq<Node>, ghost d: Drain,
                 ghost nodes: set<Node>)
    returns (nxt: Node?, fired: seq<Node>)
    requires Firing(heads, node, before, rest, d, nodes)
    modifies nodes`cancelled
    ensures rest != [] && Firing(heads, nxt, fired, rest[1..], d, nodes)
    ensures forall x :: x in nodes && x !in d.rest ==> x.cancelled == old(x.cancelled)
  {
    assert d.rest[|before|] == node;
    OnlyAt(d.rest, |before|);
    DistinctTail(rest);
    nxt := node.next;
    node.cancelled := true;
    fired := before + [node];
    assert d.rest == fired + rest[1..];
  }

  lemma TabledWith(heads: array<Node?>, lists: seq<seq<Node>>, b: seq<seq<V.Entry>>, table: set<Node>, nodes: set<Node>)
    requires Tabled(heads, lists, b, table) && table <= nodes
    requires forall x :: x in nodes && x !in table ==> x.cancelled
    ensures Tabled(heads, lists, b, nodes)
  {
    forall k | 0 <= k < |lists| ensures Inside(lists[k], nodes) {
      assert Inside(lists[k], table);
    }
  }

  method FireList(first: Node?, heads: array<Node?>, ghost d: Drain, ghost nodes: set<Node>) returns (fired: seq<Node>)
    requires Draining(heads, first, d, nodes)
    modifies nodes`cancelled
    ensures fired == d.rest && Tabled(heads, d.lists, d.b, nodes) == true
    ensures forall x :: x in d.rest ==> x.cancelled
    ensures forall x :: x in nodes && x !in d.rest ==> x.cancelled == old(x.cancelled)
  {
    fired := [];
    var node := first;
    ghost var rest := d.rest;
    assert fired + rest == d.rest;
    while node != null
      invariant Firing(heads, node, fired, rest, d, nodes) == true
      invariant forall x :: x in nodes && x !in d.rest ==> x.cancelled == old(x.cancelled)
      decreases |rest|
    {
      node, fired := FireOne(node, heads, fired, rest, d, nodes);
      rest := rest[1..];
    }
    assert fired == d.rest;
    TabledWith(heads, d.lists, d.b, d.table, nodes);
  }

  // ----- The store -----

  /** Takes one whole list off and fires it. */
  method Burst(s: nat, heads: array<Node?>, ghost lists: seq<seq<Node>>, ghost b: seq<seq<V.Entry>>,
               ghost nodes: set<Node>)
    returns (fired: seq<Node>)
    requires Tabled(heads, lists, b, nodes) && s < heads.Length
    modifies heads, nodes`cancelled
    ensures Tabled(heads, lists[s := []], b[s := []], nodes) == true
    ensures fired == lists[s] && Same(fired, b[s]) && Inside(fired, nodes)
    ensures forall x :: x in nodes ==> (x.cancelled <==> old(x.cancelled) || x in fired)
  {
    ghost var d;
    var node;
    node, d := TakeList(s, heads, lists, b, nodes);
    fired := FireList(node, heads, d, nodes);
  }

  datatype Shadow = Shadow(model: V.Hier, lists: seq<seq<Node>>, issued: seq<Node>, nodes: set<Node>)

  /** The slots of all levels hold disjoint linked lists of exactly the nodes that are neither cancelled nor
      fired, and they are the lists of the model. */
  ghost predicate Holds(heads: array<Node?>, g: Shadow)
    reads heads, g.nodes
  {
    && g.model.next == |g.issued| && Numbered(g.issued, g.nodes)
    && Tabled(heads, g.lists, g.model.buckets, g.nodes)
  }

  /** The shadow once a new node is in front of its bucket. */
  ghost function Adopted(g: Shadow, node: Node): Shadow
    requires |g.model.buckets| == |g.lists| == V.BUCKETS && node.home < V.BUCKETS
    reads node
  {
    Shadow(V.Put(g.model, node.home, node.ticks), g.lists[node.home := [node] + g.lists[node.home]],
           g.issued + [node], g.nodes + {node})
  }

  lemma HoldsPut(heads: array<Node?>, g: Shadow, node: Node)
    requires |g.model.buckets| == |g.lists| == V.BUCKETS && node.home < V.BUCKETS
    requires g.model.next == |g.issued| == node.id && Numbered(g.issued, g.nodes)
    requires node.deadline == g.model.cursor + node.ticks && node.moves == 0
    requires Tabled(heads, g.lists[node.home := [node] + g.lists[node.home]],
                    g.model.buckets[node.home := [EntryOf(node)] + g.model.buckets[node.home]], g.nodes + {node})
    ensures Holds(heads, Adopted(g, node)) == true
  {
    NumberedAppend(g.issued, g.nodes, node);
  }

  /** An entry of the model with a node's number belongs to that node. */
  lemma OwnEntry(heads: array<Node?>, g: Shadow, node: Node, k: nat, j: nat)
    requires Holds(heads, g) && node in g.nodes
    requires k < |g.lists| && j < |g.lists[k]|
    ensures j < |g.model.buckets[k]|
    ensures g.model.buckets[k][j].id == node.id ==> g.lists[k][j] == node && node.home == k && !node.cancelled
  {
    assert Same(g.lists[k], g.model.buckets[k]);
    assert Inside(g.lists[k], g.nodes);
    assert g.issued[node.id] == node;
    assert g.issued[g.lists[k][j].id] == g.lists[k][j];
  }

  lemma NotPending(heads: array<Node?>, g: Shadow, node: Node)
    requires Holds(heads, g) && node in g.nodes && node.cancelled
    ensures V.Remove(g.model, node.id) == g.model
  {
    forall k | 0 <= k < |g.lists| ensures V.DropEntry(g.model.buckets[k], node.id) == g.model.buckets[k] {
      assert Same(g.lists[k], g.model.buckets[k]);
      forall j | 0 <= j < |g.model.buckets[k]| ensures g.model.buckets[k][j].id != node.id {
        OwnEntry(heads, g, node, k, j);
      }
      V.DropAbsent(g.model.buckets[k], node.id);
    }
    assert V.Remove(g.model, node.id).buckets == g.model.buckets;
  }

  lemma PendingAt(heads: array<Node?>, g: Shadow, node: Node, i: nat)
    requires Holds(heads, g) && node in g.nodes && !node.cancelled
    requires i < |g.lists[node.home]| && g.lists[node.home][i] == node
    ensures var es := g.model.buckets[node.home];
            |es| == |g.lists[node.home]|
            && V.Remove(g.model, node.id).buckets == g.model.buckets[node.home := es[..i] + es[i + 1..]]
  {
    var h := node.home;
    var after := V.Remove(g.model, node.id).buckets;
    assert Same(g.lists[h], g.model.buckets[h]);
    OnlyAt(g.lists[h], i);
    forall k | 0 <= k < |g.lists| && k != h ensures after[k] == g.model.buckets[k] {
      assert Same(g.lists[k], g.model.buckets[k]);
      forall j | 0 <= j < |g.model.buckets[k]| ensures g.model.buckets[k][j].id != node.id {
        OwnEntry(heads, g, node, k, j);
      }
      V.DropAbsent(g.model.buckets[k], node.id);
    }
    forall j | 0 <= j < |g.model.buckets[h]| && j != i ensures g.model.buckets[h][j].id != node.id {
      OwnEntry(heads, g, node, h, j);
    }
    V.DropAt(g.model.buckets[h], i);
  }

  lemma MirrorsCut(lists: seq<seq<Node>>, b: seq<seq<V.Entry>>, nodes: set<Node>, k: nat, i: nat)
    requires Mirrors(lists, b, nodes) && k < |lists| && i < |lists[k]|
    ensures Mirrors(lists[k := Cut(lists[k], i)], b[k := b[k][..i] + b[k][i + 1..]], nodes)
  {
    assert Same(Cut(lists[k], i), b[k][..i] + b[k][i + 1..]);
    assert Inside(Cut(lists[k], i), nodes);
  }

  /** The rest of the way from `h`, after `ts`, is the whole way from `start`. */
  ghost predicate Ahead(start: V.Hier, target: nat, h: V.Hier, ts: seq<Timer>) {
    && |start.buckets| == V.BUCKETS == |h.buckets|
    && V.AdvanceTo(start, target) == (V.AdvanceTo(h, target).0, ts + V.AdvanceTo(h, target).1)
  }

  lemma AheadStep(start: V.Hier, target: nat, h: V.Hier, ts: seq<Timer>)
    requires Ahead(start, target, h, ts) && h.cursor < target
    ensures Ahead(start, target, V.Tick(h).0, ts + V.Tick(h).1)
  {
    var (h1, fired) := V.Tick(h);
    var later := V.AdvanceTo(h1, target).1;
    assert ts + (fired + later) == ts + fired + later;
  }

  /** The shadow without the node at place `i` of list `k`. */
  ghost function Removed(g: Shadow, id: nat, k: nat, i: nat): Shadow
    requires |g.model.buckets| == V.BUCKETS && k < |g.lists| && i < |g.lists[k]|
  {
    g.(model := V.Remove(g.model, id), lists := g.lists[k := Cut(g.lists[k], i)])
  }

  lemma HoldsCut(heads: array<Node?>, g: Shadow, id: nat, k: nat, i: nat)
    requires k < |g.lists| == |g.model.buckets| && i < |g.lists[k]| && heads.Length == |g.model.buckets| == V.BUCKETS
    requires g.model.next == |g.issued| && Numbered(g.issued, g.nodes) && Mirrors(g.lists, g.model.buckets, g.nodes)
    requires Threaded(heads, g.lists[k := Cut(g.lists[k], i)], g.nodes)
    requires var es := g.model.buckets[k];
             |es| == |g.lists[k]| && V.Remove(g.model, id).buckets == g.model.buckets[k := es[..i] + es[i + 1..]]
    ensures Holds(heads, Removed(g, id, k, i)) == true
  {
    MirrorsCut(g.lists, g.model.buckets, g.nodes, k, i);
  }

  lemma HoldsFired(heads: array<Node?>, g: Shadow, cursor: nat, b: seq<seq<V.Entry>>, lists: seq<seq<Node>>)
    requires g.model.next == |g.issued| && Numbered(g.issued, g.nodes) && Tabled(heads, lists, b, g.nodes)
    ensures Holds(heads, Shadow(V.Hier(cursor, g.model.next, b), lists, g.issued, g.nodes)) == true
  {
  }

  class HierWheel {
    const res: nat
    const heads: array<Node?>
    var cursor: nat
    ghost var g: Shadow

    ghost predicate Valid()
      reads this, heads, g.nodes
    {
      res > 0 && Holds(heads, g) && g.model.cursor == cursor
    }

    constructor (res: nat)
      requires res > 0
      ensures Valid() && g.model == V.NewHier() && g.issued == [] && fresh(heads) && this.res == res
    {
      this.res := res;
      heads := new Node?[V.BUCKETS](_ => null);
      cursor := 0;
      g := Shadow(V.NewHier(), seq(V.BUCKETS, _ => []), [], {});
    }

    /** Arms a timer `delay` time units from the cursor, rounded down to ticks but at least one. */
    method Schedule(delay: nat) returns (node: Node)
      requires Valid()
      modifies this, heads, g.nodes
      ensures Valid() && fresh(node) && g.issued == old(g.issued) + [node] && g.nodes == old(g.nodes) + {node}
              && !node.cancelled
      ensures g.model == V.Insert(old(g.model), Ticks(delay, res))
    {
      var ticks := delay / res;
      if ticks == 0 {
        ticks := 1;
      }
      node := Arm(ticks);
    }

    method Arm(ticks: nat) returns (node: Node)
      requires Valid()
      modifies this, heads, g.nodes
      ensures Valid() && fresh(node) && g.issued == old(g.issued) + [node] && g.nodes == old(g.nodes) + {node}
              && !node.cancelled
      ensures g.model == V.Insert(old(g.model), ticks)
    {
      var k := BucketOf(cursor + ticks, cursor);
      assert V.Put(g.model, k, ticks) == V.Insert(g.model, ticks);
      node := Place(k, ticks);
    }

    method Place(k: nat, ticks: nat) returns (node: Node)
      requires Valid() && k < heads.Length
      modifies this, heads, g.nodes
      ensures Valid() == true && fresh(node) && g.issued == old(g.issued) + [node]
              && g.nodes == old(g.nodes) + {node} && !node.cancelled
      ensures g.model == V.Put(old(g.model), k, ticks)
    {
      node := new Node(|g.issued|, k, 0, cursor + ticks, ticks);
      Adopt(node);
    }

    /** Links a new node into the bucket it names. */
    method Adopt(node: Node)
      requires Valid() && node !in g.nodes && node.id == |g.issued| && !node.cancelled && node.home < heads.Length
      requires node.deadline == cursor + node.ticks && node.moves == 0
      modifies this`g, heads, node`prev, node`next, g.nodes`prev
      ensures Valid() == true && g.issued == old(g.issued) + [node] && g.nodes == old(g.nodes) + {node}
      ensures g.model == V.Put(old(g.model), node.home, node.ticks)
    {
      ghost var was := g;
      InsertAt(node, heads, was.lists, was.model.buckets, was.nodes, EntryOf(node));
      HoldsPut(heads, was, node);
      Record(Adopted(was, node));
    }

    /** Takes a pending timer out; a handle that fired or was cancelled before is left alone. */
    method Cancel(node: Node)
      requires Valid() && node in g.nodes
      modifies this, heads, g.nodes
      ensures Valid() && g.issued == old(g.issued) && g.nodes == old(g.nodes) && node.cancelled
      ensures g.model == V.Remove(old(g.model), node.id)
      ensures forall x :: x in g.nodes && x != node ==> x.cancelled == old(x.cancelled)
    {
      if node.cancelled {
        NotPending(heads, g, node);
        return;
      }
      ghost var i :| 0 <= i < |g.lists[node.home]| && g.lists[node.home][i] == node;
      Release(node, i);
    }

    method Release(node: Node, ghost i: nat)
      requires Valid() && node in g.nodes && !node.cancelled
      requires i < |g.lists[node.home]| && g.lists[node.home][i] == node
      modifies this`g, heads, g.nodes`prev, g.nodes`next, node`cancelled
      ensures Valid() == true && g.issued == old(g.issued) && g.nodes == old(g.nodes) && node.cancelled
      ensures g.model == V.Remove(old(g.model), node.id)
    {
      ghost var was, k := g, node.home;
      PendingAt(heads, was, node, i);
      TakeOut(node, heads, was.lists, i, was.nodes);
      HoldsCut(heads, was, node.id, k, i);
      Record(Removed(was, node.id, k, i));
    }

    /** The shadow catches up with the lists. */
    ghost method Record(after: Shadow)
      requires res > 0 && Holds(heads, after) == true && after.model.cursor == cursor
      modifies this`g
      ensures g == after && Valid() == true
    {
      g := after;
    }

    /** Moves the cursor one tick, cascades what it reaches and fires what is due. */
    method Tick() returns (fired: seq<Node>)
      requires Valid()
      modifies this, heads, g.nodes
      ensures Valid() && g.issued == old(g.issued) && g.nodes == old(g.nodes)
      ensures g.model == V.Tick(old(g.model)).0 && Fires(fired, V.Tick(old(g.model)).1)
      ensures forall x :: x in g.nodes ==> (x.cancelled <==> old(x.cancelled) || x in fired)
      ensures Inside(fired, g.nodes)
    {
      cursor := cursor + 1;
      ghost var b := V.Settle(g.model.buckets, cursor);
      assert V.Tick(g.model) == V.Fire(b, cursor, g.model.next);
      fired := Turn(b);
    }

    method Turn(ghost b: seq<seq<V.Entry>>) returns (fired: seq<Node>)
      requires res > 0 && Holds(heads, g) && b == V.Settle(g.model.buckets, cursor)
      modifies this`g, heads, g.nodes
      ensures Valid() == true && g.issued == old(g.issued) && g.nodes == old(g.nodes)
      ensures g.model == V.Fire(b, cursor, old(g.model.next)).0 && Fires(fired, V.Fire(b, cursor, old(g.model.next)).1)
      ensures forall x :: x in g.nodes ==> (x.cancelled <==> old(x.cancelled) || x in fired)
      ensures Inside(fired, g.nodes)
    {
      ghost var lists := Settle();
      fired := Fire(lists, b);
    }

    method Settle() returns (ghost lists: seq<seq<Node>>)
      requires res > 0 && Holds(heads, g)
      modifies heads, g.nodes`prev, g.nodes`next, g.nodes`home, g.nodes`moves
      ensures Tabled(heads, lists, V.Settle(g.model.buckets, cursor), g.nodes) == true
    {
      lists := g.lists;
      if cursor % 64 == 0 {
        lists := Cascade(cursor, heads, g.lists, g.model.buckets, g.nodes);
      }
    }

    method Fire(ghost lists: seq<seq<Node>>, ghost b: seq<seq<V.Entry>>) returns (fired: seq<Node>)
      requires res > 0 && g.model.next == |g.issued| && Numbered(g.issued, g.nodes)
      requires Tabled(heads, lists, b, g.nodes) == true
      modifies this`g, heads, g.nodes`cancelled
      ensures Valid() == true && g.issued == old(g.issued) && g.nodes == old(g.nodes)
      ensures g.model == V.Fire(b, cursor, old(g.model.next)).0 && Fires(fired, V.Fire(b, cursor, old(g.model.next)).1)
      ensures forall x :: x in g.nodes ==> (x.cancelled <==> old(x.cancelled) || x in fired)
      ensures Inside(fired, g.nodes)
    {
      var s := cursor % 64;
      fired := Burst(s, heads, lists, b, g.nodes);
      HoldsFired(heads, g, cursor, b[s := []], lists[s := []]);
      g := Shadow(V.Hier(cursor, g.model.next, b[s := []]), lists[s := []], g.issued, g.nodes);
    }

    /** Fires, tick by tick, everything due up to `now`. */
    method Advance(now: nat) returns (fired: seq<Node>)
      requires Valid()
      modifies this, heads, g.nodes
      ensures Valid() && g.issued == old(g.issued) && g.nodes == old(g.nodes)
      ensures g.model == V.AdvanceTo(old(g.model), now / res).0 && Fires(fired, V.AdvanceTo(old(g.model), now / res).1)
      ensures forall x :: x in g.nodes ==> (x.cancelled <==> old(x.cancelled) || x in fired)
      ensures Inside(fired, g.nodes)
    {
      fired := [];
      var target := now / res;
      ghost var start, ts: seq<Timer> := g.model, [];
      assert ts + V.AdvanceTo(start, target).1 == V.AdvanceTo(start, target).1;
      while cursor < target
        invariant Valid() && g.issued == old(g.issued) && g.nodes == old(g.nodes)
        invariant Ahead(start, target, g.model, ts) && Fires(fired, ts)
        invariant forall x :: x in g.nodes ==> (x.cancelled <==> old(x.cancelled) || x in fired)
        invariant Inside(fired, g.nodes)
        decreases target - cursor
      {
        ghost var h := g.model;
        var f := Tick();
        AheadStep(start, target, h, ts);
        FiresConcat(fired, ts, f, V.Tick(h).1);
        ts := ts + V.Tick(h).1;
        fired := fired + f;
      }
    }
  }
}
