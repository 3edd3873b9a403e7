/**
 The list-per-duration store, updated in place, against its value model. The dictionary of buckets is
 kept as two sequences in insertion order, the order in which an advance walks it.
 */
module FixedLists {
  import opened TimerSpec
  import opened Links
  import F = FixedListModel
  import T = TimerTables

  class Bucket {
    ghost const at: nat   // position in the dictionary
    var head: Node?
    var tail: Node?

    constructor (ghost at: nat)
      ensures this.at == at && head == null && tail == null
    {
      this.at := at;
      head, tail := null, null;
    }
  }

  function Last(xs: seq<Node>): Node? {
    if xs == [] then null else xs[|xs| - 1]
  }

  /** The bucket's list holds exactly `xs`, and they are the timers `ts`, none of them cancelled. */
  ghost predicate Filled(b: Bucket, xs: seq<Node>, ts: seq<Timer>, home: nat)
    reads b, xs
  {
    b.at == home && b.tail == Last(xs) && Linked(b.head, xs) && Pending(xs, ts, home)
  }

  ghost predicate IsTimer(x: Node, t: Timer, home: nat)
    reads x`cancelled, x`home, x`deadline
  {
    !x.cancelled && x.home == home && x.id == t.id && x.deadline == t.when
  }

  ghost predicate Pending(xs: seq<Node>, ts: seq<Timer>, home: nat)
    reads xs`cancelled, xs`home, xs`deadline
  {
    |xs| == |ts| && forall i :: 0 <= i < |xs| ==> IsTimer(xs[i], ts[i], home)
  }

  lemma PendingCut(xs: seq<Node>, ts: seq<Timer>, home: nat, i: nat)
    requires |xs| == |ts| && i < |xs| && forall j :: 0 <= j < |xs| && j != i ==> IsTimer(xs[j], ts[j], home)
    ensures Pending(Cut(xs, i), ts[..i] + ts[i + 1..], home)
  {
    var ys, us := Cut(xs, i), ts[..i] + ts[i + 1..];
    forall j | 0 <= j < |ys| ensures IsTimer(ys[j], us[j], home) {
      var m := if j < i then j else j + 1;
      assert ys[j] == xs[m] && us[j] == ts[m];
    }
  }

  lemma DistinctSnoc(xs: seq<Node>, x: Node)
    requires Distinct(xs) && x !in xs
    ensures Distinct(xs + [x])
  {
    forall i, j | 0 <= i < j < |xs| + 1 ensures Apart(xs + [x], i, j) {
      assert j < |xs| ==> Apart(xs, i, j);
    }
  }

  method Append(node: Node, b: Bucket, ghost xs: seq<Node>, ghost ts: seq<Timer>, ghost touched: set<Node>)
    requires Filled(b, xs, ts, b.at) && node !in xs && Inside(xs, touched)
    requires node.home == b.at && !node.cancelled
    modifies b, node`prev, node`next, touched`next
    ensures Filled(b, xs + [node], ts + [Timer(node.id, node.deadline)], b.at)
  {
    DistinctSnoc(xs, node);
    if xs != [] { OnlyAt(xs, |xs| - 1); }
    node.prev := b.tail;
    node.next := null;
    if b.tail != null {
      b.tail.next := node;
    } else {
      b.head := node;
    }
    b.tail := node;
  }

  method Extract(node: Node, b: Bucket, ghost xs: seq<Node>, ghost ts: seq<Timer>, ghost i: nat,
                 ghost touched: set<Node>)
    requires Filled(b, xs, ts, b.at) && i < |xs| && xs[i] == node && Inside(xs, touched)
    modifies b, touched`prev, touched`next, node`cancelled
    ensures node.cancelled && Filled(b, Cut(xs, i), ts[..i] + ts[i + 1..], b.at) == true
  {
    PendingCut(xs, ts, b.at, i);
    CutOthers(xs, i);
    node.cancelled := true;
    assert Pending(Cut(xs, i), ts[..i] + ts[i + 1..], b.at) == true;
    Bypass(node, b, xs, i, touched);
  }

  method Bypass(node: Node, b: Bucket, ghost xs: seq<Node>, ghost i: nat, ghost touched: set<Node>)
    requires b.tail == Last(xs) && Linked(b.head, xs) && i < |xs| && xs[i] == node && Inside(xs, touched)
    modifies b`head, b`tail, touched`prev, touched`next
    ensures b.tail == Last(Cut(xs, i)) && Linked(b.head, Cut(xs, i))
  {
    OnlyAt(xs, i);
    b.head := Unlink(node, b.head, xs, i, touched);
    if node.next == null {
      b.tail := node.prev;
    }
  }

  // ----- Dropping the due timers at the front of one bucket -----

  /** The first `k` nodes have fired; the links are as they were. */
  ghost predicate Dropping(node: Node?, fired: seq<Node>, xs: seq<Node>, ts: seq<Timer>, k: nat, home: nat, now: nat)
    reads xs
  {
    && k <= |xs| && |xs| == |ts| && Distinct(xs) && fired == xs[..k]
    && node == (if k < |xs| then xs[k] else null)
    && (xs != [] ==> xs[|xs| - 1].next == null)
    && (forall i {:trigger xs[i].next} :: 0 <= i < |xs| - 1 ==> xs[i].next == xs[i + 1])
    && (forall i {:trigger xs[i].prev} :: 1 <= i < |xs| ==> xs[i].prev == xs[i - 1])
    && (forall i :: 0 <= i < |xs| ==>
         (xs[i].cancelled <==> i < k) && xs[i].home == home && xs[i].id == ts[i].id && xs[i].deadline == ts[i].when)
    && (forall i :: 0 <= i < k ==> ts[i].when <= now)
  }

  method DropOne(node: Node, before: seq<Node>, ghost xs: seq<Node>, ghost ts: seq<Timer>, ghost k: nat,
                 ghost home: nat, now: nat)
    returns (nxt: Node?, fired: seq<Node>)
    requires Dropping(node, before, xs, ts, k, home, now) && node.deadline <= now
    modifies node`cancelled
    ensures k < |xs| && Dropping(nxt, fired, xs, ts, k + 1, home, now)
  {
    OnlyAt(xs, k);
    nxt := node.next;
    fired := before + [node];
    node.cancelled := true;
  }

  method DropLead(b: Bucket, now: nat, ghost xs: seq<Node>, ghost ts: seq<Timer>, ghost touched: set<Node>)
    returns (fired: seq<Node>)
    requires Filled(b, xs, ts, b.at) && Inside(xs, touched)
    modifies b, touched`prev, touched`cancelled
    ensures F.Lead(ts, now) <= |xs| && fired == xs[..F.Lead(ts, now)]
    ensures Filled(b, xs[F.Lead(ts, now)..], ts[F.Lead(ts, now)..], b.at)
    ensures forall i :: 0 <= i < |fired| ==> fired[i].cancelled
  {
    var node := b.head;
    fired := [];
    ghost var k := 0;
    while node != null && node.deadline <= now
      invariant Dropping(node, fired, xs, ts, k, b.at, now) && b.tail == Last(xs)
      decreases |xs| - k
    {
      node, fired := DropOne(node, fired, xs, ts, k, b.at, now);
      k := k + 1;
    }
    LeadIs(ts, now, k);
    Behead(b, node, fired, now, xs, ts, k, touched);
  }

  /** The bucket goes on from the first node that is not due. */
  method Behead(b: Bucket, node: Node?, ghost fired: seq<Node>, ghost now: nat,
                ghost xs: seq<Node>, ghost ts: seq<Timer>, ghost k: nat, ghost touched: set<Node>)
    requires Dropping(node, fired, xs, ts, k, b.at, now) && b.tail == Last(xs) && Inside(xs, touched)
    modifies b, touched`prev
    ensures Filled(b, xs[k..], ts[k..], b.at)
  {
    ghost var ys := xs[k..];
    DistinctFrom(xs, k);
    StillPending(node, fired, xs, ts, k, b.at, now);
    Rehead(b, node, ys, touched);
  }

  lemma StillPending(node: Node?, fired: seq<Node>, xs: seq<Node>, ts: seq<Timer>, k: nat, home: nat, now: nat)
    requires Dropping(node, fired, xs, ts, k, home, now)
    ensures Pending(xs[k..], ts[k..], home) == true
  {
    forall i | 0 <= i < |xs| - k ensures IsTimer(xs[k..][i], ts[k..][i], home) {
      assert IsTimer(xs[k + i], ts[k + i], home);
    }
  }

  /** The bucket starts at the first node that stayed. */
  method Rehead(b: Bucket, node: Node?, ghost ys: seq<Node>, ghost touched: set<Node>)
    requires Inside(ys, touched) && Distinct(ys) && node == First(ys)
    requires ys != [] ==> b.tail == Last(ys) && ys[|ys| - 1].next == null
    requires forall i :: 0 <= i < |ys| - 1 ==> ys[i].next == ys[i + 1]
    requires forall i :: 1 <= i < |ys| ==> ys[i].prev == ys[i - 1]
    modifies b`head, b`tail, touched`prev
    ensures b.tail == Last(ys) && Linked(b.head, ys)
  {
    if ys != [] { OnlyAt(ys, 0); }
    b.head := node;
    if node != null {
      node.prev := null;
    } else {
      b.tail := null;
    }
  }

  lemma {:induction false} LeadIs(ts: seq<Timer>, now: nat, k: nat)
    requires k <= |ts| && (forall i :: 0 <= i < k ==> ts[i].when <= now) && (k < |ts| ==> ts[k].when > now)
    ensures F.Lead(ts, now) == k
  {
    if k > 0 {
      LeadIs(ts[1..], now, k - 1);
    }
  }

  lemma DistinctFrom(xs: seq<Node>, k: nat)
    requires Distinct(xs) && k <= |xs|
    ensures Distinct(xs[k..])
  {
    forall i, j | 0 <= i < j < |xs| - k ensures Apart(xs[k..], i, j) {
      assert Apart(xs, i + k, j + k);
    }
  }

  // ----- All the buckets -----

  /** The buckets hold disjoint linked lists of exactly the nodes that are neither cancelled nor fired, and
      they are the lists `ts`. */
  ghost predicate Shelved(buckets: seq<Bucket>, lists: seq<seq<Node>>, ts: seq<seq<Timer>>, nodes: set<Node>)
    reads buckets, nodes
  {
    && |buckets| == |lists| == |ts|
    && (forall k :: 0 <= k < |lists| ==> Inside(lists[k], nodes) && Filled(buckets[k], lists[k], ts[k], k))
    && (forall x :: x in nodes && !x.cancelled ==> x.home < |lists| && x in lists[x.home])
  }

  method AppendTo(node: Node, buckets: seq<Bucket>, ghost lists: seq<seq<Node>>, ghost ts: seq<seq<Timer>>,
                  ghost nodes: set<Node>)
    requires Shelved(buckets, lists, ts, nodes) && node !in nodes && node.home < |buckets| && !node.cancelled
    modifies buckets[node.home], node`prev, node`next, nodes`next
    ensures Shelved(buckets, lists[node.home := lists[node.home] + [node]],
                    ts[node.home := ts[node.home] + [Timer(node.id, node.deadline)]], nodes + {node}) == true
  {
    var k := node.home;
    ghost var touched := set x | x in lists[k];
    Append(node, buckets[k], lists[k], ts[k], touched);
    forall j | 0 <= j < |lists| && j != k ensures Filled(buckets[j], lists[j], ts[j], j) {
      assert old(Filled(buckets[j], lists[j], ts[j], j));
      assert forall i :: 0 <= i < |lists[j]| ==> old(IsTimer(lists[j][i], ts[j][i], j));
    }
    ghost var longer, all := lists[k] + [node], nodes + {node};
    assert longer[|lists[k]|] == node;
    forall x | x in all && !x.cancelled ensures x.home < |lists| && x in if x.home == k then longer else lists[x.home] {
      assert x != node ==> x in lists[x.home];
    }
    Reshelve(buckets, lists, ts, all, k, longer, ts[k] + [Timer(node.id, node.deadline)]);
  }

  method ExtractFrom(node: Node, buckets: seq<Bucket>, ghost lists: seq<seq<Node>>, ghost ts: seq<seq<Timer>>,
                     ghost i: nat, ghost nodes: set<Node>)
    requires Shelved(buckets, lists, ts, nodes) && node in nodes && !node.cancelled
    requires i < |lists[node.home]| && lists[node.home][i] == node
    modifies buckets[node.home], nodes`prev, nodes`next, node`cancelled
    ensures node.cancelled && |ts[node.home]| == |lists[node.home]|
    ensures Shelved(buckets, lists[node.home := Cut(lists[node.home], i)],
                    ts[node.home := ts[node.home][..i] + ts[node.home][i + 1..]], nodes) == true
  {
    ghost var k, rest := node.home, Cut(lists[node.home], i);
    assert Filled(buckets[k], lists[k], ts[k], k);
    CutOthers(lists[k], i);
    forall x | x in nodes && !x.cancelled && x != node
      ensures x.home < |lists| && x in if x.home == k then rest else lists[x.home]
    {
      assert x in lists[x.home];
    }
    ExtractAlone(node, buckets, lists, ts, i, nodes);
    assert Inside(rest, nodes);
    Reshelve(buckets, lists, ts, nodes, k, rest, ts[k][..i] + ts[k][i + 1..]);
  }

  /** One bucket loses the node; the others are as they were. */
  method ExtractAlone(node: Node, buckets: seq<Bucket>, ghost lists: seq<seq<Node>>, ghost ts: seq<seq<Timer>>,
                      ghost i: nat, ghost nodes: set<Node>)
    requires Shelved(buckets, lists, ts, nodes) && node in nodes && !node.cancelled
    requires i < |lists[node.home]| && lists[node.home][i] == node
    modifies buckets[node.home], nodes`prev, nodes`next, node`cancelled
    ensures node.cancelled && |ts[node.home]| == |lists[node.home]|
    ensures Filled(buckets[node.home], Cut(lists[node.home], i), ts[node.home][..i] + ts[node.home][i + 1..],
                   node.home) == true
    ensures forall j :: 0 <= j < |lists| && j != node.home ==> Filled(buckets[j], lists[j], ts[j], j)
  {
    var k := node.home;
    ghost var xs := lists[k];
    ghost var touched := set x | x in xs;
    HomeOf(buckets, lists, ts, nodes, k);
    Extract(node, buckets[k], xs, ts[k], i, touched);
    forall j | 0 <= j < |lists| && j != k ensures Filled(buckets[j], lists[j], ts[j], j) {
      assert old(Filled(buckets[j], lists[j], ts[j], j));
      assert forall i :: 0 <= i < |lists[j]| ==> old(IsTimer(lists[j][i], ts[j][i], j));
    }
  }

  lemma SplitMembers(xs: seq<Node>, n: nat)
    requires n <= |xs|
    ensures forall x :: x in xs <==> x in xs[..n] || x in xs[n..]
  {
    assert xs == xs[..n] + xs[n..];
  }

  method DropSplit(b: Bucket, now: nat, ghost xs: seq<Node>, ghost ts: seq<Timer>, ghost touched: set<Node>)
    returns (fired: seq<Node>, ghost rest: seq<Node>)
    requires Filled(b, xs, ts, b.at) && Inside(xs, touched)
    modifies b, touched`prev, touched`cancelled
    ensures var n := F.Lead(ts, now);
            n <= |xs| && fired == xs[..n] && rest == xs[n..] && Filled(b, rest, ts[n..], b.at)
    ensures forall x :: x in xs <==> x in fired || x in rest
    ensures forall x :: x in fired ==> x.cancelled
    ensures forall x :: x in rest ==> !x.cancelled
  {
    ghost var n := F.Lead(ts, now);
    fired := DropLead(b, now, xs, ts, touched);
    rest := xs[n..];
    SplitMembers(xs, n);
    assert forall i :: 0 <= i < |rest| ==> IsTimer(rest[i], ts[n..][i], b.at);
  }

  method DropAmong(k: nat, now: nat, buckets: seq<Bucket>, ghost lists: seq<seq<Node>>, ghost ts: seq<seq<Timer>>,
                   ghost nodes: set<Node>)
    returns (fired: seq<Node>, ghost rest: seq<Node>)
    requires Shelved(buckets, lists, ts, nodes) && k < |buckets|
    modifies buckets[k], nodes`prev, nodes`cancelled
    ensures var n := F.Lead(ts[k], now);
            n <= |lists[k]| && fired == lists[k][..n] && rest == lists[k][n..]
            && Filled(buckets[k], rest, ts[k][n..], k)
    ensures forall j :: 0 <= j < |lists| && j != k ==> Filled(buckets[j], lists[j], ts[j], j)
    ensures forall x :: x in lists[k] <==> x in fired || x in rest
    ensures forall x :: x in fired ==> x.cancelled
    ensures forall x :: x in rest ==> !x.cancelled
    ensures forall x :: x in nodes && x !in lists[k] ==> x.cancelled == old(x.cancelled)
  {
    ghost var touched := set x | x in lists[k];
    fired, rest := DropSplit(buckets[k], now, lists[k], ts[k], touched);
    forall j | 0 <= j < |lists| && j != k ensures Filled(buckets[j], lists[j], ts[j], j) {
      assert old(Filled(buckets[j], lists[j], ts[j], j));
      assert forall i :: 0 <= i < |lists[j]| ==> old(IsTimer(lists[j][i], ts[j][i], j));
    }
  }

  lemma HomeOf(buckets: seq<Bucket>, lists: seq<seq<Node>>, ts: seq<seq<Timer>>, nodes: set<Node>, k: nat)
    requires Shelved(buckets, lists, ts, nodes) && k < |lists|
    ensures forall x :: x in lists[k] ==> x in nodes && !x.cancelled && x.home == k
  {
    assert forall i :: 0 <= i < |lists[k]| ==> IsTimer(lists[k][i], ts[k][i], k);
  }

  lemma Reshelve(buckets: seq<Bucket>, lists: seq<seq<Node>>, ts: seq<seq<Timer>>, nodes: set<Node>, k: nat,
                 rest: seq<Node>, us: seq<Timer>)
    requires |buckets| == |lists| == |ts| && k < |lists|
    requires forall j :: 0 <= j < |lists| && j != k ==>
               Inside(lists[j], nodes) && Filled(buckets[j], lists[j], ts[j], j)
    requires Inside(rest, nodes) && Filled(buckets[k], rest, us, k) == true
    requires forall x :: x in nodes && !x.cancelled ==>
               x.home < |lists| && x in if x.home == k then rest else lists[x.home]
    ensures Shelved(buckets, lists[k := rest], ts[k := us], nodes) == true
  {
  }

  /** Fires the due timers at the front of one bucket. */
  method DropFrom(k: nat, now: nat, buckets: seq<Bucket>, ghost lists: seq<seq<Node>>, ghost ts: seq<seq<Timer>>,
                  ghost nodes: set<Node>)
    returns (fired: seq<Node>)
    requires Shelved(buckets, lists, ts, nodes) && k < |buckets|
    modifies buckets[k], nodes`prev, nodes`cancelled
    ensures var n := F.Lead(ts[k], now);
            && n <= |lists[k]| && fired == lists[k][..n]
            && Shelved(buckets, lists[k := lists[k][n..]], ts[k := ts[k][n..]], nodes)
    ensures forall x :: x in nodes ==> (x.cancelled <==> old(x.cancelled) || x in fired)
    ensures Inside(fired, nodes)
  {
    ghost var rest;
    HomeOf(buckets, lists, ts, nodes, k);
    fired, rest := DropAmong(k, now, buckets, lists, ts, nodes);
    forall x | x in nodes && !x.cancelled ensures x.home < |lists| && x in if x.home == k then rest else lists[x.home] {
      assert x in lists[x.home];
    }
    Reshelve(buckets, lists, ts, nodes, k, rest, ts[k][F.Lead(ts[k], now)..]);
  }

  /** The buckets of `done` have been dealt with, those of `todo` have not. */
  ghost predicate Walked(buckets: seq<Bucket>, lists: seq<seq<Node>>, done: seq<seq<Timer>>, todo: seq<seq<Timer>>,
                         nodes: set<Node>, time: nat, fired: seq<Node>)
    reads buckets, nodes
  {
    Shelved(buckets, lists, F.Rest(done, time) + todo, nodes) && Fires(fired, F.Leads(done, time))
  }

  lemma WalkStep(done: seq<seq<Timer>>, ts: seq<Timer>, todo: seq<seq<Timer>>, time: nat)
    ensures var cur, k, n := F.Rest(done, time) + ([ts] + todo), |done|, F.Lead(ts, time);
            && cur[k] == ts && F.Rest(done + [ts], time) + todo == cur[k := ts[n..]]
            && F.Leads(done + [ts], time) == F.Leads(done, time) + ts[..n]
  {
    F.RestSnoc(done, ts, time);
    F.LeadsSnoc(done, ts, time);
    ReplaceMiddle(F.Rest(done, time), ts, todo, ts[F.Lead(ts, time)..]);
  }

  lemma ReplaceMiddle(a: seq<seq<Timer>>, x: seq<Timer>, b: seq<seq<Timer>>, y: seq<Timer>)
    ensures (a + ([x] + b))[|a|] == x && (a + ([x] + b))[|a| := y] == a + [y] + b
  {
  }

  /** The nodes dropped from a bucket are its leading timers. */
  lemma DroppedFires(buckets: seq<Bucket>, lists: seq<seq<Node>>, cur: seq<seq<Timer>>, nodes: set<Node>, k: nat,
                     n: nat)
    requires Shelved(buckets, lists, cur, nodes) && k < |lists| && n <= |cur[k]|
    ensures n <= |lists[k]| && Fires(lists[k][..n], cur[k][..n])
  {
    assert Filled(buckets[k], lists[k], cur[k], k);
    assert forall i :: 0 <= i < n ==> IsTimer(lists[k][i], cur[k][i], k);
  }

  method DropNext(time: nat, k: nat, before: seq<Node>, buckets: seq<Bucket>, ghost lists: seq<seq<Node>>,
                  ghost done: seq<seq<Timer>>, ghost ts: seq<Timer>, ghost todo: seq<seq<Timer>>,
                  ghost nodes: set<Node>)
    returns (f: seq<Node>, ghost after: seq<seq<Node>>)
    requires Walked(buckets, lists, done, [ts] + todo, nodes, time, before) && k == |done| < |buckets|
    modifies buckets[k], nodes`prev, nodes`cancelled
    ensures Walked(buckets, after, done + [ts], todo, nodes, time, before + f) == true
    ensures forall x :: x in nodes ==> (x.cancelled <==> old(x.cancelled) || x in f)
    ensures Inside(f, nodes)
  {
    ghost var cur, n := F.Rest(done, time) + ([ts] + todo), F.Lead(ts, time);
    WalkStep(done, ts, todo, time);
    DroppedFires(buckets, lists, cur, nodes, k, n);
    f := DropFrom(k, time, buckets, lists, cur, nodes);
    FiresConcat(before, F.Leads(done, time), f, ts[..n]);
    after := lists[k := lists[k][n..]];
  }

  /** The lists walked and the lists to come are those the walk started with. */
  ghost predicate Midway(buckets: seq<Bucket>, lists: seq<seq<Node>>, w: Walk, start: seq<seq<Timer>>,
                         nodes: set<Node>, time: nat, fired: seq<Node>)
    reads buckets, nodes
  {
    |start| == |buckets| && w.done + w.todo == start && Walked(buckets, lists, w.done, w.todo, nodes, time, fired)
  }

  datatype Walk = Walk(done: seq<seq<Timer>>, todo: seq<seq<Timer>>)

  function Onward(w: Walk): Walk
    requires w.todo != []
  {
    Walk(w.done + [w.todo[0]], w.todo[1..])
  }

  method DropOnward(time: nat, k: nat, before: seq<Node>, buckets: seq<Bucket>, ghost lists: seq<seq<Node>>,
                    ghost w: Walk, ghost start: seq<seq<Timer>>, ghost nodes: set<Node>)
    returns (f: seq<Node>, ghost after: seq<seq<Node>>)
    requires Midway(buckets, lists, w, start, nodes, time, before) && k == |w.done| < |buckets|
    modifies buckets[k], nodes`prev, nodes`cancelled
    ensures w.todo != [] && Midway(buckets, after, Onward(w), start, nodes, time, before + f) == true
    ensures forall x :: x in nodes ==> (x.cancelled <==> old(x.cancelled) || x in f)
    ensures Inside(f, nodes)
  {
    ghost var ts, later := w.todo[0], w.todo[1..];
    assert w.todo == [ts] + later;
    assert w.done + w.todo == (w.done + [ts]) + later;
    f, after := DropNext(time, k, before, buckets, lists, w.done, ts, later, nodes);
  }

  method DropAll(time: nat, buckets: seq<Bucket>, ghost lists: seq<seq<Node>>, ghost start: seq<seq<Timer>>,
                 ghost nodes: set<Node>)
    returns (fired: seq<Node>, ghost after: seq<seq<Node>>)
    requires Shelved(buckets, lists, start, nodes) == true
    modifies buckets, nodes`prev, nodes`cancelled
    ensures Shelved(buckets, after, F.Rest(start, time), nodes) == true && Fires(fired, F.Leads(start, time))
    ensures forall x :: x in nodes ==> (x.cancelled <==> old(x.cancelled) || x in fired)
    ensures Inside(fired, nodes)
  {
    fired, after := [], lists;
    ghost var w := Walk([], start);
    assert F.Rest(w.done, time) + w.todo == start;
    for k := 0 to |buckets|
      invariant Midway(buckets, after, w, start, nodes, time, fired) == true && |w.done| == k
      invariant forall x :: x in nodes ==> (x.cancelled <==> old(x.cancelled) || x in fired)
      invariant Inside(fired, nodes)
    {
      var f;
      f, after := DropOnward(time, k, fired, buckets, after, w, start, nodes);
      w, fired := Onward(w), fired + f;
    }
    WalkedAll(buckets, after, w, start, nodes, time, fired);
  }

  lemma WalkedAll(buckets: seq<Bucket>, lists: seq<seq<Node>>, w: Walk, start: seq<seq<Timer>>, nodes: set<Node>,
                  time: nat, fired: seq<Node>)
    requires Midway(buckets, lists, w, start, nodes, time, fired) && |w.done| == |buckets|
    ensures Shelved(buckets, lists, F.Rest(start, time), nodes) == true && Fires(fired, F.Leads(start, time))
  {
    assert w.todo == [] && w.done == start;
    assert F.Rest(start, time) + [] == F.Rest(start, time);
  }

  // ----- The store -----

  datatype Shadow = Shadow(model: F.Fixed, lists: seq<seq<Node>>, issued: seq<Node>, nodes: set<Node>)

  ghost predicate Holds(keys: seq<nat>, buckets: seq<Bucket>, g: Shadow)
    reads buckets, g.nodes
  {
    && F.Shaped(g.model) && g.model.keys == keys && g.model.next == |g.issued|
    && Numbered(g.issued, g.nodes) && Shelved(buckets, g.lists, g.model.lists, g.nodes)
  }

  /** The shadow once a new node is last in its bucket. */
  ghost function Queued(g: Shadow, node: Node, delay: nat): Shadow
    requires node.home < |g.lists| == |g.model.lists|
    reads node
  {
    Shadow(F.AppendAt(g.model, node.home, delay), g.lists[node.home := g.lists[node.home] + [node]],
           g.issued + [node], g.nodes + {node})
  }

  lemma HoldsQueued(keys: seq<nat>, buckets: seq<Bucket>, g: Shadow, node: Node, delay: nat)
    requires F.Shaped(g.model) && g.model.keys == keys && node.home < |g.lists| == |g.model.lists|
    requires g.model.next == |g.issued| == node.id && Numbered(g.issued, g.nodes)
             && node.deadline == g.model.now + delay
    requires Shelved(buckets, g.lists[node.home := g.lists[node.home] + [node]],
                     g.model.lists[node.home := g.model.lists[node.home] + [Timer(node.id, node.deadline)]],
                     g.nodes + {node})
    ensures Holds(keys, buckets, Queued(g, node, delay)) == true
  {
    NumberedAppend(g.issued, g.nodes, node);
  }

  /** The shadow once everything that led a list is gone. */
  ghost function Advanced(g: Shadow, lists: seq<seq<Node>>, time: nat): Shadow
    requires F.Shaped(g.model)
  {
    Shadow(F.AdvanceTo(g.model, time).0, lists, g.issued, g.nodes)
  }

  lemma HoldsAfter(keys: seq<nat>, buckets: seq<Bucket>, g: Shadow, lists: seq<seq<Node>>, time: nat)
    requires F.Shaped(g.model) && g.model.keys == keys && g.model.next == |g.issued| && Numbered(g.issued, g.nodes)
    requires Shelved(buckets, lists, F.Rest(g.model.lists, time), g.nodes) == true
    ensures Holds(keys, buckets, Advanced(g, lists, time)) == true
    ensures Advanced(g, lists, time).model.now == time && Advanced(g, lists, time).model.q == g.model.q
  {
  }

  /** The model's advance, and nothing else, between two shadows. */
  ghost predicate Dropped(g: Shadow, after: Shadow, time: nat, fired: seq<Node>) {
    && F.Shaped(g.model) && after.issued == g.issued && after.nodes == g.nodes && Inside(fired, g.nodes)
    && after.model == F.AdvanceTo(g.model, time).0 && Fires(fired, F.AdvanceTo(g.model, time).1)
  }

  method DropShadow(time: nat, ghost keys: seq<nat>, buckets: seq<Bucket>, ghost g: Shadow)
    returns (fired: seq<Node>, ghost after: Shadow)
    requires Holds(keys, buckets, g) == true
    modifies buckets, g.nodes
    ensures Holds(keys, buckets, after) == true && Dropped(g, after, time, fired) == true
    ensures after.nodes == g.nodes && after.model.now == time && after.model.q == g.model.q
    ensures forall x :: x in g.nodes ==> (x.cancelled <==> old(x.cancelled) || x in fired)
  {
    ghost var lists;
    fired, lists := DropAll(time, buckets, g.lists, g.model.lists, g.nodes);
    HoldsAfter(keys, buckets, g, lists, time);
    after := Advanced(g, lists, time);
  }

  /** A timer of the model with a node's number belongs to that node. */
  lemma OwnTimer(keys: seq<nat>, buckets: seq<Bucket>, g: Shadow, node: Node, k: nat, j: nat)
    requires Holds(keys, buckets, g) && node in g.nodes
    requires k < |g.lists| && j < |g.lists[k]|
    ensures j < |g.model.lists[k]|
    ensures g.model.lists[k][j].id == node.id ==> g.lists[k][j] == node && node.home == k && !node.cancelled
  {
    assert Filled(buckets[k], g.lists[k], g.model.lists[k], k);
    assert IsTimer(g.lists[k][j], g.model.lists[k][j], k);
    assert Inside(g.lists[k], g.nodes);
    assert g.issued[node.id] == node;
    assert g.issued[g.lists[k][j].id] == g.lists[k][j];
  }

  lemma NotPending(keys: seq<nat>, buckets: seq<Bucket>, g: Shadow, node: Node)
    requires Holds(keys, buckets, g) && node in g.nodes && node.cancelled
    ensures F.Remove(g.model, node.id) == g.model
  {
    forall k | 0 <= k < |g.lists| ensures T.Drop(g.model.lists[k], node.id) == g.model.lists[k] {
      assert Filled(buckets[k], g.lists[k], g.model.lists[k], k);
      forall j | 0 <= j < |g.model.lists[k]| ensures g.model.lists[k][j].id != node.id {
        OwnTimer(keys, buckets, g, node, k, j);
      }
      T.DropAbsent(g.model.lists[k], node.id);
    }
    assert F.Remove(g.model, node.id).lists == g.model.lists;
  }

  lemma PendingAt(keys: seq<nat>, buckets: seq<Bucket>, g: Shadow, node: Node, i: nat)
    requires Holds(keys, buckets, g) && node in g.nodes && !node.cancelled
    requires i < |g.lists[node.home]| && g.lists[node.home][i] == node
    ensures var ts := g.model.lists[node.home];
            |ts| == |g.lists[node.home]|
            && F.Remove(g.model, node.id).lists == g.model.lists[node.home := ts[..i] + ts[i + 1..]]
  {
    var h := node.home;
    var after := F.Remove(g.model, node.id).lists;
    assert Filled(buckets[h], g.lists[h], g.model.lists[h], h);
    assert IsTimer(g.lists[h][i], g.model.lists[h][i], h);
    OnlyAt(g.lists[h], i);
    forall k | 0 <= k < |g.lists| && k != h ensures after[k] == g.model.lists[k] {
      assert Filled(buckets[k], g.lists[k], g.model.lists[k], k);
      forall j | 0 <= j < |g.model.lists[k]| ensures g.model.lists[k][j].id != node.id {
        OwnTimer(keys, buckets, g, node, k, j);
      }
      T.DropAbsent(g.model.lists[k], node.id);
    }
    forall j | 0 <= j < |g.model.lists[h]| && j != i ensures g.model.lists[h][j].id != node.id {
      OwnTimer(keys, buckets, g, node, h, j);
    }
    T.DropAt(g.model.lists[h], i);
  }

  class FixedList {
    const q: nat
    var keys: seq<nat>
    var buckets: seq<Bucket>
    var now: nat
    ghost var g: Shadow

    ghost predicate Valid()
      reads this, buckets, g.nodes
    {
      Holds(keys, buckets, g) && g.model.now == now && g.model.q == q
    }

    constructor (q: nat)
      requires q > 0
      ensures Valid() && g.model == F.NewFixed(q) && g.issued == []
    {
      this.q := q;
      keys, buckets, now := [], [], 0;
      g := Shadow(F.NewFixed(q), [], [], {});
    }

    /** Arms a timer at now + delay, on the list for delays of that many whole quanta. */
    method Schedule(delay: nat) returns (node: Node)
      requires Valid()
      modifies this, buckets, g.nodes
      ensures Valid() && fresh(node) && forall b :: b in buckets ==> b in old(buckets) || fresh(b)
      ensures g.issued == old(g.issued) + [node] && g.nodes == old(g.nodes) + {node} && !node.cancelled
      ensures g.model == F.Insert(old(g.model), delay)
    {
      var key := delay / q;
      var k := F.Index(keys, key);
      ghost var was := g.model;
      if k == |keys| {
        AddBucket(key);
      }
      F.InsertSplit(was, delay);
      assert buckets[k] in buckets;
      node := PutLast(k, delay);
    }

    method AddBucket(key: nat)
      requires Valid()
      modifies this
      ensures Valid() && keys == old(keys) + [key] && g.issued == old(g.issued) && g.nodes == old(g.nodes)
              && now == old(now)
      ensures g.model == F.AddKey(old(g.model), key)
      ensures forall b :: b in buckets ==> b in old(buckets) || fresh(b)
    {
      var b := new Bucket(|buckets|);
      keys, buckets := keys + [key], buckets + [b];
      g := g.(model := F.AddKey(g.model, key), lists := g.lists + [[]]);
    }

    method PutLast(k: nat, delay: nat) returns (node: Node)
      requires Valid() && k < |keys|
      modifies this`now, this`g, buckets[k], g.nodes
      ensures Valid() && fresh(node) && buckets == old(buckets) && now == old(now)
      ensures g.issued == old(g.issued) + [node] && g.nodes == old(g.nodes) + {node} && !node.cancelled
      ensures g.model == F.AppendAt(old(g.model), k, delay)
    {
      node := new Node(|g.issued|, k, 0, now + delay, delay);
      Enqueue(node, delay);
    }

    /** Links a new node in at the end of the bucket it names. */
    method Enqueue(node: Node, ghost delay: nat)
      requires Valid() && node !in g.nodes && node.id == |g.issued| && !node.cancelled && node.home < |keys|
      requires node.deadline == now + delay
      modifies this`now, this`g, buckets[node.home], node`prev, node`next, g.nodes`next
      ensures Valid() == true && now == old(now) && g.issued == old(g.issued) + [node]
              && g.nodes == old(g.nodes) + {node}
      ensures g.model == F.AppendAt(old(g.model), node.home, delay)
    {
      ghost var was, k := g, node.home;
      AppendTo(node, buckets, was.lists, was.model.lists, was.nodes);
      HoldsQueued(keys, buckets, was, node, delay);
      Record(now, Queued(was, node, delay));
    }

    /** Takes a pending timer out; a handle that fired or was cancelled before is left alone. */
    method Cancel(node: Node)
      requires Valid() && node in g.nodes
      modifies this, buckets, g.nodes
      ensures Valid() && buckets == old(buckets) && g.issued == old(g.issued) && g.nodes == old(g.nodes)
              && node.cancelled
      ensures g.model == F.Remove(old(g.model), node.id)
      ensures forall x :: x in g.nodes && x != node ==> x.cancelled == old(x.cancelled)
    {
      if node.cancelled {
        NotPending(keys, buckets, g, node);
        return;
      }
      ghost var was, k := g, node.home;
      ghost var i :| 0 <= i < |g.lists[k]| && g.lists[k][i] == node;
      PendingAt(keys, buckets, g, node, i);
      g := was.(model := F.Remove(was.model, node.id), lists := was.lists[k := Cut(was.lists[k], i)]);
      ExtractFrom(node, buckets, was.lists, was.model.lists, i, was.nodes);
    }

    /** Fires, bucket by bucket, the due timers in front of the first one that is not due. */
    method Advance(time: nat) returns (fired: seq<Node>)
      requires Valid()
      modifies this, buckets, g.nodes
      ensures Valid() == true && buckets == old(buckets) && g.issued == old(g.issued) && g.nodes == old(g.nodes)
      ensures g.model == F.AdvanceTo(old(g.model), time).0 && Fires(fired, F.AdvanceTo(old(g.model), time).1)
      ensures forall x :: x in g.nodes ==> (x.cancelled <==> old(x.cancelled) || x in fired)
      ensures Inside(fired, g.nodes)
    {
      fired := Drop(time);
    }

    method Drop(time: nat) returns (fired: seq<Node>)
      requires Valid()
      modifies this`now, this`g, buckets, g.nodes
      ensures Valid() == true && Dropped(old(g), g, time, fired) == true
      ensures forall x :: x in old(g.nodes) ==> (x.cancelled <==> old(x.cancelled) || x in fired)
    {
      ghost var after;
      fired, after := DropShadow(time, keys, buckets, g);
      Record(time, after);
    }

    /** The clock and the shadow catch up. */
    method Record(time: nat, ghost after: Shadow)
      requires Holds(keys, buckets, after) == true && after.model.now == time && after.model.q == q
      modifies this`now, this`g
      ensures g == after && now == time && Valid() == true
    {
      now := time;
      g := after;
    }
  }
}
