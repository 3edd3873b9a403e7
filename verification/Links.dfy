/**
 Timer nodes and the doubly linked lists they are threaded on. The wheels and the fixed list each
 write the same pointer updates in place; here they are stated once, over the sequence of nodes that
 a list holds.

 Where a contract or an invariant says `P(…) == true`, the large predicate P is carried as one fact
 instead of being taken apart into its conjuncts.
 */
module Links {
  import opened TimerSpec

  class Node {
    ghost const id: nat     // which handle this is, in schedule order; stands for the callback
    var prev: Node?
    var next: Node?
    var cancelled: bool     // also set when the node fires
    var home: nat           // the list the node is on: slot, level and slot, or bucket key
    var deadline: nat
    var rounds: nat
    ghost var ticks: nat    // the delay asked for
    ghost var moves: nat    // how often a cascade has moved the node

    constructor (ghost id: nat, home: nat, rounds: nat, deadline: nat, ghost ticks: nat)
      ensures this.id == id && this.home == home && !cancelled
      ensures this.rounds == rounds && this.deadline == deadline && this.ticks == ticks && moves == 0
    {
      this.id, this.home, this.rounds, this.deadline := id, home, rounds, deadline;
      prev, next, cancelled := null, null, false;
      this.ticks, moves := ticks, 0;
    }
  }

  function First(xs: seq<Node>): Node? {
    if xs == [] then null else xs[0]
  }

  ghost predicate Apart(xs: seq<Node>, i: int, j: int)
    requires 0 <= i < |xs| && 0 <= j < |xs|
  {
    xs[i] != xs[j]
  }

  ghost predicate Distinct(xs: seq<Node>) {
    forall i, j :: 0 <= i < j < |xs| ==> Apart(xs, i, j)
  }

  lemma OnlyAt(xs: seq<Node>, k: nat)
    requires Distinct(xs) && k < |xs|
    ensures forall i :: 0 <= i < |xs| && i != k ==> xs[i] != xs[k]
  {
    forall i | 0 <= i < |xs| && i != k ensures xs[i] != xs[k] {
      assert if i < k then Apart(xs, i, k) else Apart(xs, k, i);
    }
  }

  lemma CutOthers(xs: seq<Node>, k: nat)
    requires Distinct(xs) && k < |xs|
    ensures forall i :: 0 <= i < |xs| - 1 ==> Cut(xs, k)[i] != xs[k] && Cut(xs, k)[i] == xs[if i < k then i else i + 1]
    ensures forall x :: x in xs && x != xs[k] ==> x in Cut(xs, k)
  {
    OnlyAt(xs, k);
    CutMultiset(xs, k);
    forall x | x in xs && x != xs[k] ensures x in Cut(xs, k) {
      assert x in multiset(xs);
    }
  }

  lemma DistinctCut(xs: seq<Node>, k: nat)
    requires Distinct(xs) && k < |xs|
    ensures Distinct(Cut(xs, k))
  {
    forall i, j | 0 <= i < j < |xs| - 1 ensures Apart(Cut(xs, k), i, j) {
      assert Apart(xs, if i < k then i else i + 1, if j < k then j else j + 1);
    }
  }

  lemma DistinctCons(x: Node, xs: seq<Node>)
    requires Distinct(xs) && x !in xs
    ensures Distinct([x] + xs)
  {
    forall i, j | 0 <= i < j < |xs| + 1 ensures Apart([x] + xs, i, j) {
      assert i > 0 ==> Apart(xs, i - 1, j - 1);
    }
  }

  /** The list that starts at `head` holds exactly `xs`, linked both ways. */
  ghost predicate Linked(head: Node?, xs: seq<Node>)
    reads xs
  {
    && head == First(xs)
    && Distinct(xs)
    && (xs != [] ==> xs[0].prev == null && xs[|xs| - 1].next == null)
    && (forall i {:trigger xs[i].next} :: 0 <= i < |xs| - 1 ==> xs[i].next == xs[i + 1])
    && (forall i {:trigger xs[i].prev} :: 1 <= i < |xs| ==> xs[i].prev == xs[i - 1])
  }

  /** A list taken off its slot: only the forward links still matter. */
  ghost predicate Chain(node: Node?, xs: seq<Node>)
    reads xs
  {
    && node == First(xs)
    && Distinct(xs)
    && (xs != [] ==> xs[|xs| - 1].next == null)
    && (forall i {:trigger xs[i].next} :: 0 <= i < |xs| - 1 ==> xs[i].next == xs[i + 1])
  }

  lemma DistinctTail(xs: seq<Node>)
    requires Distinct(xs) && xs != []
    ensures Distinct(xs[1..]) && xs[0] !in xs[1..]
  {
    OnlyAt(xs, 0);
    forall i, j | 0 <= i < j < |xs| - 1 ensures Apart(xs[1..], i, j) {
      assert Apart(xs, i + 1, j + 1);
    }
  }

  ghost function Cut(xs: seq<Node>, i: nat): seq<Node>
    requires i < |xs|
  {
    xs[..i] + xs[i + 1..]
  }

  /** Every handle ever issued carries its number. */
  ghost predicate Numbered(issued: seq<Node>, nodes: set<Node>) {
    && (forall i :: 0 <= i < |issued| ==> issued[i] in nodes && issued[i].id == i)
    && (forall x :: x in nodes ==> x.id < |issued| && issued[x.id] == x)
  }

  lemma NumberedAppend(issued: seq<Node>, nodes: set<Node>, node: Node)
    requires Numbered(issued, nodes) && node.id == |issued|
    ensures Numbered(issued + [node], nodes + {node})
  {
  }

  lemma CutMultiset(xs: seq<Node>, i: nat)
    requires i < |xs|
    ensures multiset(xs) == multiset(Cut(xs, i)) + multiset{xs[i]}
  {
    assert xs == xs[..i] + [xs[i]] + xs[i + 1..];
  }

  /** The callbacks handed back are those of the timers fired, in the same order. */
  ghost predicate Fires(fired: seq<Node>, ts: seq<Timer>) {
    |fired| == |ts| && forall i :: 0 <= i < |fired| ==> fired[i].id == ts[i].id
  }

  lemma FiresConcat(a: seq<Node>, ts: seq<Timer>, b: seq<Node>, us: seq<Timer>)
    requires Fires(a, ts) && Fires(b, us)
    ensures Fires(a + b, ts + us)
  {
  }

  lemma SumMembers(xs: seq<Node>, ys: seq<Node>, zs: seq<Node>)
    requires multiset(xs) == multiset(ys) + multiset(zs)
    ensures forall x :: x in xs <==> x in ys || x in zs
  {
    forall x ensures x in xs <==> x in ys || x in zs {
      assert x in xs <==> x in multiset(xs);
    }
  }

  ghost predicate Inside(xs: seq<Node>, nodes: set<Node>) {
    forall i :: 0 <= i < |xs| ==> xs[i] in nodes
  }

  method LinkFront(node: Node, head: Node?, ghost xs: seq<Node>, ghost nodes: set<Node>)
    requires Linked(head, xs) && node !in xs && Inside(xs, nodes)
    modifies node`prev, node`next, nodes`prev
    ensures Linked(node, [node] + xs)
  {
    DistinctCons(node, xs);
    if xs != [] { OnlyAt(xs, 0); }
    node.prev := null;
    node.next := head;
    if head != null {
      head.prev := node;
    }
  }

  /** Takes a node out; the result is the head of what is left. */
  method Unlink(node: Node, head: Node?, ghost xs: seq<Node>, ghost i: nat, ghost nodes: set<Node>)
    returns (rest: Node?)
    requires Linked(head, xs) && i < |xs| && xs[i] == node && Inside(xs, nodes)
    modifies nodes`prev, nodes`next
    ensures Linked(rest, Cut(xs, i))
    ensures node.prev == old(node.prev) && node.next == old(node.next)
  {
    OnlyAt(xs, i);
    if i > 0 { OnlyAt(xs, i - 1); }
    if i + 1 < |xs| { OnlyAt(xs, i + 1); }
    DistinctCut(xs, i);
    rest := head;
    if node.prev != null {
      node.prev.next := node.next;
    } else {
      rest := node.next;
    }
    if node.next != null {
      node.next.prev := node.prev;
    }
  }

  /** A table of lists: slot `k` heads the list of exactly the nodes whose home is `k` and that are
      neither cancelled nor fired. */
  ghost predicate Threaded(heads: array<Node?>, lists: seq<seq<Node>>, nodes: set<Node>)
    reads heads, nodes
  {
    && |lists| == heads.Length && Housed(lists, nodes)
    && (forall k :: 0 <= k < |lists| ==> Linked(heads[k], lists[k]))
  }

  /** The lists hold exactly the nodes still pending, each on the list it names as its home. */
  ghost predicate Housed(lists: seq<seq<Node>>, nodes: set<Node>)
    reads nodes`home, nodes`cancelled
  {
    && (forall k :: 0 <= k < |lists| ==> Inside(lists[k], nodes))
    && (forall k, i :: 0 <= k < |lists| && 0 <= i < |lists[k]| ==> lists[k][i].home == k && !lists[k][i].cancelled)
    && (forall x :: x in nodes && !x.cancelled ==> x.home < |lists| && x in lists[x.home])
  }

  lemma HousedPush(lists: seq<seq<Node>>, nodes: set<Node>, node: Node)
    requires Housed(lists, nodes) && node !in nodes && node.home < |lists| && !node.cancelled
    ensures Housed(lists[node.home := [node] + lists[node.home]], nodes + {node}) == true
  {
    var after := lists[node.home := [node] + lists[node.home]];
    assert after[node.home][0] == node;
    forall x | x in nodes + {node} && !x.cancelled ensures x.home < |after| && x in after[x.home] {
      assert x != node ==> x in lists[x.home];
    }
  }

  method Attach(node: Node, heads: array<Node?>, ghost xs: seq<Node>, ghost touched: set<Node>)
    requires node.home < heads.Length && Linked(heads[node.home], xs) && node !in xs && Inside(xs, touched)
    modifies heads, node`prev, node`next, touched`prev
    ensures Linked(heads[node.home], [node] + xs)
    ensures forall j :: 0 <= j < heads.Length && j != node.home ==> heads[j] == old(heads[j])
  {
    LinkFront(node, heads[node.home], xs, touched);
    heads[node.home] := node;
  }

  method Detach(node: Node, heads: array<Node?>, ghost xs: seq<Node>, ghost i: nat, ghost touched: set<Node>)
    requires node.home < heads.Length && Linked(heads[node.home], xs) && i < |xs| && xs[i] == node
             && Inside(xs, touched)
    modifies heads, touched`prev, touched`next
    ensures Linked(heads[node.home], Cut(xs, i))
    ensures forall j :: 0 <= j < heads.Length && j != node.home ==> heads[j] == old(heads[j])
  {
    heads[node.home] := Unlink(node, heads[node.home], xs, i, touched);
  }

  /** Puts a node that is on no list at the front of its home list. */
  method PushFront(node: Node, heads: array<Node?>, ghost lists: seq<seq<Node>>, ghost nodes: set<Node>)
    requires Threaded(heads, lists, nodes) && node !in nodes
    requires node.home < heads.Length && !node.cancelled
    modifies heads, node`prev, node`next, nodes`prev
    ensures Threaded(heads, lists[node.home := [node] + lists[node.home]], nodes + {node})
  {
    var k := node.home;
    ghost var touched := set x | x in lists[k];
    Attach(node, heads, lists[k], touched);
    forall j | 0 <= j < |lists| && j != k ensures Linked(heads[j], lists[j]) {
      assert old(Linked(heads[j], lists[j]));
    }
    HousedPush(lists, nodes, node);
  }

  /** Marks a node and takes it off its list. */
  method TakeOut(node: Node, heads: array<Node?>, ghost lists: seq<seq<Node>>, ghost i: nat, ghost nodes: set<Node>)
    requires Threaded(heads, lists, nodes) && node in nodes && !node.cancelled
    requires i < |lists[node.home]| && lists[node.home][i] == node
    modifies heads, nodes`prev, nodes`next, node`cancelled
    ensures node.cancelled
    ensures Threaded(heads, lists[node.home := Cut(lists[node.home], i)], nodes)
  {
    Mark(node, lists, i, nodes);
    forall j | 0 <= j < |lists| ensures Linked(heads[j], lists[j]) {
      assert old(Linked(heads[j], lists[j]));
    }
    Loosen(node, heads, lists, i, nodes);
  }

  /** The handle is spent: the lists of pending nodes are those without it. */
  method Mark(node: Node, ghost lists: seq<seq<Node>>, ghost i: nat, ghost nodes: set<Node>)
    requires Housed(lists, nodes) && node in nodes && !node.cancelled
    requires i < |lists[node.home]| && lists[node.home][i] == node && Distinct(lists[node.home])
    modifies node`cancelled
    ensures node.cancelled && Housed(lists[node.home := Cut(lists[node.home], i)], nodes) == true
  {
    node.cancelled := true;
    ghost var k := node.home;
    CutOthers(lists[k], i);
    ghost var after := lists[k := Cut(lists[k], i)];
    forall x | x in nodes && !x.cancelled ensures x.home < |after| && x in after[x.home] {
      assert x in lists[x.home];
    }
  }

  method Loosen(node: Node, heads: array<Node?>, ghost lists: seq<seq<Node>>, ghost i: nat, ghost nodes: set<Node>)
    requires node.home < |lists| == heads.Length && i < |lists[node.home]| && lists[node.home][i] == node
    requires forall k :: 0 <= k < |lists| ==> Linked(heads[k], lists[k])
    requires forall k, j :: 0 <= k < |lists| && 0 <= j < |lists[k]| ==> lists[k][j] in nodes && lists[k][j].home == k
    requires Housed(lists[node.home := Cut(lists[node.home], i)], nodes)
    modifies heads, nodes`prev, nodes`next
    ensures Threaded(heads, lists[node.home := Cut(lists[node.home], i)], nodes)
  {
    var k := node.home;
    ghost var touched := set x | x in lists[k];
    Detach(node, heads, lists[k], i, touched);
    forall j | 0 <= j < |lists| && j != k ensures Linked(heads[j], lists[j]) {
      assert old(Linked(heads[j], lists[j]));
    }
  }
}
