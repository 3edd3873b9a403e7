/** The worklist that collects a process and all its descendants. */
module ProcessTree {

  /** One reading of the child lists; a process that cannot be read has no entry. */
  type Children = map<int, seq<int>>

  predicate IsChild(kids: Children, parent: int, child: int) {
    parent in kids && child in kids[parent]
  }

  /** A chain of parent-to-child steps. */
  predicate Descends(kids: Children, path: seq<int>) {
    forall i :: 0 < i < |path| ==> IsChild(kids, path[i - 1], path[i])
  }

  ghost predicate Reaches(kids: Children, root: int, pid: int) {
    exists path: seq<int> :: |path| > 0 && path[0] == root && path[|path| - 1] == pid && Descends(kids, path)
  }

  /** Every number the walk can meet. */
  function Listed(kids: Children): set<int> {
    set p, c | p in kids && c in kids[p] :: c
  }

  lemma ReachesSelf(kids: Children, root: int)
    ensures Reaches(kids, root, root)
  {
    var path := [root];
    assert path[0] == root && path[|path| - 1] == root && Descends(kids, path);
  }

  lemma ReachesChild(kids: Children, root: int, pid: int, child: int)
    requires Reaches(kids, root, pid) && IsChild(kids, pid, child)
    ensures Reaches(kids, root, child)
  {
    var path :| |path| > 0 && path[0] == root && path[|path| - 1] == pid && Descends(kids, path);
    var more := path + [child];
    forall i | 0 < i < |more| ensures IsChild(kids, more[i - 1], more[i]) {
      if i < |path| { assert more[i] == path[i] && more[i - 1] == path[i - 1]; }
    }
    assert more[0] == root && more[|more| - 1] == child && Descends(kids, more);
  }

  /** Whatever holds of the root and passes to children holds of all it reaches. */
  lemma {:induction false} ClosedReaches(kids: Children, closed: set<int>, path: seq<int>)
    requires |path| > 0 && path[0] in closed && Descends(kids, path)
    requires forall p, c :: p in closed && IsChild(kids, p, c) ==> c in closed
    ensures path[|path| - 1] in closed
    decreases |path|
  {
    if |path| > 1 {
      var front := path[..|path| - 1];
      forall i | 0 < i < |front| ensures IsChild(kids, front[i - 1], front[i]) {
        assert IsChild(kids, path[i - 1], path[i]);
      }
      ClosedReaches(kids, closed, front);
      assert IsChild(kids, path[|path| - 2], path[|path| - 1]);
    }
  }

  /** Found and pending are reached, and a child of a found process is found or pending. */
  ghost predicate Walking(kids: Children, root: int, pending: seq<int>, found: set<int>) {
    (forall p :: p in found || p in pending ==> Reaches(kids, root, p))
    && (root in found || root in pending)
    && (forall p, c :: p in found && IsChild(kids, p, c) ==> c in found || c in pending)
    && (forall p :: p in found || p in pending ==> p == root || p in Listed(kids))
  }

  lemma WalkSkip(kids: Children, root: int, pending: seq<int>, found: set<int>)
    requires pending != [] && pending[|pending| - 1] in found && Walking(kids, root, pending, found)
    ensures Walking(kids, root, pending[..|pending| - 1], found)
  {
    InFront(pending);
  }

  /** Only the last element can be missing from what is in front of it. */
  lemma InFront(xs: seq<int>)
    requires xs != []
    ensures forall x :: x in xs ==> x in xs[..|xs| - 1] || x == xs[|xs| - 1]
    ensures forall x :: x in xs[..|xs| - 1] ==> x in xs
  {
    assert xs == xs[..|xs| - 1] + [xs[|xs| - 1]];
  }

  lemma WalkVisit(kids: Children, root: int, pending: seq<int>, found: set<int>, more: seq<int>)
    requires pending != [] && Walking(kids, root, pending, found)
    requires more == if pending[|pending| - 1] in kids then kids[pending[|pending| - 1]] else []
    ensures Walking(kids, root, pending[..|pending| - 1] + more, found + {pending[|pending| - 1]})
  {
    InFront(pending);
    var pid := pending[|pending| - 1];
    assert forall c :: c in more <==> IsChild(kids, pid, c);
    forall c | c in more ensures Reaches(kids, root, c) && c in Listed(kids) {
      ReachesChild(kids, root, pid, c);
    }
  }

  /** When nothing is pending, exactly what the root reaches has been found. */
  lemma WalkDone(kids: Children, root: int, found: set<int>)
    requires Walking(kids, root, [], found)
    ensures forall p :: p in found <==> Reaches(kids, root, p)
  {
    forall p | Reaches(kids, root, p) ensures p in found {
      var path :| |path| > 0 && path[0] == root && path[|path| - 1] == p && Descends(kids, path);
      ClosedReaches(kids, found, path);
    }
  }

  predicate Increasing(xs: seq<int>) {
    forall i, j :: 0 <= i < j < |xs| ==> xs[i] < xs[j]
  }

  lemma EmptyOrNot(s: set<int>)
    ensures s == {} || exists x :: x in s
  {
    if forall x :: x !in s { assert s == {}; }
  }

  lemma {:induction false} LeastExists(s: set<int>)
    requires s != {}
    ensures exists m :: m in s && forall x :: x in s ==> m <= x
  {
    EmptyOrNot(s);
    var x :| x in s;
    var rest := s - {x};
    if rest == {} {
      assert s == {x};
    } else {
      LeastExists(rest);
      var m :| m in rest && forall y :: y in rest ==> m <= y;
      var best := if m < x then m else x;
      assert best in s && forall y :: y in s ==> y == x || y in rest;
    }
  }

  /** `sorted` of a set. */
  method SortedSet(s: set<int>) returns (xs: seq<int>)
    ensures Increasing(xs) && forall x :: x in xs <==> x in s
  {
    xs := [];
    var left := s;
    while left != {}
      invariant Increasing(xs) && left <= s && forall x :: x in s <==> x in xs || x in left
      invariant forall i, y :: 0 <= i < |xs| && y in left ==> xs[i] < y
      decreases left
    {
      LeastExists(left);
      var m :| m in left && forall x :: x in left ==> m <= x;
      xs := xs + [m];
      left := left - {m};
    }
  }

  /** The pids reachable from the root, once each and in order, for any child lists: shared, cyclic
      or unreadable. */
  method ProcessTreePids(kids: Children, root: int) returns (pids: seq<int>)
    ensures Increasing(pids)
    ensures forall p :: p in pids <==> Reaches(kids, root, p)
  {
    var pending := [root];
    var found: set<int> := {};
    ReachesSelf(kids, root);
    while pending != []
      invariant Walking(kids, root, pending, found)
      decreases Listed(kids) + {root} - found, |pending|
    {
      var pid := pending[|pending| - 1];
      if pid in found {
        WalkSkip(kids, root, pending, found);
        pending := pending[..|pending| - 1];
        continue;
      }
      var children := if pid in kids then kids[pid] else [];
      WalkVisit(kids, root, pending, found, children);
      assert pid in Listed(kids) + {root};
      found := found + {pid};
      pending := pending[..|pending| - 1] + children;
    }
    WalkDone(kids, root, found);
    pids := SortedSet(found);
  }
}
