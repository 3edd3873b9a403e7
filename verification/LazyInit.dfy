/** Double-checked lazy initialisation under an asyncio lock, for any number of tasks.

    A task looks at the guard field, takes the lock, looks again, and then builds the shared state
    in stages: what it assigns between two awaits is one stage. Tasks interleave at the awaits only,
    and an await may raise. */
module LazyInit {
  import opened Options

  datatype Field = PostgresPeer | HttpPeer | Database | Upstream | Client | Connection | Http | HttpStarted | Pool

  /** The fields each stage assigns, the field both checks look at, and the stage that assigns it. */
  datatype Design = Design(stages: seq<set<Field>>, guard: Field, at: nat)

  predicate WellFormed(d: Design) {
    d.at < |d.stages| && forall k :: 0 <= k < |d.stages| ==> (d.guard in d.stages[k] <==> k == d.at)
  }

  /** The fields assigned by the first `k` stages. */
  function Upto(d: Design, k: nat): set<Field>
    requires k <= |d.stages|
  {
    if k == 0 then {} else Upto(d, k - 1) + d.stages[k - 1]
  }

  function Complete(d: Design): set<Field> {
    Upto(d, |d.stages|)
  }

  /** `Building(k)` has finished `k` stages and waits for the await after them. */
  datatype Task = Start | Waiting | Building(done: nat) | Returned(seen: set<Field>) | Failed

  /** The shared fields that are set, who holds the lock, how often the guard was assigned, the tasks. */
  datatype World = World(fields: set<Field>, holder: Option<nat>, published: nat, tasks: seq<Task>)

  const BLANK := World({}, None, 0, [])

  /** `Enter` is the unlocked check, `Acquire` taking the lock up to the first await, `Resume` one
      await completing, `Raise` one raising or being cancelled. */
  datatype Action = Spawn | Enter(task: nat) | Acquire(task: nat) | Resume(task: nat) | Raise(task: nat)

  predicate Enabled(d: Design, w: World, a: Action) {
    match a
    case Spawn => true
    case Enter(i) => i < |w.tasks| && w.tasks[i].Start?
    case Acquire(i) => i < |w.tasks| && w.tasks[i].Waiting? && w.holder.None?
    case Resume(i) => i < |w.tasks| && w.tasks[i].Building? && w.tasks[i].done < |d.stages|
    case Raise(i) => i < |w.tasks| && (w.tasks[i].Waiting? || w.tasks[i].Building?)
  }

  /** Run stage `k` up to the next await; the last one releases the lock and returns. */
  function Stage(d: Design, w: World, i: nat, k: nat): World
    requires i < |w.tasks| && k < |d.stages|
  {
    var fields := w.fields + d.stages[k];
    var published := w.published + if d.guard in d.stages[k] then 1 else 0;
    if k + 1 < |d.stages| then World(fields, Some(i), published, w.tasks[i := Building(k + 1)])
    else World(fields, None, published, w.tasks[i := Returned(fields)])
  }

  function Do(d: Design, w: World, a: Action): World
    requires WellFormed(d) && Enabled(d, w, a)
  {
    match a
    case Spawn => w.(tasks := w.tasks + [Start])
    case Enter(i) =>
      w.(tasks := w.tasks[i := if d.guard in w.fields then Returned(w.fields) else Waiting])
    case Acquire(i) =>
      if d.guard in w.fields then w.(tasks := w.tasks[i := Returned(w.fields)]) else Stage(d, w, i, 0)
    case Resume(i) => Stage(d, w, i, w.tasks[i].done)
    case Raise(i) =>
      w.(tasks := w.tasks[i := Failed], holder := if w.tasks[i].Building? then None else w.holder)
  }

  /** A run: every action is enabled where it happens. */
  predicate Runs(d: Design, w: World, acts: seq<Action>)
    requires WellFormed(d)
    decreases |acts|
  {
    acts == [] || (Enabled(d, w, acts[0]) && Runs(d, Do(d, w, acts[0]), acts[1..]))
  }

  function After(d: Design, w: World, acts: seq<Action>): World
    requires WellFormed(d) && Runs(d, w, acts)
    decreases |acts|
  {
    if acts == [] then w else After(d, Do(d, w, acts[0]), acts[1..])
  }

  // ---- What every interleaving keeps -----------------------------------------------------------

  predicate TaskInv(d: Design, w: World, i: nat)
    requires WellFormed(d) && i < |w.tasks|
  {
    match w.tasks[i]
    case Building(k) =>
      w.holder == Some(i) && 1 <= k < |d.stages| && Upto(d, k) <= w.fields && (d.guard in w.fields <==> k > d.at)
    case Returned(seen) => Upto(d, d.at + 1) <= seen <= w.fields
    case _ => w.holder != Some(i)
  }

  predicate Inv(d: Design, w: World)
    requires WellFormed(d)
  {
    (forall i :: 0 <= i < |w.tasks| ==> TaskInv(d, w, i))
    && (w.holder.Some? ==> w.holder.value < |w.tasks| && w.tasks[w.holder.value].Building?)
    && w.fields <= Complete(d)
    && (d.guard in w.fields ==> Upto(d, d.at + 1) <= w.fields)
    && w.published == if d.guard in w.fields then 1 else 0
  }

  lemma {:induction false} UptoMonotone(d: Design, j: nat, k: nat)
    requires j <= k <= |d.stages|
    ensures Upto(d, j) <= Upto(d, k)
  {
    if j < k { UptoMonotone(d, j, k - 1); }
  }

  /** The guard is among the first `k` stages' fields exactly after its own stage. */
  lemma {:induction false} GuardUpto(d: Design, k: nat)
    requires WellFormed(d) && k <= |d.stages|
    ensures d.guard in Upto(d, k) <==> k > d.at
  {
    if k > 0 { GuardUpto(d, k - 1); }
  }

  lemma StageInv(d: Design, w: World, i: nat, k: nat)
    requires WellFormed(d) && Inv(d, w) && i < |w.tasks| && k < |d.stages|
    requires Upto(d, k) <= w.fields && (d.guard in w.fields <==> k > d.at)
    requires (w.holder == None && w.tasks[i].Waiting? && k == 0) || w.tasks[i] == Building(k)
    ensures Inv(d, Stage(d, w, i, k))
  {
    var v := Stage(d, w, i, k);
    UptoMonotone(d, k + 1, |d.stages|);
    UptoMonotone(d, d.at + 1, |d.stages|);
    GuardUpto(d, k + 1);
    GuardUpto(d, d.at + 1);
    assert TaskInv(d, w, i);
    forall j | 0 <= j < |v.tasks| ensures TaskInv(d, v, j) {
      assert TaskInv(d, w, j);
    }
  }

  lemma DoInv(d: Design, w: World, a: Action)
    requires WellFormed(d) && Inv(d, w) && Enabled(d, w, a)
    ensures Inv(d, Do(d, w, a))
  {
    if a.Resume? {
      assert TaskInv(d, w, a.task);
      StageInv(d, w, a.task, w.tasks[a.task].done);
    } else if a.Acquire? && d.guard !in w.fields {
      StageInv(d, w, a.task, 0);
    } else {
      var v := Do(d, w, a);
      assert !a.Spawn? ==> TaskInv(d, w, a.task);
      forall j | 0 <= j < |v.tasks| ensures TaskInv(d, v, j) {
        if j < |w.tasks| { assert TaskInv(d, w, j); }
      }
    }
  }

  lemma {:induction false} RunInv(d: Design, w: World, acts: seq<Action>)
    requires WellFormed(d) && Inv(d, w) && Runs(d, w, acts)
    ensures Inv(d, After(d, w, acts))
    decreases |acts|
  {
    if acts != [] {
      DoInv(d, w, acts[0]);
      RunInv(d, Do(d, w, acts[0]), acts[1..]);
    }
  }

  predicate OneBuilder(w: World) {
    forall i, j :: 0 <= i < |w.tasks| && 0 <= j < |w.tasks| && w.tasks[i].Building? && w.tasks[j].Building? ==> i == j
  }

  /** In every interleaving of any number of tasks, with failures: one task builds at a time, the guard
      is assigned at most once, and whoever returns sees every field assigned no later than the guard. */
  lemma SafePublication(d: Design, acts: seq<Action>)
    requires WellFormed(d) && Runs(d, BLANK, acts)
    ensures var w := After(d, BLANK, acts);
            OneBuilder(w) && w.published <= 1
            && forall i :: 0 <= i < |w.tasks| && w.tasks[i].Returned? ==>
                 Upto(d, d.at + 1) <= w.tasks[i].seen <= Complete(d)
  {
    RunInv(d, BLANK, acts);
    var w := After(d, BLANK, acts);
    forall i | 0 <= i < |w.tasks|
      ensures w.tasks[i].Building? ==> w.holder == Some(i)
      ensures w.tasks[i].Returned? ==> Upto(d, d.at + 1) <= w.tasks[i].seen <= Complete(d)
    {
      assert TaskInv(d, w, i);
    }
  }

  /** Once the guard is set and nobody builds, no run changes a field again: a builder that raised
      past its guard leaves what it missed unset for good. */
  lemma {:induction false} Settled(d: Design, w: World, acts: seq<Action>)
    requires WellFormed(d) && Inv(d, w) && d.guard in w.fields && w.holder.None? && Runs(d, w, acts)
    ensures After(d, w, acts).fields == w.fields && After(d, w, acts).holder.None?
    decreases |acts|
  {
    if acts != [] {
      DoInv(d, w, acts[0]);
      forall i | 0 <= i < |w.tasks| ensures !w.tasks[i].Building? {
        assert TaskInv(d, w, i);
      }
      Settled(d, Do(d, w, acts[0]), acts[1..]);
    }
  }

  // ---- When every return sees everything ---------------------------------------------------------

  /** Whoever returns, in whatever run, sees the complete state. */
  ghost predicate ReturnsComplete(d: Design)
    requires WellFormed(d)
  {
    forall acts, i :: Runs(d, BLANK, acts) && 0 <= i < |After(d, BLANK, acts).tasks| ==>
      SeesAll(d, After(d, BLANK, acts).tasks[i])
  }

  predicate SeesAll(d: Design, t: Task) {
    t.Returned? ==> t.seen == Complete(d)
  }

  lemma {:induction false} RunsAppend(d: Design, w: World, acts: seq<Action>, a: Action)
    requires WellFormed(d) && Runs(d, w, acts) && Enabled(d, After(d, w, acts), a)
    ensures Runs(d, w, acts + [a]) && After(d, w, acts + [a]) == Do(d, After(d, w, acts), a)
    decreases |acts|
  {
    if acts == [] {
      assert acts + [a] == [a] && [a][1..] == [];
    } else {
      assert (acts + [a])[0] == acts[0] && (acts + [a])[1..] == acts[1..] + [a];
      RunsAppend(d, Do(d, w, acts[0]), acts[1..], a);
    }
  }

  /** One task alone, up to the await after stage `k`. */
  lemma {:induction false} Lone(d: Design, k: nat) returns (acts: seq<Action>)
    requires WellFormed(d) && 1 <= k < |d.stages| && k <= d.at + 1
    ensures Runs(d, BLANK, acts)
    ensures After(d, BLANK, acts) == World(Upto(d, k), Some(0), if k > d.at then 1 else 0, [Building(k)])
    decreases k
  {
    if k == 1 {
      RunsAppend(d, BLANK, [], Spawn);
      RunsAppend(d, BLANK, [Spawn], Enter(0));
      RunsAppend(d, BLANK, [Spawn, Enter(0)], Acquire(0));
      acts := [Spawn, Enter(0), Acquire(0)];
      assert [] + [Spawn] == [Spawn];
      assert [Spawn] + [Enter(0)] == [Spawn, Enter(0)];
      assert [Spawn, Enter(0)] + [Acquire(0)] == acts;
      assert Upto(d, 1) == Upto(d, 0) + d.stages[0];
    } else {
      var before := Lone(d, k - 1);
      GuardUpto(d, k - 1);
      RunsAppend(d, BLANK, before, Resume(0));
      acts := before + [Resume(0)];
    }
  }

  /** Unless the guard's stage is the last, a second task can return while the first still builds,
      seeing the fields assigned so far and no others. */
  lemma EarlyReturn(d: Design) returns (acts: seq<Action>)
    requires WellFormed(d) && d.at + 1 < |d.stages|
    ensures Runs(d, BLANK, acts) && After(d, BLANK, acts).tasks == [Building(d.at + 1), Returned(Upto(d, d.at + 1))]
  {
    var alone := Lone(d, d.at + 1);
    GuardUpto(d, d.at + 1);
    RunsAppend(d, BLANK, alone, Spawn);
    RunsAppend(d, BLANK, alone + [Spawn], Enter(1));
    acts := alone + [Spawn] + [Enter(1)];
  }

  /** A task that raises right after publishing the guard loses the fields it had not assigned: no
      continuation, by any tasks, ever assigns them. */
  lemma LostForGood(d: Design) returns (acts: seq<Action>)
    requires WellFormed(d) && d.at + 1 < |d.stages|
    ensures Runs(d, BLANK, acts)
    ensures forall more :: Runs(d, After(d, BLANK, acts), more) ==>
              After(d, After(d, BLANK, acts), more).fields == Upto(d, d.at + 1)
  {
    var alone := Lone(d, d.at + 1);
    GuardUpto(d, d.at + 1);
    RunsAppend(d, BLANK, alone, Raise(0));
    acts := alone + [Raise(0)];
    RunInv(d, BLANK, acts);
    var w := After(d, BLANK, acts);
    forall more | Runs(d, w, more) ensures After(d, w, more).fields == Upto(d, d.at + 1) {
      Settled(d, w, more);
    }
  }

  /** Every return sees the complete state, in every run, exactly when no field is assigned for the
      first time after the await that follows the guard. */
  lemma CompleteExactly(d: Design)
    requires WellFormed(d)
    ensures ReturnsComplete(d) <==> Upto(d, d.at + 1) == Complete(d)
  {
    if Upto(d, d.at + 1) == Complete(d) {
      forall acts, i | Runs(d, BLANK, acts) && 0 <= i < |After(d, BLANK, acts).tasks|
        ensures SeesAll(d, After(d, BLANK, acts).tasks[i])
      {
        SafePublication(d, acts);
      }
    } else {
      var acts := EarlyReturn(d);
      assert !SeesAll(d, After(d, BLANK, acts).tasks[1]);
    }
  }

  // ---- Whoever asks can be served ------------------------------------------------------------------

  /** How many of a task's awaits a run completes. */
  function Resumes(acts: seq<Action>, i: nat): nat {
    if acts == [] then 0 else (if acts[0] == Resume(i) then 1 else 0) + Resumes(acts[1..], i)
  }

  /** Where a builder that has finished `k` stages stands: at the end it has returned the whole state. */
  function Reached(d: Design, k: nat): Task {
    if k < |d.stages| then Building(k) else Returned(Complete(d))
  }

  /** The last stage hands back all there is. */
  lemma StageReached(d: Design, w: World, i: nat, k: nat)
    requires WellFormed(d) && Inv(d, w) && i < |w.tasks| && k < |d.stages| && Upto(d, k) <= w.fields
    ensures Stage(d, w, i, k).tasks == w.tasks[i := Reached(d, k + 1)]
    ensures Stage(d, w, i, k).holder == if k + 1 < |d.stages| then Some(i) else None
  {
    UptoMonotone(d, k + 1, |d.stages|);
    assert Upto(d, k + 1) == Upto(d, k) + d.stages[k];
    if k + 1 == |d.stages| {
      assert w.fields + d.stages[k] == Complete(d);
    }
  }

  /** In every run from any reachable world, whatever the other tasks do: a builder that does not raise
      has after `n` more awaits done `n` more stages, and with the last one returned the complete state. */
  lemma {:induction false} BuilderReturns(d: Design, w: World, acts: seq<Action>, i: nat)
    requires WellFormed(d) && Inv(d, w) && Runs(d, w, acts) && Raise(i) !in acts
    requires i < |w.tasks| && (w.tasks[i].Building? || w.tasks[i] == Returned(Complete(d)))
    ensures i < |After(d, w, acts).tasks|
    ensures var k := if w.tasks[i].Building? then w.tasks[i].done else |d.stages|;
            After(d, w, acts).tasks[i] == Reached(d, k + Resumes(acts, i))
    decreases |acts|
  {
    assert TaskInv(d, w, i);
    if acts != [] {
      var a, v := acts[0], Do(d, w, acts[0]);
      DoInv(d, w, a);
      assert a in acts;
      if a.Resume? {
        assert TaskInv(d, w, a.task);
        StageReached(d, w, a.task, w.tasks[a.task].done);
      }
      BuilderReturns(d, v, acts[1..], i);
    }
  }

  /** A task that finds the lock free returns what is there, or is the builder. */
  lemma AcquireServes(d: Design, w: World, i: nat)
    requires WellFormed(d) && Inv(d, w) && Enabled(d, w, Acquire(i))
    ensures var t := Do(d, w, Acquire(i)).tasks[i];
            if d.guard in w.fields then t == Returned(w.fields) else t == Reached(d, 1)
  {
    if d.guard !in w.fields { StageReached(d, w, i, 0); }
  }

  lemma {:induction false} RunsThen(d: Design, w: World, a: seq<Action>, b: seq<Action>)
    requires WellFormed(d) && Runs(d, w, a) && Runs(d, After(d, w, a), b)
    ensures Runs(d, w, a + b) && After(d, w, a + b) == After(d, After(d, w, a), b)
    decreases |a|
  {
    if a == [] {
      assert a + b == b;
    } else {
      assert (a + b)[0] == a[0] && (a + b)[1..] == a[1..] + b;
      RunsThen(d, Do(d, w, a[0]), a[1..], b);
    }
  }

  lemma OneAction(d: Design, w: World, a: Action)
    requires WellFormed(d) && Enabled(d, w, a)
    ensures Runs(d, w, [a]) && After(d, w, [a]) == Do(d, w, a)
  {
    assert [a][1..] == [];
    assert After(d, Do(d, w, a), []) == Do(d, w, a);
  }

  /** A builder left to itself returns the complete state and frees the lock; nobody else is touched. */
  lemma {:induction false} Finish(d: Design, w: World, i: nat) returns (acts: seq<Action>)
    requires WellFormed(d) && Inv(d, w) && i < |w.tasks| && w.tasks[i].Building?
    ensures Runs(d, w, acts)
    ensures var v := After(d, w, acts);
            Inv(d, v) && v.holder == None && d.guard in v.fields && v.tasks == w.tasks[i := Returned(Complete(d))]
    decreases |d.stages| - w.tasks[i].done
  {
    assert TaskInv(d, w, i);
    var k := w.tasks[i].done;
    var v := Do(d, w, Resume(i));
    StageReached(d, w, i, k);
    DoInv(d, w, Resume(i));
    OneAction(d, w, Resume(i));
    if k + 1 < |d.stages| {
      var more := Finish(d, v, i);
      RunsThen(d, w, [Resume(i)], more);
      acts := [Resume(i)] + more;
      assert v.tasks[i := Returned(Complete(d))] == w.tasks[i := Returned(Complete(d))];
    } else {
      acts := [Resume(i)];
      assert TaskInv(d, v, i);
      GuardUpto(d, d.at + 1);
    }
  }

  /** The lock can always be had again. */
  lemma FreeLock(d: Design, w: World, i: nat) returns (acts: seq<Action>)
    requires WellFormed(d) && Inv(d, w) && i < |w.tasks| && w.tasks[i].Waiting?
    ensures Runs(d, w, acts)
    ensures var v := After(d, w, acts); Inv(d, v) && v.holder == None && |v.tasks| == |w.tasks| && v.tasks[i].Waiting?
  {
    if w.holder.Some? {
      assert TaskInv(d, w, i);
      acts := Finish(d, w, w.holder.value);
    } else {
      acts := [];
    }
  }

  lemma WaiterServed(d: Design, w: World, i: nat) returns (acts: seq<Action>)
    requires WellFormed(d) && Inv(d, w) && i < |w.tasks| && w.tasks[i].Waiting?
    ensures Runs(d, w, acts)
    ensures |After(d, w, acts).tasks| == |w.tasks| && After(d, w, acts).tasks[i].Returned?
  {
    var free := FreeLock(d, w, i);
    var u := After(d, w, free);
    var v := Do(d, u, Acquire(i));
    AcquireServes(d, u, i);
    DoInv(d, u, Acquire(i));
    OneAction(d, u, Acquire(i));
    RunsThen(d, w, free, [Acquire(i)]);
    acts := free + [Acquire(i)];
    if v.tasks[i].Building? {
      var more := Finish(d, v, i);
      RunsThen(d, w, acts, more);
      acts := acts + more;
    }
  }

  /** From every reachable world, every task that has not failed can still be brought to return: no
      interleaving, and no failure, leaves the lock stuck. */
  lemma NobodyStuck(d: Design, acts: seq<Action>, i: nat) returns (more: seq<Action>)
    requires WellFormed(d) && Runs(d, BLANK, acts)
    requires i < |After(d, BLANK, acts).tasks| && !After(d, BLANK, acts).tasks[i].Failed?
    ensures var w := After(d, BLANK, acts);
            Runs(d, w, more) && i < |After(d, w, more).tasks| && After(d, w, more).tasks[i].Returned?
  {
    RunInv(d, BLANK, acts);
    var w := After(d, BLANK, acts);
    match w.tasks[i] {
      case Start =>
        OneAction(d, w, Enter(i));
        DoInv(d, w, Enter(i));
        more := [Enter(i)];
        var v := Do(d, w, Enter(i));
        if v.tasks[i].Waiting? {
          var later := WaiterServed(d, v, i);
          RunsThen(d, w, more, later);
          more := more + later;
        }
      case Waiting => more := WaiterServed(d, w, i);
      case Building(_) => more := Finish(d, w, i);
      case Returned(_) => more := [];
    }
  }

  /** Alone and without a failure, a task gets the complete state. */
  lemma LoneReturns(d: Design) returns (acts: seq<Action>)
    requires WellFormed(d)
    ensures Runs(d, BLANK, acts) && After(d, BLANK, acts) == World(Complete(d), None, 1, [Returned(Complete(d))])
  {
    var a := [Spawn, Enter(0)];
    RunsAppend(d, BLANK, [], Spawn);
    RunsAppend(d, BLANK, [Spawn], Enter(0));
    assert [] + [Spawn] == [Spawn] && [Spawn] + [Enter(0)] == a;
    RunInv(d, BLANK, a);
    var w := After(d, BLANK, a);
    AcquireServes(d, w, 0);
    DoInv(d, w, Acquire(0));
    RunsAppend(d, BLANK, a, Acquire(0));
    acts := a + [Acquire(0)];
    var v := Do(d, w, Acquire(0));
    if v.tasks[0].Building? {
      var more := Finish(d, v, 0);
      RunsThen(d, BLANK, acts, more);
      acts := acts + more;
    }
    RunInv(d, BLANK, acts);
    assert TaskInv(d, After(d, BLANK, acts), 0);
    GuardUpto(d, d.at + 1);
  }

  // ---- The repository's own instances --------------------------------------------------------------

  /** `ensure_e2e_peer`: four awaits, then one update publishes everything. */
  const E2E_PEER := Design([{}, {}, {}, {}, {Database, Upstream, Client, Connection}], Connection, 4)

  /** `_AsyncpgDatabase.pool`: one await, one field. */
  const POOL := Design([{}, {Pool}], Pool, 1)

  /** `_Dependencies.wreath`: the guard is published two awaits before the client has started. */
  const STACK_WREATH :=
    Design([{PostgresPeer}, {}, {Database, HttpPeer}, {Http}, {HttpStarted}], Database, 2)

  /** `_Dependencies.fastapi` and the holistic `_Dependencies.ensure`. */
  const STACK_FASTAPI := Design([{PostgresPeer}, {}, {Database, HttpPeer}, {Http}], Database, 2)

  lemma Unfold(d: Design, k: nat)
    requires 0 < k <= |d.stages|
    ensures Upto(d, k) == Upto(d, k - 1) + d.stages[k - 1]
  {
  }

  /** The two single publications are complete for whoever returns, and one task alone does return. */
  lemma PeerAndPoolAreSafe()
    ensures WellFormed(E2E_PEER) && WellFormed(POOL)
    ensures ReturnsComplete(E2E_PEER) && ReturnsComplete(POOL)
    ensures Complete(E2E_PEER) == {Database, Upstream, Client, Connection} && Complete(POOL) == {Pool}
    ensures exists acts :: Runs(E2E_PEER, BLANK, acts)
              && After(E2E_PEER, BLANK, acts).tasks == [Returned({Database, Upstream, Client, Connection})]
    ensures exists acts :: Runs(POOL, BLANK, acts) && After(POOL, BLANK, acts).tasks == [Returned({Pool})]
  {
    CompleteExactly(E2E_PEER);
    CompleteExactly(POOL);
    AllFields();
    var peer := LoneReturns(E2E_PEER);
    var pool := LoneReturns(POOL);
  }

  lemma AllFields()
    ensures Complete(E2E_PEER) == {Database, Upstream, Client, Connection} && Complete(POOL) == {Pool}
  {
    Unfold(E2E_PEER, 1);
    Unfold(E2E_PEER, 2);
    Unfold(E2E_PEER, 3);
    Unfold(E2E_PEER, 4);
    Unfold(E2E_PEER, 5);
    Unfold(POOL, 1);
    Unfold(POOL, 2);
  }

  /** `_Dependencies` promises its callers the database side and no more: some run returns with no
      HTTP client, the state `holistic` refuses to work with. */
  lemma DependenciesReturnEarly(d: Design)
    requires d == STACK_WREATH || d == STACK_FASTAPI
    ensures WellFormed(d) && Upto(d, d.at + 1) == {PostgresPeer, Database, HttpPeer} && Http in Complete(d)
    ensures !ReturnsComplete(d)
    ensures exists acts :: Runs(d, BLANK, acts)
              && After(d, BLANK, acts).tasks == [Building(3), Returned({PostgresPeer, Database, HttpPeer})]
  {
    Unfold(d, 1);
    Unfold(d, 2);
    Unfold(d, 3);
    Unfold(d, 4);
    if d == STACK_WREATH { Unfold(d, 5); }
    var acts := EarlyReturn(d);
    CompleteExactly(d);
  }
}
