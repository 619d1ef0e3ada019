/** Progress of a running pool, and the end of a pool that is being closed. */
module PoolProgress {
  import opened Common
  import opened Pool
  import Safety = PoolSafety
  import Delivery = PoolDelivery

  // ---------------------------------------------------------------- a running pool

  /** How far a worker is from its next wait; a queued task weighs more than all of these. */
  function Distance(pc: Pc): nat {
    match pc
    case Starting => 9
    case Running(_) => 8
    case Called(_, _) => 7
    case Tested(_, _) => 6
    case Ready(_, _) => 5
    case AtLock => 4
    case Notified => 4
    case Passed => 3
    case Popping => 2
    case Checked => 1
    case Blocked => 0
    case Exited => 0
  }

  function TotalDistance(workers: seq<Pc>): nat {
    if workers == [] then 0 else TotalDistance(workers[..|workers| - 1]) + Distance(workers[|workers| - 1])
  }

  function TotalQueued(tasks: seq<seq<Item>>): nat {
    if tasks == [] then 0 else TotalQueued(tasks[..|tasks| - 1]) + |tasks[|tasks| - 1]|
  }

  /** The work that is left: queued tasks, tasks in hand and pending notifications. */
  function Work(s: State): nat { 10 * TotalQueued(s.tasks) + TotalDistance(s.workers) }

  lemma {:induction false} DistanceUpdate(w: seq<Pc>, i: nat, pc: Pc)
    requires i < |w|
    ensures TotalDistance(w[i := pc]) + Distance(w[i]) == TotalDistance(w) + Distance(pc)
  {
    hide Distance;
    var init := w[..|w| - 1];
    if i < |w| - 1 {
      DistanceUpdate(init, i, pc);
      assert w[i := pc][..|w| - 1] == init[i := pc];
    } else {
      assert w[i := pc][..|w| - 1] == init;
    }
  }

  lemma {:induction false} QueuedUpdate(q: seq<seq<Item>>, i: nat, x: seq<Item>)
    requires i < |q|
    ensures TotalQueued(q[i := x]) + |q[i]| == TotalQueued(q) + |x|
  {
    var init := q[..|q| - 1];
    if i < |q| - 1 {
      QueuedUpdate(init, i, x);
      assert q[i := x][..|q| - 1] == init[i := x];
    } else {
      assert q[i := x][..|q| - 1] == init;
    }
  }

  /** Worker actions other than spurious wakeups. */
  predicate Moves(a: Action) { WorkerAction(a) && !a.Wake? }

  /** Every step of a worker except a spurious wakeup reduces the work that is left. */
  lemma WorkDecreases(s: State, a: Action)
    requires Safety.Inv(s) && Moves(a) && Enabled(s, a)
    ensures Work(Apply(s, a)) < Work(s)
  {
    hide TotalDistance, TotalQueued;
    var t := Apply(s, a);
    assert Safety.WorkerInv(s, a.i);
    assert t.workers == s.workers[a.i := t.workers[a.i]];
    DistanceUpdate(s.workers, a.i, t.workers[a.i]);
    if a.Pop? {
      QueuedUpdate(s.tasks, a.i, t.tasks[a.i]);
    }
  }

  /** Every worker has reached the loop and none has left it, and every queue has its worker. */
  ghost predicate AllInLoop(s: State) {
    |s.workers| == |s.tasks| && forall i :: 0 <= i < |s.workers| ==> !s.workers[i].Starting? && !s.workers[i].Exited?
  }

  /** The step that a worker can take next, given that the lock is free or its own. */
  function NextMove(s: State, i: nat): (a: Action)
    requires i < |s.workers| && !s.workers[i].Blocked? && !s.workers[i].Exited?
    ensures Moves(a) && a.i == i
  {
    match s.workers[i]
    case Starting => Enter(i)
    case AtLock => Check(i)
    case Notified => Check(i)
    case Checked => Block(i)
    case Passed => TestShutdown(i)
    case Popping => Pop(i)
    case Running(item) => if Special(item.task.body) then Echo(i) else Fail(i)
    case Called(_, _) => StatTest(i)
    case Tested(_, _) => StatDec(i)
    case Ready(_, _) => Publish(i)
  }

  /** The lock holder can always move, and when the lock is free every worker that is not asleep or gone can. */
  lemma SomeoneMoves(s: State, i: nat)
    requires Safety.Inv(s) && i < |s.workers| && !s.workers[i].Blocked? && !s.workers[i].Exited?
    ensures exists a :: Moves(a) && Enabled(s, a)
  {
    var j := if s.owner.Some? then s.owner.value else i;
    assert Safety.WorkerInv(s, j);
    assert Enabled(s, NextMove(s, j));
  }

  /** No worker can move. */
  ghost predicate Stuck(s: State) { forall a :: Moves(a) ==> !Enabled(s, a) }

  /** A running pool in which no worker can move has nothing left to do: all queues and hands are empty, and every
      pushed task has been answered or has failed, in push order within its shard. */
  lemma StuckMeansDrained(s: State)
    requires Safety.Inv(s) && Delivery.Inv(s) && AllInLoop(s) && Stuck(s)
    ensures forall i: nat :: i < |s.tasks| ==>
              && s.workers[i].Blocked? && s.tasks[i] == []
              && Delivery.Answered(s.handedOut + s.results, i, |s.tasks|)
              == Delivery.Surviving(s.pushed, s.failed, i, |s.tasks|)
  {
    forall i: nat | i < |s.tasks|
      ensures s.workers[i].Blocked? && s.tasks[i] == []
      ensures Delivery.Answered(s.handedOut + s.results, i, |s.tasks|)
           == Delivery.Surviving(s.pushed, s.failed, i, |s.tasks|)
    {
      if !s.workers[i].Blocked? {
        SomeoneMoves(s, i);
        assert false;
      }
      assert Safety.WorkerInv(s, i) && Delivery.InOrder(s, i);
      Delivery.AddNothing(Delivery.Answered(s.handedOut + s.results, i, |s.tasks|));
    }
  }

  /** No push and no shutdown: workers move or wake up spuriously, answers are fetched, statistics are started. */
  predicate Undisturbed(a: Action) { WorkerAction(a) || a.GetResult? || a.StartStat? }

  ghost predicate AllUndisturbed(actions: seq<Action>) { forall k :: 0 <= k < |actions| ==> Undisturbed(actions[k]) }

  function MoveCount(actions: seq<Action>): nat {
    if actions == [] then 0 else (if Moves(actions[0]) then 1 else 0) + MoveCount(actions[1..])
  }

  function WakeCount(actions: seq<Action>): nat {
    if actions == [] then 0 else (if actions[0].Wake? then 1 else 0) + WakeCount(actions[1..])
  }

  lemma LoopKeeps(s: State, a: Action)
    requires Safety.Inv(s) && AllInLoop(s) && !s.shutdown && Undisturbed(a) && Enabled(s, a)
    ensures AllInLoop(Apply(s, a)) && !Apply(s, a).shutdown
  {
  }

  lemma WorkSteps(s: State, a: Action)
    requires Safety.Inv(s) && Undisturbed(a) && Enabled(s, a)
    ensures Work(Apply(s, a)) + (if Moves(a) then 1 else 0) <= Work(s) + if a.Wake? then 4 else 0
  {
    hide TotalDistance, TotalQueued;
    if Moves(a) {
      WorkDecreases(s, a);
    } else if a.Wake? {
      DistanceUpdate(s.workers, a.i, Notified);
    }
  }

  /** Progress: with no further pushes and no shutdown, workers that have all reached the loop take at most `Work(s)`
      steps and four more for every spurious wakeup, whatever the schedule; and a run that no worker can continue has
      answered or failed every task. */
  lemma {:induction false} Progress(s: State, actions: seq<Action>, t: State)
    requires Safety.Inv(s) && Delivery.Inv(s) && AllInLoop(s) && !s.shutdown
    requires AllUndisturbed(actions) && Path(s, actions, t)
    ensures MoveCount(actions) + Work(t) <= Work(s) + 4 * WakeCount(actions)
    ensures Stuck(t) ==> forall i: nat :: i < |t.tasks| ==>
              && t.tasks[i] == []
              && Delivery.Answered(t.handedOut + t.results, i, |t.tasks|)
              == Delivery.Surviving(t.pushed, t.failed, i, |t.tasks|)
    decreases |actions|
  {
    hide Work, Stuck, Delivery.Surviving, Delivery.Answered;
    if actions == [] {
      if Stuck(t) { StuckMeansDrained(t); }
    } else {
      var a := actions[0];
      assert Undisturbed(a);
      WorkSteps(s, a);
      LoopKeeps(s, a);
      Safety.InvStep(s, a);
      Delivery.InvStep(s, a);
      Progress(Apply(s, a), actions[1..], t);
    }
  }

  // ---------------------------------------------------------------- closing the pool

  /** How many steps a worker still takes once `shutdown_` is set and it has not gone to sleep. */
  function StepsToExit(pc: Pc): nat {
    match pc
    case Popping => 7
    case Running(_) => 6
    case Called(_, _) => 5
    case Tested(_, _) => 4
    case Ready(_, _) => 3
    case Starting => 3
    case AtLock => 2
    case Notified => 2
    case Passed => 1
    case Checked => 1
    case Blocked => 0
    case Exited => 0
  }

  lemma WorkerCloserToExit(s: State, a: Action, i: nat)
    requires Safety.Inv(s) && s.main.Joining? && Enabled(s, a) && WorkerAction(a) && i < |s.workers|
    ensures var t := Apply(s, a);
            && t.main.Joining? && |t.workers| == |s.workers|
            && (!Safety.Waits(s.workers[i]) ==> !Safety.Waits(t.workers[i]))
            && (Moves(a) && a.i == i ==> StepsToExit(t.workers[i]) < StepsToExit(s.workers[i]))
            && (!(Moves(a) && a.i == i) && !Safety.Waits(s.workers[i]) ==> t.workers[i] == s.workers[i])
  {
    assert Safety.WorkerInv(s, i);
  }

  /** While `CloseVM` joins, a worker that moves gets closer to its exit, and one that does not wait never waits. */
  lemma CloserToExit(s: State, a: Action, i: nat)
    requires Safety.Inv(s) && s.main.Joining? && Enabled(s, a) && !a.FinishJoin? && i < |s.workers|
    ensures var t := Apply(s, a);
            && t.main.Joining? && |t.workers| == |s.workers|
            && (!Safety.Waits(s.workers[i]) ==> !Safety.Waits(t.workers[i]))
            && (Moves(a) && a.i == i ==> StepsToExit(t.workers[i]) < StepsToExit(s.workers[i]))
            && (!(Moves(a) && a.i == i) && !Safety.Waits(s.workers[i]) ==> t.workers[i] == s.workers[i])
  {
    if WorkerAction(a) {
      hide *;
      WorkerCloserToExit(s, a, i);
    } else {
      hide StepsToExit;
    }
  }

  function OwnSteps(actions: seq<Action>, i: nat): nat {
    if actions == [] then 0
    else (if Moves(actions[0]) && actions[0].i == i then 1 else 0) + OwnSteps(actions[1..], i)
  }

  ghost predicate NoFinish(actions: seq<Action>) { forall k :: 0 <= k < |actions| ==> !actions[k].FinishJoin? }

  /** After `notify_all`, a worker that is not asleep exits after at most seven steps of its own, whatever everyone
      else does, pushes included; until then `CloseVM` keeps joining. */
  lemma {:induction false} BoundedExit(s: State, actions: seq<Action>, t: State, i: nat)
    requires Safety.Inv(s) && s.main.Joining? && i < |s.workers| && !Safety.Waits(s.workers[i])
    requires NoFinish(actions) && Path(s, actions, t)
    ensures t.main.Joining? && i < |t.workers| && !Safety.Waits(t.workers[i])
    ensures OwnSteps(actions, i) + StepsToExit(t.workers[i]) <= StepsToExit(s.workers[i]) <= 7
    decreases |actions|
  {
    if actions != [] {
      var a := actions[0];
      assert !a.FinishJoin?;
      CloserToExit(s, a, i);
      Safety.InvStep(s, a);
      hide Safety.Inv, Apply, Enabled, StepsToExit;
      BoundedExit(Apply(s, a), actions[1..], t, i);
    }
  }

  predicate MayPop(s: State, i: nat) { i < |s.workers| && s.workers[i].Popping? }

  function Pops(actions: seq<Action>, i: nat): nat {
    if actions == [] then 0 else (if actions[0] == Pop(i) then 1 else 0) + Pops(actions[1..], i)
  }

  ghost predicate NoCreate(actions: seq<Action>) { forall k :: 0 <= k < |actions| ==> !actions[k].Create? }

  lemma ShutdownStep(s: State, a: Action, i: nat)
    requires s.shutdown && Enabled(s, a) && !a.Create?
    ensures Apply(s, a).shutdown
    ensures MayPop(Apply(s, a), i) ==> MayPop(s, i) && a != Pop(i)
    ensures a == Pop(i) ==> MayPop(s, i)
  {
  }

  /** Once `shutdown_` is set a worker pops at most one more task, and only if it had already read `shutdown_` as
      false; so it finishes at most the task it holds. */
  lemma {:induction false} PopsAfterShutdown(s: State, actions: seq<Action>, t: State, i: nat)
    requires s.shutdown && NoCreate(actions) && Path(s, actions, t)
    ensures Pops(actions, i) + (if MayPop(t, i) then 1 else 0) <= if MayPop(s, i) then 1 else 0
    decreases |actions|
  {
    if actions != [] {
      var a := actions[0];
      assert !a.Create?;
      ShutdownStep(s, a, i);
      PopsAfterShutdown(Apply(s, a), actions[1..], t, i);
    }
  }

  /** When the join loop ends no task is in flight, and every queue holds its unprocessed tasks in push order behind
      everything answered. */
  lemma ClosedPool(s: State, i: nat)
    requires Delivery.Inv(s) && Enabled(s, FinishJoin) && i < |s.tasks|
    ensures var t := Apply(s, FinishJoin);
            && t.workers == [] && t.tasks == s.tasks
            && Delivery.Answered(t.handedOut + t.results, i, |t.tasks|) + t.tasks[i]
            == Delivery.Surviving(t.pushed, t.failed, i, |t.tasks|)
  {
    hide Delivery.Answered, Delivery.Surviving;
    assert Delivery.InOrder(s, i);
    Delivery.AddNothing(Delivery.Answered(s.handedOut + s.results, i, |s.tasks|));
  }

  // ---------------------------------------------------------------- workers that come and go

  /** A worker that returns before the loop never does anything again, and so takes no task; it stays until joined. */
  lemma LeaverServesNothing(s: State, i: nat, actions: seq<Action>, t: State)
    requires Enabled(s, Leave(i)) && NoFinish(actions) && Path(Apply(s, Leave(i)), actions, t)
    ensures i < |t.workers| && t.workers[i].Exited? && OwnSteps(actions, i) == 0
  {
    ExitedStays(Apply(s, Leave(i)), i, actions, t);
  }

  lemma ExitedStep(s: State, i: nat, a: Action)
    requires i < |s.workers| && s.workers[i].Exited? && Enabled(s, a) && !a.FinishJoin?
    ensures i < |Apply(s, a).workers| && Apply(s, a).workers[i].Exited? && !(Moves(a) && a.i == i)
  {
  }

  lemma {:induction false} ExitedStays(s: State, i: nat, actions: seq<Action>, t: State)
    requires i < |s.workers| && s.workers[i].Exited? && NoFinish(actions) && Path(s, actions, t)
    ensures i < |t.workers| && t.workers[i].Exited? && OwnSteps(actions, i) == 0
    decreases |actions|
  {
    if actions != [] {
      assert !actions[0].FinishJoin?;
      ExitedStep(s, i, actions[0]);
      ExitedStays(Apply(s, actions[0]), i, actions[1..], t);
    }
  }

  predicate InLoop(pc: Pc) { !pc.Starting? && !pc.Exited? }

  ghost predicate NoShutdown(actions: seq<Action>) { forall k :: 0 <= k < |actions| ==> !actions[k].SetShutdown? }

  /** A worker that reaches the loop stays in it until `shutdown_` is set, whatever its tasks do. */
  lemma EntrantStays(s: State, i: nat, actions: seq<Action>, t: State)
    requires Enabled(s, Enter(i)) && !s.shutdown
    requires NoFinish(actions) && NoShutdown(actions) && Path(Apply(s, Enter(i)), actions, t)
    ensures !t.shutdown && i < |t.workers| && InLoop(t.workers[i])
  {
    LoopStays(Apply(s, Enter(i)), i, actions, t);
  }

  lemma LoopStep(s: State, i: nat, a: Action)
    requires i < |s.workers| && InLoop(s.workers[i]) && !s.shutdown
    requires Enabled(s, a) && !a.FinishJoin? && !a.SetShutdown?
    ensures !Apply(s, a).shutdown && i < |Apply(s, a).workers| && InLoop(Apply(s, a).workers[i])
  {
  }

  lemma {:induction false} LoopStays(s: State, i: nat, actions: seq<Action>, t: State)
    requires i < |s.workers| && InLoop(s.workers[i]) && !s.shutdown
    requires NoFinish(actions) && NoShutdown(actions) && Path(s, actions, t)
    ensures !t.shutdown && i < |t.workers| && InLoop(t.workers[i])
    decreases |actions|
  {
    if actions != [] {
      assert !actions[0].FinishJoin? && !actions[0].SetShutdown?;
      LoopStep(s, i, actions[0]);
      hide InLoop;
      LoopStays(Apply(s, actions[0]), i, actions[1..], t);
    }
  }

  predicate Started(s: State, n: nat, queues: nat) {
    |s.tasks| == queues && ((s.main.Idle? && |s.workers| == n) || (s.main == Creating(n) && |s.workers| < n))
  }

  lemma StartedStep(s: State, n: nat, queues: nat, a: Action)
    requires Started(s, n, queues) && Enabled(s, a) && !a.Create? && !a.SetShutdown?
    ensures Started(Apply(s, a), n, queues)
  {
  }

  lemma {:induction false} StartedPath(s: State, n: nat, queues: nat, actions: seq<Action>, t: State)
    requires Started(s, n, queues) && NoCreate(actions) && NoShutdown(actions) && Path(s, actions, t)
    ensures Started(t, n, queues)
    decreases |actions|
  {
    if actions != [] {
      assert !actions[0].Create? && !actions[0].SetShutdown?;
      StartedStep(s, n, queues, actions[0]);
      hide Started;
      StartedPath(Apply(s, actions[0]), n, queues, actions[1..], t);
    }
  }

  /** When `Create` has returned there are exactly `threads` workers, and as many queues as workers the first time and
      as many as before on a reboot. */
  lemma CreateStarts(s: State, threads: nat, reboot: bool, actions: seq<Action>, t: State)
    requires Enabled(s, Create(threads, reboot)) && NoCreate(actions) && NoShutdown(actions)
    requires Path(Apply(s, Create(threads, reboot)), actions, t)
    ensures t.main.Idle? || t.main.Creating?
    ensures t.main.Idle? ==> |t.workers| == threads
    ensures |t.tasks| == if reboot then |s.tasks| else threads
  {
    StartedPath(Apply(s, Create(threads, reboot)), threads, if reboot then |s.tasks| else threads, actions, t);
  }

  // ---------------------------------------------------------------- exactly when `CloseVM` returns

  /** Nobody pushes, and no wakeup is spurious. */
  predicate Unaided(a: Action) { !a.Push? && !a.Wake? }

  ghost predicate AllUnaided(actions: seq<Action>) { forall k :: 0 <= k < |actions| ==> Unaided(actions[k]) }

  ghost predicate SomeoneWaits(s: State) { exists i: nat :: i < |s.workers| && Safety.Waits(s.workers[i]) }

  function TotalSteps(workers: seq<Pc>): nat {
    if workers == [] then 0 else TotalSteps(workers[..|workers| - 1]) + StepsToExit(workers[|workers| - 1])
  }

  lemma {:induction false} StepsUpdate(w: seq<Pc>, i: nat, pc: Pc)
    requires i < |w|
    ensures TotalSteps(w[i := pc]) + StepsToExit(w[i]) == TotalSteps(w) + StepsToExit(pc)
  {
    hide StepsToExit;
    var init := w[..|w| - 1];
    if i < |w| - 1 {
      StepsUpdate(init, i, pc);
      assert w[i := pc][..|w| - 1] == init[i := pc];
    } else {
      assert w[i := pc][..|w| - 1] == init;
    }
  }

  lemma MoveTowardsExit(s: State, a: Action)
    requires Safety.Inv(s) && s.main.Joining? && !SomeoneWaits(s) && Moves(a) && Enabled(s, a)
    ensures var t := Apply(s, a);
            t.main.Joining? && !SomeoneWaits(t) && TotalSteps(t.workers) < TotalSteps(s.workers)
  {
    hide TotalSteps;
    var t := Apply(s, a);
    CloserToExit(s, a, a.i);
    assert t.workers == s.workers[a.i := t.workers[a.i]];
    StepsUpdate(s.workers, a.i, t.workers[a.i]);
    assert !Safety.Waits(t.workers[a.i]);
    forall j: nat | j < |t.workers| ensures !Safety.Waits(t.workers[j]) {
      if j != a.i { assert t.workers[j] == s.workers[j]; }
    }
  }

  lemma ShortJoin(w: seq<Pc>)
    ensures TotalSteps(w) <= 7 * |w|
  {
    if w != [] {
      ShortJoin(w[..|w| - 1]);
    }
  }

  lemma JoinStep(s: State, a: Action)
    requires Safety.Inv(s) && s.main.Joining? && !SomeoneWaits(s) && Enabled(s, a) && !a.FinishJoin?
    ensures var t := Apply(s, a);
            && t.main.Joining? && !SomeoneWaits(t) && |t.workers| == |s.workers|
            && (if Moves(a) then 1 else 0) + TotalSteps(t.workers) <= TotalSteps(s.workers)
  {
    hide TotalSteps;
    if Moves(a) {
      MoveTowardsExit(s, a);
    } else {
      assert forall i: nat :: i < |s.workers| ==> !Safety.Waits(s.workers[i]);
      if a.Push? { assert NotifyWorkers(s.workers) == s.workers; }
    }
  }

  /** `CloseVM` can end its joins, or some worker can take a step towards its exit. */
  ghost predicate JoinGoesOn(s: State) { Enabled(s, FinishJoin) || exists a :: Moves(a) && Enabled(s, a) }

  lemma JoinNeverStuck(s: State)
    requires Safety.Inv(s) && s.main.Joining? && !SomeoneWaits(s)
    ensures JoinGoesOn(s)
  {
    if !AllExited(s.workers) {
      var i: nat :| i < |s.workers| && !s.workers[i].Exited?;
      assert !Safety.Waits(s.workers[i]);
      SomeoneMoves(s, i);
    }
  }

  /** If no worker waits, then whatever the schedule, and with pushes and everything else going on, the workers take
      a bounded number of steps altogether, and until the joins can end one of these steps is always possible. */
  lemma {:induction false} JoinProgress(s: State, actions: seq<Action>, t: State)
    requires Safety.Inv(s) && s.main.Joining? && !SomeoneWaits(s)
    requires NoFinish(actions) && Path(s, actions, t)
    ensures t.main.Joining? && !SomeoneWaits(t) && JoinGoesOn(t)
    ensures MoveCount(actions) + TotalSteps(t.workers) <= TotalSteps(s.workers)
    decreases |actions|
  {
    if actions == [] {
      JoinNeverStuck(t);
    } else {
      var a := actions[0];
      assert !a.FinishJoin?;
      JoinStep(s, a);
      Safety.InvStep(s, a);
      hide Apply, Enabled, Safety.Inv, SomeoneWaits, JoinGoesOn;
      JoinProgress(Apply(s, a), actions[1..], t);
    }
  }

  /** While `CloseVM` joins, worker steps alone lead to a state in which no worker can move. */
  lemma {:induction false} RunUntilStuck(s: State) returns (actions: seq<Action>, t: State)
    requires Safety.Inv(s) && s.main.Joining?
    ensures Path(s, actions, t) && AllUnaided(actions) && NoFinish(actions)
    ensures Safety.Inv(t) && t.main.Joining? && Stuck(t)
    decreases Work(s)
  {
    if Stuck(s) {
      actions, t := [], s;
    } else {
      var a :| Moves(a) && Enabled(s, a);
      WorkDecreases(s, a);
      Safety.InvStep(s, a);
      assert Apply(s, a).main.Joining?;
      hide Apply, Enabled, Safety.Inv, Work, Stuck;
      var rest;
      rest, t := RunUntilStuck(Apply(s, a));
      PathCons(s, a, rest, t);
      actions := [a] + rest;
    }
  }

  lemma JoinEnds(s: State) returns (actions: seq<Action>, t: State)
    requires Safety.Inv(s) && s.main.Joining? && !SomeoneWaits(s)
    ensures Path(s, actions, t) && AllUnaided(actions) && t.main.Idle?
  {
    var run, u := RunUntilStuck(s);
    JoinProgress(s, run, u);
    t := Apply(u, FinishJoin);
    PathSnoc(s, run, u, FinishJoin, t);
    actions := run + [FinishJoin];
  }

  lemma KeepsWaiting(s: State, a: Action, i: nat)
    requires Safety.Inv(s) && s.main.Joining? && i < |s.workers| && Safety.Waits(s.workers[i])
    requires Unaided(a) && Enabled(s, a)
    ensures var t := Apply(s, a);
            t.main.Joining? && i < |t.workers| && Safety.Waits(t.workers[i])
  {
    assert !s.workers[i].Exited?;
  }

  lemma {:induction false} JoinHangs(s: State, actions: seq<Action>, t: State, i: nat)
    requires Safety.Inv(s) && s.main.Joining? && i < |s.workers| && Safety.Waits(s.workers[i])
    requires AllUnaided(actions) && Path(s, actions, t)
    ensures t.main.Joining? && i < |t.workers| && Safety.Waits(t.workers[i])
    decreases |actions|
  {
    if actions != [] {
      var a := actions[0];
      assert Unaided(a);
      Safety.InvStep(s, a);
      KeepsWaiting(s, a, i);
      hide Apply, Enabled, Safety.Inv;
      JoinHangs(Apply(s, a), actions[1..], t, i);
    }
  }

  /** A run in which nobody pushes and no wakeup is spurious ends `CloseVM`. */
  ghost predicate CanReturn(s: State) {
    exists actions: seq<Action>, t: State :: Path(s, actions, t) && AllUnaided(actions) && t.main.Idle?
  }

  /** However a run goes on from here, the workers take at most seven steps each altogether, and until `CloseVM` can
      end its joins one of these steps is possible; so every fair schedule ends it. */
  ghost predicate AlwaysReturns(s: State) {
    forall actions: seq<Action>, t: State :: NoFinish(actions) && Path(s, actions, t) ==>
      MoveCount(actions) <= 7 * |s.workers| && JoinGoesOn(t)
  }

  lemma AllSchedulesReturn(s: State)
    requires Safety.Inv(s) && s.main.Joining? && !SomeoneWaits(s)
    ensures AlwaysReturns(s)
  {
    hide SomeoneWaits, JoinGoesOn, Safety.Inv;
    ShortJoin(s.workers);
    forall actions: seq<Action>, t: State | NoFinish(actions) && Path(s, actions, t)
      ensures MoveCount(actions) <= 7 * |s.workers| && JoinGoesOn(t)
    {
      JoinProgress(s, actions, t);
    }
  }

  lemma WaiterHangs(s: State, i: nat)
    requires Safety.Inv(s) && s.main.Joining? && i < |s.workers| && Safety.Waits(s.workers[i])
    ensures !CanReturn(s) && !AlwaysReturns(s)
  {
    hide Safety.Inv;
    forall actions: seq<Action>, t: State | Path(s, actions, t) && AllUnaided(actions) ensures !t.main.Idle? {
      JoinHangs(s, actions, t, i);
    }
    var run, t := RunUntilStuck(s);
    JoinHangs(s, run, t, i);
    assert !JoinGoesOn(t) by { assert !t.workers[i].Exited?; }
  }

  /** The exact condition: after its `notify_all`, `CloseVM` returns under every fair schedule if and only if that
      notification found no worker between its false predicate and its block; otherwise no run without pushes and
      spurious wakeups ends it. */
  lemma CloseReturns(s: State)
    requires Safety.Inv(s) && Enabled(s, NotifyAll)
    ensures var t := Apply(s, NotifyAll);
            && (AlwaysReturns(t) <==> forall i: nat :: i < |s.workers| ==> !s.workers[i].Checked?)
            && (CanReturn(t) <==> forall i: nat :: i < |s.workers| ==> !s.workers[i].Checked?)
  {
    var t := Apply(s, NotifyAll);
    Safety.InvStep(s, NotifyAll);
    if forall i: nat :: i < |s.workers| ==> !s.workers[i].Checked? {
      var actions, u := JoinEnds(t);
      AllSchedulesReturn(t);
    } else {
      var i: nat :| i < |s.workers| && s.workers[i].Checked?;
      WaiterHangs(t, i);
    }
  }
}
