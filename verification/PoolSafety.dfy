/** What holds in every reachable state of the pool: mutual exclusion, the wait protocol and lost wakeups. */
module PoolSafety {
  import opened Common
  import opened Pool

  /** The program counters at which a worker holds `m_mutex`. */
  predicate Holds(pc: Pc) { pc.Checked? || pc.Passed? || pc.Popping? }

  /** The program counters at which a worker is asleep or is going to sleep whatever happens meanwhile. */
  predicate Waits(pc: Pc) { pc.Checked? || pc.Blocked? }

  /** What the wait protocol promises about one worker. */
  ghost predicate WorkerInv(s: State, i: nat)
    requires i < |s.workers| && i < |s.tasks|
  {
    var pc := s.workers[i];
    && (Holds(pc) <==> s.owner == Some(i))
    && (Waits(pc) ==> s.tasks[i] == [])
    && (pc.Passed? ==> s.shutdown || s.tasks[i] != [])
    && (pc.Popping? ==> s.tasks[i] != [])
    && (s.main.Joining? && Waits(pc) ==> i in s.missed)
  }

  ghost predicate Inv(s: State) {
    && Sized(s)
    && (s.owner.Some? ==> s.owner.value < |s.workers|)
    && (s.main.ShutdownSet? || s.main.Joining? ==> s.shutdown)
    && (s.main.Creating? || (s.main.Idle? && s.workers != []) ==> !s.shutdown)
    && (forall i: nat :: i < |s.workers| ==> WorkerInv(s, i))
  }

  /** A step of worker `i` that changes nothing else keeps the invariant if it keeps it for `i`. */
  lemma OtherWorkers(s: State, t: State, i: nat)
    requires Inv(s) && i < |s.workers|
    requires |t.workers| == |s.workers| && |t.tasks| == |s.tasks|
    requires t.main == s.main && t.shutdown == s.shutdown && t.missed == s.missed
    requires forall j: nat :: j < |s.workers| && j != i ==> t.workers[j] == s.workers[j] && t.tasks[j] == s.tasks[j]
    requires t.owner == s.owner || (t.owner == Some(i) && s.owner.None?) || (t.owner.None? && s.owner == Some(i))
    requires WorkerInv(t, i)
    ensures Inv(t)
  {
    forall j: nat | j < |t.workers| ensures WorkerInv(t, j) {
      assert WorkerInv(s, j);
    }
  }

  lemma NotifyKeeps(s: State, t: State)
    requires Inv(s)
    requires t.workers == NotifyWorkers(s.workers) && t.owner == s.owner && t.shutdown == s.shutdown
    requires |t.tasks| == |s.tasks|
    requires forall j: nat :: j < |s.tasks| ==> t.tasks[j] == s.tasks[j] || (t.tasks[j] != [] && s.owner.None?)
    requires || (t.main == s.main && t.missed == s.missed)
             || (t.main.Joining? && s.main.ShutdownSet? && t.missed == set i | 0 <= i < |s.workers| && s.workers[i].Checked?)
    ensures Inv(t)
  {
    forall j: nat | j < |t.workers| ensures WorkerInv(t, j) {
      assert WorkerInv(s, j);
    }
  }

  lemma FlagsKeep(s: State, t: State)
    requires Inv(s)
    requires t.workers == s.workers && t.tasks == s.tasks && t.owner == s.owner && t.missed == s.missed
    requires (t.main == s.main && t.shutdown == s.shutdown) || (t.main.ShutdownSet? && t.shutdown)
    ensures Inv(t)
  {
    forall j: nat | j < |t.workers| ensures WorkerInv(t, j) {
      assert WorkerInv(s, j);
    }
  }

  lemma StartWorkerKeeps(s: State)
    requires Inv(s) && Enabled(s, StartWorker)
    ensures Inv(StartNext(s))
  {
    var t := StartNext(s);
    forall j: nat | j < |t.workers| ensures WorkerInv(t, j) {
      if j < |s.workers| { assert WorkerInv(s, j) && t.workers[j] == s.workers[j]; }
    }
  }

  lemma InvWorkerStep(s: State, a: Action)
    requires Inv(s) && WorkerAction(a) && Enabled(s, a)
    ensures Inv(Apply(s, a))
  {
    assert WorkerInv(s, a.i);
    OtherWorkers(s, Apply(s, a), a.i);
  }

  lemma InvStep(s: State, a: Action)
    requires Inv(s) && Enabled(s, a)
    ensures Inv(Apply(s, a))
  {
    if WorkerAction(a) {
      InvWorkerStep(s, a);
    } else if a.Push? || a.NotifyAll? {
      NotifyKeeps(s, Apply(s, a));
    } else if a.StartStat? || a.SetShutdown? || a.GetResult? {
      FlagsKeep(s, Apply(s, a));
    } else if a.StartWorker? {
      StartWorkerKeeps(s);
    } else {
      assert s.owner.Some? ==> WorkerInv(s, s.owner.value);
    }
  }

  lemma {:induction false} InvPath(s: State, actions: seq<Action>, t: State)
    requires Inv(s) && Path(s, actions, t)
    ensures Inv(t)
    decreases |actions|
  {
    if actions != [] {
      InvStep(s, actions[0]);
      InvPath(Apply(s, actions[0]), actions[1..], t);
    }
  }

  /** The invariant holds in every reachable state. */
  lemma ReachableInv(s: State)
    requires Reachable(s)
    ensures Inv(s)
  {
    var start: State, actions: seq<Action> :| Init(start) && Path(start, actions, s);
    InvPath(start, actions, s);
  }

  // ---------------------------------------------------------------- wakeups

  /** A worker that is blocked and not notified has an empty queue, and while `shutdown_` is set it is either about
      to be notified or went to sleep around `CloseVM`'s `notify_all`: it was then between its false predicate and
      its block. */
  lemma Wakeups(s: State, i: nat)
    requires Reachable(s) && i < |s.workers| && s.workers[i].Blocked?
    ensures i < |s.tasks| && s.tasks[i] == []
    ensures s.shutdown ==> s.main.ShutdownSet? || (s.main.Joining? && i in s.missed)
  {
    ReachableInv(s);
    assert WorkerInv(s, i);
  }

  /** At most one worker can miss the notification: the one that held `m_mutex`. */
  lemma AtMostOneMisses(s: State, i: nat, j: nat)
    requires Inv(s) && Enabled(s, NotifyAll)
    requires i in Apply(s, NotifyAll).missed && j in Apply(s, NotifyAll).missed
    ensures i == j && s.owner == Some(i)
  {
    assert WorkerInv(s, i) && WorkerInv(s, j);
  }

  /** The second emptiness test of the worker loop never finds an empty queue, so its `continue` is dead code. */
  lemma PopFindsTask(s: State, i: nat)
    requires Reachable(s) && Enabled(s, Pop(i))
    ensures s.tasks[i] != [] && Apply(s, Pop(i)).workers[i] == Running(s.tasks[i][0])
  {
    ReachableInv(s);
    assert WorkerInv(s, i);
  }

  /** Two workers never hold `m_mutex` together, and every worker index is a queue index. */
  lemma MutualExclusion(s: State, i: nat, j: nat)
    requires Reachable(s) && i < |s.workers| && j < |s.workers| && Holds(s.workers[i]) && Holds(s.workers[j])
    ensures i == j && i < |s.tasks|
  {
    ReachableInv(s);
    assert WorkerInv(s, i) && WorkerInv(s, j);
  }

  // ---------------------------------------------------------------- the lost notification

  /** A single worker goes to sleep after `CloseVM` has notified. */
  function LostRun(): seq<Action> {
    [Create(1, false), StartWorker, Enter(0), Check(0), SetShutdown, NotifyAll, Block(0)]
  }

  /** A pool of one queue. */
  function Solo(stat: int, workers: seq<Pc>, owner: Option<nat>, shutdown: bool, main: Main, missed: set<nat>): State {
    State(workers, owner, shutdown, [[]], stat, [], main, [], {}, map[], [], missed, NoStats)
  }

  lemma SoloStarts(s: State)
    requires Init(s)
    ensures Path(s, LostRun()[..3], Solo(s.stat, [AtLock], None, false, Idle, {}))
  {
    hide Path;
    var run, x := LostRun(), s.stat;
    var created, started := Solo(x, [], None, false, Creating(1), {}), Solo(x, [Starting], None, false, Idle, {});
    assert EmptyQueues(1) == [[]];
    PathStart(s);
    PathSnoc(s, [], s, Create(1, false), created);
    PathSnoc(s, [] + [Create(1, false)], created, StartWorker, started);
    PathSnoc(s, [] + [Create(1, false)] + [StartWorker], started, Enter(0), Solo(x, [AtLock], None, false, Idle, {}));
    assert run[..3] == [] + [Create(1, false)] + [StartWorker] + [Enter(0)];
  }

  lemma SoloSleeps(x: int)
    ensures Path(Solo(x, [AtLock], None, false, Idle, {}), LostRun()[3..], Solo(x, [Blocked], None, true, Joining, {0}))
  {
    hide Path;
    var run, s := LostRun()[3..], Solo(x, [AtLock], None, false, Idle, {});
    var checked, closing := Solo(x, [Checked], Some(0), false, Idle, {}), Solo(x, [Checked], Some(0), true, ShutdownSet, {});
    var missed := Solo(x, [Checked], Some(0), true, Joining, {0});
    assert NotifyWorkers([Checked]) == [Checked];
    PathStart(s);
    PathSnoc(s, [], s, Check(0), checked);
    PathSnoc(s, [] + [Check(0)], checked, SetShutdown, closing);
    PathSnoc(s, [] + [Check(0)] + [SetShutdown], closing, NotifyAll, missed);
    PathSnoc(s, [] + [Check(0)] + [SetShutdown] + [NotifyAll], missed, Block(0), Solo(x, [Blocked], None, true, Joining, {0}));
    assert run == [] + [Check(0)] + [SetShutdown] + [NotifyAll] + [Block(0)];
  }

  /** The window is real: this run ends with `CloseVM` joining a worker that is blocked although `shutdown_` is set. */
  lemma LostNotification(s: State) returns (t: State)
    requires Init(s)
    ensures Path(s, LostRun(), t)
    ensures t.main.Joining? && t.shutdown && t.workers == [Blocked] && t.missed == {0}
  {
    hide Path;
    t := Solo(s.stat, [Blocked], None, true, Joining, {0});
    SoloStarts(s);
    SoloSleeps(s.stat);
    PathConcat(s, LostRun()[..3], Solo(s.stat, [AtLock], None, false, Idle, {}), LostRun()[3..], t);
    assert LostRun() == LostRun()[..3] + LostRun()[3..];
  }
}
