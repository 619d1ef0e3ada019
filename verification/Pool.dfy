/**
  The worker pool of v8engine.cpp as a state machine: any number of workers, one controlling thread (`Create`,
  `CloseVM`, `GetResult`, `StartStat`) and any number of pushing threads.

  One action is one indivisible step of one thread. Critical sections are one action each, except where a step that
  does not take `m_mutex` can fall inside them: between the wait predicate and the block, between the predicate and
  the test of `shutdown_`, and between that test and the pop. The assignment `shutdown_ = true` and the `notify_all`
  of `CloseVM` are two actions that need no lock, and the test and the decrement of `statTaskNum_` are two actions.
 */
module Pool {
  import opened Common

  /** The identity of a `std::function`. */
  datatype Callback = Callback(id: nat)

  /** `TaskType`. */
  datatype Task = Task(body: string, index: uint32, callback: Callback)

  /** `ResultType`. */
  datatype Answer = Answer(callback: Callback, text: string)

  /** A queued task with its place in the push order. No step branches on `id`: it only tells equal tasks apart. */
  datatype Item = Item(id: nat, task: Task)

  /** An entry of `results_` with the task that it answers. No step branches on `item`. */
  datatype Done = Done(item: Item, answer: Answer)

  /** Where a worker thread is. */
  datatype Pc =
    | Starting                            // the script is being compiled and run
    | AtLock                              // at the top of the loop, about to lock `m_mutex`
    | Checked                             // holds the lock; the wait predicate was false; about to block
    | Blocked                             // released the lock and waits
    | Notified                            // woken, about to lock `m_mutex` again
    | Passed                              // holds the lock; the wait predicate was true
    | Popping                             // holds the lock; has read `shutdown_` as false
    | Running(item: Item)                 // released the lock; about to handle the task
    | Called(item: Item, text: string)    // the JS call returned a value; about to test `statTaskNum_`
    | Tested(item: Item, text: string)    // saw `statTaskNum_ > 0`; about to decrement it
    | Ready(item: Item, text: string)     // about to append to `results_`
    | Exited                              // left the thread function

  /** Where the controlling thread is: in `Create`, which starts workers until there are `target` of them, or in
      `CloseVM`, or in neither. */
  datatype Main = Idle | Creating(target: nat) | ShutdownSet | Joining

  /** What has happened since the last `StartStat(target)`: the workers that were already between a returned JS call
      and the end of its statistics step (`carried`), JS calls that returned, decrements, tests that saw no positive
      count, and printed "all task done" lines. */
  datatype Stats =
    | NoStats
    | Since(target: int, carried: nat, calls: nat, decs: nat, skips: nat, prints: nat)

  datatype State = State(
    workers: seq<Pc>,
    owner: Option<nat>,          // the worker that holds `m_mutex`
    shutdown: bool,
    tasks: seq<seq<Item>>,
    stat: int,                   // `statTaskNum_`
    results: seq<Done>,
    main: Main,
    pushed: seq<Item>,           // history: every task pushed, in push order
    failed: set<nat>,            // history: the tasks dropped after a failed JS call
    texts: map<nat, string>,     // history: the texts that JS calls returned, by task
    handedOut: seq<Done>,        // history: what `GetResult` has handed out
    missed: set<nat>,            // history: the workers at `Checked` when `CloseVM` last called `notify_all`
    stats: Stats)                // history

  /** A pool before its first `Create`. `shutdown_` and `statTaskNum_` are uninitialised in the source. */
  ghost predicate Init(s: State) {
    s == State([], None, s.shutdown, [], s.stat, [], Idle, [], {}, map[], [], {}, NoStats)
  }

  datatype Action =
    | Create(threads: nat, reboot: bool)    // up to the loop that starts the workers
    | StartWorker
    | Push(task: Task)
    | StartStat(target: int)
    | SetShutdown
    | NotifyAll
    | FinishJoin
    | GetResult
    | Leave(i: nat)                 // return before the loop
    | Enter(i: nat)                 // reach the loop
    | Check(i: nat)                 // lock and evaluate the wait predicate
    | Block(i: nat)
    | Wake(i: nat)                  // spurious wakeup
    | TestShutdown(i: nat)
    | Pop(i: nat)
    | Echo(i: nat)                  // an empty, "showmem" or "gc" task answers with its own text
    | Call(i: nat, text: string)    // the JS call returns a value
    | Fail(i: nat)                  // the JS call throws
    | StatTest(i: nat)
    | StatDec(i: nat)
    | Publish(i: nat)

  // ---------------------------------------------------------------- steps

  predicate Special(body: string) { body == "" || body == "showmem" || body == "gc" }

  function NotifyWorkers(workers: seq<Pc>): (w: seq<Pc>)
    ensures |w| == |workers|
    ensures forall i :: 0 <= i < |w| ==> w[i] == if workers[i].Blocked? then Notified else workers[i]
  {
    seq(|workers|, i requires 0 <= i < |workers| => if workers[i].Blocked? then Notified else workers[i])
  }

  function EmptyQueues(n: nat): (q: seq<seq<Item>>)
    ensures |q| == n && forall i :: 0 <= i < n ==> q[i] == []
  {
    seq(n, _ => [])
  }

  function CountCalled(workers: seq<Pc>): nat {
    if workers == [] then 0
    else CountCalled(workers[..|workers| - 1]) + if workers[|workers| - 1].Called? then 1 else 0
  }

  function CountTested(workers: seq<Pc>): nat {
    if workers == [] then 0
    else CountTested(workers[..|workers| - 1]) + if workers[|workers| - 1].Tested? then 1 else 0
  }

  predicate AllExited(workers: seq<Pc>) { forall i :: 0 <= i < |workers| ==> workers[i].Exited? }

  /** May the action happen? `Create` follows the header: the first one sets the environment up and sizes the queues,
      later ones are reboots; the controlling thread calls it when no worker exists, and a reboot never starts more
      workers than there are queues. */
  predicate Enabled(s: State, a: Action) {
    match a
    case Create(threads, reboot) =>
      && s.main.Idle? && s.workers == []
      && (if reboot then s.tasks != [] && threads <= |s.tasks| else s.tasks == [] && threads >= 1)
    case StartWorker => s.main.Creating? && |s.workers| < s.main.target
    case Push(_) => s.tasks != [] && s.owner.None?
    case StartStat(_) => true
    case SetShutdown => s.main.Idle?
    case NotifyAll => s.main.ShutdownSet?
    case FinishJoin => s.main.Joining? && AllExited(s.workers)
    case GetResult => true
    case _ => a.i < |s.workers| && WorkerEnabled(s, a)
  }

  predicate WorkerAction(a: Action) {
    !a.Create? && !a.StartWorker? && !a.Push? && !a.StartStat? && !a.SetShutdown? && !a.NotifyAll? && !a.FinishJoin? && !a.GetResult?
  }

  predicate WorkerEnabled(s: State, a: Action)
    requires WorkerAction(a) && a.i < |s.workers|
  {
    var pc := s.workers[a.i];
    match a
    case Leave(_) => pc.Starting?
    case Enter(_) => pc.Starting?
    case Check(_) => (pc.AtLock? || pc.Notified?) && s.owner.None? && a.i < |s.tasks|
    case Block(_) => pc.Checked?
    case Wake(_) => pc.Blocked?
    case TestShutdown(_) => pc.Passed?
    case Pop(_) => pc.Popping? && a.i < |s.tasks|
    case Echo(_) => pc.Running? && Special(pc.item.task.body)
    case Call(_, _) => pc.Running? && !Special(pc.item.task.body)
    case Fail(_) => pc.Running? && !Special(pc.item.task.body)
    case StatTest(_) => pc.Called?
    case StatDec(_) => pc.Tested?
    case Publish(_) => pc.Ready?
  }

  function CreatePool(s: State, threads: nat, reboot: bool): State {
    s.(shutdown := false, missed := {}, main := if threads == 0 then Idle else Creating(threads),
       tasks := if reboot then s.tasks else EmptyQueues(threads))
  }

  function StartNext(s: State): State
    requires s.main.Creating?
  {
    s.(workers := s.workers + [Starting], main := if |s.workers| + 1 < s.main.target then s.main else Idle)
  }

  function PushTask(s: State, task: Task): State
    requires s.tasks != []
  {
    var item := Item(|s.pushed|, task);
    var q := task.index % |s.tasks|;
    s.(tasks := s.tasks[q := s.tasks[q] + [item]], workers := NotifyWorkers(s.workers), pushed := s.pushed + [item])
  }

  function BeginStat(s: State, target: int): State {
    s.(stat := target, stats := Since(target, CountCalled(s.workers) + CountTested(s.workers), 0, 0, 0, 0))
  }

  function Notify(s: State): State {
    s.(main := Joining, workers := NotifyWorkers(s.workers),
       missed := set i | 0 <= i < |s.workers| && s.workers[i].Checked?)
  }

  function At(s: State, i: nat, pc: Pc): State
    requires i < |s.workers|
  {
    s.(workers := s.workers[i := pc])
  }

  function CheckPredicate(s: State, i: nat): State
    requires i < |s.workers| && i < |s.tasks|
  {
    At(s, i, if s.shutdown || s.tasks[i] != [] then Passed else Checked).(owner := Some(i))
  }

  /** The `if (shutdown_)` behind the wait: leave the loop, or go on with the lock held. */
  function ReadShutdown(s: State, i: nat): State
    requires i < |s.workers|
  {
    if s.shutdown then At(s, i, Exited).(owner := None) else At(s, i, Popping)
  }

  /** The second emptiness test and the pop. */
  function PopTask(s: State, i: nat): State
    requires i < |s.workers| && i < |s.tasks|
  {
    if s.tasks[i] == [] then At(s, i, AtLock).(owner := None)
    else At(s, i, Running(s.tasks[i][0])).(owner := None, tasks := s.tasks[i := s.tasks[i][1..]])
  }

  function CallReturns(s: State, i: nat, text: string): State
    requires i < |s.workers| && s.workers[i].Running?
  {
    At(s, i, Called(s.workers[i].item, text))
      .(texts := s.texts[s.workers[i].item.id := text],
        stats := if s.stats.Since? then s.stats.(calls := s.stats.calls + 1) else s.stats)
  }

  function CallThrows(s: State, i: nat): State
    requires i < |s.workers| && s.workers[i].Running?
  {
    At(s, i, AtLock).(failed := s.failed + {s.workers[i].item.id})
  }

  /** `statTaskNum_ > 0`, the first operand of the source's condition. */
  function TestStat(s: State, i: nat): State
    requires i < |s.workers| && s.workers[i].Called?
  {
    var pc := s.workers[i];
    if s.stat > 0 then At(s, i, Tested(pc.item, pc.text))
    else
      At(s, i, Ready(pc.item, pc.text))
        .(stats := if s.stats.Since? then s.stats.(skips := s.stats.skips + 1) else s.stats)
  }

  /** `--statTaskNum_ <= 0`, the second operand; it prints when it holds. */
  function DecrementStat(s: State, i: nat): State
    requires i < |s.workers| && s.workers[i].Tested?
  {
    var pc := s.workers[i];
    At(s, i, Ready(pc.item, pc.text))
      .(stat := s.stat - 1,
        stats := if !s.stats.Since? then s.stats
                 else s.stats.(decs := s.stats.decs + 1,
                               prints := s.stats.prints + if s.stat - 1 <= 0 then 1 else 0))
  }

  function PublishAnswer(s: State, i: nat): State
    requires i < |s.workers| && s.workers[i].Ready?
  {
    var pc := s.workers[i];
    At(s, i, AtLock).(results := s.results + [Done(pc.item, Answer(pc.item.task.callback, pc.text))])
  }

  function Apply(s: State, a: Action): State
    requires Enabled(s, a)
  {
    match a
    case Create(threads, reboot) => CreatePool(s, threads, reboot)
    case StartWorker => StartNext(s)
    case Push(task) => PushTask(s, task)
    case StartStat(target) => BeginStat(s, target)
    case SetShutdown => s.(shutdown := true, main := ShutdownSet)
    case NotifyAll => Notify(s)
    case FinishJoin => s.(main := Idle, workers := [])
    case GetResult => s.(handedOut := s.handedOut + s.results, results := [])
    case Leave(i) => At(s, i, Exited)
    case Enter(i) => At(s, i, AtLock)
    case Check(i) => CheckPredicate(s, i)
    case Block(i) => At(s, i, Blocked).(owner := None)
    case Wake(i) => At(s, i, Notified)
    case TestShutdown(i) => ReadShutdown(s, i)
    case Pop(i) => PopTask(s, i)
    case Echo(i) => At(s, i, Ready(s.workers[i].item, s.workers[i].item.task.body))
    case Call(i, text) => CallReturns(s, i, text)
    case Fail(i) => CallThrows(s, i)
    case StatTest(i) => TestStat(s, i)
    case StatDec(i) => DecrementStat(s, i)
    case Publish(i) => PublishAnswer(s, i)
  }

  // ---------------------------------------------------------------- runs

  /** The actions lead from `s` to `t`. */
  ghost predicate Path(s: State, actions: seq<Action>, t: State)
    decreases |actions|
  {
    if actions == [] then s == t
    else Enabled(s, actions[0]) && Path(Apply(s, actions[0]), actions[1..], t)
  }

  lemma PathStart(s: State)
    ensures Path(s, [], s)
  {
  }

  lemma {:induction false} PathConcat(s: State, first: seq<Action>, t: State, rest: seq<Action>, u: State)
    requires Path(s, first, t) && Path(t, rest, u)
    ensures Path(s, first + rest, u)
    decreases |first|
  {
    if first == [] {
      assert first + rest == rest;
    } else {
      PathConcat(Apply(s, first[0]), first[1..], t, rest, u);
      assert (first + rest)[1..] == first[1..] + rest;
    }
  }

  /** One more step, from `t` to `u`, at the end of a run. */
  lemma PathSnoc(s: State, actions: seq<Action>, t: State, a: Action, u: State)
    requires Path(s, actions, t) && Enabled(t, a) && u == Apply(t, a)
    ensures Path(s, actions + [a], u)
  {
    PathStart(u);
    PathCons(t, a, [], u);
    assert [a] + [] == [a];
    PathConcat(s, actions, t, [a], u);
  }

  lemma PathCons(s: State, a: Action, actions: seq<Action>, t: State)
    requires Enabled(s, a) && Path(Apply(s, a), actions, t)
    ensures Path(s, [a] + actions, t)
  {
    assert ([a] + actions)[1..] == actions;
  }

  ghost predicate Reachable(s: State) {
    exists start: State, actions: seq<Action> :: Init(start) && Path(start, actions, s)
  }

  lemma InitReachable(s: State)
    requires Init(s)
    ensures Reachable(s)
  {
    PathStart(s);
  }

  lemma StepReachable(s: State, a: Action)
    requires Reachable(s) && Enabled(s, a)
    ensures Reachable(Apply(s, a))
  {
    var start: State, actions: seq<Action> :| Init(start) && Path(start, actions, s);
    PathSnoc(start, actions, s, a, Apply(s, a));
  }

  lemma PathReachable(s: State, actions: seq<Action>, t: State)
    requires Reachable(s) && Path(s, actions, t)
    ensures Reachable(t)
  {
    var start: State, before: seq<Action> :| Init(start) && Path(start, before, s);
    PathConcat(start, before, s, actions, t);
  }

  /** There are never more workers than queues, in particular not while `Create` starts them. */
  predicate Sized(s: State) {
    && |s.workers| <= |s.tasks|
    && (s.main.Creating? ==> |s.workers| < s.main.target <= |s.tasks|)
  }
}
