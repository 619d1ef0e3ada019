/**
  The class `v8engine`: its fields and the pieces of its methods that run without interference, each proved to be a
  step of the pool's state machine. A valid engine is one that its threads can have brought about by such steps, so
  the laws of the state machine hold of the fields of every valid engine; the last part of the class says so.
 */
module Engine {
  import opened Common
  import opened Pool
  import Answers = PoolAnswers
  import Delivery = PoolDelivery
  import Progress = PoolProgress
  import Safety = PoolSafety
  import Statistics = PoolStatistics

  /** Pushing tasks one after another. */
  function PushAll(s: State, ts: seq<Task>): (t: State)
    requires s.tasks != []
    ensures |t.tasks| == |s.tasks| && t.owner == s.owner && |t.workers| == |s.workers|
    decreases |ts|
  {
    if ts == [] then s else PushTask(PushAll(s, ts[..|ts| - 1]), ts[|ts| - 1])
  }

  /** The tasks that `GarbageCollect` and `PrintMemoryInfo` push: indices 1 to `workers_.size()`. */
  function Broadcast(body: string, n: nat): (ts: seq<Task>)
    requires n < 0x1_0000_0000
    ensures |ts| == n && forall k :: 0 <= k < n ==> ts[k] == Task(body, k + 1, Callback(0))
  {
    if n == 0 then [] else Broadcast(body, n - 1) + [Task(body, n, Callback(0))]
  }

  function Starters(threads: nat): (w: seq<Pc>)
    ensures |w| == threads && forall i :: 0 <= i < threads ==> w[i] == Starting
  {
    seq(threads, _ => Starting)
  }

  class V8Engine {
    var workers_: seq<Pc>
    var lockedBy: Option<nat>
    var shutdown_: bool
    var tasks_: seq<seq<Item>>
    var statTaskNum_: int
    var results_: seq<Done>
    var pushed: seq<Item>  // history; only its length is read, to number the next item
    ghost var main: Main
    ghost var failed: set<nat>
    ghost var texts: map<nat, string>
    ghost var handedOut: seq<Done>
    ghost var missed: set<nat>
    ghost var stats: Stats

    /** The state of the engine and all its threads. */
    ghost function View(): State
      reads this
    {
      State(workers_, lockedBy, shutdown_, tasks_, statTaskNum_, results_, main, pushed, failed, texts,
            handedOut, missed, stats)
    }

    /** Some run of the engine's threads leads here. */
    ghost predicate Valid()
      reads this
    {
      Reachable(View())
    }

    constructor (uninitialisedFlag: bool, uninitialisedCount: int)
      ensures Init(View()) && Valid()
    {
      workers_, lockedBy, tasks_, results_ := [], None, [], [];
      shutdown_, statTaskNum_ := uninitialisedFlag, uninitialisedCount;
      main, pushed, failed, texts, handedOut, missed, stats := Idle, [], {}, map[], [], {}, NoStats;
      new;
      InitReachable(View());
    }

    // -------------------------------------------------------------- the controlling thread

    /** When no thread that it has started steps before it returns; `BeginCreate` and `StartThread` are its steps. */
    method Create(threadNum: nat, isReboot: bool) returns (ok: bool)
      requires Valid() && Enabled(View(), Action.Create(threadNum, isReboot))
      modifies this
      ensures Valid() && ok
      ensures View() == CreatePool(old(View()), threadNum, isReboot).(workers := Starters(threadNum), main := Idle)
    {
      BeginCreate(threadNum, isReboot);
      for i := 0 to threadNum
        invariant Valid()
        invariant View() == CreatePool(old(View()), threadNum, isReboot)
                            .(workers := Starters(i), main := if i < threadNum then Creating(threadNum) else Idle)
      {
        StartThread();
        assert Starters(i) + [Starting] == Starters(i + 1);
      }
      ok := true;
    }

    method BeginCreate(threadNum: nat, isReboot: bool)
      requires Valid() && Enabled(View(), Action.Create(threadNum, isReboot))
      modifies this
      ensures Valid() && View() == Apply(old(View()), Action.Create(threadNum, isReboot))
    {
      shutdown_ := false;
      missed := {};
      main := if threadNum == 0 then Idle else Creating(threadNum);
      if !isReboot {
        tasks_ := EmptyQueues(threadNum);
      }
      StepReachable(old(View()), Action.Create(threadNum, isReboot));
    }

    method StartThread()
      requires Valid() && Enabled(View(), StartWorker)
      modifies this
      ensures Valid() && View() == Apply(old(View()), StartWorker)
    {
      workers_ := workers_ + [Starting];
      main := if |workers_| < main.target then main else Idle;
      StepReachable(old(View()), StartWorker);
    }

    method StartStat(taskNum: int)
      requires Valid()
      modifies this
      ensures Valid() && View() == Apply(old(View()), Action.StartStat(taskNum))
    {
      statTaskNum_ := taskNum;
      stats := Since(taskNum, CountCalled(workers_) + CountTested(workers_), 0, 0, 0, 0);
      StepReachable(old(View()), Action.StartStat(taskNum));
    }

    /** `CloseVM` in three steps: the flag and the notification need no lock; the joins wait for every worker. */
    method CloseVMSetFlag()
      requires Valid() && Enabled(View(), SetShutdown)
      modifies this
      ensures Valid() && View() == Apply(old(View()), SetShutdown)
    {
      shutdown_ := true;
      main := ShutdownSet;
      StepReachable(old(View()), SetShutdown);
    }

    method CloseVMNotify()
      requires Valid() && Enabled(View(), NotifyAll)
      modifies this
      ensures Valid() && View() == Apply(old(View()), NotifyAll)
    {
      missed := set i | 0 <= i < |workers_| && workers_[i].Checked?;
      workers_ := NotifyWorkers(workers_);
      main := Joining;
      StepReachable(old(View()), NotifyAll);
    }

    method CloseVMJoin()
      requires Valid() && Enabled(View(), FinishJoin)
      modifies this
      ensures Valid() && View() == Apply(old(View()), FinishJoin)
    {
      workers_ := [];
      main := Idle;
      StepReachable(old(View()), FinishJoin);
    }

    /** `GetResult` swaps the caller's list with `results_`; the callers pass an empty one. */
    method GetResult(listResult: seq<Done>) returns (out: seq<Done>)
      requires Valid()
      modifies this
      ensures out == old(results_) && results_ == listResult
      ensures listResult == [] ==> Valid() && View() == Apply(old(View()), Action.GetResult)
    {
      out := results_;
      results_ := listResult;
      handedOut := handedOut + out;
      StepReachable(old(View()), Action.GetResult);
    }

    // -------------------------------------------------------------- pushing threads

    method PushTask(tu: Task)
      requires Valid() && Enabled(View(), Push(tu))
      modifies this
      ensures Valid() && View() == Apply(old(View()), Push(tu))
    {
      var i := tu.index % |tasks_|;
      var item := Item(|pushed|, tu);
      tasks_ := tasks_[i := tasks_[i] + [item]];
      pushed := pushed + [item];
      workers_ := NotifyWorkers(workers_);
      StepReachable(old(View()), Push(tu));
    }

    method GarbageCollect()
      requires Valid() && tasks_ != [] && lockedBy.None? && |workers_| < 0x1_0000_0000
      modifies this
      ensures Valid() && View() == PushAll(old(View()), Broadcast("gc", |old(workers_)|))
    {
      PushToAll("gc");
    }

    method PrintMemoryInfo()
      requires Valid() && tasks_ != [] && lockedBy.None? && |workers_| < 0x1_0000_0000
      modifies this
      ensures Valid() && View() == PushAll(old(View()), Broadcast("showmem", |old(workers_)|))
    {
      PushToAll("showmem");
    }

    method PushToAll(body: string)
      requires Valid() && tasks_ != [] && lockedBy.None? && |workers_| < 0x1_0000_0000
      modifies this
      ensures Valid() && View() == PushAll(old(View()), Broadcast(body, |old(workers_)|))
    {
      var i := 1;
      while i <= |workers_|
        invariant 1 <= i <= |workers_| + 1 && |workers_| == |old(workers_)|
        invariant Valid() && tasks_ != [] && lockedBy.None?
        invariant View() == PushAll(old(View()), Broadcast(body, i - 1))
      {
        var task := Task(body, i, Callback(0));
        PushTask(task);
        assert Broadcast(body, i)[..i - 1] == Broadcast(body, i - 1);
        i := i + 1;
      }
    }

    // -------------------------------------------------------------- worker threads

    /** The thread function up to the loop: it may leave early. */
    method Begin(i: nat, ready: bool)
      requires Valid() && i < |workers_| && workers_[i].Starting?
      modifies this
      ensures Valid() && View() == Apply(old(View()), if ready then Enter(i) else Leave(i))
    {
      workers_ := workers_[i := if ready then AtLock else Exited];
      StepReachable(old(View()), if ready then Enter(i) else Leave(i));
    }

    /** Locks `m_mutex` and evaluates the predicate of `m_condi.wait`. */
    method WaitPredicate(i: nat)
      requires Valid() && Enabled(View(), Check(i))
      modifies this
      ensures Valid() && View() == Apply(old(View()), Check(i))
    {
      lockedBy := Some(i);
      workers_ := workers_[i := if shutdown_ || tasks_[i] != [] then Passed else Checked];
      StepReachable(old(View()), Check(i));
    }

    method Sleep(i: nat)
      requires Valid() && Enabled(View(), Block(i))
      modifies this
      ensures Valid() && View() == Apply(old(View()), Block(i))
    {
      lockedBy := None;
      workers_ := workers_[i := Blocked];
      StepReachable(old(View()), Block(i));
    }

    /** The `if (shutdown_)` behind the wait: the worker leaves, or goes on with the lock held. */
    method LeaveOnShutdown(i: nat) returns (left: bool)
      requires Valid() && Enabled(View(), TestShutdown(i))
      modifies this
      ensures Valid() && left == old(shutdown_) && View() == Apply(old(View()), TestShutdown(i))
    {
      left := shutdown_;
      if shutdown_ {
        workers_ := workers_[i := Exited];
        lockedBy := None;
      } else {
        workers_ := workers_[i := Popping];
      }
      StepReachable(old(View()), TestShutdown(i));
    }

    /** Pops the front of the worker's queue. The source tests once more whether there is one; there always is. */
    method TakeTask(i: nat)
      requires Valid() && Enabled(View(), Pop(i))
      modifies this
      ensures Valid() && View() == Apply(old(View()), Pop(i))
      ensures old(tasks_[i]) != [] && workers_[i] == Running(old(tasks_[i][0])) && tasks_[i] == old(tasks_[i][1..])
    {
      hide Reachable;
      if tasks_[i] == [] {
        workers_ := workers_[i := AtLock];
      } else {
        var tu := tasks_[i][0];
        tasks_ := tasks_[i := tasks_[i][1..]];
        workers_ := workers_[i := Running(tu)];
      }
      lockedBy := None;
      StepReachable(old(View()), Pop(i));
      Safety.PopFindsTask(old(View()), i);
    }

    /** The task's handling up to its answer: `outcome` is what the JS call returns, if it returns. */
    method Execute(i: nat, outcome: Option<string>)
      requires Valid() && i < |workers_| && workers_[i].Running?
      modifies this
      ensures Valid()
      ensures var body := old(workers_[i]).item.task.body;
              View() == Apply(old(View()), if body in {"", "showmem", "gc"} then Echo(i)
                                           else if outcome.Some? then Call(i, outcome.value) else Fail(i))
      ensures var x := old(workers_[i]).item;
              workers_ == old(workers_)[i := if x.task.body in {"", "showmem", "gc"} then Ready(x, x.task.body)
                                             else if outcome.Some? then Called(x, outcome.value) else AtLock]
    {
      Answers.SpecialTexts(workers_[i].item.task.body);
      ghost var action := if Special(workers_[i].item.task.body) then Echo(i)
                          else if outcome.Some? then Call(i, outcome.value) else Fail(i);
      var item := workers_[i].item;
      if Special(item.task.body) {
        workers_ := workers_[i := Ready(item, item.task.body)];
      } else if outcome.Some? {
        workers_ := workers_[i := Called(item, outcome.value)];
        texts := texts[item.id := outcome.value];
        stats := if stats.Since? then stats.(calls := stats.calls + 1) else stats;
      } else {
        workers_ := workers_[i := AtLock];
        failed := failed + {item.id};
      }
      StepReachable(old(View()), action);
    }

    /** The first operand of the source's condition; the second one is evaluated only if it holds. */
    method TestStatistics(i: nat) returns (positive: bool)
      requires Valid() && i < |workers_| && workers_[i].Called?
      modifies this
      ensures Valid() && positive == (old(statTaskNum_) > 0) && View() == Apply(old(View()), StatTest(i))
    {
      var pc := workers_[i];
      positive := statTaskNum_ > 0;
      if positive {
        workers_ := workers_[i := Tested(pc.item, pc.text)];
      } else {
        workers_ := workers_[i := Ready(pc.item, pc.text)];
        stats := if stats.Since? then stats.(skips := stats.skips + 1) else stats;
      }
      StepReachable(old(View()), StatTest(i));
    }

    method CountDown(i: nat) returns (printed: bool)
      requires Valid() && i < |workers_| && workers_[i].Tested?
      modifies this
      ensures Valid() && printed == (old(statTaskNum_) <= 1) && View() == Apply(old(View()), StatDec(i))
    {
      var pc := workers_[i];
      statTaskNum_ := statTaskNum_ - 1;
      printed := statTaskNum_ <= 0;
      workers_ := workers_[i := Ready(pc.item, pc.text)];
      stats := if !stats.Since? then stats
               else stats.(decs := stats.decs + 1, prints := stats.prints + if printed then 1 else 0);
      StepReachable(old(View()), StatDec(i));
    }

    method AppendResult(i: nat)
      requires Valid() && i < |workers_| && workers_[i].Ready?
      modifies this
      ensures Valid() && View() == Apply(old(View()), Publish(i))
      ensures var pc := old(workers_[i]);
              results_ == old(results_) + [Done(pc.item, Answer(pc.item.task.callback, pc.text))]
    {
      var pc := workers_[i];
      results_ := results_ + [Done(pc.item, Answer(pc.item.task.callback, pc.text))];
      workers_ := workers_[i := AtLock];
      StepReachable(old(View()), Publish(i));
    }

    // -------------------------------------------------------------- what holds of every valid engine

    /** Shard by shard: what was handed out, then `results_`, then the task in the worker's hands, then its queue, are
        the pushed tasks of the shard in push order, less the failed ones. */
    lemma ShardOrder(i: nat)
      requires Valid() && i < |tasks_|
      ensures Delivery.Answered(handedOut + results_, i, |tasks_|) + Delivery.Hand(workers_, i) + tasks_[i]
           == Delivery.Surviving(pushed, failed, i, |tasks_|)
    {
      Delivery.DeliveryOrder(View(), i);
    }

    /** Every answer carries its task's callback, and the text that its JS call returned, or its own if it is one of the
        three that never reach the script. */
    lemma AnswerTexts(d: Done)
      requires Valid() && (d in handedOut || d in results_)
      ensures d.answer.callback == d.item.task.callback
      ensures d.item.task.body in {"", "showmem", "gc"} ==> d.answer.text == d.item.task.body
      ensures d.item.task.body !in {"", "showmem", "gc"} ==> d.item.id in texts && d.answer.text == texts[d.item.id]
    {
      Answers.AnswersCarryTexts(View(), d);
    }

    /** No broadcast task, and no empty one, is ever dropped. */
    lemma BroadcastsSurvive(x: Item)
      requires Valid() && x in pushed && x.task.body in {"", "showmem", "gc"}
      ensures x.id !in failed
    {
      Answers.SpecialNeverFails(View(), x);
    }

    /** Every pushed task is in exactly one place. */
    lemma OnePlace(x: Item)
      requires Valid() && x in pushed
      ensures Delivery.CountDone(handedOut, x) + Delivery.CountDone(results_, x) + Delivery.CountHands(workers_, x)
            + Delivery.CountQueues(tasks_, x) + (if x.id in failed then 1 else 0) == 1
    {
      Delivery.ExactlyOnePlace(View(), x);
    }

    /** `statTaskNum_` stays above minus the number of queues, and the lines printed follow from it. */
    lemma CountBound()
      requires Valid() && stats.Since? && stats.target >= 1
      ensures statTaskNum_ >= -(|tasks_| - 1)
      ensures stats.prints == if statTaskNum_ <= 0 then 1 - statTaskNum_ else 0
    {
      Statistics.CountBoundedBelow(View());
      Statistics.ReachableInv(View());
    }

    /** No worker sleeps over a queued task. */
    lemma NoTaskSleeps(i: nat)
      requires Valid() && i < |workers_| && workers_[i].Blocked?
      ensures i < |tasks_| && tasks_[i] == []
      ensures shutdown_ ==> main.ShutdownSet? || (main.Joining? && i in missed)
    {
      Safety.Wakeups(View(), i);
    }

    /** When no worker of a running engine can step, every pushed task has been answered or has failed. */
    lemma DrainedWhenStuck(i: nat)
      requires Valid() && Progress.AllInLoop(View()) && Progress.Stuck(View()) && i < |tasks_|
      ensures tasks_[i] == []
      ensures Delivery.Answered(handedOut + results_, i, |tasks_|) == Delivery.Surviving(pushed, failed, i, |tasks_|)
    {
      Safety.ReachableInv(View());
      Delivery.ReachableInv(View());
      Progress.StuckMeansDrained(View());
    }
  }

  // ---------------------------------------------------------------- broadcasts

  /** How many of the broadcast tasks 1..m go to queue `q` of `n`. */
  function Hits(m: nat, q: nat, n: nat): nat
    requires n > 0
  {
    if m == 0 then 0 else Hits(m - 1, q, n) + if m % n == q then 1 else 0
  }

  lemma {:induction false} HitsOnce(m: nat, q: nat, n: nat)
    requires q < n && m <= n
    ensures Hits(m, q, n) == if (1 <= q <= m) || (q == 0 && m == n) then 1 else 0
  {
    if m > 0 {
      HitsOnce(m - 1, q, n);
      assert m < n ==> m % n == m;
      assert m == n ==> m % n == 0;
    }
  }

  /** What a broadcast adds to queue `q`: as many tasks as hit it, all of them with the broadcast's text, at the end. */
  lemma {:induction false} BroadcastQueues(s: State, body: string, m: nat, q: nat)
    requires m < 0x1_0000_0000 && q < |s.tasks|
    ensures var t := PushAll(s, Broadcast(body, m));
            && |t.tasks| == |s.tasks|
            && |t.tasks[q]| == |s.tasks[q]| + Hits(m, q, |s.tasks|)
            && t.tasks[q][..|s.tasks[q]|] == s.tasks[q]
            && forall k :: |s.tasks[q]| <= k < |t.tasks[q]| ==> t.tasks[q][k].task.body == body
    decreases m
  {
    if m > 0 {
      BroadcastQueues(s, body, m - 1, q);
      assert Broadcast(body, m)[..m - 1] == Broadcast(body, m - 1);
    }
  }

  /** With a worker for every queue, `GarbageCollect` and `PrintMemoryInfo` reach each worker exactly once. */
  lemma BroadcastReachesEachOnce(s: State, body: string, q: nat)
    requires |s.workers| == |s.tasks| < 0x1_0000_0000 && q < |s.tasks|
    ensures var t := PushAll(s, Broadcast(body, |s.workers|));
            |t.tasks| == |s.tasks| && |t.tasks[q]| == |s.tasks[q]| + 1
            && t.tasks[q][..|s.tasks[q]|] == s.tasks[q] && t.tasks[q][|s.tasks[q]|].task.body == body
  {
    BroadcastQueues(s, body, |s.workers|, q);
    HitsOnce(|s.workers|, q, |s.tasks|);
  }

  /** Pushing tasks one after another logs them in that order. */
  lemma {:induction false} PushAllLog(s: State, ts: seq<Task>)
    requires s.tasks != []
    ensures TasksOf(PushAll(s, ts).pushed) == TasksOf(s.pushed) + ts
    decreases |ts|
  {
    if ts == [] {
      assert TasksOf(s.pushed) + [] == TasksOf(s.pushed);
    } else {
      var init, last := ts[..|ts| - 1], ts[|ts| - 1];
      PushAllLog(s, init);
      assert TasksOf(PushAll(s, ts).pushed) == TasksOf(PushAll(s, init).pushed) + [last];
      assert TasksOf(s.pushed) + init + [last] == TasksOf(s.pushed) + ts;
    }
  }

  /** The tasks that a run pushes, in order. */
  function Pushes(actions: seq<Action>): seq<Task> {
    if actions == [] then []
    else (if actions[0].Push? then [actions[0].task] else []) + Pushes(actions[1..])
  }

  function TasksOf(log: seq<Item>): (ts: seq<Task>)
    ensures |ts| == |log| && forall k :: 0 <= k < |log| ==> ts[k] == log[k].task
  {
    seq(|log|, k requires 0 <= k < |log| => log[k].task)
  }

  lemma PushLogStep(s: State, a: Action)
    requires Enabled(s, a) && s.tasks != []
    ensures var t := Apply(s, a);
            && |t.tasks| == |s.tasks|
            && TasksOf(t.pushed) == TasksOf(s.pushed) + if a.Push? then [a.task] else []
  {
    if !a.Push? {
      assert TasksOf(s.pushed) + [] == TasksOf(s.pushed) && Apply(s, a).pushed == s.pushed;
    }
  }

  lemma PushesUnfold(actions: seq<Action>)
    requires actions != []
    ensures Pushes(actions) == (if actions[0].Push? then [actions[0].task] else []) + Pushes(actions[1..])
  {
  }

  lemma Joined(a: seq<Task>, b: seq<Task>, c: seq<Task>)
    ensures a + (b + c) == a + b + c
  {
  }

  /** The log is what the run pushed, and the number of queues stays. */
  lemma {:induction false} PushLog(s: State, actions: seq<Action>, t: State)
    requires Path(s, actions, t) && s.tasks != []
    ensures |t.tasks| == |s.tasks| && TasksOf(t.pushed) == TasksOf(s.pushed) + Pushes(actions)
    decreases |actions|
  {
    if actions == [] {
      assert TasksOf(s.pushed) + [] == TasksOf(s.pushed);
    } else {
      PushLogStep(s, actions[0]);
      PushLog(Apply(s, actions[0]), actions[1..], t);
      hide *;
      PushesUnfold(actions);
      Joined(TasksOf(s.pushed), if actions[0].Push? then [actions[0].task] else [], Pushes(actions[1..]));
    }
  }

  lemma {:induction false} PushIsLogged(actions: seq<Action>, task: Task)
    requires Push(task) in actions
    ensures task in Pushes(actions)
  {
    if actions[0] != Push(task) {
      assert Push(task) in actions[1..];
      PushIsLogged(actions[1..], task);
    }
  }

  /** The index of the broadcast task that goes to queue `q`. */
  lemma IndexOfQueue(q: nat, n: nat)
    requires q < n
    ensures 1 <= (if q == 0 then n else q) <= n && (if q == 0 then n else q) % n == q
  {
    HitsOnce(n, q, n);
  }

  lemma ShardOf(x: Item, q: nat, n: nat)
    requires n > 0 && x.task.index % n == q
    ensures Delivery.OfShard(x, q, n)
  {
  }

  lemma LoggedEntry(before: seq<Item>, added: seq<Task>, after: seq<Item>, task: Task) returns (x: Item)
    requires TasksOf(after) == TasksOf(before) + added && task in added
    requires Delivery.Numbered(before) && Delivery.Numbered(after)
    ensures x in after && x !in before && x.task == task
  {
    var i: nat :| i < |added| && added[i] == task;
    x := after[|before| + i];
    assert TasksOf(after)[|before| + i] == task;
    assert x.id == |before| + i;
  }

  /** A broadcast whose pushes are interleaved with anything: for every queue there is a new task of its text in the
      queue's shard, and that task is in exactly one place, so it waits in order, is being handled, or is answered. */
  lemma BroadcastAmongOthers(s: State, actions: seq<Action>, t: State, body: string, q: nat)
    requires Reachable(s) && q < |s.tasks| < 0x1_0000_0000 && Path(s, actions, t)
    requires forall k: nat :: 1 <= k <= |s.tasks| ==> Push(Task(body, k, Callback(0))) in actions
    ensures exists x: Item :: && x in t.pushed && x !in s.pushed && x.task.body == body
                              && Delivery.OfShard(x, q, |s.tasks|) && Delivery.Places(t, x) == 1
  {
    PathReachable(s, actions, t);
    Delivery.ReachableInv(s);
    Delivery.ReachableInv(t);
    PushLog(s, actions, t);
    var task := Task(body, if q == 0 then |s.tasks| else q, Callback(0));
    PushIsLogged(actions, task);
    IndexOfQueue(q, |s.tasks|);
    assert Delivery.Numbered(s.pushed) && Delivery.Numbered(t.pushed);
    hide *;
    var x := LoggedEntry(s.pushed, Pushes(actions), t.pushed, task);
    assert Delivery.OfShard(x, q, |s.tasks|) by { ShardOf(x, q, |s.tasks|); }
    Delivery.ExactlyOnePlace(t, x);
  }
}
