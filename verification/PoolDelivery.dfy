/** Nothing is lost, duplicated or reordered by the pool, over any run with any number of shutdowns and reboots. */
module PoolDelivery {
  import opened Common
  import opened Pool

  predicate OfShard(x: Item, i: nat, n: nat)
    requires n > 0
  {
    x.task.index % n == i
  }

  /** The pushed tasks of shard `i` that did not fail, in push order. */
  function Surviving(log: seq<Item>, failed: set<nat>, i: nat, n: nat): seq<Item>
    requires n > 0
  {
    if log == [] then []
    else
      var x := log[|log| - 1];
      var before := Surviving(log[..|log| - 1], failed, i, n);
      if OfShard(x, i, n) && x.id !in failed then before + [x] else before
  }

  /** The tasks of shard `i` among the answers, in order. */
  function Answered(ds: seq<Done>, i: nat, n: nat): seq<Item>
    requires n > 0
  {
    if ds == [] then []
    else
      var x := ds[|ds| - 1].item;
      var before := Answered(ds[..|ds| - 1], i, n);
      if OfShard(x, i, n) then before + [x] else before
  }

  /** The task in a worker's hands. */
  function InHand(pc: Pc): seq<Item> {
    if pc.Running? || pc.Called? || pc.Tested? || pc.Ready? then [pc.item] else []
  }

  /** Shard `i` may have no worker, when a reboot starts fewer of them or while the pool is closed. */
  function Hand(workers: seq<Pc>, i: nat): seq<Item> { if i < |workers| then InHand(workers[i]) else [] }

  /** Everything of shard `i` that is handed out, answered, in hand or queued, in that order. */
  function Holding(s: State, i: nat): seq<Item>
    requires i < |s.tasks|
  {
    Answered(s.handedOut + s.results, i, |s.tasks|) + Hand(s.workers, i) + s.tasks[i]
  }

  /** Answers carry the callback of their task, and the tasks that never reach the script answer with their own text. */
  predicate Genuine(item: Item, answer: Answer) {
    answer.callback == item.task.callback && (Special(item.task.body) ==> answer.text == item.task.body)
  }

  predicate GenuineAll(ds: seq<Done>) { forall k :: 0 <= k < |ds| ==> Genuine(ds[k].item, ds[k].answer) }

  predicate GenuinePc(pc: Pc) {
    && (pc.Called? || pc.Tested? ==> !Special(pc.item.task.body))
    && (pc.Ready? && Special(pc.item.task.body) ==> pc.text == pc.item.task.body)
  }

  ghost predicate Numbered(log: seq<Item>) { forall k :: 0 <= k < |log| ==> log[k].id == k }

  /** In shard `i` everything is where push order puts it, with only the failed tasks removed. */
  ghost predicate InOrder(s: State, i: nat)
    requires i < |s.tasks|
  {
    Holding(s, i) == Surviving(s.pushed, s.failed, i, |s.tasks|)
  }

  ghost predicate Inv(s: State) {
    && Sized(s)
    && (s.tasks == [] ==> s.pushed == [] && s.handedOut == [] && s.results == [])
    && Numbered(s.pushed)
    && (forall k :: k in s.failed ==> k < |s.pushed|)
    && GenuineAll(s.handedOut) && GenuineAll(s.results)
    && (forall i: nat :: i < |s.workers| ==> GenuinePc(s.workers[i]))
    && (forall i: nat :: i < |s.tasks| ==> InOrder(s, i))
  }

  // ---------------------------------------------------------------- facts about the two filters

  lemma SurvivingSnoc(log: seq<Item>, x: Item, failed: set<nat>, i: nat, n: nat)
    requires n > 0
    ensures Surviving(log + [x], failed, i, n)
         == if OfShard(x, i, n) && x.id !in failed then Surviving(log, failed, i, n) + [x] else Surviving(log, failed, i, n)
  {
    assert (log + [x])[..|log|] == log;
  }

  lemma AnsweredSnoc(ds: seq<Done>, d: Done, i: nat, n: nat)
    requires n > 0
    ensures Answered(ds + [d], i, n)
         == if OfShard(d.item, i, n) then Answered(ds, i, n) + [d.item] else Answered(ds, i, n)
  {
    assert (ds + [d])[..|ds|] == ds;
  }

  /** What survives is numbered in increasing order, belongs to the shard and did not fail. */
  lemma {:induction false} SurvivingSorted(log: seq<Item>, failed: set<nat>, i: nat, n: nat)
    requires n > 0 && Numbered(log)
    ensures forall k :: 0 <= k < |Surviving(log, failed, i, n)| ==>
              var x := Surviving(log, failed, i, n)[k];
              OfShard(x, i, n) && x.id !in failed && x.id < |log| && x == log[x.id]
    ensures forall j, k :: 0 <= j < k < |Surviving(log, failed, i, n)| ==>
              Surviving(log, failed, i, n)[j].id < Surviving(log, failed, i, n)[k].id
  {
    if log != [] {
      SurvivingSorted(log[..|log| - 1], failed, i, n);
    }
  }

  function Without(s: seq<Item>, id: nat): seq<Item> {
    if s == [] then []
    else
      var x := s[|s| - 1];
      if x.id != id then Without(s[..|s| - 1], id) + [x] else Without(s[..|s| - 1], id)
  }

  lemma WithoutSnoc(s: seq<Item>, x: Item, id: nat)
    ensures Without(s + [x], id) == if x.id != id then Without(s, id) + [x] else Without(s, id)
  {
    assert (s + [x])[..|s|] == s;
  }

  lemma {:induction false} WithoutNothing(s: seq<Item>, id: nat)
    requires forall k :: 0 <= k < |s| ==> s[k].id != id
    ensures Without(s, id) == s
  {
    if s != [] {
      WithoutNothing(s[..|s| - 1], id);
    }
  }

  lemma {:induction false} WithoutMiddle(a: seq<Item>, x: Item, b: seq<Item>)
    requires forall k :: 0 <= k < |a| ==> a[k].id != x.id
    requires forall k :: 0 <= k < |b| ==> b[k].id != x.id
    ensures Without(a + [x] + b, x.id) == a + b
  {
    if b == [] {
      WithoutSnoc(a, x, x.id);
      WithoutNothing(a, x.id);
      assert a + [x] + b == a + [x] && a + [] == a + b;
    } else {
      var init, last := b[..|b| - 1], b[|b| - 1];
      WithoutMiddle(a, x, init);
      WithoutSnoc(a + [x] + init, last, x.id);
      assert a + [x] + b == a + [x] + init + [last] && a + b == a + init + [last];
    }
  }

  lemma {:induction false} SurvivingWithout(log: seq<Item>, failed: set<nat>, i: nat, n: nat, id: nat)
    requires n > 0
    ensures Surviving(log, failed + {id}, i, n) == Without(Surviving(log, failed, i, n), id)
  {
    if log != [] {
      var x, init := log[|log| - 1], log[..|log| - 1];
      SurvivingWithout(init, failed, i, n, id);
      if OfShard(x, i, n) && x.id !in failed {
        WithoutSnoc(Surviving(init, failed, i, n), x, id);
      }
    }
  }

  /** A failure removes exactly the failed task from its shard. */
  lemma SurvivingFail(log: seq<Item>, failed: set<nat>, i: nat, n: nat, a: seq<Item>, x: Item, b: seq<Item>)
    requires n > 0 && Numbered(log) && Surviving(log, failed, i, n) == a + [x] + b
    ensures Surviving(log, failed + {x.id}, i, n) == a + b
  {
    SurvivingSorted(log, failed, i, n);
    var s := a + [x] + b;
    assert s[|a|] == x;
    assert forall k :: 0 <= k < |a| ==> s[k] == a[k];
    assert forall k :: 0 <= k < |b| ==> s[|a| + 1 + k] == b[k];
    SurvivingWithout(log, failed, i, n, x.id);
    WithoutMiddle(a, x, b);
  }

  /** A failure elsewhere, or of a number not in the log, changes nothing. */
  lemma {:induction false} SurvivingOther(log: seq<Item>, failed: set<nat>, i: nat, n: nat, id: nat)
    requires n > 0
    requires forall k :: 0 <= k < |log| ==> log[k].id != id || !OfShard(log[k], i, n)
    ensures Surviving(log, failed + {id}, i, n) == Surviving(log, failed, i, n)
  {
    if log != [] {
      SurvivingOther(log[..|log| - 1], failed, i, n, id);
    }
  }

  // ---------------------------------------------------------------- every step keeps the order

  /** The tasks that a worker holds or that wait for it belong to its shard. */
  lemma OwnShard(s: State, i: nat)
    requires Inv(s) && i < |s.tasks|
    ensures forall x :: x in Hand(s.workers, i) || x in s.tasks[i] ==>
              OfShard(x, i, |s.tasks|) && x.id < |s.pushed| && x == s.pushed[x.id] && x.id !in s.failed
  {
    SurvivingSorted(s.pushed, s.failed, i, |s.tasks|);
    assert InOrder(s, i);
    var h := Holding(s, i);
    forall x | x in Hand(s.workers, i) || x in s.tasks[i] ensures x in h {
    }
  }

  lemma PushKeeps(s: State, task: Task)
    requires Inv(s) && Enabled(s, Push(task))
    ensures Inv(PushTask(s, task))
  {
    var t, n := PushTask(s, task), |s.tasks|;
    var x := Item(|s.pushed|, task);
    forall i: nat | i < n ensures InOrder(t, i) {
      hide Answered, Surviving;
      SurvivingSnoc(s.pushed, x, s.failed, i, n);
      assert InOrder(s, i);
      assert Hand(t.workers, i) == Hand(s.workers, i);
      if OfShard(x, i, n) {
        assert Holding(t, i) == Holding(s, i) + [x];
      }
    }
    assert forall i: nat :: i < |t.workers| ==> GenuinePc(s.workers[i]);
  }

  lemma PopKeeps(s: State, i: nat)
    requires Inv(s) && Enabled(s, Pop(i))
    ensures Inv(PopTask(s, i))
  {
    var t, n := PopTask(s, i), |s.tasks|;
    forall j: nat | j < n ensures InOrder(t, j) {
      hide Answered, Surviving;
      assert InOrder(s, j);
      var a := Answered(s.handedOut + s.results, j, n);
      if j == i && s.tasks[i] != [] {
        assert a + [] + s.tasks[i] == a + [s.tasks[i][0]] + s.tasks[i][1..];
      }
    }
  }

  lemma FailKeeps(s: State, i: nat)
    requires Inv(s) && Enabled(s, Fail(i))
    ensures Inv(CallThrows(s, i))
  {
    FailOrder(s, i);
    assert s.workers[i].item in Hand(s.workers, i);
    OwnShard(s, i);
    hide InOrder;
  }

  lemma FailOrder(s: State, i: nat)
    requires Inv(s) && Enabled(s, Fail(i))
    ensures forall j: nat :: j < |s.tasks| ==> InOrder(CallThrows(s, i), j)
  {
    var t, n := CallThrows(s, i), |s.tasks|;
    var x := s.workers[i].item;
    assert x in Hand(s.workers, i);
    OwnShard(s, i);
    forall j: nat | j < n ensures InOrder(t, j) {
      hide Answered, Surviving;
      assert InOrder(s, j);
      var a := Answered(s.handedOut + s.results, j, n);
      if j == i {
        SurvivingFail(s.pushed, s.failed, i, n, a, x, s.tasks[i]);
        assert a + [] + s.tasks[i] == a + s.tasks[i];
      } else {
        SurvivingOther(s.pushed, s.failed, j, n, x.id);
      }
    }
  }

  lemma PublishKeeps(s: State, i: nat)
    requires Inv(s) && Enabled(s, Publish(i))
    ensures Inv(PublishAnswer(s, i))
  {
    PublishOrder(s, i);
    hide InOrder;
    var pc := s.workers[i];
    assert GenuinePc(pc);
    assert Genuine(pc.item, Answer(pc.item.task.callback, pc.text));
  }

  lemma PublishOrder(s: State, i: nat)
    requires Inv(s) && Enabled(s, Publish(i))
    ensures forall j: nat :: j < |s.tasks| ==> InOrder(PublishAnswer(s, i), j)
  {
    var t, n := PublishAnswer(s, i), |s.tasks|;
    var x := s.workers[i].item;
    var d := Done(x, Answer(x.task.callback, s.workers[i].text));
    assert x in Hand(s.workers, i);
    OwnShard(s, i);
    var ds := s.handedOut + s.results;
    assert t.handedOut + t.results == ds + [d];
    forall j: nat | j < n ensures InOrder(t, j) {
      hide Answered, Surviving;
      assert InOrder(s, j);
      AnsweredSnoc(ds, d, j, n);
      if j == i {
        AddNothing(Answered(ds, j, n) + [x]);
      }
    }
  }

  lemma AddNothing(s: seq<Item>)
    ensures s + [] == s
  {
  }

  /** Steps that move no task. */
  lemma StillKeeps(s: State, t: State)
    requires Inv(s) && s.tasks != []
    requires t.tasks == s.tasks && t.pushed == s.pushed && t.failed == s.failed
    requires t.handedOut + t.results == s.handedOut + s.results && GenuineAll(t.handedOut) && GenuineAll(t.results)
    requires Sized(t) && forall i: nat :: i < |t.workers| ==> GenuinePc(t.workers[i])
    requires forall i: nat :: i < |s.tasks| ==> Hand(t.workers, i) == Hand(s.workers, i)
    ensures Inv(t)
  {
    forall i: nat | i < |s.tasks| ensures InOrder(t, i) {
      assert InOrder(s, i);
    }
  }

  lemma WorkerStillKeeps(s: State, a: Action)
    requires Inv(s) && WorkerAction(a) && Enabled(s, a) && !a.Pop? && !a.Fail? && !a.Publish?
    ensures Inv(Apply(s, a))
  {
    var t := Apply(s, a);
    assert GenuinePc(s.workers[a.i]);
    WorkerStillFrame(s, a);
    hide Apply, Enabled, GenuinePc;
    StillKeeps(s, t);
  }

  lemma WorkerStillFrame(s: State, a: Action)
    requires WorkerAction(a) && Enabled(s, a) && !a.Pop? && !a.Fail? && !a.Publish? && GenuinePc(s.workers[a.i])
    ensures var t := Apply(s, a);
            && t.tasks == s.tasks && t.pushed == s.pushed && t.failed == s.failed && t.main == s.main
            && t.handedOut == s.handedOut && t.results == s.results && |t.workers| == |s.workers|
            && (forall i: nat :: i < |s.workers| && i != a.i ==> t.workers[i] == s.workers[i])
            && InHand(t.workers[a.i]) == InHand(s.workers[a.i]) && GenuinePc(t.workers[a.i])
  {
  }

  lemma ControlKeeps(s: State, a: Action)
    requires Inv(s) && Enabled(s, a) && !WorkerAction(a) && !a.Push?
    ensures Inv(Apply(s, a))
  {
    var t := Apply(s, a);
    if a.GetResult? {
      assert t.handedOut + t.results == s.handedOut + s.results;
    }
    if s.tasks == [] {
      assert t.handedOut + t.results == [];
      assert forall i: nat :: i < |t.tasks| ==> InOrder(t, i);
    } else {
      StillKeeps(s, t);
    }
  }

  lemma InvStep(s: State, a: Action)
    requires Inv(s) && Enabled(s, a)
    ensures Inv(Apply(s, a))
  {
    hide Inv, PushTask, PopTask, CallThrows, PublishAnswer;
    if a.Push? {
      PushKeeps(s, a.task);
    } else if a.Pop? {
      PopKeeps(s, a.i);
    } else if a.Fail? {
      FailKeeps(s, a.i);
    } else if a.Publish? {
      PublishKeeps(s, a.i);
    } else if WorkerAction(a) {
      WorkerStillKeeps(s, a);
    } else {
      ControlKeeps(s, a);
    }
  }

  lemma {:induction false} InvPath(s: State, actions: seq<Action>, t: State)
    requires Inv(s) && Path(s, actions, t)
    ensures Inv(t)
    decreases |actions|
  {
    if actions != [] {
      InvStep(s, actions[0]);
      InvPath(Apply(s, actions[0]), actions[1..], t);
    }
  }

  lemma ReachableInv(s: State)
    requires Reachable(s)
    ensures Inv(s)
  {
    var start: State, actions: seq<Action> :| Init(start) && Path(start, actions, s);
    InvPath(start, actions, s);
  }

  /** In every reachable state, for every shard: what `GetResult` has handed out, then `results_`, then the task in
      hand, then the queue, is the push order with only the failed tasks removed. */
  lemma DeliveryOrder(s: State, i: nat)
    requires Reachable(s) && i < |s.tasks|
    ensures Answered(s.handedOut + s.results, i, |s.tasks|) + Hand(s.workers, i) + s.tasks[i]
         == Surviving(s.pushed, s.failed, i, |s.tasks|)
  {
    ReachableInv(s);
    assert InOrder(s, i);
  }

  /** A task only ever waits in the queue that its index modulo the number of queues names, and only the worker of that
      queue ever has it in hand. */
  lemma Routing(s: State, i: nat)
    requires Reachable(s) && i < |s.tasks|
    ensures forall x :: x in s.tasks[i] ==> x.task.index % |s.tasks| == i
    ensures i < |s.workers| ==> forall x :: x in InHand(s.workers[i]) ==> x.task.index % |s.tasks| == i
  {
    ReachableInv(s);
    OwnShard(s, i);
  }

  /** Every answer carries its task's callback. */
  lemma AnswersAreGenuine(s: State, d: Done)
    requires Reachable(s) && (d in s.handedOut || d in s.results)
    ensures d.answer.callback == d.item.task.callback
    ensures Special(d.item.task.body) ==> d.answer.text == d.item.task.body
  {
    ReachableInv(s);
  }

  // ---------------------------------------------------------------- exactly one place

  function CountDone(ds: seq<Done>, x: Item): nat {
    if ds == [] then 0 else CountDone(ds[..|ds| - 1], x) + if ds[|ds| - 1].item == x then 1 else 0
  }

  function CountHands(workers: seq<Pc>, x: Item): nat {
    if workers == [] then 0
    else CountHands(workers[..|workers| - 1], x) + if InHand(workers[|workers| - 1]) == [x] then 1 else 0
  }

  function CountQueues(tasks: seq<seq<Item>>, x: Item): nat {
    if tasks == [] then 0 else CountQueues(tasks[..|tasks| - 1], x) + multiset(tasks[|tasks| - 1])[x]
  }

  /** In how many places a task is: handed out, answered, in a worker's hands, queued anywhere, or dropped. */
  function Places(s: State, x: Item): nat {
    CountDone(s.handedOut, x) + CountDone(s.results, x) + CountHands(s.workers, x) + CountQueues(s.tasks, x)
    + if x.id in s.failed then 1 else 0
  }

  lemma {:induction false} CountDoneConcatenate(a: seq<Done>, b: seq<Done>, x: Item)
    ensures CountDone(a + b, x) == CountDone(a, x) + CountDone(b, x)
  {
    if b == [] {
      assert a + b == a;
    } else {
      CountDoneConcatenate(a, b[..|b| - 1], x);
      assert (a + b)[..|a + b| - 1] == a + b[..|b| - 1];
    }
  }

  lemma {:induction false} CountAnswered(ds: seq<Done>, x: Item, i: nat, n: nat)
    requires n > 0 && OfShard(x, i, n)
    ensures CountDone(ds, x) == multiset(Answered(ds, i, n))[x]
  {
    if ds != [] {
      CountAnswered(ds[..|ds| - 1], x, i, n);
    }
  }

  lemma {:induction false} CountOneHand(workers: seq<Pc>, x: Item, i: nat)
    requires forall j: nat :: j < |workers| && j != i ==> InHand(workers[j]) != [x]
    ensures CountHands(workers, x) == multiset(Hand(workers, i))[x]
  {
    if workers != [] {
      var init := workers[..|workers| - 1];
      CountOneHand(init, x, i);
      if i < |init| { assert workers[i] == init[i]; }
    }
  }

  lemma {:induction false} CountOneQueue(tasks: seq<seq<Item>>, x: Item, i: nat)
    requires forall j: nat :: j < |tasks| && j != i ==> x !in tasks[j]
    ensures CountQueues(tasks, x) == if i < |tasks| then multiset(tasks[i])[x] else 0
  {
    if tasks != [] {
      var init := tasks[..|tasks| - 1];
      CountOneQueue(init, x, i);
      if i < |init| { assert tasks[i] == init[i]; }
    }
  }

  lemma {:induction false} CountSurviving(log: seq<Item>, failed: set<nat>, x: Item, i: nat, n: nat)
    requires n > 0 && OfShard(x, i, n) && Numbered(log)
    ensures multiset(Surviving(log, failed, i, n))[x] == if x in log && x.id !in failed then 1 else 0
  {
    if log != [] {
      var init, last := log[..|log| - 1], log[|log| - 1];
      CountSurviving(init, failed, x, i, n);
      assert log == init + [last];
      if last == x {
        assert x !in init;
      }
    }
  }

  /** Conservation: in every reachable state each pushed task is in exactly one place, and nothing else is anywhere. */
  lemma ExactlyOnePlace(s: State, x: Item)
    requires Reachable(s)
    ensures x in s.pushed ==> Places(s, x) == 1
    ensures x !in s.pushed && x.id !in s.failed ==> Places(s, x) == 0
  {
    ReachableInv(s);
    var n := |s.tasks|;
    if n > 0 {
      hide Answered, Surviving, CountDone, CountHands, CountQueues;
      var i := x.task.index % n;
      assert InOrder(s, i);
      CountSurviving(s.pushed, s.failed, x, i, n);
      CountDoneConcatenate(s.handedOut, s.results, x);
      CountAnswered(s.handedOut + s.results, x, i, n);
      forall j: nat | j < n && j != i ensures x !in s.tasks[j] && x !in Hand(s.workers, j) { OwnShard(s, j); }
      forall j: nat | j < |s.workers| && j != i ensures InHand(s.workers[j]) != [x] {
        assert x !in Hand(s.workers, j);
      }
      CountOneHand(s.workers, x, i);
      CountOneQueue(s.tasks, x, i);
    }
  }
}
