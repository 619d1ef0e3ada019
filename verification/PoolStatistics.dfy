/**
  The "all task done" statistics. The test `statTaskNum_ > 0` and the decrement are two steps, so several workers
  may pass the test before any of them decrements, and the count may go below zero.
 */
module PoolStatistics {
  import opened Common
  import opened Pool

  /** How many lines have been printed once the count stands at `stat`. */
  function Printed(stat: int): nat { if stat <= 0 then 1 - stat else 0 }

  ghost predicate Inv(s: State) {
    && Sized(s)
    && (s.stats.Since? ==>
          && s.stat == s.stats.target - s.stats.decs
          && (s.stats.skips > 0 ==> s.stats.decs >= s.stats.target)
          && s.stats.calls + s.stats.carried == s.stats.decs + s.stats.skips + CountCalled(s.workers) + CountTested(s.workers)
          && (s.stats.target >= 1 ==>
                && s.stats.prints == Printed(s.stat)
                && s.stat - CountTested(s.workers) >= 1 - |s.tasks|))
  }

  // ---------------------------------------------------------------- counting workers

  lemma {:induction false} CountUpdate(w: seq<Pc>, i: nat, pc: Pc)
    requires i < |w|
    ensures CountCalled(w[i := pc]) + (if w[i].Called? then 1 else 0) == CountCalled(w) + if pc.Called? then 1 else 0
    ensures CountTested(w[i := pc]) + (if w[i].Tested? then 1 else 0) == CountTested(w) + if pc.Tested? then 1 else 0
  {
    var init := w[..|w| - 1];
    if i < |w| - 1 {
      CountUpdate(init, i, pc);
      assert w[i := pc][..|w| - 1] == init[i := pc];
    } else {
      assert w[i := pc][..|w| - 1] == init;
    }
  }

  lemma {:induction false} CountBound(w: seq<Pc>)
    ensures CountTested(w) <= |w|
  {
    if w != [] {
      CountBound(w[..|w| - 1]);
    }
  }

  lemma {:induction false} CountNotified(w: seq<Pc>)
    ensures CountCalled(NotifyWorkers(w)) == CountCalled(w) && CountTested(NotifyWorkers(w)) == CountTested(w)
  {
    if w != [] {
      CountNotified(w[..|w| - 1]);
      assert NotifyWorkers(w)[..|w| - 1] == NotifyWorkers(w[..|w| - 1]);
    }
  }

  lemma CountStarted(w: seq<Pc>)
    ensures CountCalled(w + [Starting]) == CountCalled(w) && CountTested(w + [Starting]) == CountTested(w)
  {
    assert (w + [Starting])[..|w|] == w;
  }

  lemma {:induction false} CountNone(w: seq<Pc>)
    requires forall i :: 0 <= i < |w| ==> !w[i].Called? && !w[i].Tested?
    ensures CountCalled(w) == 0 && CountTested(w) == 0
  {
    if w != [] {
      CountNone(w[..|w| - 1]);
    }
  }

  // ---------------------------------------------------------------- steps

  predicate CountingAction(a: Action) { a.Call? || a.StatTest? || a.StatDec? }

  lemma CountingKeeps(s: State, a: Action)
    requires Inv(s) && CountingAction(a) && Enabled(s, a)
    ensures Inv(Apply(s, a))
  {
    hide CountCalled, CountTested;
    var t := Apply(s, a);
    assert t.workers == s.workers[a.i := t.workers[a.i]];
    CountUpdate(s.workers, a.i, t.workers[a.i]);
    CountBound(t.workers);
  }

  lemma OtherWorkKeeps(s: State, a: Action)
    requires Inv(s) && WorkerAction(a) && !CountingAction(a) && Enabled(s, a)
    ensures Inv(Apply(s, a))
  {
    hide CountCalled, CountTested;
    var t := Apply(s, a);
    assert t.workers == s.workers[a.i := t.workers[a.i]];
    CountUpdate(s.workers, a.i, t.workers[a.i]);
  }

  lemma ControlKeeps(s: State, a: Action)
    requires Inv(s) && Enabled(s, a) && !WorkerAction(a)
    ensures Inv(Apply(s, a))
  {
    hide CountCalled, CountTested;
    CountNotified(s.workers);
    CountBound(s.workers);
    if a.StartWorker? {
      CountStarted(s.workers);
    } else if a.FinishJoin? {
      CountNone(s.workers);
      CountNone([]);
    }
  }

  lemma InvStep(s: State, a: Action)
    requires Inv(s) && Enabled(s, a)
    ensures Inv(Apply(s, a))
  {
    hide Inv;
    if CountingAction(a) {
      CountingKeeps(s, a);
    } else if WorkerAction(a) {
      OtherWorkKeeps(s, a);
    } else {
      ControlKeeps(s, a);
    }
  }

  lemma {:induction false} InvPath(s: State, actions: seq<Action>, t: State)
    requires Inv(s) && Path(s, actions, t)
    ensures Inv(t)
    decreases |actions|
  {
    if actions != [] {
      InvStep(s, actions[0]);
      InvPath(Apply(s, actions[0]), actions[1..], t);
    }
  }

  lemma ReachableInv(s: State)
    requires Reachable(s)
    ensures Inv(s)
  {
    var start: State, actions: seq<Action> :| Init(start) && Path(start, actions, s);
    InvPath(start, actions, s);
  }

  // ---------------------------------------------------------------- results

  /** After a `StartStat` of at least 1 the count never falls below `-(N - 1)`, where N is the number of queues and
      so the largest number of workers. */
  lemma CountBoundedBelow(s: State)
    requires Reachable(s) && s.stats.Since? && s.stats.target >= 1
    ensures s.stat >= -(|s.tasks| - 1)
  {
    ReachableInv(s);
  }

  /** "all task done" is printed at most N times; never before `target` JS calls have returned since `StartStat`, not
      counting the `carried` ones that had already returned then; and at least once when `target` workers have
      completed their statistics step. */
  lemma AllDoneLines(s: State)
    requires Reachable(s) && s.stats.Since? && s.stats.target >= 1
    ensures s.stats.prints <= |s.tasks|
    ensures s.stats.prints > 0 ==> s.stats.calls + s.stats.carried >= s.stats.target
    ensures s.stats.decs + s.stats.skips >= s.stats.target ==> s.stats.prints >= 1
  {
    ReachableInv(s);
  }

  /** The count tells how many lines have been printed: one at zero and one more for each unit below. */
  lemma PrintedTwice(s: State)
    requires Reachable(s) && s.stats.Since? && s.stats.target >= 1
    ensures s.stats.prints > 1 <==> s.stat < 0
    ensures s.stats.prints == 1 <==> s.stat == 0
  {
    ReachableInv(s);
  }

  // ---------------------------------------------------------------- exactly when a second line is printed

  /** What the count will be when the workers that have passed the test have decremented it. */
  function Slack(s: State): int { s.stat - CountTested(s.workers) }

  /** The guard of the failing branch: a worker is about to see a positive count that other workers, which have seen
      it too, are already going to use up. */
  predicate OverTest(s: State, a: Action) { a.StatTest? && 0 < s.stat <= CountTested(s.workers) }

  lemma WorkerSlack(s: State, a: Action)
    requires Enabled(s, a) && WorkerAction(a)
    ensures Slack(Apply(s, a)) == Slack(s) - if a.StatTest? && s.stat > 0 then 1 else 0
  {
    hide CountTested;
    var t := Apply(s, a);
    assert t.workers == s.workers[a.i := t.workers[a.i]];
    CountUpdate(s.workers, a.i, t.workers[a.i]);
  }

  lemma ControlSlack(s: State, a: Action)
    requires Enabled(s, a) && !WorkerAction(a) && !a.StartStat?
    ensures Slack(Apply(s, a)) == Slack(s)
  {
    hide CountTested;
    if a.FinishJoin? {
      CountNone(s.workers);
      CountNone([]);
    } else if a.StartWorker? {
      CountStarted(s.workers);
    } else if a.Push? || a.NotifyAll? {
      CountNotified(s.workers);
    }
  }

  /** Only the test changes what the count will be: it takes one away if it sees a positive count. */
  lemma SlackStep(s: State, a: Action)
    requires Enabled(s, a) && !a.StartStat?
    ensures Slack(Apply(s, a)) == Slack(s) - if a.StatTest? && s.stat > 0 then 1 else 0
  {
    hide Slack, Apply, Enabled;
    if WorkerAction(a) {
      WorkerSlack(s, a);
    } else {
      ControlSlack(s, a);
    }
  }

  /** Between two calls of `StartStat` the slack stays negative once it is, and becomes negative by over-tests only. */
  lemma OverTestStep(s: State, a: Action)
    requires Enabled(s, a) && !a.StartStat?
    ensures Slack(s) < 0 ==> Slack(Apply(s, a)) < 0
    ensures Slack(s) >= 0 ==> (Slack(Apply(s, a)) < 0 <==> OverTest(s, a))
  {
    SlackStep(s, a);
  }

  /** Some step of the run is an over-test. */
  ghost predicate OverTests(s: State, actions: seq<Action>)
    decreases |actions|
  {
    && actions != [] && Enabled(s, actions[0])
    && (OverTest(s, actions[0]) || OverTests(Apply(s, actions[0]), actions[1..]))
  }

  ghost predicate NoStartStat(actions: seq<Action>) { forall k :: 0 <= k < |actions| ==> !actions[k].StartStat? }

  lemma {:induction false} OverTestPath(s: State, actions: seq<Action>, t: State)
    requires NoStartStat(actions) && Path(s, actions, t)
    ensures Slack(t) < 0 <==> Slack(s) < 0 || OverTests(s, actions)
    ensures s.stats.Since? ==> t.stats.Since? && t.stats.target == s.stats.target
    decreases |actions|
  {
    hide Slack, OverTest;
    if actions != [] {
      var a := actions[0];
      assert !a.StartStat?;
      OverTestStep(s, a);
      OverTestPath(Apply(s, a), actions[1..], t);
    }
  }

  /** The exact condition. Over any run after `StartStat(target)`, more than one line has been printed, or is going to
      be when the workers that have passed the test decrement, if and only if the run had an over-test, or more than
      `target` workers had passed the test before `StartStat` and not yet decremented. A single worker never prints
      twice. */
  lemma SecondLine(s: State, target: int, actions: seq<Action>, t: State)
    requires Reachable(s) && target >= 1
    requires NoStartStat(actions) && Path(Apply(s, StartStat(target)), actions, t)
    ensures t.stats.Since? && t.stats.target == target
    ensures var twice := OverTests(Apply(s, StartStat(target)), actions) || CountTested(s.workers) > target;
            && (Printed(Slack(t)) > 1 <==> twice)
            && (t.stats.prints > 1 ==> twice)
            && (CountTested(t.workers) == 0 ==> (t.stats.prints > 1 <==> twice))
            && (|t.tasks| == 1 ==> !twice)
  {
    var u := Apply(s, StartStat(target));
    StepReachable(s, StartStat(target));
    PathReachable(u, actions, t);
    ReachableInv(t);
    OverTestPath(u, actions, t);
  }

  // ---------------------------------------------------------------- a run that prints the line twice

  /** Two workers, two queues, a task for each of them and `StartStat(1)`. */
  function OpenRun(): seq<Action> {
    [Create(2, false), StartWorker, StartWorker, Push(Job(0)), Push(Job(1)), Action.StartStat(1), Enter(0), Enter(1)]
  }

  /** Worker `i` takes its task and calls the script. */
  function ServeRun(i: nat): seq<Action> { [Check(i), TestShutdown(i), Pop(i), Call(i, "done")] }

  /** Both workers test the count before either decrements it. */
  function CountRun(): seq<Action> { [StatTest(0), StatTest(1), StatDec(0), StatDec(1)] }

  function TwiceRun(): seq<Action> { OpenRun() + ServeRun(0) + ServeRun(1) + CountRun() }

  function Job(i: uint32): Task { Task("job", i, Callback(0)) }

  function JobItem(i: uint32): Item { Item(i, Job(i)) }

  /** The pool of that run once both tasks are pushed. */
  function Duo(w: seq<Pc>, owner: Option<nat>, tasks: seq<seq<Item>>, stat: int, stats: Stats): State {
    State(w, owner, false, tasks, stat, [], Idle, [JobItem(0), JobItem(1)], {}, DoneTexts(stats), [], {}, stats)
  }

  /** The calls that have returned. */
  function DoneTexts(stats: Stats): map<nat, string> {
    if stats.NoStats? || stats.calls == 0 then map[]
    else if stats.calls == 1 then map[0 := "done"]
    else map[0 := "done", 1 := "done"]
  }

  function Counting(calls: nat, decs: nat, prints: nat): Stats { Since(1, 0, calls, decs, 0, prints) }

  lemma DuoCreated(s: State)
    requires Init(s)
    ensures Enabled(s, Create(2, false)) && Apply(s, Create(2, false)) == Created(s.stat, [])
  {
    assert EmptyQueues(2) == [[], []];
  }

  /** The pool of that run while `Create` starts the workers. */
  function Created(x: int, w: seq<Pc>): State {
    State(w, None, false, [[], []], x, [], if |w| < 2 then Creating(2) else Idle, [], {}, map[], [], {}, NoStats)
  }

  lemma DuoWorkers(x: int)
    ensures Enabled(Created(x, []), StartWorker)
    ensures Apply(Created(x, []), StartWorker) == Created(x, [Starting])
    ensures Enabled(Created(x, [Starting]), StartWorker)
    ensures Apply(Created(x, [Starting]), StartWorker) == Created(x, [Starting, Starting])
  {
  }

  lemma DuoPushes(x: int)
    ensures var c := Created(x, [Starting, Starting]);
            var d := c.(tasks := [[JobItem(0)], []], pushed := [JobItem(0)]);
            && Enabled(c, Push(Job(0))) && Apply(c, Push(Job(0))) == d
            && Enabled(d, Push(Job(1)))
            && Apply(d, Push(Job(1))) == Duo([Starting, Starting], None, Queues(0), x, NoStats)
  {
    assert NotifyWorkers([Starting, Starting]) == [Starting, Starting];
    assert [] + [JobItem(0)] == [JobItem(0)] && [] + [JobItem(1)] == [JobItem(1)];
  }

  lemma DuoEnters(x: int)
    ensures var s := Duo([Starting, Starting], None, Queues(0), x, NoStats);
            Enabled(s, Action.StartStat(1))
            && Apply(s, Action.StartStat(1)) == Duo([Starting, Starting], None, Queues(0), 1, Counting(0, 0, 0))
    ensures var s := Duo([Starting, Starting], None, Queues(0), 1, Counting(0, 0, 0));
            Enabled(s, Enter(0)) && Apply(s, Enter(0)) == Duo([AtLock, Starting], None, Queues(0), 1, Counting(0, 0, 0))
    ensures var s := Duo([AtLock, Starting], None, Queues(0), 1, Counting(0, 0, 0));
            Enabled(s, Enter(1)) && Apply(s, Enter(1)) == Duo(Pair(0, AtLock), None, Queues(0), 1, Counting(0, 0, 0))
  {
    CountNone([Starting, Starting]);
  }

  lemma DuoOpens(s: State)
    requires Init(s)
    ensures Path(s, OpenRun(), Duo(Pair(0, AtLock), None, Queues(0), 1, Counting(0, 0, 0)))
  {
    hide Path, Enabled, Apply;
    var run, x, two, c := OpenRun(), s.stat, [Starting, Starting], Counting(0, 0, 0);
    DuoCreated(s);
    DuoWorkers(x);
    DuoPushes(x);
    DuoEnters(x);
    hide *;
    PathStart(s);
    PathSnoc(s, [], s, Create(2, false), Created(x, []));
    PathSnoc(s, [] + [Create(2, false)], Created(x, []), StartWorker, Created(x, [Starting]));
    var first := [] + [Create(2, false)] + [StartWorker];
    PathSnoc(s, first, Created(x, [Starting]), StartWorker, Created(x, two));
    var d := Created(x, two).(tasks := [[JobItem(0)], []], pushed := [JobItem(0)]);
    PathSnoc(s, first + [StartWorker], Created(x, two), Push(Job(0)), d);
    var second := first + [StartWorker] + [Push(Job(0))];
    PathSnoc(s, second, d, Push(Job(1)), Duo(two, None, Queues(0), x, NoStats));
    PathSnoc(s, second + [Push(Job(1))], Duo(two, None, Queues(0), x, NoStats), Action.StartStat(1),
             Duo(two, None, Queues(0), 1, c));
    var third := second + [Push(Job(1))] + [Action.StartStat(1)];
    PathSnoc(s, third, Duo(two, None, Queues(0), 1, c), Enter(0), Duo([AtLock, Starting], None, Queues(0), 1, c));
    PathSnoc(s, third + [Enter(0)], Duo([AtLock, Starting], None, Queues(0), 1, c), Enter(1),
             Duo(Pair(0, AtLock), None, Queues(0), 1, c));
    OpenRunParts();
  }

  lemma OpenRunParts()
    ensures OpenRun() == [] + [Create(2, false)] + [StartWorker] + [StartWorker] + [Push(Job(0))] + [Push(Job(1))]
                       + [Action.StartStat(1)] + [Enter(0)] + [Enter(1)]
  {
  }

  /** The workers while worker `i` moves: the other one is at the lock or its call has returned. */
  function Pair(i: nat, pc: Pc): seq<Pc> {
    if i == 0 then [pc, AtLock] else [Called(JobItem(0), "done"), pc]
  }

  function Queues(i: nat): seq<seq<Item>> {
    if i == 0 then [[JobItem(0)], [JobItem(1)]] else if i == 1 then [[], [JobItem(1)]] else [[], []]
  }

  lemma DuoPasses(i: uint32, c: Stats)
    requires i < 2
    ensures var s := Duo(Pair(i, AtLock), None, Queues(i), 1, c);
            Enabled(s, Check(i)) && Apply(s, Check(i)) == Duo(Pair(i, Passed), Some(i), Queues(i), 1, c)
    ensures var s := Duo(Pair(i, Passed), Some(i), Queues(i), 1, c);
            Enabled(s, TestShutdown(i)) && Apply(s, TestShutdown(i)) == Duo(Pair(i, Popping), Some(i), Queues(i), 1, c)
  {
  }

  lemma DuoPops(i: uint32, c: Stats)
    requires i < 2
    ensures var s := Duo(Pair(i, Popping), Some(i), Queues(i), 1, c);
            Enabled(s, Pop(i)) && Apply(s, Pop(i)) == Duo(Pair(i, Running(JobItem(i))), None, Queues(i + 1), 1, c)
  {
    assert Queues(i)[i] == [JobItem(i)] && [JobItem(i)][1..] == [];
    assert Queues(i)[i := []] == Queues(i + 1);
  }

  lemma DuoCalls(i: uint32)
    requires i < 2
    ensures var s := Duo(Pair(i, Running(JobItem(i))), None, Queues(i + 1), 1, Counting(i, 0, 0));
            && Enabled(s, Call(i, "done"))
            && Apply(s, Call(i, "done")) ==
               Duo(Pair(i, Called(JobItem(i), "done")), None, Queues(i + 1), 1, Counting(i + 1, 0, 0))
  {
  }

  lemma DuoServes(i: uint32)
    requires i < 2
    ensures Path(Duo(Pair(i, AtLock), None, Queues(i), 1, Counting(i, 0, 0)), ServeRun(i),
                 Duo(Pair(i, Called(JobItem(i), "done")), None, Queues(i + 1), 1, Counting(i + 1, 0, 0)))
  {
    assert ServeRun(i) == [] + [Check(i)] + [TestShutdown(i)] + [Pop(i)] + [Call(i, "done")];
    hide *;
    var c := Counting(i, 0, 0);
    var s := Duo(Pair(i, AtLock), None, Queues(i), 1, c);
    var passed := Duo(Pair(i, Passed), Some(i), Queues(i), 1, c);
    var popping := Duo(Pair(i, Popping), Some(i), Queues(i), 1, c);
    var running := Duo(Pair(i, Running(JobItem(i))), None, Queues(i + 1), 1, c);
    DuoPasses(i, c);
    DuoPops(i, c);
    DuoCalls(i);
    PathStart(s);
    PathSnoc(s, [], s, Check(i), passed);
    PathSnoc(s, [] + [Check(i)], passed, TestShutdown(i), popping);
    PathSnoc(s, [] + [Check(i)] + [TestShutdown(i)], popping, Pop(i), running);
    PathSnoc(s, [] + [Check(i)] + [TestShutdown(i)] + [Pop(i)], running, Call(i, "done"),
             Duo(Pair(i, Called(JobItem(i), "done")), None, Queues(i + 1), 1, Counting(i + 1, 0, 0)));
  }

  /** The pool of that run while the workers count. */
  function Tail(p: Pc, q: Pc, stat: int, stats: Stats): State { Duo([p, q], None, Queues(2), stat, stats) }

  lemma DuoTests(x: Item, y: Item)
    ensures var s := Tail(Called(x, "done"), Called(y, "done"), 1, Counting(2, 0, 0));
            Enabled(s, StatTest(0)) && Apply(s, StatTest(0)) == Tail(Tested(x, "done"), Called(y, "done"), 1, Counting(2, 0, 0))
    ensures var s := Tail(Tested(x, "done"), Called(y, "done"), 1, Counting(2, 0, 0));
            Enabled(s, StatTest(1)) && Apply(s, StatTest(1)) == Tail(Tested(x, "done"), Tested(y, "done"), 1, Counting(2, 0, 0))
  {
  }

  lemma DuoDecrements(x: Item, y: Item)
    ensures var s := Tail(Tested(x, "done"), Tested(y, "done"), 1, Counting(2, 0, 0));
            Enabled(s, StatDec(0)) && Apply(s, StatDec(0)) == Tail(Ready(x, "done"), Tested(y, "done"), 0, Counting(2, 1, 1))
    ensures var s := Tail(Ready(x, "done"), Tested(y, "done"), 0, Counting(2, 1, 1));
            Enabled(s, StatDec(1)) && Apply(s, StatDec(1)) == Tail(Ready(x, "done"), Ready(y, "done"), -1, Counting(2, 2, 2))
  {
  }

  lemma DuoCounts(x: Item, y: Item)
    ensures Path(Tail(Called(x, "done"), Called(y, "done"), 1, Counting(2, 0, 0)), CountRun(),
                 Tail(Ready(x, "done"), Ready(y, "done"), -1, Counting(2, 2, 2)))
  {
    assert CountRun() == [] + [StatTest(0)] + [StatTest(1)] + [StatDec(0)] + [StatDec(1)];
    hide *;
    var c := Counting(2, 0, 0);
    var s := Tail(Called(x, "done"), Called(y, "done"), 1, c);
    var both := Tail(Tested(x, "done"), Tested(y, "done"), 1, c);
    var printed := Tail(Ready(x, "done"), Tested(y, "done"), 0, Counting(2, 1, 1));
    DuoTests(x, y);
    DuoDecrements(x, y);
    PathStart(s);
    PathSnoc(s, [], s, StatTest(0), Tail(Tested(x, "done"), Called(y, "done"), 1, c));
    PathSnoc(s, [] + [StatTest(0)], Tail(Tested(x, "done"), Called(y, "done"), 1, c), StatTest(1), both);
    PathSnoc(s, [] + [StatTest(0)] + [StatTest(1)], both, StatDec(0), printed);
    PathSnoc(s, [] + [StatTest(0)] + [StatTest(1)] + [StatDec(0)], printed, StatDec(1),
             Tail(Ready(x, "done"), Ready(y, "done"), -1, Counting(2, 2, 2)));
  }

  /** The line can appear twice: this run from any initial state prints it twice after `StartStat(1)`. */
  lemma PrintsTwice(s: State) returns (t: State)
    requires Init(s)
    ensures Path(s, TwiceRun(), t) && t.stats == Counting(2, 2, 2) && t.stat == -1
  {
    hide Path, OpenRun, ServeRun, CountRun, Queues, Counting;
    var a := Duo(Pair(0, AtLock), None, Queues(0), 1, Counting(0, 0, 0));
    var b := Duo(Pair(1, AtLock), None, Queues(1), 1, Counting(1, 0, 0));
    var c := Tail(Called(JobItem(0), "done"), Called(JobItem(1), "done"), 1, Counting(2, 0, 0));
    t := Tail(Ready(JobItem(0), "done"), Ready(JobItem(1), "done"), -1, Counting(2, 2, 2));
    DuoOpens(s);
    DuoServes(0);
    DuoServes(1);
    DuoCounts(JobItem(0), JobItem(1));
    PathConcat(s, OpenRun(), a, ServeRun(0), b);
    PathConcat(s, OpenRun() + ServeRun(0), b, ServeRun(1), c);
    PathConcat(s, OpenRun() + ServeRun(0) + ServeRun(1), c, CountRun(), t);
  }
}
