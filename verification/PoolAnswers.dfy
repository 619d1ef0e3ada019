/** What the answers say: a JS call's text reaches the results unchanged, and three texts never reach the script. */
module PoolAnswers {
  import opened Common
  import opened Pool
  import Delivery = PoolDelivery

  // ---------------------------------------------------------------- which tasks reach the script

  /** The texts that a worker answers itself. */
  lemma SpecialTexts(body: string)
    ensures Special(body) <==> body in {"", "showmem", "gc"}
  {
  }

  /** A worker that has taken an empty, "showmem" or "gc" task can only answer it itself; with any other task it can
      only call the script, and the call may return any text or throw. */
  lemma ScriptDispatch(s: State, i: nat, text: string)
    requires i < |s.workers| && s.workers[i].Running?
    ensures Enabled(s, Echo(i)) <==> s.workers[i].item.task.body in {"", "showmem", "gc"}
    ensures Enabled(s, Call(i, text)) <==> s.workers[i].item.task.body !in {"", "showmem", "gc"}
    ensures Enabled(s, Fail(i)) <==> s.workers[i].item.task.body !in {"", "showmem", "gc"}
    ensures forall a :: WorkerAction(a) && a.i == i && Enabled(s, a) ==> a.Echo? || a.Call? || a.Fail?
  {
  }

  // ---------------------------------------------------------------- the invariant

  /** What a worker holds against the texts that calls have returned. */
  predicate PcText(texts: map<nat, string>, pc: Pc) {
    match pc
    case Running(x) => x.id !in texts
    case Called(x, text) => !Special(x.task.body) && x.id in texts && texts[x.id] == text
    case Tested(x, text) => !Special(x.task.body) && x.id in texts && texts[x.id] == text
    case Ready(x, text) => if Special(x.task.body) then text == x.task.body else x.id in texts && texts[x.id] == text
    case _ => true
  }

  predicate DoneText(texts: map<nat, string>, d: Done) {
    if Special(d.item.task.body) then d.answer.text == d.item.task.body
    else d.item.id in texts && d.answer.text == texts[d.item.id]
  }

  predicate AllDoneText(texts: map<nat, string>, ds: seq<Done>) {
    forall k :: 0 <= k < |ds| ==> DoneText(texts, ds[k])
  }

  predicate QueueText(texts: map<nat, string>, q: seq<Item>) { forall k :: 0 <= k < |q| ==> q[k].id !in texts }

  /** A failed task reached the script and got no text. */
  predicate FailedText(s: State, k: nat) {
    k < |s.pushed| && !Special(s.pushed[k].task.body) && k !in s.texts
  }

  ghost predicate Inv(s: State) {
    && (forall i: nat :: i < |s.workers| ==> PcText(s.texts, s.workers[i]))
    && (forall i: nat :: i < |s.tasks| ==> QueueText(s.texts, s.tasks[i]))
    && AllDoneText(s.texts, s.handedOut) && AllDoneText(s.texts, s.results)
    && (forall k :: k in s.texts ==> k < |s.pushed|)
    && (forall k :: k in s.failed ==> FailedText(s, k))
  }

  // ---------------------------------------------------------------- a task in hand is nowhere else

  lemma {:induction false} AnsweredHas(ds: seq<Done>, d: Done, n: nat)
    requires n > 0 && d in ds
    ensures d.item in Delivery.Answered(ds, d.item.task.index % n, n)
  {
    var last := ds[|ds| - 1];
    if d != last {
      assert d in ds[..|ds| - 1];
      AnsweredHas(ds[..|ds| - 1], d, n);
    }
  }

  /** The shard of a task in hand is the worker's own, and the number of the task is its place in the push order. */
  lemma HandShard(s: State, i: nat, x: Item)
    requires Delivery.Inv(s) && i < |s.workers| && Delivery.InHand(s.workers[i]) == [x]
    ensures i < |s.tasks| && x.task.index % |s.tasks| == i
    ensures x.id < |s.pushed| && x == s.pushed[x.id] && x.id !in s.failed
  {
    assert x in Delivery.Hand(s.workers, i);
    Delivery.OwnShard(s, i);
  }

  lemma OtherHands(s: State, i: nat, x: Item, j: nat, y: Item)
    requires Delivery.Inv(s) && i < |s.workers| && Delivery.InHand(s.workers[i]) == [x]
    requires j < |s.workers| && Delivery.InHand(s.workers[j]) == [y] && y.id == x.id
    ensures i == j
  {
    HandShard(s, i, x);
    HandShard(s, j, y);
  }

  /** A shard's line, with the task in hand in the middle, has increasing numbers. */
  lemma LineSorted(s: State, i: nat, x: Item)
    requires Delivery.Inv(s) && i < |s.workers| && Delivery.InHand(s.workers[i]) == [x]
    ensures i < |s.tasks|
    ensures forall y :: y in Delivery.Answered(s.handedOut + s.results, i, |s.tasks|) ==> y.id < x.id
    ensures forall y :: y in s.tasks[i] ==> x.id < y.id
  {
    assert Delivery.InOrder(s, i);
    var n := |s.tasks|;
    var line := Delivery.Surviving(s.pushed, s.failed, i, n);
    Delivery.SurvivingSorted(s.pushed, s.failed, i, n);
    hide Delivery.Answered, Delivery.Surviving;
    var a := Delivery.Answered(s.handedOut + s.results, i, n);
    assert line == a + [x] + s.tasks[i];
    assert line[|a|] == x;
    forall y | y in a ensures y.id < x.id {
      var k :| 0 <= k < |a| && a[k] == y;
      assert line[k] == y;
    }
    forall y | y in s.tasks[i] ensures x.id < y.id {
      var k :| 0 <= k < |s.tasks[i]| && s.tasks[i][k] == y;
      assert line[|a| + 1 + k] == y;
    }
  }

  lemma NotQueued(s: State, i: nat, x: Item, j: nat, y: Item)
    requires Delivery.Inv(s) && i < |s.workers| && Delivery.InHand(s.workers[i]) == [x]
    requires j < |s.tasks| && y in s.tasks[j]
    ensures y.id != x.id
  {
    HandShard(s, i, x);
    LineSorted(s, i, x);
    Delivery.OwnShard(s, j);
  }

  lemma NotAnswered(s: State, i: nat, x: Item, d: Done)
    requires Delivery.Inv(s) && i < |s.workers| && Delivery.InHand(s.workers[i]) == [x]
    requires d in s.handedOut || d in s.results
    ensures d.item.id != x.id
  {
    HandShard(s, i, x);
    LineSorted(s, i, x);
    var n, ds := |s.tasks|, s.handedOut + s.results;
    var j := d.item.task.index % n;
    assert d in ds;
    AnsweredHas(ds, d, n);
    assert Delivery.InOrder(s, j);
    Delivery.SurvivingSorted(s.pushed, s.failed, j, n);
    assert d.item in Delivery.Holding(s, j);
  }

  // ---------------------------------------------------------------- every step keeps the invariant

  lemma DoneTextGrows(texts: map<nat, string>, ds: seq<Done>, k: nat, text: string)
    requires AllDoneText(texts, ds) && forall d :: d in ds ==> d.item.id != k
    ensures AllDoneText(texts[k := text], ds)
  {
    forall j | 0 <= j < |ds| ensures DoneText(texts[k := text], ds[j]) {
      assert ds[j] in ds;
    }
  }

  lemma CallKeeps(s: State, i: nat, text: string)
    requires Delivery.Inv(s) && Inv(s) && Enabled(s, Call(i, text))
    ensures Inv(CallReturns(s, i, text))
  {
    var t, x := CallReturns(s, i, text), s.workers[i].item;
    HandShard(s, i, x);
    forall j: nat | j < |t.workers| ensures PcText(t.texts, t.workers[j]) {
      if j != i {
        assert PcText(s.texts, s.workers[j]);
        if Delivery.InHand(s.workers[j]) != [] && s.workers[j].item.id == x.id {
          OtherHands(s, i, x, j, s.workers[j].item);
        }
      }
    }
    forall j: nat | j < |t.tasks| ensures QueueText(t.texts, t.tasks[j]) {
      forall k | 0 <= k < |s.tasks[j]| ensures s.tasks[j][k].id !in t.texts {
        NotQueued(s, i, x, j, s.tasks[j][k]);
      }
    }
    forall d | d in s.handedOut || d in s.results ensures d.item.id != x.id { NotAnswered(s, i, x, d); }
    DoneTextGrows(s.texts, s.handedOut, x.id, text);
    DoneTextGrows(s.texts, s.results, x.id, text);
    forall k | k in t.failed ensures FailedText(t, k) { assert FailedText(s, k); }
  }

  lemma FailKeeps(s: State, i: nat)
    requires Delivery.Inv(s) && Inv(s) && Enabled(s, Fail(i))
    ensures Inv(CallThrows(s, i))
  {
    var t, x := CallThrows(s, i), s.workers[i].item;
    HandShard(s, i, x);
    assert PcText(s.texts, s.workers[i]);
    forall k | k in t.failed ensures FailedText(t, k) {
      if k != x.id { assert FailedText(s, k); }
    }
  }

  lemma PublishKeeps(s: State, i: nat)
    requires Inv(s) && Enabled(s, Publish(i))
    ensures Inv(PublishAnswer(s, i))
  {
    var t := PublishAnswer(s, i);
    assert PcText(s.texts, s.workers[i]);
    forall k | 0 <= k < |t.results| ensures DoneText(t.texts, t.results[k]) {
      if k < |s.results| { assert t.results[k] == s.results[k]; }
    }
    forall k | k in t.failed ensures FailedText(t, k) { assert FailedText(s, k); }
  }

  lemma PushKeeps(s: State, task: Task)
    requires Inv(s) && Enabled(s, Push(task))
    ensures Inv(PushTask(s, task))
  {
    var t := PushTask(s, task);
    forall j: nat | j < |t.workers| ensures PcText(t.texts, t.workers[j]) { assert PcText(s.texts, s.workers[j]); }
    forall j: nat | j < |t.tasks| ensures QueueText(t.texts, t.tasks[j]) { assert QueueText(s.texts, s.tasks[j]); }
    forall k | k in t.failed ensures FailedText(t, k) {
      assert FailedText(s, k);
      assert t.pushed[k] == s.pushed[k];
    }
  }

  lemma PopKeeps(s: State, i: nat)
    requires Inv(s) && Enabled(s, Pop(i))
    ensures Inv(PopTask(s, i))
  {
    var t := PopTask(s, i);
    assert QueueText(s.texts, s.tasks[i]);
    forall k | k in t.failed ensures FailedText(t, k) { assert FailedText(s, k); }
  }

  /** Steps that neither move a task nor learn a text. */
  lemma StillKeeps(s: State, t: State)
    requires Inv(s) && t.texts == s.texts && t.pushed == s.pushed && t.failed == s.failed
    requires forall i: nat :: i < |t.tasks| ==> t.tasks[i] == [] || (i < |s.tasks| && t.tasks[i] == s.tasks[i])
    requires AllDoneText(t.texts, t.handedOut) && AllDoneText(t.texts, t.results)
    requires forall i: nat :: i < |t.workers| ==> PcText(t.texts, t.workers[i])
    ensures Inv(t)
  {
    forall j: nat | j < |t.tasks| ensures QueueText(t.texts, t.tasks[j]) {
      if t.tasks[j] != [] { assert QueueText(s.texts, s.tasks[j]); }
    }
    forall k | k in t.failed ensures FailedText(t, k) { assert FailedText(s, k); }
  }

  lemma WorkerStillKeeps(s: State, a: Action)
    requires Inv(s) && WorkerAction(a) && Enabled(s, a) && !a.Pop? && !a.Call? && !a.Fail? && !a.Publish?
    ensures Inv(Apply(s, a))
  {
    var t := Apply(s, a);
    assert PcText(s.texts, s.workers[a.i]);
    assert PcText(t.texts, t.workers[a.i]);
    StillKeeps(s, t);
  }

  lemma ControlKeeps(s: State, a: Action)
    requires Inv(s) && Enabled(s, a) && !WorkerAction(a) && !a.Push?
    ensures Inv(Apply(s, a))
  {
    var t := Apply(s, a);
    forall j: nat | j < |t.workers| ensures PcText(t.texts, t.workers[j]) {
      if j < |s.workers| { assert PcText(s.texts, s.workers[j]); }
    }
    StillKeeps(s, t);
  }

  lemma InvStep(s: State, a: Action)
    requires Delivery.Inv(s) && Inv(s) && Enabled(s, a)
    ensures Inv(Apply(s, a))
  {
    hide Inv, Delivery.Inv, PushTask, PopTask, CallReturns, CallThrows, PublishAnswer;
    if a.Push? {
      PushKeeps(s, a.task);
    } else if a.Pop? {
      PopKeeps(s, a.i);
    } else if a.Call? {
      CallKeeps(s, a.i, a.text);
    } else if a.Fail? {
      FailKeeps(s, a.i);
    } else if a.Publish? {
      PublishKeeps(s, a.i);
    } else if WorkerAction(a) {
      WorkerStillKeeps(s, a);
    } else {
      ControlKeeps(s, a);
    }
  }

  lemma {:induction false} InvPath(s: State, actions: seq<Action>, t: State)
    requires Delivery.Inv(s) && Inv(s) && Path(s, actions, t)
    ensures Delivery.Inv(t) && Inv(t)
    decreases |actions|
  {
    if actions != [] {
      InvStep(s, actions[0]);
      Delivery.InvStep(s, actions[0]);
      InvPath(Apply(s, actions[0]), actions[1..], t);
    }
  }

  lemma ReachableInv(s: State)
    requires Reachable(s)
    ensures Delivery.Inv(s) && Inv(s)
  {
    var start: State, actions: seq<Action> :| Init(start) && Path(start, actions, s);
    InvPath(start, actions, s);
  }

  // ---------------------------------------------------------------- results

  /** In every reachable state: every answer of a task that reached the script carries the text that its call returned,
      and every other answer the task's own text. */
  lemma AnswersCarryTexts(s: State, d: Done)
    requires Reachable(s) && (d in s.handedOut || d in s.results)
    ensures d.answer.callback == d.item.task.callback
    ensures d.item.task.body in {"", "showmem", "gc"} ==> d.answer.text == d.item.task.body
    ensures d.item.task.body !in {"", "showmem", "gc"} ==>
              d.item.id in s.texts && d.answer.text == s.texts[d.item.id]
  {
    ReachableInv(s);
    SpecialTexts(d.item.task.body);
    Delivery.AnswersAreGenuine(s, d);
  }

  /** Tasks that never reach the script are never dropped, broadcasts among them. */
  lemma SpecialNeverFails(s: State, x: Item)
    requires Reachable(s) && x in s.pushed && x.task.body in {"", "showmem", "gc"}
    ensures x.id !in s.failed
  {
    ReachableInv(s);
    SpecialTexts(x.task.body);
    assert x.id in s.failed ==> FailedText(s, x.id);
  }

  lemma TextStep(s: State, a: Action, k: nat)
    requires Inv(s) && Enabled(s, a) && k in s.texts
    ensures k in Apply(s, a).texts && Apply(s, a).texts[k] == s.texts[k]
  {
    if a.Call? { assert PcText(s.texts, s.workers[a.i]); }
  }

  lemma {:induction false} TextPath(s: State, actions: seq<Action>, t: State, k: nat)
    requires Delivery.Inv(s) && Inv(s) && Path(s, actions, t) && k in s.texts
    ensures k in t.texts && t.texts[k] == s.texts[k]
    decreases |actions|
  {
    if actions != [] {
      TextStep(s, actions[0], k);
      InvStep(s, actions[0]);
      Delivery.InvStep(s, actions[0]);
      hide Inv, Delivery.Inv, Apply, Enabled;
      TextPath(Apply(s, actions[0]), actions[1..], t, k);
    }
  }

  /** From the call to the answer: when a JS call returns `text`, then in every later state the task is in a worker's
      hands or answered, exactly once and not dropped, and its answer is its callback with that very text. */
  lemma CallIsAnswered(s: State, i: nat, text: string, actions: seq<Action>, t: State)
    requires Reachable(s) && Enabled(s, Call(i, text)) && Path(Apply(s, Call(i, text)), actions, t)
    ensures var x := s.workers[i].item;
            && x.id !in t.failed
            && Delivery.CountHands(t.workers, x) + Delivery.CountDone(t.results, x)
             + Delivery.CountDone(t.handedOut, x) == 1
            && forall d :: (d in t.handedOut || d in t.results) && d.item == x ==>
                 d.answer == Answer(x.task.callback, text)
  {
    var u, x := Apply(s, Call(i, text)), s.workers[i].item;
    ReachableInv(s);
    HandShard(s, i, x);
    StepReachable(s, Call(i, text));
    PathReachable(u, actions, t);
    ReachableInv(u);
    ReachableInv(t);
    TextPath(u, actions, t, x.id);
    PushedPath(u, actions, t, x.id);
    TextHolder(t, x, text);
    forall d | (d in t.handedOut || d in t.results) && d.item == x ensures d.answer == Answer(x.task.callback, text) {
      AnswersCarryTexts(t, d);
    }
  }

  lemma TextHolder(t: State, x: Item, text: string)
    requires Reachable(t) && Delivery.Inv(t) && Inv(t) && x in t.pushed && x.id in t.texts
    ensures x.id !in t.failed
    ensures Delivery.CountHands(t.workers, x) + Delivery.CountDone(t.results, x) + Delivery.CountDone(t.handedOut, x) == 1
  {
    assert x.id in t.failed ==> FailedText(t, x.id);
    forall j: nat | j < |t.tasks| ensures x !in t.tasks[j] { assert QueueText(t.texts, t.tasks[j]); }
    Delivery.CountOneQueue(t.tasks, x, |t.tasks|);
    Delivery.ExactlyOnePlace(t, x);
  }

  lemma PushedStep(s: State, a: Action, k: nat)
    requires Enabled(s, a) && k < |s.pushed|
    ensures k < |Apply(s, a).pushed| && Apply(s, a).pushed[k] == s.pushed[k]
  {
  }

  lemma {:induction false} PushedPath(s: State, actions: seq<Action>, t: State, k: nat)
    requires Path(s, actions, t) && k < |s.pushed|
    ensures k < |t.pushed| && t.pushed[k] == s.pushed[k]
    decreases |actions|
  {
    if actions != [] {
      PushedStep(s, actions[0], k);
      PushedPath(Apply(s, actions[0]), actions[1..], t, k);
    }
  }
}
