/**
 The queue of file operations (service/file.go) and its coalescing notifier
 (service/notify.go).

 The queue is a transition system whose steps are the critical sections of its mutex: they
 may interleave in any order.  `Queue` is the object those sections run on.
 */
module OperationQueue {
  import opened Basics

  type Id = string

  const MAX_QUEUED := 32

  datatype Status = Pending | Running | Success | Failed | Partial

  datatype Operation = Operation(status: Status, finished: bool, body: string)

  // `seqno` numbers the tasks in the order in which they were accepted.
  datatype Task = Task(op: Operation, seqno: nat)

  // The worker goroutine: not alive, about to look for work, or executing a task.
  datatype Worker = Gone | Looking | Executing(id: Id)

  datatype State = State(
    tasks: map<Id, Task>, order: seq<Id>, runningId: Id, workerStarted: bool,
    worker: Worker, next: nat, started: seq<nat>)

  function Initial(): State {
    State(map[], [], "", false, Gone, 0, [])
  }

  predicate Terminal(s: Status) { s == Success || s == Failed || s == Partial }

  // ---------- the steps ----------

  datatype Reply = Ok | Full | Invalid | NotFound | Busy

  function Enqueue(s: State, id: Id, op: Operation): (Reply, State) {
    if |s.tasks| >= MAX_QUEUED then (Full, s)
    else if id in s.tasks || id == "" || id == "0" then (Invalid, s)
    else (Ok, s.(
      tasks := s.tasks[id := Task(op.(status := Pending, finished := false), s.next)],
      order := s.order + [id],
      workerStarted := true,
      worker := if s.workerStarted then s.worker else Looking,
      next := s.next + 1))
  }

  // nextPendingLocked: the first pending task of the order
  function NextPending(tasks: map<Id, Task>, order: seq<Id>): Option<Id> {
    if order == [] then None
    else if order[0] in tasks && tasks[order[0]].op.status == Pending then Some(order[0])
    else NextPending(tasks, order[1..])
  }

  // One turn of the worker up to the execution.
  function Take(s: State): State
    requires s.worker.Looking?
  {
    var next := NextPending(s.tasks, s.order);
    if next.None? || next.value !in s.tasks then s.(workerStarted := false, worker := Gone)
    else
      var t := s.tasks[next.value];
      s.(runningId := next.value, worker := Executing(next.value), started := s.started + [t.seqno],
         tasks := s.tasks[next.value := t.(op := t.op.(status := Running))])
  }

  // ... and after it.
  function Store(s: State, result: Operation): State
    requires s.worker.Executing?
  {
    s.(runningId := "", worker := Looking,
       tasks := if s.worker.id in s.tasks then s.tasks[s.worker.id := s.tasks[s.worker.id].(op := result)] else s.tasks)
  }

  // compactOrderLocked
  function Compact(tasks: map<Id, Task>, order: seq<Id>): seq<Id> {
    if order == [] then []
    else (if order[0] in tasks then [order[0]] else []) + Compact(tasks, order[1..])
  }

  function Without(s: State, ids: set<Id>): State {
    s.(tasks := s.tasks - ids, order := Compact(s.tasks - ids, s.order))
  }

  function Delete(s: State, id: Id): (Reply, State) {
    if id == "0" then (if s.runningId != "" then (Busy, s) else (Ok, s.(tasks := map[], order := [])))
    else if id !in s.tasks then (NotFound, s)
    else if id == s.runningId || s.tasks[id].op.status == Running then (Busy, s)
    else (Ok, Without(s, {id}))
  }

  // acknowledgeTerminal
  function Acknowledge(s: State, ids: set<Id>): State {
    Without(s, TerminalIn(s.tasks, ids))
  }

  function TerminalIn(tasks: map<Id, Task>, ids: set<Id>): set<Id> {
    set id | id in ids && id in tasks && Terminal(tasks[id].op.status)
  }

  // ---------- what every step keeps ----------

  ghost predicate Increasing(tasks: map<Id, Task>, order: seq<Id>) {
    forall i, k | 0 <= i < k < |order| && order[i] in tasks && order[k] in tasks ::
      tasks[order[i]].seqno < tasks[order[k]].seqno
  }

  // The order lists exactly the tasks, each once, by acceptance.
  ghost predicate Ordered(s: State) {
    (forall id :: id in s.order <==> id in s.tasks) && Increasing(s.tasks, s.order)
  }

  lemma OrderHasNoDuplicates(s: State, i: nat, k: nat)
    requires Ordered(s) && i < k < |s.order|
    ensures s.order[i] != s.order[k]
  {
    assert s.order[i] in s.order && s.order[k] in s.order;
  }

  ghost predicate OneRunner(s: State) {
    && "" !in s.tasks && (s.workerStarted <==> !s.worker.Gone?) && (s.runningId != "" <==> s.worker.Executing?)
    && (s.worker.Executing? ==>
        s.runningId == s.worker.id && s.runningId in s.tasks && s.tasks[s.runningId].op.status == Running)
    && (forall id | id in s.tasks && s.tasks[id].op.status == Running :: id == s.runningId)
  }

  ghost predicate NoLostWakeup(s: State) {
    (exists id :: id in s.tasks && s.tasks[id].op.status == Pending) ==> s.workerStarted
  }

  // Tasks start in the order in which they were accepted.
  ghost predicate FirstInFirstOut(s: State) {
    && (forall id | id in s.tasks :: s.tasks[id].seqno < s.next)
    && (forall i, k | 0 <= i < k < |s.started| :: s.started[i] < s.started[k])
    && (forall i | 0 <= i < |s.started| :: s.started[i] < s.next)
    && (forall i, id | 0 <= i < |s.started| && id in s.tasks && s.tasks[id].op.status == Pending ::
        s.started[i] < s.tasks[id].seqno)
  }

  ghost predicate Inv(s: State) {
    && Ordered(s) && |s.tasks| <= 32 && OneRunner(s) && NoLostWakeup(s) && FirstInFirstOut(s)
  }

  lemma InitialInv()
    ensures Inv(Initial())
  {
  }

  lemma EnqueueKeeps(s: State, id: Id, op: Operation)
    requires Inv(s)
    ensures Inv(Enqueue(s, id, op).1)
  {
    hide Ordered, OneRunner, NoLostWakeup, FirstInFirstOut, Enqueue;
    EnqueueKeepsOrder(s, id, op);
    EnqueueKeepsRunner(s, id, op);
    EnqueueKeepsFifo(s, id, op);
  }

  lemma EnqueueKeepsOrder(s: State, id: Id, op: Operation)
    requires Ordered(s) && FirstInFirstOut(s) && |s.tasks| <= MAX_QUEUED
    ensures Ordered(Enqueue(s, id, op).1) && |Enqueue(s, id, op).1.tasks| <= MAX_QUEUED
  {
    hide FirstInFirstOut, Increasing;
    if Enqueue(s, id, op).0 == Ok {
      assert Enqueue(s, id, op).1.tasks.Keys == s.tasks.Keys + {id};
      forall k | k in s.tasks ensures s.tasks[k].seqno < s.next { NumberedBefore(s, k); }
      AppendIncreasing(s.tasks, s.order, id, Task(op.(status := Pending, finished := false), s.next));
    }
  }

  lemma AppendIncreasing(tasks: map<Id, Task>, order: seq<Id>, id: Id, t: Task)
    requires Increasing(tasks, order) && id !in tasks && id !in order
    requires forall k | k in tasks :: tasks[k].seqno < t.seqno
    ensures Increasing(tasks[id := t], order + [id])
  {
    var all := order + [id];
    forall i, k | 0 <= i < k < |all| && all[i] in tasks[id := t] && all[k] in tasks[id := t]
      ensures tasks[id := t][all[i]].seqno < tasks[id := t][all[k]].seqno
    {
      assert all[i] == order[i] && order[i] in order;
      if k < |order| { assert all[k] == order[k] && order[k] in order; }
    }
  }

  lemma NumberedBefore(s: State, id: Id)
    requires FirstInFirstOut(s) && id in s.tasks
    ensures s.tasks[id].seqno < s.next
  {
  }

  lemma EnqueueKeepsRunner(s: State, id: Id, op: Operation)
    requires OneRunner(s) && NoLostWakeup(s)
    ensures var t := Enqueue(s, id, op).1; OneRunner(t) && NoLostWakeup(t)
  {
  }

  lemma EnqueueKeepsFifo(s: State, id: Id, op: Operation)
    requires FirstInFirstOut(s)
    ensures FirstInFirstOut(Enqueue(s, id, op).1)
  {
  }

  lemma {:induction false} NextPendingIsFirst(tasks: map<Id, Task>, order: seq<Id>)
    ensures var n := NextPending(tasks, order);
            && (n.None? ==> forall i | 0 <= i < |order| :: order[i] in tasks ==> tasks[order[i]].op.status != Pending)
            && (n.Some? ==> exists k | 0 <= k < |order| ::
                  && order[k] == n.value && n.value in tasks && tasks[n.value].op.status == Pending
                  && forall i | 0 <= i < k :: order[i] in tasks ==> tasks[order[i]].op.status != Pending)
  {
    if order != [] && !(order[0] in tasks && tasks[order[0]].op.status == Pending) {
      NextPendingIsFirst(tasks, order[1..]);
      var n := NextPending(tasks, order[1..]);
      assert forall i | 1 <= i < |order| :: order[i] == order[1..][i - 1];
      if n.Some? {
        var k :| 0 <= k < |order[1..]| && order[1..][k] == n.value && n.value in tasks &&
          tasks[n.value].op.status == Pending
                 && forall i | 0 <= i < k :: order[1..][i] in tasks ==> tasks[order[1..][i]].op.status != Pending;
        assert order[k + 1] == n.value;
      }
    }
  }

  lemma TakeKeeps(s: State)
    requires Inv(s) && s.worker.Looking?
    ensures Inv(Take(s))
  {
    hide Ordered, OneRunner, NoLostWakeup, FirstInFirstOut, Take;
    TakeKeepsOrder(s);
    TakeKeepsRunner(s);
    TakeKeepsFifo(s);
  }

  lemma SameNumbers(tasks: map<Id, Task>, other: map<Id, Task>, order: seq<Id>)
    requires Increasing(tasks, order) && forall id | id in other :: id in tasks && other[id].seqno == tasks[id].seqno
    ensures Increasing(other, order)
  {
  }

  lemma TakeKeepsOrder(s: State)
    requires s.worker.Looking? && Ordered(s) && |s.tasks| <= MAX_QUEUED
    ensures var t := Take(s); Ordered(t) && |t.tasks| <= MAX_QUEUED
  {
    hide Increasing, NextPending;
    SameNumbers(s.tasks, Take(s).tasks, s.order);
    assert Take(s).tasks.Keys == s.tasks.Keys;
  }

  lemma TakeKeepsRunner(s: State)
    requires s.worker.Looking? && Ordered(s) && OneRunner(s) && NoLostWakeup(s)
    ensures OneRunner(Take(s)) && NoLostWakeup(Take(s))
  {
    hide Increasing;
    NextPendingIsFirst(s.tasks, s.order);
    if NextPending(s.tasks, s.order).None? {
      forall id | id in s.tasks ensures s.tasks[id].op.status != Pending { assert id in s.order; }
    }
  }

  lemma TakeKeepsFifo(s: State)
    requires s.worker.Looking? && Ordered(s) && FirstInFirstOut(s)
    ensures FirstInFirstOut(Take(s))
  {
    hide Ordered, NextPending;
    NextPendingIsFirst(s.tasks, s.order);
    if NextPending(s.tasks, s.order).Some? { TakeFirst(s, NextPending(s.tasks, s.order).value); }
  }

  // The task taken is the oldest pending one.
  lemma TakeFirst(s: State, id: Id)
    requires Ordered(s) && NextPending(s.tasks, s.order) == Some(id)
    ensures id in s.tasks && s.tasks[id].op.status == Pending
    ensures forall other | other in s.tasks && s.tasks[other].op.status == Pending && other != id ::
              s.tasks[id].seqno < s.tasks[other].seqno
  {
    NextPendingIsFirst(s.tasks, s.order);
    var k :| 0 <= k < |s.order| && s.order[k] == id && id in s.tasks && s.tasks[id].op.status == Pending
             && forall i | 0 <= i < k :: s.order[i] in s.tasks ==> s.tasks[s.order[i]].op.status != Pending;
    forall other | other in s.tasks && s.tasks[other].op.status == Pending && other != id
      ensures s.tasks[id].seqno < s.tasks[other].seqno
    {
      assert other in s.order;
      var m :| 0 <= m < |s.order| && s.order[m] == other;
    }
  }

  lemma StoreKeeps(s: State, result: Operation)
    requires Inv(s) && s.worker.Executing? && Terminal(result.status)
    ensures Inv(Store(s, result))
    ensures s.worker.id in s.tasks && Store(s, result).tasks[s.worker.id].op == result
  {
    assert Store(s, result).tasks.Keys == s.tasks.Keys;
  }

  lemma {:induction false} CompactElements(tasks: map<Id, Task>, order: seq<Id>)
    ensures forall id :: id in Compact(tasks, order) <==> id in order && id in tasks
  {
    if order != [] {
      CompactElements(tasks, order[1..]);
      assert order == [order[0]] + order[1..];
    }
  }

  lemma {:induction false} CompactKeepsOrder(tasks: map<Id, Task>, order: seq<Id>)
    requires Increasing(tasks, order)
    ensures Increasing(tasks, Compact(tasks, order))
  {
    if order != [] {
      var rest := order[1..];
      assert forall i | 0 <= i < |rest| :: rest[i] == order[i + 1];
      CompactKeepsOrder(tasks, rest);
      if order[0] in tasks { ConsIncreasing(tasks, order[0], rest, Compact(tasks, rest)); }
    }
  }

  lemma ConsIncreasing(tasks: map<Id, Task>, id: Id, rest: seq<Id>, c: seq<Id>)
    requires id in tasks && Increasing(tasks, [id] + rest) && Increasing(tasks, c) && c == Compact(tasks, rest)
    ensures Increasing(tasks, [id] + c)
  {
    hide Compact;
    CompactElements(tasks, rest);
    var all := [id] + c;
    forall i, k | 0 <= i < k < |all| && all[i] in tasks && all[k] in tasks
      ensures tasks[all[i]].seqno < tasks[all[k]].seqno
    {
      assert all[k] == c[k - 1];
      if i == 0 {
        assert c[k - 1] in rest;
        var m :| 0 <= m < |rest| && rest[m] == c[k - 1];
        assert ([id] + rest)[m + 1] == rest[m] && ([id] + rest)[0] == id;
      } else {
        assert all[i] == c[i - 1];
      }
    }
  }

  lemma WithoutKeeps(s: State, ids: set<Id>)
    requires Inv(s) && forall id | id in ids && id in s.tasks :: s.tasks[id].op.status != Running
    ensures Inv(Without(s, ids))
  {
    hide Ordered, OneRunner, NoLostWakeup, FirstInFirstOut, Without;
    WithoutKeepsOrder(s, ids);
    WithoutKeepsRest(s, ids);
  }

  lemma WithoutKeepsOrder(s: State, ids: set<Id>)
    requires Ordered(s) && |s.tasks| <= MAX_QUEUED
    ensures var t := Without(s, ids); Ordered(t) && |t.tasks| <= MAX_QUEUED
  {
    hide Increasing, Compact;
    var t := Without(s, ids);
    SameNumbers(s.tasks, t.tasks, s.order);
    CompactElements(t.tasks, s.order);
    CompactKeepsOrder(t.tasks, s.order);
    FewerTasks(t.tasks.Keys, s.tasks.Keys);
  }

  lemma WithoutKeepsRest(s: State, ids: set<Id>)
    requires OneRunner(s) && NoLostWakeup(s) && FirstInFirstOut(s)
    requires forall id | id in ids && id in s.tasks :: s.tasks[id].op.status != Running
    ensures OneRunner(Without(s, ids)) && NoLostWakeup(Without(s, ids)) && FirstInFirstOut(Without(s, ids))
  {
    hide Compact;
  }

  lemma FewerTasks(a: set<Id>, b: set<Id>)
    requires a <= b
    ensures |a| <= |b|
  {
    assert b == a + (b - a);
  }

  lemma DeleteKeeps(s: State, id: Id)
    requires Inv(s)
    ensures Inv(Delete(s, id).1)
  {
    if id != "0" && id in s.tasks && id != s.runningId && s.tasks[id].op.status != Running { WithoutKeeps(s, {id}); }
  }

  lemma AcknowledgeKeeps(s: State, ids: set<Id>)
    requires Inv(s)
    ensures Inv(Acknowledge(s, ids))
  {
    WithoutKeeps(s, TerminalIn(s.tasks, ids));
  }

  // ---------- runs ----------

  datatype Action =
    Submit(id: Id, op: Operation) | TakeNext | StoreResult(result: Operation) | Remove(id: Id) | Confirm(ids: set<Id>)

  // Which steps can happen; the executor always ends with a terminal status.
  predicate Enabled(s: State, a: Action) {
    match a
    case TakeNext => s.worker.Looking?
    case StoreResult(result) => s.worker.Executing? && Terminal(result.status)
    case _ => true
  }

  function Apply(s: State, a: Action): State
    requires Enabled(s, a)
  {
    match a
    case Submit(id, op) => Enqueue(s, id, op).1
    case TakeNext => Take(s)
    case StoreResult(result) => Store(s, result)
    case Remove(id) => Delete(s, id).1
    case Confirm(ids) => Acknowledge(s, ids)
  }

  // A sequence of steps that can happen one after the other, from s to t.
  ghost predicate Leads(s: State, run: seq<Action>, t: State)
    decreases |run|
  {
    if run == [] then s == t else Enabled(s, run[0]) && Leads(Apply(s, run[0]), run[1..], t)
  }

  lemma ApplyKeeps(s: State, a: Action)
    requires Inv(s) && Enabled(s, a)
    ensures Inv(Apply(s, a))
  {
    hide Inv, Enqueue, Take, Store, Delete, Acknowledge;
    match a
    case Submit(id, op) => EnqueueKeeps(s, id, op);
    case TakeNext => TakeKeeps(s);
    case StoreResult(result) => StoreKeeps(s, result);
    case Remove(id) => DeleteKeeps(s, id);
    case Confirm(ids) => AcknowledgeKeeps(s, ids);
  }

  /** Over every interleaving: the order is duplicate-free and lists the tasks, there are at
      most 32, at most one runs and it is the recorded one, tasks start first in first out,
      and a pending task implies a live worker. */
  lemma {:induction false} RunKeeps(s: State, run: seq<Action>, t: State)
    requires Inv(s) && Leads(s, run, t)
    ensures Inv(t)
    decreases |run|
  {
    hide Inv, Apply;
    if run != [] {
      ApplyKeeps(s, run[0]);
      RunKeeps(Apply(s, run[0]), run[1..], t);
    }
  }

  // The id is accepted by some submission of the run.
  ghost predicate Accepts(s: State, run: seq<Action>, id: Id)
    decreases |run|
  {
    && run != [] && Enabled(s, run[0])
    && (AcceptsNow(s, run[0], id) || Accepts(Apply(s, run[0]), run[1..], id))
  }

  ghost predicate AcceptsNow(s: State, a: Action, id: Id) {
    a.Submit? && a.id == id && Enqueue(s, id, a.op).0 == Ok
  }

  lemma TerminalStays(s: State, a: Action, id: Id)
    requires Inv(s) && Enabled(s, a) && !AcceptsNow(s, a, id)
    requires id in s.tasks ==> Terminal(s.tasks[id].op.status)
    ensures var t := Apply(s, a); id in t.tasks ==> id in s.tasks && t.tasks[id] == s.tasks[id]
  {
    hide Ordered, NoLostWakeup, FirstInFirstOut, Compact, Increasing;
    NextPendingIsFirst(s.tasks, s.order);
  }

  /** A terminal task keeps its state as long as it is there, unless its id is accepted again. */
  lemma {:induction false} TerminalStaysInRun(s: State, run: seq<Action>, t: State, id: Id)
    requires Inv(s) && Leads(s, run, t) && !Accepts(s, run, id)
    requires id in s.tasks ==> Terminal(s.tasks[id].op.status)
    ensures id in t.tasks ==> id in s.tasks && t.tasks[id] == s.tasks[id]
    decreases |run|
  {
    hide Inv, Apply;
    if run != [] {
      ApplyKeeps(s, run[0]);
      TerminalStays(s, run[0], id);
      TerminalStaysInRun(Apply(s, run[0]), run[1..], t, id);
    }
  }

  // What may become of a task: nothing, it starts as it is, or it ends.
  ghost predicate Progressed(a: Task, b: Task) {
    && a.seqno == b.seqno
    && (|| b == a
        || (a.op.status == Pending && b.op == a.op.(status := Running))
        || (!Terminal(a.op.status) && Terminal(b.op.status)))
  }

  lemma StepProgresses(s: State, a: Action, id: Id)
    requires Inv(s) && Enabled(s, a) && !AcceptsNow(s, a, id) && id in Apply(s, a).tasks
    ensures id in s.tasks && Progressed(s.tasks[id], Apply(s, a).tasks[id])
  {
    hide Ordered, NoLostWakeup, FirstInFirstOut, Compact, Increasing;
    NextPendingIsFirst(s.tasks, s.order);
  }

  lemma {:induction false} RunProgresses(s: State, run: seq<Action>, t: State, id: Id)
    requires Inv(s) && Leads(s, run, t) && !Accepts(s, run, id) && id in t.tasks
    ensures id in s.tasks && Progressed(s.tasks[id], t.tasks[id])
    decreases |run|
  {
    hide Inv, Apply;
    if run != [] {
      ApplyKeeps(s, run[0]);
      RunProgresses(Apply(s, run[0]), run[1..], t, id);
      StepProgresses(s, run[0], id);
    }
  }

  /** A submission is accepted exactly if there is room and its id is usable and free; it is
      then queued as it was submitted, and nothing else changes. */
  lemma EnqueueSays(s: State, id: Id, op: Operation)
    ensures Enqueue(s, id, op).0 == Ok <==> |s.tasks| < 32 && id !in s.tasks && id != "" && id != "0"
    ensures var t := Enqueue(s, id, op).1;
            if Enqueue(s, id, op).0 == Ok then
              && id in t.tasks && t.tasks[id].op == Operation(Pending, false, op.body)
              && t.tasks - {id} == s.tasks && t.workerStarted
            else t == s
  {
  }

  /** Whatever runs between, what the worker executes under an id is what was submitted. */
  lemma ExecutesTheSubmitted(s: State, id: Id, op: Operation, run: seq<Action>, t: State)
    requires Inv(s) && Enqueue(s, id, op).0 == Ok
    requires var q := Enqueue(s, id, op).1; Leads(q, run, t) && !Accepts(q, run, id)
    requires t.worker == Executing(id)
    ensures id in t.tasks && t.tasks[id].op == Operation(Running, false, op.body)
  {
    var q := Enqueue(s, id, op).1;
    EnqueueKeeps(s, id, op);
    RunKeeps(q, run, t);
    Executed(t, id);
    RunProgresses(q, run, t, id);
    EnqueueSays(s, id, op);
  }

  lemma Executed(t: State, id: Id)
    requires Inv(t) && t.worker == Executing(id)
    ensures id in t.tasks && t.tasks[id].op.status == Running
  {
    hide Ordered, NoLostWakeup, FirstInFirstOut;
  }

  /** A deletion takes exactly the task asked for, or all of them, and never while it runs. */
  lemma DeleteSays(s: State, id: Id)
    requires Inv(s)
    ensures var (reply, t) := Delete(s, id);
            if id == "0" then
              if s.runningId == "" then reply == Ok && t.tasks == map[] else reply == Busy && t == s
            else if id !in s.tasks then reply == NotFound && t == s
            else if s.tasks[id].op.status == Running then reply == Busy && t == s
            else reply == Ok && t.tasks == s.tasks - {id}
  {
    hide Ordered, NoLostWakeup, FirstInFirstOut, Compact;
  }

  /** An acknowledgement takes exactly the finished ones among the ids. */
  lemma AcknowledgeSays(s: State, ids: set<Id>, id: Id)
    ensures var t := Acknowledge(s, ids);
            && (id in t.tasks <==> id in s.tasks && (id !in ids || !Terminal(s.tasks[id].op.status)))
            && (id in t.tasks ==> t.tasks[id] == s.tasks[id])
  {
    hide Compact;
  }

  lemma NumbersGrow(s: State, a: Action, id: Id)
    requires Enabled(s, a)
    ensures var t := Apply(s, a);
            && s.next <= t.next
            && (id in t.tasks ==>
                  t.tasks[id].seqno == s.next || (id in s.tasks && t.tasks[id].seqno == s.tasks[id].seqno))
            && (AcceptsNow(s, a, id) ==> id in t.tasks && t.tasks[id].seqno == s.next)
  {
    hide Compact, NextPending;
  }

  // Whatever is numbered from `low` on, or not there, stays so.
  lemma {:induction false} NewStaysNew(s: State, run: seq<Action>, t: State, id: Id, low: nat)
    requires Leads(s, run, t) && low <= s.next && (id in s.tasks ==> s.tasks[id].seqno >= low)
    ensures id in t.tasks ==> t.tasks[id].seqno >= low
    decreases |run|
  {
    hide Apply;
    if run != [] {
      NumbersGrow(s, run[0], id);
      NewStaysNew(Apply(s, run[0]), run[1..], t, id, low);
    }
  }

  // A task found under an id that was accepted again is not the one that was there.
  lemma {:induction false} AcceptedIsNew(s: State, run: seq<Action>, t: State, id: Id, low: nat)
    requires Leads(s, run, t) && Accepts(s, run, id) && low <= s.next
    ensures id in t.tasks ==> t.tasks[id].seqno >= low
    decreases |run|
  {
    hide Apply, Enqueue;
    NumbersGrow(s, run[0], id);
    if AcceptsNow(s, run[0], id) {
      NewStaysNew(Apply(s, run[0]), run[1..], t, id, low);
    } else {
      AcceptedIsNew(Apply(s, run[0]), run[1..], t, id, low);
    }
  }

  // The ids a notification reports as finished.
  function Reported(s: State): set<Id> {
    set id | id in s.tasks && s.tasks[id].op.finished && Terminal(s.tasks[id].op.status)
  }

  // The tasks the acknowledgement of a notification sent from s removes from t.
  ghost predicate Acknowledged(s: State, t: State, id: Id) {
    id in t.tasks && id !in Acknowledge(t, Reported(s)).tasks
  }

  lemma AcknowledgedIff(s: State, t: State, id: Id)
    ensures Acknowledged(s, t, id) <==> id in t.tasks && id in Reported(s) && Terminal(t.tasks[id].op.status)
  {
    hide Compact;
  }

  /** Whatever happened in between, everything acknowledged is exactly what was published for
      it, if and only if no published id was accepted again by then with another finished task
      under it. */
  lemma AcknowledgedWasPublished(s: State, run: seq<Action>, t: State)
    requires Inv(s) && Leads(s, run, t)
    ensures (forall id | Acknowledged(s, t, id) :: id in s.tasks && t.tasks[id] == s.tasks[id]) <==>
            (forall id | id in Reported(s) && Accepts(s, run, id) && id in t.tasks :: !Terminal(t.tasks[id].op.status))
  {
    hide Apply, Leads, Accepts, Acknowledged, Acknowledge;
    forall id
      ensures Acknowledged(s, t, id) <==> id in t.tasks && id in Reported(s) && Terminal(t.tasks[id].op.status)
    {
      AcknowledgedIff(s, t, id);
    }
    forall id | id in Reported(s) && id in t.tasks
      ensures t.tasks[id] == s.tasks[id] <==> !Accepts(s, run, id)
    {
      NumberedBefore(s, id);
      if Accepts(s, run, id) { AcceptedIsNew(s, run, t, id, s.next); } else { TerminalStaysInRun(s, run, t, id); }
    }
  }

  /** And a task whose result nobody saw can be acknowledged: its id was freed and taken again
      between the snapshot and the acknowledgement. */
  lemma ReusedIdIsForgotten() returns (s: State, run: seq<Action>, t: State)
    ensures Inv(s) && Leads(s, run, t) && "a" in s.tasks && "a" in t.tasks
    ensures "a" !in Acknowledge(t, Reported(s)).tasks && t.tasks["a"].op.body != s.tasks["a"].op.body
  {
    hide Inv, Leads, Apply, Initial, Empty, Acknowledge, Reported, Enabled;
    var was, now := Operation(Success, true, "first"), Operation(Success, true, "second");
    InitialInv();
    InitialIsEmpty();
    var first: seq<Action>;
    s, first := RunOne(Initial(), was);
    RunKeeps(Initial(), first, s);
    RemoveOne(s);
    var again: seq<Action>;
    t, again := RunOne(Apply(s, Remove("a")), now);
    run := [Remove("a")] + again;
    LeadsCons(s, Remove("a"), again, t);
    AcknowledgeOne(s, t);
    assert s.tasks["a"].op.body[0] != t.tasks["a"].op.body[0];
  }

  // Nothing queued and nothing running.
  ghost predicate Empty(s: State) {
    s.tasks == map[] && s.order == [] && !s.worker.Executing? && (s.workerStarted ==> s.worker.Looking?)
  }

  lemma InitialIsEmpty()
    ensures Empty(Initial())
  {
  }

  // Task "a" is submitted, runs and ends with the given result.
  lemma RunOne(s: State, result: Operation) returns (t: State, run: seq<Action>)
    requires Empty(s) && Terminal(result.status)
    ensures Leads(s, run, t) && t.tasks.Keys == {"a"} && t.tasks["a"].op == result && t.order == ["a"]
    ensures t.worker.Looking? && t.runningId == ""
  {
    var a := Apply(s, Submit("a", result));
    NextOfOne("a", a.tasks);
    assert a.order == ["a"];
    var b := Apply(a, TakeNext);
    t := Apply(b, StoreResult(result));
    run := [Submit("a", result)] + ([TakeNext] + ([StoreResult(result)] + []));
    hide *;
    LeadsCons(b, StoreResult(result), [], t);
    LeadsCons(a, TakeNext, [StoreResult(result)] + [], t);
    LeadsCons(s, Submit("a", result), [TakeNext] + ([StoreResult(result)] + []), t);
  }

  lemma LeadsCons(s: State, a: Action, rest: seq<Action>, t: State)
    requires Enabled(s, a) && (Leads(Apply(s, a), rest, t) || (rest == [] && t == Apply(s, a)))
    ensures Leads(s, [a] + rest, t)
  {
    hide Apply, Enabled;
    assert ([a] + rest)[1..] == rest;
  }

  lemma RemoveOne(s: State)
    requires s.tasks.Keys == {"a"} && s.order == ["a"] && s.worker.Looking? && s.runningId == ""
    requires Terminal(s.tasks["a"].op.status)
    ensures Enabled(s, Remove("a")) && Empty(Apply(s, Remove("a")))
  {
    CompactOne("a", s.tasks - {"a"});
    assert (s.tasks - {"a"}).Keys == {};
  }

  lemma AcknowledgeOne(s: State, t: State)
    requires "a" in s.tasks && s.tasks["a"].op.finished && Terminal(s.tasks["a"].op.status) && "a" in t.tasks
    requires Terminal(t.tasks["a"].op.status)
    ensures "a" !in Acknowledge(t, Reported(s)).tasks
  {
    hide Compact;
  }

  lemma NextOfOne(id: Id, tasks: map<Id, Task>)
    requires id in tasks && tasks[id].op.status == Pending
    ensures NextPending(tasks, [id]) == Some(id)
  {
  }

  lemma CompactOne(id: Id, tasks: map<Id, Task>)
    requires id !in tasks
    ensures Compact(tasks, [id]) == []
  {
  }

  /** A running task cannot be removed, so its result always finds it. */
  lemma ResultIsStored(s: State, result: Operation)
    requires Inv(s) && s.worker.Executing?
    ensures s.worker.id in s.tasks && Store(s, result).tasks[s.worker.id] == s.tasks[s.worker.id].(op := result)
    ensures forall id :: s.worker.id in Delete(s, id).1.tasks
  {
    hide Ordered, NoLostWakeup, FirstInFirstOut, Compact;
  }

  // ---------- the object ----------

  class Queue {
    var tasks: map<Id, Task>
    var order: seq<Id>
    var runningId: Id
    var workerStarted: bool
    ghost var worker: Worker
    var next: nat
    ghost var started: seq<nat>

    ghost function Abs(): State
      reads this
    {
      State(tasks, order, runningId, workerStarted, worker, next, started)
    }

    constructor ()
      ensures Abs() == Initial()
    {
      tasks, order, runningId, workerStarted, next := map[], [], "", false, 0;
      worker, started := Gone, [];
    }

    method EnqueueTask(id: Id, op: Operation) returns (reply: Reply)
      modifies this
      ensures (reply, Abs()) == Enqueue(old(Abs()), id, op)
    {
      if |tasks| >= MAX_QUEUED { return Full; }
      if id in tasks || id == "" || id == "0" { return Invalid; }
      tasks := tasks[id := Task(op.(status := Pending, finished := false), next)];
      order := order + [id];
      if !workerStarted { worker := Looking; }
      workerStarted, next := true, next + 1;
      reply := Ok;
    }

    method NextPendingLocked() returns (id: Option<Id>)
      ensures id == NextPending(tasks, order)
    {
      var i := 0;
      assert order[0..] == order;
      while i < |order|
        invariant 0 <= i <= |order| && NextPending(tasks, order[i..]) == NextPending(tasks, order)
      {
        assert order[i..][0] == order[i] && order[i..][1..] == order[i + 1..];
        if order[i] in tasks && tasks[order[i]].op.status == Pending { return Some(order[i]); }
        i := i + 1;
      }
      return None;
    }

    // The worker's first critical section; `work` is what it goes on to execute.
    method BeginNext() returns (work: Option<Operation>)
      requires worker.Looking?
      modifies this
      ensures Abs() == Take(old(Abs()))
      ensures work.Some? <==> worker.Executing?
      ensures work.Some? ==> worker.id in tasks && tasks[worker.id].op == work.value
    {
      var id := NextPendingLocked();
      NextPendingIsFirst(tasks, order);
      if id.None? {
        workerStarted, worker := false, Gone;
        return None;
      }
      var task := tasks[id.value];
      runningId, worker, started := id.value, Executing(id.value), started + [task.seqno];
      tasks := tasks[id.value := task.(op := task.op.(status := Running))];
      work := Some(tasks[id.value].op);
    }

    // ... and its second.
    method EndCurrent(id: Id, result: Operation)
      requires worker == Executing(id)
      modifies this`tasks, this`runningId, this`worker
      ensures Abs() == Store(old(Abs()), result)
    {
      if id in tasks { tasks := tasks[id := tasks[id].(op := result)]; }
      runningId, worker := "", Looking;
    }

    method CompactOrder()
      modifies this`order
      ensures order == Compact(tasks, old(order))
    {
      var compacted: seq<Id> := [];
      var i := 0;
      assert order[0..] == order;
      while i < |order|
        invariant 0 <= i <= |order| && compacted + Compact(tasks, order[i..]) == Compact(tasks, order)
      {
        assert order[i..][0] == order[i] && order[i..][1..] == order[i + 1..];
        if order[i] in tasks { compacted := compacted + [order[i]]; }
        i := i + 1;
      }
      order := compacted;
    }

    method DeleteTask(id: Id) returns (reply: Reply)
      modifies this`tasks, this`order
      ensures (reply, Abs()) == Delete(old(Abs()), id)
    {
      if id == "0" {
        if runningId != "" { return Busy; }
        tasks, order := map[], [];
        return Ok;
      }
      if id !in tasks { return NotFound; }
      if id == runningId || tasks[id].op.status == Running { return Busy; }
      tasks := tasks - {id};
      CompactOrder();
      reply := Ok;
    }

    method AcknowledgeTerminal(ids: seq<Id>)
      modifies this`tasks, this`order
      ensures Abs() == Acknowledge(old(Abs()), set id | id in ids)
    {
      ghost var seen: set<Id> := {};
      for i := 0 to |ids|
        invariant tasks == old(tasks) - TerminalIn(old(tasks), seen) && order == old(order)
        invariant seen == set id | id in ids[..i]
      {
        assert ids[..i + 1] == ids[..i] + [ids[i]];
        if ids[i] in tasks && Terminal(tasks[ids[i]].op.status) { tasks := tasks - {ids[i]}; }
        seen := seen + {ids[i]};
      }
      assert ids[..|ids|] == ids && seen == set id | id in ids;
      CompactOrder();
    }
  }

  // ---------- the notifier ----------

  // The publisher goroutine: not alive, before a pass, or in one.
  datatype Publisher = Absent | Before | Within

  // `running` and `requested` are the flags; `asked` and `began` count the requests made
  // and the requests made before the latest pass began, `passes` the passes begun.
  datatype Notifier = Notifier(running: bool, requested: bool, publisher: Publisher, asked: nat, began: nat,
    passes: nat)

  datatype Turn = Request | Begin | Finish

  predicate CanTurn(n: Notifier, t: Turn) {
    match t
    case Request => true
    case Begin => n.publisher == Before
    case Finish => n.publisher == Within
  }

  // StartFileOperationNotifications, and the turns of the goroutine it starts
  function TurnOf(n: Notifier, t: Turn): Notifier
    requires CanTurn(n, t)
  {
    match t
    case Request =>
      if n.running then n.(requested := true, asked := n.asked + 1)
      else n.(running := true, requested := false, publisher := Before, asked := n.asked + 1)
    case Begin => n.(publisher := Within, began := n.asked, passes := n.passes + 1)
    case Finish =>
      if n.requested then n.(requested := false, publisher := Before)
      else n.(running := false, publisher := Absent)
  }

  // A request no pass has followed yet has a publisher that will begin another pass.
  ghost predicate Served(n: Notifier) {
    && n.began <= n.asked && (n.running <==> n.publisher != Absent)
    && (n.began < n.asked ==> n.publisher == Before || (n.publisher == Within && n.requested))
    && n.passes + (if n.publisher == Before then 1 else 0) + (if n.requested then 1 else 0) <= n.asked
  }

  ghost predicate Turns(n: Notifier, ts: seq<Turn>, m: Notifier)
    decreases |ts|
  {
    if ts == [] then n == m else CanTurn(n, ts[0]) && Turns(TurnOf(n, ts[0]), ts[1..], m)
  }

  /** However requests and passes interleave, when no publisher is left every request has
      been followed by a pass that began after it; and there are never more passes than
      requests. */
  lemma {:induction false} EveryRequestIsServed(n: Notifier, ts: seq<Turn>, m: Notifier)
    requires Served(n) && Turns(n, ts, m)
    ensures Served(m) && (!m.running ==> m.began == m.asked) && m.passes <= m.asked
    decreases |ts|
  {
    if ts != [] { EveryRequestIsServed(TurnOf(n, ts[0]), ts[1..], m); }
  }

  /** And a waiting request is at most two turns of the publisher away from its pass. */
  lemma WaitingRequestProgresses(n: Notifier)
    requires Served(n) && n.began < n.asked
    ensures n.publisher == Before ==> TurnOf(n, Begin).began == n.asked
    ensures n.publisher == Within ==>
              var f := TurnOf(n, Finish); f.publisher == Before && TurnOf(f, Begin).began == n.asked
  {
  }
}
