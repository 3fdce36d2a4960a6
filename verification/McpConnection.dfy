/** Which tasks own the connections of an MCPClient, over every interleaving of connects,
    reconnects, caller cancellations, task completions and cleanups.

    The event loop switches only at awaits, so the code between two awaits is one atomic step.
    `done` is the set of tasks the event loop reports as finished at that step; what the network
    does is the nondeterministic choice of the next step. */
module McpConnection {
  import opened Text

  type TaskId = nat
  type CallId = nat

  // ---------------------------------------------------------------- the client

  /** `_connection_task`, `_old_connection_tasks`, and the tasks on which cancel() was called. */
  datatype Client = Client(current: Option<TaskId>, retired: seq<TaskId>, cancelled: set<TaskId>)

  function Live(tasks: seq<TaskId>, done: set<TaskId>): (r: seq<TaskId>)
    ensures forall t :: t in r <==> t in tasks && t !in done
  {
    if tasks == [] then []
    else (if tasks[0] in done then [] else [tasks[0]]) + Live(tasks[1..], done)
  }

  /** `_cancel_connection_task`. */
  function CancelTask(c: Client, t: TaskId, done: set<TaskId>): Client {
    var pruned := Live(c.retired, done);
    if t in done then Client(c.current, pruned, c.cancelled)
    else Client(c.current, pruned + [t], c.cancelled + {t})
  }

  function CancelCurrent(c: Client, done: set<TaskId>): Client {
    if c.current.Some? && c.current.value !in done then CancelTask(c, c.current.value, done).(current := None) else c
  }

  /** `connect_to_server` up to its await: the new owner task replaces the current one. */
  function BeginConnect(c: Client, task: TaskId, done: set<TaskId>): Client {
    CancelCurrent(c, done).(current := Some(task))
  }

  /** `_reconnect` from taking the lock to the await of its connect. */
  function BeginReconnect(c: Client, task: TaskId, done: set<TaskId>): Client {
    BeginConnect(CancelCurrent(c, done).(current := None), task, done)
  }

  /** The connect's caller was cancelled while waiting. */
  function ConnectCancelled(c: Client, done: set<TaskId>): Client {
    CancelCurrent(c, done).(current := None)
  }

  /** The connect's task failed: track it without cancelling it. */
  function ConnectFailed(c: Client, done: set<TaskId>): Client {
    if c.current.Some? && c.current.value !in done then Client(None, c.retired + [c.current.value], c.cancelled)
    else c.(current := None)
  }

  /** `cleanup` up to its await; it waits for the unfinished tasks in `retired`. */
  function BeginCleanup(c: Client, done: set<TaskId>): Client {
    if c.current.Some? then CancelTask(c, c.current.value, done).(current := None) else c
  }

  class MCPClient {
    var connectionTask: Option<TaskId>
    var oldConnectionTasks: seq<TaskId>
    var cancelled: set<TaskId>

    ghost function View(): Client
      reads this
    {
      Client(connectionTask, oldConnectionTasks, cancelled)
    }

    constructor ()
      ensures View() == Client(None, [], {})
    {
      connectionTask, oldConnectionTasks, cancelled := None, [], {};
    }

    method CancelConnectionTask(task: TaskId, done: set<TaskId>)
      modifies this
      ensures View() == CancelTask(old(View()), task, done)
    {
      oldConnectionTasks := Live(oldConnectionTasks, done);
      if task in done {
        return;
      }
      cancelled := cancelled + {task};
      oldConnectionTasks := oldConnectionTasks + [task];
    }

    method ConnectUntilAwait(task: TaskId, done: set<TaskId>)
      modifies this
      ensures View() == BeginConnect(old(View()), task, done)
    {
      if connectionTask.Some? && connectionTask.value !in done {
        CancelConnectionTask(connectionTask.value, done);
        connectionTask := None;
      }
      connectionTask := Some(task);
    }

    method ReconnectUntilAwait(task: TaskId, done: set<TaskId>)
      modifies this
      ensures View() == BeginReconnect(old(View()), task, done)
    {
      if connectionTask.Some? && connectionTask.value !in done {
        CancelConnectionTask(connectionTask.value, done);
      }
      connectionTask := None;
      ConnectUntilAwait(task, done);
    }

    method OnConnectCancelled(done: set<TaskId>)
      modifies this
      ensures View() == ConnectCancelled(old(View()), done)
    {
      if connectionTask.Some? && connectionTask.value !in done {
        CancelConnectionTask(connectionTask.value, done);
      }
      connectionTask := None;
    }

    method OnConnectFailed(done: set<TaskId>)
      modifies this
      ensures View() == ConnectFailed(old(View()), done)
    {
      if connectionTask.Some? && connectionTask.value !in done {
        oldConnectionTasks := oldConnectionTasks + [connectionTask.value];
      }
      connectionTask := None;
    }

    /** Returns the tasks the cleanup has to await; with none it clears the list at once. */
    method CleanupUntilAwait(done: set<TaskId>) returns (pending: seq<TaskId>)
      modifies this
      ensures pending == Live(BeginCleanup(old(View()), done).retired, done)
      ensures View() == (if pending == [] then BeginCleanup(old(View()), done).(retired := [])
                         else BeginCleanup(old(View()), done))
    {
      if connectionTask.Some? {
        CancelConnectionTask(connectionTask.value, done);
        connectionTask := None;
      }
      pending := [];
      if oldConnectionTasks != [] {
        pending := Live(oldConnectionTasks, done);
        if pending == [] {
          oldConnectionTasks := [];
        }
      }
    }

    method CleanupAfterAwait()
      modifies this
      ensures View() == old(View()).(retired := [])
    {
      oldConnectionTasks := [];
    }
  }

  // ---------------------------------------------------------------- the whole system

  /** Created: not yet scheduled.  Open: inside its body, from opening the exit stack to the end
      of closing it.  Done: finished. */
  datatype Phase = Created | Open | Done

  /** connects: calls waiting, each for the task it created.  failed: the tasks whose connecting
      raised, and which therefore end by themselves.  cleanups: calls waiting, each for a set of
      tasks.  exitStack: whose stack `self.exit_stack` is. */
  datatype System = System(
    client: Client,
    tasks: map<TaskId, Phase>,
    exitStack: Option<TaskId>,
    connects: map<CallId, TaskId>,
    failed: set<TaskId>,
    cleanups: map<CallId, set<TaskId>>)

  datatype Step =
    | Connect(call: CallId, task: TaskId)
    | Reconnect(call: CallId, task: TaskId)
    | ConnectSucceeds(call: CallId)
    | ConnectIsCancelled(call: CallId)
    | ConnectFails(call: CallId)
    | Cleanup(call: CallId)
    | CleanupReturns(call: CallId)
    | CleanupIsCancelled(call: CallId)
    | TaskStarts(task: TaskId)
    | TaskNeverStarts(task: TaskId)   // cancelled before its first step: its body never runs
    | TaskFinishes(task: TaskId)

  ghost function DoneTasks(s: System): set<TaskId> {
    set t | t in s.tasks && s.tasks[t] == Done
  }

  ghost predicate Unfinished(s: System, t: TaskId) {
    t in s.tasks && s.tasks[t] != Done
  }

  ghost predicate Enabled(s: System, step: Step) {
    match step
    case Connect(call, task) => call !in s.connects && task !in s.tasks
    case Reconnect(call, task) => call !in s.connects && task !in s.tasks
    case ConnectSucceeds(call) => call in s.connects
    case ConnectIsCancelled(call) => call in s.connects
    case ConnectFails(call) => call in s.connects
    case Cleanup(call) => call !in s.cleanups
    case CleanupReturns(call) => call in s.cleanups && forall t :: t in s.cleanups[call] ==> !Unfinished(s, t)
    case CleanupIsCancelled(call) => call in s.cleanups
    case TaskStarts(task) => task in s.tasks && s.tasks[task] == Created
    case TaskNeverStarts(task) => task in s.tasks && s.tasks[task] == Created && task in s.client.cancelled
    case TaskFinishes(task) => task in s.tasks && s.tasks[task] == Open
  }

  ghost function Next(s: System, step: Step): System
    requires Enabled(s, step)
  {
    var done := DoneTasks(s);
    match step
    case Connect(call, task) =>
      s.(client := BeginConnect(s.client, task, done),
         tasks := s.tasks[task := Created], connects := s.connects[call := task])
    case Reconnect(call, task) =>
      s.(client := BeginReconnect(s.client, task, done),
         tasks := s.tasks[task := Created], connects := s.connects[call := task])
    case ConnectSucceeds(call) => s.(connects := s.connects - {call})
    case ConnectIsCancelled(call) =>
      s.(client := ConnectCancelled(s.client, done), connects := s.connects - {call})
    case ConnectFails(call) =>
      s.(client := ConnectFailed(s.client, done),
         connects := s.connects - {call}, failed := s.failed + {s.connects[call]})
    case Cleanup(call) =>
      var c := BeginCleanup(s.client, done);
      var pending := Live(c.retired, done);
      if pending == [] then s.(client := c.(retired := []))
      else s.(client := c, cleanups := s.cleanups[call := set t | t in pending])
    case CleanupReturns(call) => s.(client := s.client.(retired := []), cleanups := s.cleanups - {call})
    case CleanupIsCancelled(call) =>
      s.(client := s.client.(cancelled := s.client.cancelled + s.cleanups[call]), cleanups := s.cleanups - {call})
    case TaskStarts(task) => s.(tasks := s.tasks[task := Open], exitStack := Some(task))
    case TaskNeverStarts(task) => s.(tasks := s.tasks[task := Done])
    case TaskFinishes(task) =>
      s.(tasks := s.tasks[task := Done], exitStack := if s.exitStack == Some(task) then None else s.exitStack)
  }

  ghost function Start(): System {
    System(Client(None, [], {}), map[], None, map[], {}, map[])
  }

  /** Each step of the run is enabled when its turn comes. */
  ghost predicate Legal(s: System, steps: seq<Step>)
    decreases steps
  {
    steps == [] || (Enabled(s, steps[0]) && Legal(Next(s, steps[0]), steps[1..]))
  }

  ghost function After(s: System, steps: seq<Step>): System
    requires Legal(s, steps)
    decreases steps
  {
    if steps == [] then s else After(Next(s, steps[0]), steps[1..])
  }

  // ---------------------------------------------------------------- ownership

  ghost predicate Tracked(s: System, t: TaskId) {
    s.client.current == Some(t) || t in s.client.retired
  }

  /** Every unfinished owner task can be reached from the client. */
  ghost predicate OwnersTracked(s: System) {
    forall t :: Unfinished(s, t) ==> Tracked(s, t)
  }

  /** `exit_stack` is the stack of a task that is still inside its body. */
  ghost predicate StackIsOpen(s: System) {
    s.exitStack.Some? ==> s.exitStack.value in s.tasks && s.tasks[s.exitStack.value] == Open
  }

  lemma CancelCurrentTracks(c: Client, done: set<TaskId>, t: TaskId)
    requires t !in done && (c.current == Some(t) || t in c.retired)
    ensures var r := CancelCurrent(c, done); r.current != Some(t) && t in r.retired
  {
  }

  /** Every step but the clearing at the end of a cleanup keeps all unfinished owner tasks
      tracked, with no assumption on what overlaps. */
  lemma StepKeepsOwners(s: System, step: Step)
    requires OwnersTracked(s) && Enabled(s, step) && !step.CleanupReturns?
    ensures OwnersTracked(Next(s, step))
  {
    var s', done := Next(s, step), DoneTasks(s);
    forall t | Unfinished(s', t) ensures Tracked(s', t) {
      if t in s.tasks && s.tasks[t] != Done {
        assert t !in done && Tracked(s, t);
        CancelCurrentTracks(s.client, done, t);
      }
    }
  }

  lemma StepKeepsStack(s: System, step: Step)
    requires StackIsOpen(s) && Enabled(s, step)
    ensures StackIsOpen(Next(s, step))
  {
  }

  /** While a cleanup waits, there is no current task and everything unfinished is awaited. */
  ghost predicate CleanupsCover(s: System) {
    s.cleanups != map[] ==>
      s.client.current == None &&
      forall call, t :: call in s.cleanups && Unfinished(s, t) ==> t in s.cleanups[call]
  }

  /** A connect or reconnect does not begin while a cleanup waits. */
  ghost predicate NoOverlap(s: System, step: Step) {
    step.Connect? || step.Reconnect? ==> s.cleanups == map[]
  }

  ghost predicate NeverOverlaps(s: System, steps: seq<Step>)
    requires Legal(s, steps)
    decreases steps
  {
    steps == [] || (NoOverlap(s, steps[0]) && NeverOverlaps(Next(s, steps[0]), steps[1..]))
  }

  lemma CleanupBegins(s: System, call: CallId)
    requires OwnersTracked(s) && CleanupsCover(s) && Enabled(s, Cleanup(call))
    ensures var s' := Next(s, Cleanup(call));
            CleanupsCover(s') && (call !in s'.cleanups ==> forall t :: !Unfinished(s', t))
  {
    var s', done := Next(s, Cleanup(call)), DoneTasks(s);
    var c := BeginCleanup(s.client, done);
    forall t | Unfinished(s, t) ensures t in Live(c.retired, done) {
      assert Tracked(s, t) && t !in done;
    }
    assert s'.tasks == s.tasks;
    assert forall t :: Unfinished(s', t) ==> Unfinished(s, t);
    var pending := Live(c.retired, done);
    if pending == [] {
      assert forall t :: Unfinished(s', t) ==> t in pending;
    } else {
      assert s'.cleanups == s.cleanups[call := set t | t in pending];
    }
  }

  lemma StepKeepsCover(s: System, step: Step)
    requires OwnersTracked(s) && CleanupsCover(s) && Enabled(s, step) && NoOverlap(s, step)
    ensures CleanupsCover(Next(s, step))
  {
    if step.Cleanup? {
      CleanupBegins(s, step.call);
    } else {
      var s' := Next(s, step);
      if s'.cleanups != map[] {
        assert s.cleanups != map[] by {
          var call :| call in s'.cleanups;
          assert call in s.cleanups;
        }
        forall call, t | call in s'.cleanups && Unfinished(s', t) ensures t in s'.cleanups[call] {
          assert call in s.cleanups && Unfinished(s, t);
        }
      }
    }
  }

  lemma CleanupEndsClean(s: System, call: CallId)
    requires CleanupsCover(s) && Enabled(s, CleanupReturns(call))
    ensures forall t :: !Unfinished(Next(s, CleanupReturns(call)), t)
  {
    assert forall t :: Unfinished(s, t) ==> t in s.cleanups[call];
    assert Next(s, CleanupReturns(call)).tasks == s.tasks;
    assert forall t :: Unfinished(Next(s, CleanupReturns(call)), t) ==> Unfinished(s, t);
  }

  /** A cleanup has returned in this step: its wait ended, or it found nothing to wait for. */
  ghost predicate CleanupDone(s: System, step: Step)
    requires Enabled(s, step)
  {
    step.CleanupReturns? || (step.Cleanup? && step.call !in Next(s, step).cleanups)
  }

  lemma {:induction false} OwnershipFrom(s: System, steps: seq<Step>)
    requires OwnersTracked(s) && StackIsOpen(s) && CleanupsCover(s)
    requires Legal(s, steps) && NeverOverlaps(s, steps)
    ensures var e := After(s, steps); OwnersTracked(e) && StackIsOpen(e) && CleanupsCover(e)
    decreases steps
  {
    if steps != [] {
      StepKeepsStack(s, steps[0]);
      StepKeepsCover(s, steps[0]);
      if steps[0].CleanupReturns? {
        CleanupEndsClean(s, steps[0].call);
      } else {
        StepKeepsOwners(s, steps[0]);
      }
      OwnershipFrom(Next(s, steps[0]), steps[1..]);
    }
  }

  /** In every run in which no connect begins while a cleanup waits, each unfinished owner task
      is the current one or among the old ones, and when a cleanup returns none is left. */
  lemma OwnershipHolds(steps: seq<Step>)
    requires Legal(Start(), steps) && NeverOverlaps(Start(), steps)
    ensures var s := After(Start(), steps);
            OwnersTracked(s) && StackIsOpen(s) &&
            forall step | Enabled(s, step) && CleanupDone(s, step) :: forall t :: !Unfinished(Next(s, step), t)
  {
    OwnershipFrom(Start(), steps);
    var s := After(Start(), steps);
    forall step | Enabled(s, step) && CleanupDone(s, step)
      ensures forall t :: !Unfinished(Next(s, step), t)
    {
      if step.Cleanup? {
        CleanupBegins(s, step.call);
      } else {
        CleanupEndsClean(s, step.call);
      }
    }
  }

  // ---------------------------------------------------------------- exactly when tasks stay owned

  /** What could be asked where the list is cleared: nothing unfinished in it, other than the
      current task. */
  ghost predicate ClearIsSafe(s: System) {
    forall t :: t in s.client.retired && Unfinished(s, t) ==> s.client.current == Some(t)
  }

  lemma ClearIff(s: System, call: CallId)
    requires OwnersTracked(s) && Enabled(s, CleanupReturns(call))
    ensures OwnersTracked(Next(s, CleanupReturns(call))) <==> ClearIsSafe(s)
  {
    var s' := Next(s, CleanupReturns(call));
    assert forall t :: Unfinished(s', t) <==> Unfinished(s, t);
    if OwnersTracked(s') {
      forall t | t in s.client.retired && Unfinished(s, t) ensures s.client.current == Some(t) {
        assert Tracked(s', t);
      }
    }
    if ClearIsSafe(s) {
      forall t | Unfinished(s', t) ensures Tracked(s', t) {
        assert Tracked(s, t);
      }
    }
  }

  ghost predicate OwnedThroughout(s: System, steps: seq<Step>)
    requires Legal(s, steps)
    decreases steps
  {
    OwnersTracked(s) && (steps == [] || OwnedThroughout(Next(s, steps[0]), steps[1..]))
  }

  ghost predicate ClearsSafely(s: System, steps: seq<Step>)
    requires Legal(s, steps)
    decreases steps
  {
    steps == [] ||
    ((steps[0].CleanupReturns? ==> ClearIsSafe(s)) && ClearsSafely(Next(s, steps[0]), steps[1..]))
  }

  lemma {:induction false} OwnedIffFrom(s: System, steps: seq<Step>)
    requires OwnersTracked(s) && Legal(s, steps)
    ensures OwnedThroughout(s, steps) <==> ClearsSafely(s, steps)
    decreases steps
  {
    if steps != [] {
      var s' := Next(s, steps[0]);
      if steps[0].CleanupReturns? {
        ClearIff(s, steps[0].call);
      } else {
        StepKeepsOwners(s, steps[0]);
      }
      if OwnersTracked(s') {
        OwnedIffFrom(s', steps[1..]);
      }
    }
  }

  /** With connects and cleanups overlapping in any way, no unfinished owner task is ever lost iff
      every clearing of the list is safe in that sense. */
  lemma OwnedIff(steps: seq<Step>)
    requires Legal(Start(), steps)
    ensures OwnedThroughout(Start(), steps) <==> ClearsSafely(Start(), steps)
  {
    OwnedIffFrom(Start(), steps);
  }

  ghost predicate Finished(s: System, t: TaskId) {
    t in s.tasks ==> s.tasks[t] == Done
  }

  /** No unfinished owner task remains when a cleanup returns iff the current task and the listed
      ones have all finished by then; the current one may be new, and so may listed ones. */
  lemma CleanIff(s: System, call: CallId)
    requires OwnersTracked(s) && Enabled(s, CleanupReturns(call))
    ensures (forall t :: !Unfinished(Next(s, CleanupReturns(call)), t)) <==>
            (s.client.current.Some? ==> Finished(s, s.client.current.value)) &&
            (forall t :: t in s.client.retired ==> Finished(s, t))
  {
    var s' := Next(s, CleanupReturns(call));
    assert forall t :: Unfinished(s', t) <==> Unfinished(s, t);
    assert forall t :: Unfinished(s, t) <==> !Finished(s, t);
    if (s.client.current.Some? ==> Finished(s, s.client.current.value)) &&
       (forall t :: t in s.client.retired ==> Finished(s, t)) {
      forall t ensures !Unfinished(s', t) {
        assert Unfinished(s, t) ==> Tracked(s, t);
      }
    }
  }

  // ---------------------------------------------------------------- whose the exit stack is

  /** The task that started last, before the run or in it. */
  ghost function LastStarted(last: Option<TaskId>, steps: seq<Step>): Option<TaskId>
    decreases steps
  {
    if steps == [] then last
    else LastStarted(if steps[0].TaskStarts? then Some(steps[0].task) else last, steps[1..])
  }

  ghost predicate StackOf(s: System, last: Option<TaskId>) {
    && (last.Some? ==> last.value in s.tasks && s.tasks[last.value] != Created)
    && s.exitStack == if last.Some? && s.tasks[last.value] == Open then last else None
  }

  lemma {:induction false} StackFrom(s: System, steps: seq<Step>, last: Option<TaskId>)
    requires StackOf(s, last) && Legal(s, steps)
    ensures StackOf(After(s, steps), LastStarted(last, steps))
    decreases steps
  {
    if steps != [] {
      var s', step := Next(s, steps[0]), steps[0];
      var last' := if step.TaskStarts? then Some(step.task) else last;
      assert StackOf(s', last');
      StackFrom(s', steps[1..], last');
    }
  }

  /** Over all runs: the exit stack is that of the task that started last, as long as that has not
      finished, whatever other tasks finish. */
  lemma StackIsLastStarted(steps: seq<Step>)
    requires Legal(Start(), steps)
    ensures StackOf(After(Start(), steps), LastStarted(None, steps))
  {
    StackFrom(Start(), steps, None);
  }

  // ---------------------------------------------------------------- what is cancelled

  /** The steps that ask the current task to stop. */
  ghost predicate Retires(step: Step) {
    step.Connect? || step.Reconnect? || step.ConnectIsCancelled? || step.Cleanup?
  }

  /** Exactly these steps cancel an unfinished current task and no other; besides, a cancelled cleanup
      cancels the tasks it waits for.  A failing connect cancels nothing. */
  lemma CancelledExactly(s: System, step: Step, t: TaskId)
    requires Enabled(s, step)
    ensures t in Next(s, step).client.cancelled <==>
            || t in s.client.cancelled
            || (step.CleanupIsCancelled? && t in s.cleanups[step.call])
            || (Retires(step) && s.client.current == Some(t) && !(t in s.tasks && s.tasks[t] == Done))
  {
  }

  /** What becomes of the current task and of the unfinished listed ones. */
  lemma RetiredExactly(s: System, step: Step, t: TaskId)
    requires Enabled(s, step) && !Finished(s, t)
    ensures var s' := Next(s, step);
            && (s'.client.current == Some(t) <==>
                  match step
                  case Connect(_, task) => t == task
                  case Reconnect(_, task) => t == task
                  case ConnectIsCancelled(_) => false
                  case ConnectFails(_) => false
                  case Cleanup(_) => false
                  case _ => s.client.current == Some(t))
            && (t in s'.client.retired <==>
                  match step
                  case CleanupReturns(_) => false
                  case _ =>
                    t in s.client.retired ||
                    (s.client.current == Some(t) && (Retires(step) || step.ConnectFails?)))
  {
    var done := DoneTasks(s);
    assert t !in done;
    ListsExactly(s.client, done, t);
    if step.Cleanup? && t in BeginCleanup(s.client, done).retired {
      assert t in Live(BeginCleanup(s.client, done).retired, done);
    }
  }

  lemma ListsExactly(c: Client, done: set<TaskId>, t: TaskId)
    requires t !in done
    ensures t in CancelCurrent(c, done).retired <==> t in c.retired || c.current == Some(t)
    ensures t in ConnectFailed(c, done).retired <==> t in c.retired || c.current == Some(t)
    ensures t in BeginCleanup(c, done).retired <==> t in c.retired || c.current == Some(t)
    ensures CancelCurrent(CancelCurrent(c, done).(current := None), done).retired == CancelCurrent(c, done).retired
  {
  }

  /** A cleanup waits iff a task it knows is unfinished, and then for exactly these tasks; otherwise it
      is through at once. */
  lemma CleanupAwaitsExactly(s: System, call: CallId)
    requires Enabled(s, Cleanup(call))
    ensures var s' := Next(s, Cleanup(call));
            && (call in s'.cleanups <==> exists t :: Tracked(s, t) && t !in DoneTasks(s))
            && (call in s'.cleanups ==> forall t :: t in s'.cleanups[call] <==> Tracked(s, t) && t !in DoneTasks(s))
            && (call !in s'.cleanups ==> s'.client.retired == [])
  {
    var done := DoneTasks(s);
    var pending := Live(BeginCleanup(s.client, done).retired, done);
    forall t ensures t in pending <==> Tracked(s, t) && t !in done {
      if t !in done {
        ListsExactly(s.client, done, t);
      }
    }
    assert pending != [] ==> pending[0] in pending;
  }

  /** The current task is not listed, not cancelled, and no cleanup waits for it. */
  ghost predicate CurrentUntouched(s: System) {
    && (s.client.current.Some? ==>
          var t := s.client.current.value;
          t !in s.client.retired && t !in s.client.cancelled &&
          forall call :: call in s.cleanups ==> t !in s.cleanups[call])
    && (forall t :: s.client.current == Some(t) || t in s.client.retired || t in s.client.cancelled ==> t in s.tasks)
    && (forall call, t :: call in s.cleanups && t in s.cleanups[call] ==> t in s.tasks)
  }

  lemma StepKeepsCurrent(s: System, step: Step)
    requires CurrentUntouched(s) && Enabled(s, step)
    ensures CurrentUntouched(Next(s, step))
  {
  }

  /** Over all runs: a connection is never asked to stop while it is the current one. */
  lemma {:induction false} CurrentNeverCancelled(s: System, steps: seq<Step>)
    requires CurrentUntouched(s) && Legal(s, steps)
    ensures CurrentUntouched(After(s, steps))
    decreases steps
  {
    if steps != [] {
      StepKeepsCurrent(s, steps[0]);
      CurrentNeverCancelled(Next(s, steps[0]), steps[1..]);
    }
  }

  // ---------------------------------------------------------------- what a cleanup waits for

  /** The task is on its way out: cancelled, or failed by itself. */
  ghost predicate Ending(s: System, t: TaskId) {
    t in s.client.cancelled || t in s.failed
  }

  /** Every unfinished task in the list of old tasks will end without further help. */
  ghost predicate RetiredEnd(s: System) {
    forall t :: t in s.client.retired && Unfinished(s, t) ==> Ending(s, t)
  }

  /** The client knows created tasks only. */
  ghost predicate Known(s: System) {
    (s.client.current.Some? ==> s.client.current.value in s.tasks) && forall t :: t in s.client.retired ==> t in s.tasks
  }

  /** The current task, if it is still running, is the failing call's own or on its way out. */
  ghost predicate FailureIsOwn(s: System, call: CallId)
    requires call in s.connects
  {
    s.client.current.Some? && Unfinished(s, s.client.current.value) ==>
      Ending(s, s.client.current.value) || s.client.current.value == s.connects[call]
  }

  /** Only a failing connect can put a task into the list that nobody asked to stop, and exactly
      if the current task is not its own. */
  lemma StepKeepsEnding(s: System, step: Step)
    requires Known(s) && RetiredEnd(s) && Enabled(s, step)
    ensures Known(Next(s, step))
    ensures RetiredEnd(Next(s, step)) <==> (step.ConnectFails? ==> FailureIsOwn(s, step.call))
  {
    var s', done := Next(s, step), DoneTasks(s);
    if step.ConnectFails? {
      var current := s.client.current;
      if current.Some? && Unfinished(s, current.value) {
        assert current.value in s'.client.retired && Unfinished(s', current.value);
      }
    } else {
      forall t | t in s'.client.retired && Unfinished(s', t) ensures Ending(s', t) {
        assert Unfinished(s, t);
      }
    }
  }

  ghost predicate EndsThroughout(s: System, steps: seq<Step>)
    requires Legal(s, steps)
    decreases steps
  {
    RetiredEnd(s) && (steps == [] || EndsThroughout(Next(s, steps[0]), steps[1..]))
  }

  ghost predicate FailuresAreOwn(s: System, steps: seq<Step>)
    requires Legal(s, steps)
    decreases steps
  {
    steps == [] ||
    ((steps[0].ConnectFails? ==> FailureIsOwn(s, steps[0].call)) && FailuresAreOwn(Next(s, steps[0]), steps[1..]))
  }

  lemma {:induction false} EndsIffFrom(s: System, steps: seq<Step>)
    requires Known(s) && RetiredEnd(s) && Legal(s, steps)
    ensures EndsThroughout(s, steps) <==> FailuresAreOwn(s, steps)
    decreases steps
  {
    if steps != [] {
      StepKeepsEnding(s, steps[0]);
      if RetiredEnd(Next(s, steps[0])) {
        EndsIffFrom(Next(s, steps[0]), steps[1..]);
      }
    }
  }

  /** In every run the listed unfinished tasks have all been asked to stop or have failed, iff no
      connect ever fails while another call's running task is the current one. */
  lemma EndsIff(steps: seq<Step>)
    requires Legal(Start(), steps)
    ensures EndsThroughout(Start(), steps) <==> FailuresAreOwn(Start(), steps)
  {
    EndsIffFrom(Start(), steps);
  }

  /** So every task a cleanup decides to wait for has been asked to stop or has failed iff the
      list held only such tasks. */
  lemma CleanupWaitsForEnding(s: System, call: CallId)
    requires Enabled(s, Cleanup(call))
    ensures var s' := Next(s, Cleanup(call));
            (call in s'.cleanups ==> forall t :: t in s'.cleanups[call] && Unfinished(s, t) ==> Ending(s', t)) <==>
            forall t :: t in s.client.retired && Unfinished(s, t) ==> Ending(s, t) || s.client.current == Some(t)
  {
    var s', done := Next(s, Cleanup(call)), DoneTasks(s);
    var pending := Live(BeginCleanup(s.client, done).retired, done);
    forall t | Unfinished(s, t)
      ensures t in pending <==> t in s.client.retired || s.client.current == Some(t)
      ensures Ending(s', t) <==> Ending(s, t) || s.client.current == Some(t)
    {
      assert t !in done;
    }
    if pending == [] {
      assert forall t :: t in s.client.retired && Unfinished(s, t) ==> t in pending;
    } else {
      assert s'.cleanups[call] == set t | t in pending;
      assert forall t :: t in s'.cleanups[call] <==> t in pending;
    }
  }

  /** Cancelling the same current task twice on the way into a reconnect adds nothing: the
      client ends as after a plain connect. */
  lemma ReconnectIsConnect(c: Client, task: TaskId, done: set<TaskId>)
    ensures BeginReconnect(c, task, done) == BeginConnect(c, task, done)
  {
  }

  // A run in which a connect begins while a cleanup waits, state by state.
  ghost const S1 := System(Client(Some(0), [], {}), map[0 := Created], None, map[0 := 0], {}, map[])
  ghost const S2 := System(Client(None, [0], {0}), map[0 := Created], None, map[0 := 0], {}, map[9 := {0}])
  ghost const S3 := System(
    Client(Some(1), [0], {0}), map[0 := Created, 1 := Created], None, map[0 := 0, 1 := 1], {}, map[9 := {0}])
  ghost const S4 := System(
    Client(Some(2), [0, 1], {0, 1}), map[0 := Created, 1 := Created, 2 := Created], None,
    map[0 := 0, 1 := 1, 2 := 2], {}, map[9 := {0}])
  ghost const S5 := S4.(tasks := map[0 := Done, 1 := Created, 2 := Created])
  ghost const S6 := S5.(client := Client(Some(2), [], {0, 1}), cleanups := map[])

  lemma CleanupWaits()
    ensures Enabled(S1, Cleanup(9)) && Next(S1, Cleanup(9)) == S2
  {
    assert DoneTasks(S1) == {};
    var c := BeginCleanup(S1.client, {});
    assert c.retired == Live([], {}) + [0] == [0] && c.cancelled == {} + {0} == {0};
    assert Live([0], {}) == [0];
    var pending := set t | t in Live([0], {});
    assert pending == {0};
    assert S1.cleanups[9 := pending] == map[9 := {0}];
  }

  lemma TwoConnects()
    ensures Enabled(S2, Connect(1, 1)) && Next(S2, Connect(1, 1)) == S3
    ensures Enabled(S3, Connect(2, 2)) && Next(S3, Connect(2, 2)) == S4
  {
    assert DoneTasks(S3) == {};
    assert Live([0], {}) == [0];
  }

  lemma CleanupClears()
    ensures Enabled(S4, TaskNeverStarts(0)) && Next(S4, TaskNeverStarts(0)) == S5
    ensures Enabled(S5, CleanupReturns(9)) && Next(S5, CleanupReturns(9)) == S6
  {
    assert S4.tasks[0 := Done] == S5.tasks;
    assert map[9 := {0}] - {9} == map[];
  }

  /** Without the hypothesis a task is lost: a connect begins while a cleanup waits, a second
      connect moves its task to the old list, and the cleanup then clears that list. */
  lemma OverlapLosesTask()
    ensures var steps := [Connect(0, 0), Cleanup(9), Connect(1, 1),
                          Connect(2, 2), TaskNeverStarts(0), CleanupReturns(9)];
            Legal(Start(), steps) && Unfinished(After(Start(), steps), 1) && !Tracked(After(Start(), steps), 1)
  {
    var t3 := OverlapEnd();
    TwoConnects();
    OneStep(S3, Connect(2, 2), S4, t3);
    OneStep(S2, Connect(1, 1), S3, [Connect(2, 2)] + t3);
    CleanupWaits();
    var t1 := [Connect(1, 1)] + ([Connect(2, 2)] + t3);
    OneStep(S1, Cleanup(9), S2, t1);
    OneStep(Start(), Connect(0, 0), S1, [Cleanup(9)] + t1);
    assert [Connect(0, 0)] + ([Cleanup(9)] + t1)
        == [Connect(0, 0), Cleanup(9), Connect(1, 1), Connect(2, 2), TaskNeverStarts(0), CleanupReturns(9)];
  }

  lemma OverlapEnd() returns (steps: seq<Step>)
    ensures steps == [TaskNeverStarts(0), CleanupReturns(9)] && Legal(S4, steps) && After(S4, steps) == S6
  {
    CleanupClears();
    OneStep(S5, CleanupReturns(9), S6, []);
    assert [CleanupReturns(9)] + [] == [CleanupReturns(9)];
    OneStep(S4, TaskNeverStarts(0), S5, [CleanupReturns(9)]);
    steps := [TaskNeverStarts(0)] + [CleanupReturns(9)];
  }

  // A run in which a cleanup waits for a task that nobody asked to stop.
  ghost const W1 := System(Client(Some(0), [], {}), map[0 := Created], None, map[0 := 0], {}, map[])
  ghost const W2 := System(Client(Some(0), [], {}), map[0 := Open], Some(0), map[0 := 0], {}, map[])
  ghost const W3 := System(
    Client(Some(1), [0], {0}), map[0 := Open, 1 := Created], Some(0), map[0 := 0, 1 := 1], {}, map[])
  ghost const W4 := System(
    Client(None, [0, 1], {0}), map[0 := Open, 1 := Created], Some(0), map[1 := 1], {0}, map[])
  ghost const W5 := W4.(cleanups := map[9 := {0, 1}])

  lemma Supersedes()
    ensures Enabled(W2, Connect(1, 1)) && Next(W2, Connect(1, 1)) == W3
  {
    assert DoneTasks(W2) == {};
    assert Live([], {}) + [0] == [0];
  }

  lemma SupersededFails()
    ensures Enabled(W3, ConnectFails(0)) && Next(W3, ConnectFails(0)) == W4
  {
    assert DoneTasks(W3) == {};
    assert map[0 := 0, 1 := 1] - {0} == map[1 := 1];
    assert [0] + [1] == [0, 1];
  }

  lemma UnaskedIsAwaited()
    ensures Enabled(W4, Cleanup(9)) && Next(W4, Cleanup(9)) == W5
  {
    assert DoneTasks(W4) == {};
    assert Live([0, 1][1..], {}) == [1] && Live([0, 1], {}) == [0] + [1] == [0, 1];
    assert BeginCleanup(W4.client, {}) == W4.client;
    var pending := set t | t in [0, 1];
    assert pending == {0, 1};
    assert W4.cleanups[9 := pending] == W5.cleanups;
  }

  /** A pending connect is superseded by a second one and fails: its failure branch then lists the
      second one's running task without cancelling it, and a cleanup waits for that task. */
  lemma UnaskedWait()
    ensures var steps := [Connect(0, 0), TaskStarts(0), Connect(1, 1), ConnectFails(0), Cleanup(9)];
            && Legal(Start(), steps) && NeverOverlaps(Start(), steps) && After(Start(), steps) == W5
    ensures 1 in W5.cleanups[9] && Unfinished(W5, 1) && !Ending(W5, 1)
  {
    var t3 := UnaskedEnd();
    Supersedes();
    OneStepApart(W2, Connect(1, 1), W3, t3);
    var t2 := [Connect(1, 1)] + t3;
    OneStepApart(W1, TaskStarts(0), W2, t2);
    OneStepApart(Start(), Connect(0, 0), W1, [TaskStarts(0)] + t2);
    assert [Connect(0, 0)] + ([TaskStarts(0)] + t2)
        == [Connect(0, 0), TaskStarts(0), Connect(1, 1), ConnectFails(0), Cleanup(9)];
  }

  lemma UnaskedEnd() returns (steps: seq<Step>)
    ensures steps == [ConnectFails(0), Cleanup(9)]
    ensures Legal(W3, steps) && NeverOverlaps(W3, steps) && After(W3, steps) == W5
  {
    UnaskedIsAwaited();
    OneStepApart(W4, Cleanup(9), W5, []);
    assert [Cleanup(9)] + [] == [Cleanup(9)];
    SupersededFails();
    OneStepApart(W3, ConnectFails(0), W4, [Cleanup(9)]);
    steps := [ConnectFails(0)] + [Cleanup(9)];
  }

  lemma OneStepApart(s: System, step: Step, s': System, rest: seq<Step>)
    requires Enabled(s, step) && Next(s, step) == s' && NoOverlap(s, step)
    requires Legal(s', rest) && NeverOverlaps(s', rest)
    ensures Legal(s, [step] + rest) && NeverOverlaps(s, [step] + rest)
    ensures After(s, [step] + rest) == After(s', rest)
  {
    assert ([step] + rest)[1..] == rest;
  }

  lemma OneStep(s: System, step: Step, s': System, rest: seq<Step>)
    requires Enabled(s, step) && Next(s, step) == s' && Legal(s', rest)
    ensures Legal(s, [step] + rest) && After(s, [step] + rest) == After(s', rest)
  {
    assert ([step] + rest)[1..] == rest;
  }
}
