/** The chat scheduler of src/chat/chat.ts: tasks wait in a queue, workers
    (model endpoints with a token limit per time window) keep a history of
    the tasks they ran, and one scheduling pass hands each worker, in list
    order, the tasks a packing function selects for its remaining capacity.
    Running a task reserves it on its worker and takes it off the queue; a
    failed task is queued again until its retries are used up. The state
    changes are pure functions from the old state to the new one; the
    scheduling pass is a loop. The clock is the parameter `now`; `dfsPack`
    is the parameter `pack`. */
module Chat {
  import opened Text

  /** `ChatTaskDemand`. */
  datatype Demand = Demand(acceptModels: seq<string>, totalTokens: real, maxRetry: int)

  /** `ChatTask`, without its input and callbacks. */
  datatype ChatTask = ChatTask(id: string, demand: Demand, retryLeft: int)

  /** One entry of a worker's `historyTasks`. */
  datatype HistoryEntry = HistoryEntry(id: string, expireAt: int, demand: Demand)

  /** `ChatWorkerSpec`. */
  datatype WorkerSpec = WorkerSpec(models: seq<string>, tokenLimit: real, tokenLimitWindowSize: int)

  /** `ChatWorker`, without its proxy. */
  datatype ChatWorker = ChatWorker(id: string, spec: WorkerSpec, historyTasks: seq<HistoryEntry>)

  /** `SchedulerState`. */
  datatype SchedulerState = SchedulerState(tasks: seq<ChatTask>, workers: seq<ChatWorker>)

  // ----- the queue -----

  /** `queue.filter((t) => t.id !== taskId)`. */
  function RemoveTaskFromQueue(queue: seq<ChatTask>, taskId: string): (r: seq<ChatTask>)
    ensures forall j :: 0 <= j < |r| ==> r[j].id != taskId
    ensures forall t :: t in r <==> t in queue && t.id != taskId
    ensures |r| <= |queue|
  {
    if |queue| == 0 then []
    else
      var rest := RemoveTaskFromQueue(queue[..|queue| - 1], taskId);
      var last := queue[|queue| - 1];
      if last.id != taskId then rest + [last] else rest
  }

  /** Removal distributes over concatenation, so the tasks that stay keep
      their relative order. */
  lemma {:induction false} RemoveAppend(a: seq<ChatTask>, b: seq<ChatTask>, taskId: string)
    ensures RemoveTaskFromQueue(a + b, taskId) == RemoveTaskFromQueue(a, taskId) + RemoveTaskFromQueue(b, taskId)
    decreases |b|
  {
    if |b| == 0 {
      assert a + b == a;
    } else {
      var b' := b[..|b| - 1];
      assert (a + b)[..|a + b| - 1] == a + b';
      RemoveAppend(a, b', taskId);
    }
  }

  /** Removing a task id twice is removing it once. */
  lemma {:induction false} RemoveIdempotent(queue: seq<ChatTask>, taskId: string)
    ensures RemoveTaskFromQueue(RemoveTaskFromQueue(queue, taskId), taskId) == RemoveTaskFromQueue(queue, taskId)
  {
    if |queue| > 0 {
      var init, last := queue[..|queue| - 1], queue[|queue| - 1];
      RemoveIdempotent(init, taskId);
      var rest := RemoveTaskFromQueue(init, taskId);
      if last.id != taskId {
        assert (rest + [last])[..|rest|] == rest;
      }
    }
  }

  /** The number of tasks with the given id. */
  function CountId(queue: seq<ChatTask>, taskId: string): nat
  {
    if |queue| == 0 then 0
    else CountId(queue[..|queue| - 1], taskId) + (if queue[|queue| - 1].id == taskId then 1 else 0)
  }

  lemma {:induction false} CountAfterRemove(queue: seq<ChatTask>, taskId: string)
    ensures CountId(RemoveTaskFromQueue(queue, taskId), taskId) == 0
    ensures |RemoveTaskFromQueue(queue, taskId)| == |queue| - CountId(queue, taskId)
  {
    if |queue| > 0 {
      var init, last := queue[..|queue| - 1], queue[|queue| - 1];
      CountAfterRemove(init, taskId);
      var rest := RemoveTaskFromQueue(init, taskId);
      if last.id != taskId {
        assert (rest + [last])[..|rest|] == rest;
      }
    }
  }

  /** `[...queue.filter((t) => t.id !== task.id), task]`: the task goes to
      the back, replacing any queued task with its id. */
  function AddTaskToQueue(queue: seq<ChatTask>, task: ChatTask): (r: seq<ChatTask>)
    ensures |r| >= 1 && r[|r| - 1] == task
  {
    RemoveTaskFromQueue(queue, task.id) + [task]
  }

  /** After queueing, the task's id occurs exactly once, at the back, and
      the other tasks are those of the queue with a different id, in their
      order. */
  lemma AddTaskOnce(queue: seq<ChatTask>, task: ChatTask)
    ensures CountId(AddTaskToQueue(queue, task), task.id) == 1
    ensures AddTaskToQueue(queue, task)[..|AddTaskToQueue(queue, task)| - 1] == RemoveTaskFromQueue(queue, task.id)
  {
    var rest := RemoveTaskFromQueue(queue, task.id);
    CountAfterRemove(queue, task.id);
    assert (rest + [task])[..|rest|] == rest;
  }

  /** Queueing the same task twice is queueing it once. */
  lemma AddTaskIdempotent(queue: seq<ChatTask>, task: ChatTask)
    ensures AddTaskToQueue(AddTaskToQueue(queue, task), task) == AddTaskToQueue(queue, task)
  {
    var rest := RemoveTaskFromQueue(queue, task.id);
    RemoveAppend(rest, [task], task.id);
    RemoveIdempotent(queue, task.id);
    assert RemoveTaskFromQueue([task], task.id) == [] by {
      assert [task][..0] == [];
    }
  }

  // ----- workers -----

  /** Appends the entry `{id, demand, expireAt}` to the history of the
      workers with the given id. */
  function AddTaskToWorker(workers: seq<ChatWorker>, workerId: string, task: ChatTask, expireAt: int): (r: seq<ChatWorker>)
    ensures |r| == |workers|
    ensures forall j :: 0 <= j < |r| ==>
      r[j] == if workers[j].id != workerId then workers[j]
              else workers[j].(historyTasks := workers[j].historyTasks + [HistoryEntry(task.id, expireAt, task.demand)])
  {
    seq(|workers|, j requires 0 <= j < |workers| =>
      if workers[j].id != workerId then workers[j]
      else workers[j].(historyTasks := workers[j].historyTasks + [HistoryEntry(task.id, expireAt, task.demand)]))
  }

  /** The history entries that have not expired at `now`, in order. */
  function Unexpired(history: seq<HistoryEntry>, now: int): (r: seq<HistoryEntry>)
    ensures forall e :: e in r <==> e in history && e.expireAt > now
  {
    if |history| == 0 then []
    else
      var rest := Unexpired(history[..|history| - 1], now);
      var last := history[|history| - 1];
      if last.expireAt > now then rest + [last] else rest
  }

  lemma {:induction false} UnexpiredAppend(a: seq<HistoryEntry>, b: seq<HistoryEntry>, now: int)
    ensures Unexpired(a + b, now) == Unexpired(a, now) + Unexpired(b, now)
    decreases |b|
  {
    if |b| == 0 {
      assert a + b == a;
    } else {
      var b' := b[..|b| - 1];
      assert (a + b)[..|a + b| - 1] == a + b';
      UnexpiredAppend(a, b', now);
    }
  }

  lemma {:induction false} UnexpiredIdempotent(history: seq<HistoryEntry>, now: int)
    ensures Unexpired(Unexpired(history, now), now) == Unexpired(history, now)
  {
    if |history| > 0 {
      var init, last := history[..|history| - 1], history[|history| - 1];
      UnexpiredIdempotent(init, now);
      var rest := Unexpired(init, now);
      if last.expireAt > now {
        assert (rest + [last])[..|rest|] == rest;
      }
    }
  }

  /** `removeWorkerExpiredTasks(workers, now)`: every worker keeps the
      history entries that expire after `now`; nothing else changes. */
  function RemoveWorkerExpiredTasks(workers: seq<ChatWorker>, now: int): (r: seq<ChatWorker>)
    ensures |r| == |workers|
    ensures forall j :: 0 <= j < |r| ==>
      r[j].id == workers[j].id && r[j].spec == workers[j].spec
      && forall e :: e in r[j].historyTasks <==> e in workers[j].historyTasks && e.expireAt > now
  {
    seq(|workers|, j requires 0 <= j < |workers| => workers[j].(historyTasks := Unexpired(workers[j].historyTasks, now)))
  }

  /** Pruning twice at the same time is pruning once. */
  lemma PruneIdempotent(workers: seq<ChatWorker>, now: int)
    ensures RemoveWorkerExpiredTasks(RemoveWorkerExpiredTasks(workers, now), now) == RemoveWorkerExpiredTasks(workers, now)
  {
    var once := RemoveWorkerExpiredTasks(workers, now);
    forall j | 0 <= j < |workers|
      ensures RemoveWorkerExpiredTasks(once, now)[j] == once[j]
    {
      UnexpiredIdempotent(workers[j].historyTasks, now);
    }
  }

  /** A reservation that has already expired is undone by pruning; one that
      has not commutes with pruning. */
  lemma PruneAfterAdd(workers: seq<ChatWorker>, workerId: string, task: ChatTask, expireAt: int, now: int)
    ensures expireAt <= now ==>
      RemoveWorkerExpiredTasks(AddTaskToWorker(workers, workerId, task, expireAt), now) == RemoveWorkerExpiredTasks(workers, now)
    ensures expireAt > now ==>
      RemoveWorkerExpiredTasks(AddTaskToWorker(workers, workerId, task, expireAt), now)
        == AddTaskToWorker(RemoveWorkerExpiredTasks(workers, now), workerId, task, expireAt)
  {
    var e := HistoryEntry(task.id, expireAt, task.demand);
    forall j | 0 <= j < |workers| && workers[j].id == workerId
      ensures Unexpired(workers[j].historyTasks + [e], now) == Unexpired(workers[j].historyTasks, now) + Unexpired([e], now)
    {
      UnexpiredAppend(workers[j].historyTasks, [e], now);
    }
    assert [e][..0] == [];
    if expireAt <= now {
      assert Unexpired([e], now) == [];
    } else {
      assert Unexpired([e], now) == [e];
    }
  }

  /** The tokens demanded by a history, summed left to right. */
  function HistoryTokens(history: seq<HistoryEntry>): real
  {
    if |history| == 0 then 0.0
    else HistoryTokens(history[..|history| - 1]) + history[|history| - 1].demand.totalTokens
  }

  /** The capacity `dfsSelectTaskIndices` packs against: the token limit less
      everything in the history, with no time window and no model check. */
  function WorkerCapacity(w: ChatWorker): (r: real)
    ensures w.historyTasks == [] ==> r == w.spec.tokenLimit
    ensures (forall e :: e in w.historyTasks ==> e.demand.totalTokens >= 0.0) ==> r <= w.spec.tokenLimit
  {
    HistoryTokensNonNegative(w.historyTasks);
    w.spec.tokenLimit - HistoryTokens(w.historyTasks)
  }

  /** A history of non-negative demands sums to a non-negative total. */
  lemma {:induction false} HistoryTokensNonNegative(history: seq<HistoryEntry>)
    ensures (forall e :: e in history ==> e.demand.totalTokens >= 0.0) ==> HistoryTokens(history) >= 0.0
  {
    if |history| > 0 {
      var init := history[..|history| - 1];
      assert forall e :: e in init ==> e in history;
      HistoryTokensNonNegative(init);
    }
  }

  /** A reservation lowers the capacity of its worker by the task's demand
      and leaves the other workers' capacity alone. */
  lemma ReservationUsesCapacity(workers: seq<ChatWorker>, workerId: string, task: ChatTask, expireAt: int, j: nat)
    requires j < |workers|
    ensures workers[j].id == workerId ==>
      WorkerCapacity(AddTaskToWorker(workers, workerId, task, expireAt)[j]) == WorkerCapacity(workers[j]) - task.demand.totalTokens
    ensures workers[j].id != workerId ==>
      WorkerCapacity(AddTaskToWorker(workers, workerId, task, expireAt)[j]) == WorkerCapacity(workers[j])
  {
    var h := workers[j].historyTasks + [HistoryEntry(task.id, expireAt, task.demand)];
    assert h[..|h| - 1] == workers[j].historyTasks;
  }

  // ----- the scheduling pass -----

  /** One task handed to one worker: positions in the queue and in the
      worker list. */
  datatype Assignment = Assignment(task: nat, worker: nat)

  /** What is assumed of `dfsPack`: the indices it picks are distinct and
      within the list of demands it was given. */
  predicate PicksOk(picks: seq<nat>, n: nat)
  {
    (forall k :: 0 <= k < |picks| ==> picks[k] < n)
    && (forall k, l :: 0 <= k < l < |picks| ==> picks[k] != picks[l])
  }

  ghost predicate PackOk(pack: (real, seq<real>) -> seq<nat>)
  {
    forall capacity, demands :: PicksOk(pack(capacity, demands), |demands|)
  }

  /** The demands of the queued tasks at the given positions. */
  function Demands(tasks: seq<ChatTask>, remaining: seq<nat>): (r: seq<real>)
    requires forall p :: p in remaining ==> p < |tasks|
    ensures |r| == |remaining|
  {
    seq(|remaining|, k requires 0 <= k < |remaining| => assert remaining[k] in remaining; tasks[remaining[k]].demand.totalTokens)
  }

  /** The queue positions behind the picked indices. */
  function Chosen(remaining: seq<nat>, picks: seq<nat>): (r: seq<nat>)
    requires forall k :: 0 <= k < |picks| ==> picks[k] < |remaining|
    ensures |r| == |picks| && forall k :: 0 <= k < |r| ==> r[k] == remaining[picks[k]]
  {
    seq(|picks|, k requires 0 <= k < |picks| => remaining[picks[k]])
  }

  /** `mutableTasks.filter((task) => !affordableTasks.includes(task))`. */
  function Without(remaining: seq<nat>, chosen: seq<nat>): (r: seq<nat>)
    ensures forall p :: p in r <==> p in remaining && p !in chosen
    ensures |r| <= |remaining|
  {
    if |remaining| == 0 then []
    else
      var rest := Without(remaining[..|remaining| - 1], chosen);
      if remaining[|remaining| - 1] in chosen then rest else rest + [remaining[|remaining| - 1]]
  }

  function AssignAll(chosen: seq<nat>, worker: nat): (r: seq<Assignment>)
    ensures |r| == |chosen| && forall k :: 0 <= k < |r| ==> r[k] == Assignment(chosen[k], worker)
  {
    seq(|chosen|, k requires 0 <= k < |chosen| => Assignment(chosen[k], worker))
  }

  /** The assignments of a pass from worker `i` on, with the tasks at the
      positions `remaining` still unassigned. */
  function Pass(pack: (real, seq<real>) -> seq<nat>, tasks: seq<ChatTask>, workers: seq<ChatWorker>,
                i: nat, remaining: seq<nat>): (r: seq<Assignment>)
    requires PackOk(pack) && i <= |workers|
    requires forall p :: p in remaining ==> p < |tasks|
    ensures forall k :: 0 <= k < |r| ==> r[k].task in remaining && i <= r[k].worker < |workers|
    ensures |remaining| == 0 ==> r == []
    decreases |workers| - i
  {
    if i == |workers| || |remaining| == 0 then []
    else
      var picks := pack(WorkerCapacity(workers[i]), Demands(tasks, remaining));
      var chosen := Chosen(remaining, picks);
      if |chosen| == 0 then Pass(pack, tasks, workers, i + 1, remaining)
      else AssignAll(chosen, i) + Pass(pack, tasks, workers, i + 1, Without(remaining, chosen))
  }

  function AllPositions(n: nat): (r: seq<nat>)
    ensures |r| == n && forall k :: 0 <= k < n ==> r[k] == k
  {
    seq(n, k => k)
  }

  /** The scheduling pass of `getChatScheduler`: workers in list order,
      stopping when no task is left, each worker given the tasks `pack`
      selects for its capacity, those tasks then taken out of the running. */
  method Schedule(pack: (real, seq<real>) -> seq<nat>, tasks: seq<ChatTask>, workers: seq<ChatWorker>)
    returns (assignments: seq<Assignment>)
    requires PackOk(pack)
    ensures assignments == Pass(pack, tasks, workers, 0, AllPositions(|tasks|))
  {
    var remaining: seq<nat> := AllPositions(|tasks|);
    assignments := [];
    var i := 0;
    while i < |workers|
      invariant 0 <= i <= |workers|
      invariant forall p :: p in remaining ==> p < |tasks|
      invariant assignments + Pass(pack, tasks, workers, i, remaining) == Pass(pack, tasks, workers, 0, AllPositions(|tasks|))
      decreases |workers| - i
    {
      if |remaining| == 0 {
        break;
      }
      var picks := pack(WorkerCapacity(workers[i]), Demands(tasks, remaining));
      var chosen := Chosen(remaining, picks);
      if |chosen| > 0 {
        assert Pass(pack, tasks, workers, i, remaining)
          == AssignAll(chosen, i) + Pass(pack, tasks, workers, i + 1, Without(remaining, chosen));
        assignments := assignments + AssignAll(chosen, i);
        remaining := Without(remaining, chosen);
      }
      i := i + 1;
    }
  }

  predicate Distinct(xs: seq<nat>)
  {
    forall k, l :: 0 <= k < l < |xs| ==> xs[k] != xs[l]
  }

  function TaskPositions(assignments: seq<Assignment>): (r: seq<nat>)
    ensures |r| == |assignments| && forall k :: 0 <= k < |r| ==> r[k] == assignments[k].task
  {
    seq(|assignments|, k requires 0 <= k < |assignments| => assignments[k].task)
  }

  lemma {:induction false} WithoutDistinct(remaining: seq<nat>, chosen: seq<nat>)
    requires Distinct(remaining)
    ensures Distinct(Without(remaining, chosen))
  {
    if |remaining| > 0 {
      WithoutDistinct(remaining[..|remaining| - 1], chosen);
    }
  }

  /** The shape of the assignments of a pass from worker `i` on: each task
      position among `remaining` and at most once, each worker in the list
      from `i` on, workers in list order. */
  predicate PassShape(r: seq<Assignment>, remaining: seq<nat>, i: nat, n: nat)
  {
    Distinct(TaskPositions(r))
    && (forall k :: 0 <= k < |r| ==> r[k].task in remaining && i <= r[k].worker < n)
    && (forall k, l :: 0 <= k < l < |r| ==> r[k].worker <= r[l].worker)
  }

  lemma ChosenDistinct(remaining: seq<nat>, picks: seq<nat>)
    requires Distinct(remaining) && PicksOk(picks, |remaining|)
    ensures Distinct(Chosen(remaining, picks))
  {
  }

  lemma ConcatShape(chosen: seq<nat>, later: seq<Assignment>, remaining: seq<nat>, rest: seq<nat>, i: nat, n: nat)
    requires i < n && Distinct(chosen) && PassShape(later, rest, i + 1, n)
    requires forall p :: p in chosen ==> p in remaining
    requires forall p :: p in rest ==> p in remaining && p !in chosen
    ensures PassShape(AssignAll(chosen, i) + later, remaining, i, n)
  {
    var here := AssignAll(chosen, i);
    var r := here + later;
    forall k, l | 0 <= k < l < |r|
      ensures r[k].task != r[l].task
    {
      if l < |here| {
        assert chosen[k] != chosen[l];
      } else if k >= |here| {
        assert TaskPositions(later)[k - |here|] != TaskPositions(later)[l - |here|];
      } else {
        assert r[l] == later[l - |here|];
        assert r[k].task in chosen;
      }
    }
  }

  /** Every assignment of a pass is to a task among `remaining`, no task
      is assigned twice, and workers come in list order from `i` on. */
  lemma {:induction false} PassAssignsOnce(pack: (real, seq<real>) -> seq<nat>, tasks: seq<ChatTask>, workers: seq<ChatWorker>,
                                            i: nat, remaining: seq<nat>)
    requires PackOk(pack) && i <= |workers|
    requires forall p :: p in remaining ==> p < |tasks|
    requires Distinct(remaining)
    ensures PassShape(Pass(pack, tasks, workers, i, remaining), remaining, i, |workers|)
    decreases |workers| - i
  {
    if i < |workers| && |remaining| > 0 {
      var picks := pack(WorkerCapacity(workers[i]), Demands(tasks, remaining));
      var chosen := Chosen(remaining, picks);
      if |chosen| == 0 {
        PassAssignsOnce(pack, tasks, workers, i + 1, remaining);
      } else {
        var rest := Without(remaining, chosen);
        WithoutDistinct(remaining, chosen);
        ChosenDistinct(remaining, picks);
        PassAssignsOnce(pack, tasks, workers, i + 1, rest);
        ConcatShape(chosen, Pass(pack, tasks, workers, i + 1, rest), remaining, rest, i, |workers|);
      }
    }
  }

  /** No task is handed out twice in one pass, every assigned task is in
      the queue and every worker in the list. */
  lemma ScheduleAssignsOnce(pack: (real, seq<real>) -> seq<nat>, tasks: seq<ChatTask>, workers: seq<ChatWorker>)
    requires PackOk(pack)
    ensures var r := Pass(pack, tasks, workers, 0, AllPositions(|tasks|));
      Distinct(TaskPositions(r))
      && forall k :: 0 <= k < |r| ==> r[k].task < |tasks| && r[k].worker < |workers|
  {
    PassAssignsOnce(pack, tasks, workers, 0, AllPositions(|tasks|));
  }

  // ----- running a task -----

  /** The state the runner returns for an assignment, before the proxy
      settles: the task leaves the queue and is reserved on its worker until
      `now` plus the worker's window. */
  function Reserve(state: SchedulerState, task: ChatTask, worker: ChatWorker, now: int): (r: SchedulerState)
    ensures forall t :: t in r.tasks <==> t in state.tasks && t.id != task.id
    ensures |r.workers| == |state.workers|
    ensures forall j :: 0 <= j < |r.workers| && state.workers[j].id != worker.id ==> r.workers[j] == state.workers[j]
    ensures forall j :: 0 <= j < |r.workers| && state.workers[j].id == worker.id ==>
      r.workers[j].id == worker.id && r.workers[j].spec == state.workers[j].spec
      && r.workers[j].historyTasks
         == state.workers[j].historyTasks + [HistoryEntry(task.id, now + worker.spec.tokenLimitWindowSize, task.demand)]
  {
    SchedulerState(
      RemoveTaskFromQueue(state.tasks, task.id),
      AddTaskToWorker(state.workers, worker.id, task, now + worker.spec.tokenLimitWindowSize))
  }

  /** After a reservation no task with that id is queued, the queue lost
      exactly those tasks, and the worker's capacity dropped by the demand. */
  lemma ReserveFacts(state: SchedulerState, task: ChatTask, worker: ChatWorker, now: int, j: nat)
    requires j < |state.workers| && state.workers[j].id == worker.id
    ensures CountId(Reserve(state, task, worker, now).tasks, task.id) == 0
    ensures |Reserve(state, task, worker, now).tasks| == |state.tasks| - CountId(state.tasks, task.id)
    ensures WorkerCapacity(Reserve(state, task, worker, now).workers[j]) == WorkerCapacity(state.workers[j]) - task.demand.totalTokens
  {
    CountAfterRemove(state.tasks, task.id);
    ReservationUsesCapacity(state.workers, worker.id, task, now + worker.spec.tokenLimitWindowSize, j);
  }

  /** What happens when the proxy fails. */
  datatype FailureOutcome = Rejected | Requeued(tasks: seq<ChatTask>)

  /** With no retry left the task's `onError` is called and the state is
      untouched; otherwise it is queued again with one retry less. */
  function OnFailure(tasks: seq<ChatTask>, task: ChatTask): (r: FailureOutcome)
    ensures r.Requeued? <==> task.retryLeft > 0
    ensures r.Requeued? ==> r.tasks == RemoveTaskFromQueue(tasks, task.id) + [task.(retryLeft := task.retryLeft - 1)]
    ensures r.Requeued? ==> CountId(r.tasks, task.id) == 1
  {
    if task.retryLeft <= 0 then Rejected
    else
      AddTaskOnce(tasks, task.(retryLeft := task.retryLeft - 1));
      Requeued(AddTaskToQueue(tasks, task.(retryLeft := task.retryLeft - 1)))
  }

  /** How many times a task is tried when every attempt fails: each failure
      either rejects it or takes the requeued copy, from the back of the
      queue, for the next attempt. */
  function AttemptsWhenFailing(tasks: seq<ChatTask>, task: ChatTask): (r: nat)
    ensures r >= 1
    ensures r == 1 <==> task.retryLeft <= 0
    decreases if task.retryLeft > 0 then task.retryLeft else 0
  {
    match OnFailure(tasks, task)
    case Rejected => 1
    case Requeued(queue) => 1 + AttemptsWhenFailing(queue[..|queue| - 1], queue[|queue| - 1])
  }

  /** A task with `n` retries left is attempted `n + 1` times at most; one
      submitted with `maxRetry = n` therefore runs at most `n + 1` times. */
  lemma {:induction false} RetryBudget(tasks: seq<ChatTask>, task: ChatTask)
    ensures AttemptsWhenFailing(tasks, task) == (if task.retryLeft > 0 then task.retryLeft else 0) + 1
    decreases if task.retryLeft > 0 then task.retryLeft else 0
  {
    match OnFailure(tasks, task)
    case Rejected =>
    case Requeued(queue) =>
      RetryBudget(queue[..|queue| - 1], queue[|queue| - 1]);
  }

  // ----- estimating a demand -----

  /** A chat message; only its text is read. */
  datatype Message = Message(content: string)

  /** The number of pieces `content.split(" ")` gives over all messages. */
  function PieceCount(messages: seq<Message>): nat
  {
    if |messages| == 0 then 0
    else PieceCount(messages[..|messages| - 1]) + |Split(messages[|messages| - 1].content, ' ')|
  }

  /** The number of spaces over all messages. */
  function SpaceCount(messages: seq<Message>): nat
  {
    if |messages| == 0 then 0
    else SpaceCount(messages[..|messages| - 1]) + CountChar(messages[|messages| - 1].content, ' ')
  }

  /** `getEstimatedDemand(models, input)`. */
  function EstimatedDemand(models: seq<string>, maxTokens: real, messages: seq<Message>): (d: Demand)
    ensures d.acceptModels == models && d.maxRetry == 3
  {
    Demand(models, maxTokens + (PieceCount(messages) as real) * 1.5, 3)
  }

  lemma {:induction false} PiecesAreSpacesPlusMessages(messages: seq<Message>)
    ensures PieceCount(messages) == SpaceCount(messages) + |messages|
  {
    if |messages| > 0 {
      PiecesAreSpacesPlusMessages(messages[..|messages| - 1]);
      SplitLength(messages[|messages| - 1].content, ' ');
    }
  }

  /** The estimate is `max_tokens` plus one and a half tokens per word,
      where every message has one more word than it has spaces. */
  lemma EstimateCountsWords(models: seq<string>, maxTokens: real, messages: seq<Message>)
    ensures EstimatedDemand(models, maxTokens, messages).totalTokens
      == maxTokens + 1.5 * ((SpaceCount(messages) + |messages|) as real)
  {
    PiecesAreSpacesPlusMessages(messages);
  }
}
