/** The thread pool: tasks queued, handed to idle workers, run and deleted, under every interleaving. */
module ThreadPool {
  import opened Basics

  /** The identity of a Runnable: its address. */
  type Task = nat

  /** Where a worker is in its loop. */
  datatype Worker = Looking | Loaded(task: Task) | Ran(task: Task) | Deleted(task: Task)

  /** Whether an update holds the pool's mutex, and how far its scan of the workers has got. */
  datatype Updater = Unlocked | Scanning(at: nat) | Taken(at: nat, task: Task)

  /**
   * The queue and the workers' slots; then the history: tasks submitted, handed out, run and deleted, in order, and the
   * worker that each task was handed to.
   */
  datatype State = State(
    pending: seq<Task>, slots: seq<Option<Task>>, workers: seq<Worker>, updater: Updater,
    submitted: seq<Task>, handedOut: seq<Task>, ran: seq<Task>, deleted: seq<Task>, owner: map<Task, nat>)

  datatype Step =
    | AddWork(task: Task) | UpdateLock | UpdateCheck | UpdateAssign
    | WorkerLoad(w: nat) | WorkerRun(w: nat) | WorkerDelete(w: nat) | WorkerClear(w: nat)

  function Initial(n: nat): State {
    State([], seq(n, _ => None), seq(n, _ => Looking), Unlocked, [], [], [], [], map[])
  }

  /** AddWork waits for the mutex; the pool deletes its tasks, so that each task is submitted only once. */
  predicate Enabled(s: State, a: Step) {
    match a
    case AddWork(task) => s.updater.Unlocked? && task !in s.submitted
    case UpdateLock => s.updater.Unlocked?
    case UpdateCheck => s.updater.Scanning?
    case UpdateAssign => s.updater.Taken? && s.updater.at < |s.slots|
    case WorkerLoad(w) => w < |s.workers| && w < |s.slots| && s.workers[w].Looking?
    case WorkerRun(w) => w < |s.workers| && s.workers[w].Loaded?
    case WorkerDelete(w) => w < |s.workers| && s.workers[w].Ran?
    case WorkerClear(w) => w < |s.workers| && w < |s.slots| && s.workers[w].Deleted?
  }

  /** The next worker of the scan: busy, or idle with nothing to do, or idle and given the oldest task. */
  function AfterCheck(s: State, i: nat): State {
    if i >= |s.slots| then s.(updater := Unlocked)
    else if s.slots[i].Some? then s.(updater := Scanning(i + 1))
    else if s.pending == [] then s.(updater := Unlocked)
    else s.(updater := Taken(i, s.pending[0]), pending := s.pending[1..])
  }

  function AfterAssign(s: State, i: nat, task: Task): State
    requires i < |s.slots|
  {
    s.(slots := s.slots[i := Some(task)], updater := Scanning(i + 1),
       handedOut := s.handedOut + [task], owner := s.owner[task := i])
  }

  function After(s: State, a: Step): State
    requires Enabled(s, a)
  {
    match a
    case AddWork(task) => s.(pending := s.pending + [task], submitted := s.submitted + [task])
    case UpdateLock => s.(updater := Scanning(0))
    case UpdateCheck => AfterCheck(s, s.updater.at)
    case UpdateAssign => AfterAssign(s, s.updater.at, s.updater.task)
    case WorkerLoad(w) => if s.slots[w].Some? then s.(workers := s.workers[w := Loaded(s.slots[w].value)]) else s
    case WorkerRun(w) => s.(workers := s.workers[w := Ran(s.workers[w].task)], ran := s.ran + [s.workers[w].task])
    case WorkerDelete(w) =>
      s.(workers := s.workers[w := Deleted(s.workers[w].task)], deleted := s.deleted + [s.workers[w].task])
    case WorkerClear(w) => s.(workers := s.workers[w := Looking], slots := s.slots[w := None])
  }

  function InHand(u: Updater): seq<Task> {
    if u.Taken? then [u.task] else []
  }

  /** Tasks leave the queue in the order in which they came. */
  ghost predicate QueueInv(s: State) {
    && s.submitted == s.handedOut + InHand(s.updater) + s.pending
    && NoDup(s.submitted)
    && (s.updater.Taken? ==> s.updater.at < |s.slots| && s.slots[s.updater.at].None?)
  }

  /** A slot holds a task handed to its worker, from the assignment until after the deletion. */
  ghost predicate SlotInv(s: State) {
    && |s.workers| == |s.slots|
    && (forall t :: t in s.owner <==> t in s.handedOut)
    && (forall t :: t in s.owner ==> s.owner[t] < |s.slots|)
    && (forall w :: 0 <= w < |s.slots| && s.slots[w].Some? ==> s.slots[w].value in s.owner && s.owner[s.slots[w].value] == w)
    && (forall w :: 0 <= w < |s.workers| && !s.workers[w].Looking? ==> s.slots[w] == Some(s.workers[w].task))
  }

  /** Which tasks have run and been deleted, by what their worker has done. */
  ghost predicate HistoryInv(s: State)
    requires SlotInv(s)
  {
    && NoDup(s.ran) && NoDup(s.deleted)
    && (forall t :: t in s.ran ==> t in s.owner)
    && (forall t :: t in s.deleted ==> t in s.ran)
    && (forall t :: t in s.owner ==> Done(s, t) || s.slots[s.owner[t]] == Some(t))
    && (forall w :: 0 <= w < |s.slots| && s.slots[w].Some? ==>
          && (s.slots[w].value in s.ran <==> s.workers[w].Ran? || s.workers[w].Deleted?)
          && (s.slots[w].value in s.deleted <==> s.workers[w].Deleted?))
  }

  predicate Done(s: State, t: Task) {
    t in s.ran && t in s.deleted
  }

  ghost predicate Inv(s: State) {
    QueueInv(s) && SlotInv(s) && HistoryInv(s)
  }

  lemma InvInitially(n: nat)
    ensures Inv(Initial(n))
  {
  }

  lemma DistinctParts(a: seq<Task>, b: seq<Task>)
    requires NoDup(a + b)
    ensures NoDup(a) && NoDup(b) && forall x :: x in a ==> x !in b
  {
    assert forall i :: 0 <= i < |a| ==> (a + b)[i] == a[i];
    assert forall i :: 0 <= i < |b| ==> (a + b)[|a| + i] == b[i];
  }

  lemma QueueStep(s: State, a: Step)
    requires Inv(s) && Enabled(s, a)
    ensures QueueInv(After(s, a))
  {
    if a.UpdateCheck? && s.pending != [] {
      assert s.pending == [s.pending[0]] + s.pending[1..];
    }
  }

  lemma UpdateKeeps(s: State, a: Step)
    requires Inv(s) && Enabled(s, a) && (a.AddWork? || a.UpdateLock? || a.UpdateCheck? || a.UpdateAssign?)
    ensures SlotInv(After(s, a)) && HistoryInv(After(s, a))
  {
    if a.UpdateAssign? {
      var t := s.updater.task;
      DistinctParts(s.handedOut + [t], s.pending);
      DistinctParts(s.handedOut, [t]);
      assert t !in s.owner;
    }
  }

  lemma LoadKeeps(s: State, w: nat)
    requires Inv(s) && Enabled(s, WorkerLoad(w))
    ensures SlotInv(After(s, WorkerLoad(w))) && HistoryInv(After(s, WorkerLoad(w)))
  {
  }

  lemma RunKeeps(s: State, w: nat)
    requires Inv(s) && Enabled(s, WorkerRun(w))
    ensures SlotInv(After(s, WorkerRun(w))) && HistoryInv(After(s, WorkerRun(w)))
  {
  }

  lemma DeleteKeeps(s: State, w: nat)
    requires Inv(s) && Enabled(s, WorkerDelete(w))
    ensures SlotInv(After(s, WorkerDelete(w))) && HistoryInv(After(s, WorkerDelete(w)))
  {
  }

  lemma ClearKeeps(s: State, w: nat)
    requires Inv(s) && Enabled(s, WorkerClear(w))
    ensures SlotInv(After(s, WorkerClear(w))) && HistoryInv(After(s, WorkerClear(w)))
  {
  }

  /** Every step of an update, of a submission or of a worker keeps the invariant. */
  lemma StepKeepsInv(s: State, a: Step)
    requires Inv(s) && Enabled(s, a)
    ensures Inv(After(s, a)) && |After(s, a).slots| == |s.slots|
  {
    QueueStep(s, a);
    match a
    case WorkerLoad(w) => LoadKeeps(s, w);
    case WorkerRun(w) => RunKeeps(s, w);
    case WorkerDelete(w) => DeleteKeeps(s, w);
    case WorkerClear(w) => ClearKeeps(s, w);
    case _ => UpdateKeeps(s, a);
  }

  // ----- Whole runs

  function Last(n: nat, steps: seq<Step>): Option<State> {
    if steps == [] then Some(Initial(n))
    else
      var before, a := Last(n, steps[..|steps| - 1]), steps[|steps| - 1];
      if before.Some? && Enabled(before.value, a) then Some(After(before.value, a)) else None
  }

  lemma {:induction false} EveryRunKeepsInv(n: nat, steps: seq<Step>)
    requires Last(n, steps).Some?
    ensures Inv(Last(n, steps).value) && |Last(n, steps).value.slots| == n
  {
    if steps == [] {
      InvInitially(n);
    } else {
      EveryRunKeepsInv(n, steps[..|steps| - 1]);
      StepKeepsInv(Last(n, steps[..|steps| - 1]).value, steps[|steps| - 1]);
    }
  }

  predicate IsWaiting(s: State, t: Task) {
    t in InHand(s.updater) || t in s.pending
  }

  predicate IsHeld(s: State, t: Task) {
    exists w :: 0 <= w < |s.slots| && s.slots[w] == Some(t)
  }

  predicate IsFinished(s: State, t: Task) {
    t in s.deleted && !IsHeld(s, t)
  }

  /** A submitted task is waiting, or in one worker's slot, or finished, and only one of these. */
  lemma OnePlace(s: State, t: Task)
    requires Inv(s) && t in s.submitted
    ensures IsWaiting(s, t) || IsHeld(s, t) || IsFinished(s, t)
    ensures IsWaiting(s, t) ==> !IsHeld(s, t) && t !in s.ran && t !in s.deleted
    ensures forall v, w :: 0 <= v < w < |s.slots| && s.slots[v] == Some(t) ==> s.slots[w] != Some(t)
  {
    var a, b := s.handedOut, InHand(s.updater) + s.pending;
    assert s.submitted == a + b;
    DistinctParts(a, b);
    if t in a {
      assert t in s.owner;
    }
  }

  /**
   * Tasks have been handed out in the order of submission, each has been run at most once and deleted at most once,
   * none has been deleted without having run, and each is in exactly one place.
   */
  ghost predicate Safe(s: State) {
    && s.handedOut <= s.submitted && NoDup(s.ran) && NoDup(s.deleted)
    && (forall t :: t in s.deleted ==> t in s.ran)
    && (forall t :: t in s.ran ==> t in s.submitted)
    && (forall t :: t in s.submitted ==> IsWaiting(s, t) || IsHeld(s, t) || IsFinished(s, t))
    && (forall t :: t in s.submitted && IsWaiting(s, t) ==> !IsHeld(s, t) && t !in s.ran && t !in s.deleted)
    && (forall v, w :: 0 <= v < w < |s.slots| && s.slots[v].Some? ==> s.slots[w] != s.slots[v])
  }

  lemma InvIsSafe(s: State)
    requires Inv(s)
    ensures Safe(s)
  {
    assert s.submitted == s.handedOut + (InHand(s.updater) + s.pending);
    forall t | t in s.submitted
      ensures IsWaiting(s, t) || IsHeld(s, t) || IsFinished(s, t)
      ensures IsWaiting(s, t) ==> !IsHeld(s, t) && t !in s.ran && t !in s.deleted
    {
      OnePlace(s, t);
    }
  }

  /** In every interleaving, no task is lost, run twice or deleted early. */
  lemma EveryRunIsSafe(n: nat, steps: seq<Step>)
    requires Last(n, steps).Some?
    ensures Safe(Last(n, steps).value)
  {
    EveryRunKeepsInv(n, steps);
    InvIsSafe(Last(n, steps).value);
  }

  lemma {:induction false} DistinctMultiset(a: seq<Task>, b: seq<Task>)
    requires NoDup(a) && NoDup(b) && forall t :: t in a <==> t in b
    ensures multiset(a) == multiset(b)
  {
    forall t ensures multiset(a)[t] == multiset(b)[t] {
      DistinctCount(a, t);
      DistinctCount(b, t);
    }
  }

  lemma {:induction false} DistinctCount(a: seq<Task>, t: Task)
    requires NoDup(a)
    ensures multiset(a)[t] == if t in a then 1 else 0
  {
    if a == [] {
    } else {
      assert a == [a[0]] + a[1..];
      DistinctCount(a[1..], t);
    }
  }

  /** When the queue and all the slots are empty, every task has been run once and deleted once. */
  lemma IdlePoolHasRunAll(n: nat, steps: seq<Step>)
    requires Last(n, steps).Some?
    requires
      var s := Last(n, steps).value;
      s.pending == [] && !s.updater.Taken? && forall w :: 0 <= w < |s.slots| ==> s.slots[w].None?
    ensures
      var s := Last(n, steps).value;
      multiset(s.ran) == multiset(s.submitted) && multiset(s.deleted) == multiset(s.submitted)
  {
    EveryRunKeepsInv(n, steps);
    var s := Last(n, steps).value;
    assert s.submitted == s.handedOut;
    assert forall t :: t in s.handedOut ==> t in s.owner && Done(s, t);
    DistinctMultiset(s.ran, s.submitted);
    DistinctMultiset(s.deleted, s.submitted);
  }

  // ----- The calls, undisturbed

  /** The idle slots, first to last, take the oldest tasks. */
  function Filled(slots: seq<Option<Task>>, tasks: seq<Task>): seq<Option<Task>> {
    if slots == [] || tasks == [] then slots
    else if slots[0].Some? then [slots[0]] + Filled(slots[1..], tasks)
    else [Some(tasks[0])] + Filled(slots[1..], tasks[1..])
  }

  /** What is left of the queue. */
  function Left(slots: seq<Option<Task>>, tasks: seq<Task>): seq<Task> {
    if slots == [] || tasks == [] then tasks
    else Left(slots[1..], if slots[0].Some? then tasks else tasks[1..])
  }

  class Pool {
    var runnables: seq<Task>
    const workers: array<Option<Task>>

    constructor (n: nat)
      ensures runnables == [] && workers.Length == n && fresh(workers)
      ensures forall w :: 0 <= w < n ==> workers[w].None?
    {
      runnables := [];
      workers := new Option<Task>[n](_ => None);
    }

    method AddWork(runnable: Task)
      modifies this
      ensures runnables == old(runnables) + [runnable]
    {
      runnables := runnables + [runnable];
    }

    /** Hands tasks to idle workers until there are no more of either. */
    method Update()
      modifies this, workers
      ensures workers[..] == Filled(old(workers[..]), old(runnables))
      ensures runnables == Left(old(workers[..]), old(runnables))
    {
      var i := 0;
      ghost var slots, tasks := workers[..], runnables;
      assert [] + Filled(slots, tasks) == Filled(slots, tasks) && slots[0..] == slots;
      while i < workers.Length
        invariant Progress(slots, tasks, workers[..], runnables, i)
      {
        ghost var now := workers[..];
        if workers[i].None? {
          if runnables == [] {
            ProgressEnds(slots, tasks, now, runnables, i);
            return;
          }
          ProgressIdle(slots, tasks, now, runnables, i);
          workers[i] := Some(runnables[0]);
          assert workers[..] == now[i := Some(runnables[0])];
          runnables := runnables[1..];
        } else {
          ProgressBusy(slots, tasks, now, runnables, i);
        }
        i := i + 1;
      }
      ProgressEnds(slots, tasks, workers[..], runnables, i);
    }
  }

  /** The first `i` slots are as they should be at the end, and the others as they were. */
  ghost predicate Progress(slots: seq<Option<Task>>, tasks: seq<Task>, now: seq<Option<Task>>, queue: seq<Task>, i: nat) {
    && i <= |now| == |slots| && now[i..] == slots[i..]
    && now[..i] + Filled(slots[i..], queue) == Filled(slots, tasks)
    && Left(slots[i..], queue) == Left(slots, tasks)
  }

  lemma ProgressBusy(slots: seq<Option<Task>>, tasks: seq<Task>, now: seq<Option<Task>>, queue: seq<Task>, i: nat)
    requires i < |now| && Progress(slots, tasks, now, queue, i) && now[i].Some?
    ensures Progress(slots, tasks, now, queue, i + 1)
  {
    NextSlot(slots, now, i);
    FilledBusy(slots[i..], queue);
    Regroup(now[..i], now[i], Filled(slots[i + 1..], queue));
    assert now[..i + 1] == now[..i] + [now[i]];
  }

  lemma ProgressIdle(slots: seq<Option<Task>>, tasks: seq<Task>, now: seq<Option<Task>>, queue: seq<Task>, i: nat)
    requires i < |now| && Progress(slots, tasks, now, queue, i) && now[i].None? && queue != []
    ensures Progress(slots, tasks, now[i := Some(queue[0])], queue[1..], i + 1)
  {
    NextSlot(slots, now, i);
    Regroup(now[..i], Some(queue[0]), Filled(slots[i + 1..], queue[1..]));
    var filled := now[i := Some(queue[0])];
    assert filled[..i + 1] == now[..i] + [Some(queue[0])] && filled[i + 1..] == now[i + 1..];
  }

  lemma ProgressEnds(slots: seq<Option<Task>>, tasks: seq<Task>, now: seq<Option<Task>>, queue: seq<Task>, i: nat)
    requires Progress(slots, tasks, now, queue, i) && (i < |now| ==> queue == [])
    ensures now == Filled(slots, tasks) && queue == Left(slots, tasks)
  {
    assert now == now[..i] + now[i..];
  }

  lemma NextSlot(slots: seq<Option<Task>>, now: seq<Option<Task>>, i: nat)
    requires i < |now| == |slots| && now[i..] == slots[i..]
    ensures now[i] == slots[i] == slots[i..][0] && slots[i..][1..] == slots[i + 1..] && now[i + 1..] == slots[i + 1..]
  {
    assert now[i] == now[i..][0];
    assert now[i + 1..] == now[i..][1..];
  }

  lemma FilledBusy(slots: seq<Option<Task>>, tasks: seq<Task>)
    requires slots != [] && slots[0].Some?
    ensures Filled(slots, tasks) == [slots[0]] + Filled(slots[1..], tasks)
    ensures Left(slots, tasks) == Left(slots[1..], tasks) && HandedOut(slots, tasks) == HandedOut(slots[1..], tasks)
  {
    if tasks == [] {
      assert slots == [slots[0]] + slots[1..];
    }
  }

  lemma Regroup(a: seq<Option<Task>>, x: Option<Task>, b: seq<Option<Task>>)
    ensures a + ([x] + b) == a + [x] + b
  {
  }

  // ----- What an update does

  function IdleCount(slots: seq<Option<Task>>): nat {
    if slots == [] then 0 else (if slots[0].None? then 1 else 0) + IdleCount(slots[1..])
  }

  /** How many tasks an update hands out. */
  function HandedOut(slots: seq<Option<Task>>, tasks: seq<Task>): (k: nat)
    ensures k <= |tasks|
  {
    if IdleCount(slots) < |tasks| then IdleCount(slots) else |tasks|
  }

  /** The tasks in slots that were idle before, in the order of the workers. */
  function NewTasks(before: seq<Option<Task>>, after: seq<Option<Task>>): seq<Task>
    requires |before| == |after|
  {
    if before == [] then []
    else (if before[0].None? && after[0].Some? then [after[0].value] else []) + NewTasks(before[1..], after[1..])
  }

  lemma {:induction false} NothingNew(slots: seq<Option<Task>>)
    ensures NewTasks(slots, slots) == []
  {
    if slots == [] {
    } else {
      NothingNew(slots[1..]);
    }
  }

  lemma NewTasksStep(before: Option<Task>, after: Option<Task>, rest: seq<Option<Task>>, restAfter: seq<Option<Task>>)
    requires |rest| == |restAfter|
    ensures NewTasks([before] + rest, [after] + restAfter) ==
      (if before.None? && after.Some? then [after.value] else []) + NewTasks(rest, restAfter)
  {
    assert ([before] + rest)[1..] == rest && ([after] + restAfter)[1..] == restAfter;
  }

  /** An update disturbs no busy worker. */
  lemma {:induction false} BusyWorkersKeep(slots: seq<Option<Task>>, tasks: seq<Task>)
    ensures |Filled(slots, tasks)| == |slots|
    ensures forall w :: 0 <= w < |slots| && slots[w].Some? ==> Filled(slots, tasks)[w] == slots[w]
  {
    if slots != [] && tasks != [] {
      BusyWorkersKeep(slots[1..], if slots[0].Some? then tasks else tasks[1..]);
    }
  }

  lemma SplitFirst(slots: seq<Option<Task>>)
    requires slots != []
    ensures slots == [slots[0]] + slots[1..]
  {
  }

  lemma FilledIdle(slots: seq<Option<Task>>, tasks: seq<Task>)
    requires slots != [] && slots[0].None? && tasks != []
    ensures Filled(slots, tasks) == [Some(tasks[0])] + Filled(slots[1..], tasks[1..])
    ensures Left(slots, tasks) == Left(slots[1..], tasks[1..])
    ensures HandedOut(slots, tasks) == HandedOut(slots[1..], tasks[1..]) + 1
  {
  }

  /** The idle workers have taken tasks from the front of the queue. */
  predicate TookOldest(slots: seq<Option<Task>>, tasks: seq<Task>, after: seq<Option<Task>>, left: seq<Task>, k: nat) {
    |after| == |slots| && k <= |tasks| && NewTasks(slots, after) == tasks[..k] && left == tasks[k..]
  }

  lemma OldestBusy(slots: seq<Option<Task>>, tasks: seq<Task>, after: seq<Option<Task>>, left: seq<Task>, k: nat)
    requires slots != [] && slots[0].Some? && TookOldest(slots[1..], tasks, after, left, k)
    ensures TookOldest(slots, tasks, [slots[0]] + after, left, k)
  {
    SplitFirst(slots);
    NewTasksStep(slots[0], slots[0], slots[1..], after);
  }

  lemma OldestIdle(slots: seq<Option<Task>>, tasks: seq<Task>, after: seq<Option<Task>>, left: seq<Task>, k: nat)
    requires slots != [] && slots[0].None? && tasks != [] && TookOldest(slots[1..], tasks[1..], after, left, k)
    ensures TookOldest(slots, tasks, [Some(tasks[0])] + after, left, k + 1)
  {
    SplitFirst(slots);
    NewTasksStep(slots[0], Some(tasks[0]), slots[1..], after);
    OneMoreTask(tasks, k);
  }

  lemma {:induction false} OldestTaken(slots: seq<Option<Task>>, tasks: seq<Task>)
    ensures TookOldest(slots, tasks, Filled(slots, tasks), Left(slots, tasks), HandedOut(slots, tasks))
  {
    if slots == [] || tasks == [] {
      NothingNew(slots);
    } else if slots[0].Some? {
      OldestTaken(slots[1..], tasks);
      FilledBusy(slots, tasks);
      OldestBusy(slots, tasks, Filled(slots[1..], tasks), Left(slots, tasks), HandedOut(slots, tasks));
    } else {
      OldestTaken(slots[1..], tasks[1..]);
      FilledIdle(slots, tasks);
      OldestIdle(slots, tasks, Filled(slots[1..], tasks[1..]), Left(slots, tasks), HandedOut(slots, tasks) - 1);
    }
  }

  /** It gives the oldest tasks, as many as there are idle workers, to these in order. */
  lemma IdleWorkersTakeOldest(slots: seq<Option<Task>>, tasks: seq<Task>)
    ensures |Filled(slots, tasks)| == |slots|
    ensures NewTasks(slots, Filled(slots, tasks)) == tasks[..HandedOut(slots, tasks)]
    ensures Left(slots, tasks) == tasks[HandedOut(slots, tasks)..]
  {
    OldestTaken(slots, tasks);
  }

  lemma OneMoreTask(tasks: seq<Task>, k: nat)
    requires k < |tasks|
    ensures tasks[..k + 1] == [tasks[0]] + tasks[1..][..k] && tasks[k + 1..] == tasks[1..][k..]
  {
  }

  // ----- An update of the machine that nothing disturbs

  /** The steps of an update between taking and releasing the mutex. */
  predicate IsScan(a: Step) {
    a.UpdateCheck? || a.UpdateAssign?
  }

  /** How many steps a scan still takes at most. */
  function ScanLeft(s: State): nat {
    match s.updater
    case Unlocked => 0
    case Scanning(at) => if at < |s.slots| then 2 * (|s.slots| - at) + 2 else 1
    case Taken(at, _) => if at < |s.slots| then 2 * (|s.slots| - at) + 1 else 0
  }

  /** Where an update ends when nothing else happens. */
  function Undisturbed(s: State): State
    decreases ScanLeft(s)
  {
    match s.updater
    case Unlocked => s
    case Scanning(at) => Undisturbed(AfterCheck(s, at))
    case Taken(at, task) => if at < |s.slots| then Undisturbed(AfterAssign(s, at, task)) else s
  }

  lemma ScanStep(s: State, a: Step)
    requires IsScan(a) && Enabled(s, a)
    ensures Undisturbed(After(s, a)) == Undisturbed(s) && ScanLeft(After(s, a)) < ScanLeft(s)
    ensures After(s, a).submitted == s.submitted
  {
  }

  /** Nothing but the slots, the queue and what has been handed out differs. */
  predicate OnlyHandsOut(s: State, t: State) {
    t.workers == s.workers && t.submitted == s.submitted && t.ran == s.ran && t.deleted == s.deleted
  }

  /** The workers from `i` on have been served as a call of Update serves all of them. */
  predicate IsUpdatedFrom(s: State, i: nat, t: State)
    requires i <= |s.slots|
  {
    && t.updater.Unlocked? && OnlyHandsOut(s, t)
    && t.slots == s.slots[..i] + Filled(s.slots[i..], s.pending)
    && t.pending == Left(s.slots[i..], s.pending)
    && t.handedOut + t.pending == s.handedOut + s.pending
  }

  lemma {:induction false} ScanFrom(s: State, i: nat)
    requires s.updater == Scanning(i) && i <= |s.slots|
    ensures IsUpdatedFrom(s, i, Undisturbed(s))
    decreases |s.slots| - i, 1
  {
    if i < |s.slots| {
      NextSlot(s.slots, s.slots, i);
      if s.slots[i].Some? {
        ScanFrom(s.(updater := Scanning(i + 1)), i + 1);
        FilledBusy(s.slots[i..], s.pending);
        Regroup(s.slots[..i], s.slots[i], Filled(s.slots[i + 1..], s.pending));
        assert s.slots[..i + 1] == s.slots[..i] + [s.slots[i]];
      } else if s.pending != [] {
        ScanIdle(s, i);
      }
    }
  }

  lemma {:induction false} ScanIdle(s: State, i: nat)
    requires s.updater == Scanning(i) && i < |s.slots| && s.slots[i].None? && s.pending != []
    ensures IsUpdatedFrom(s, i, Undisturbed(s))
    decreases |s.slots| - i, 0
  {
    var task, rest := s.pending[0], s.pending[1..];
    var next := AfterAssign(AfterCheck(s, i), i, task);
    ScanFrom(next, i + 1);
    assert next.slots[..i + 1] == s.slots[..i] + [Some(task)] && next.slots[i + 1..] == s.slots[i + 1..];
    NextSlot(s.slots, s.slots, i);
    Regroup(s.slots[..i], Some(task), Filled(s.slots[i + 1..], rest));
    assert s.handedOut + [task] + rest == s.handedOut + s.pending;
  }

  /** The update that hands out tasks all at once: what Pool.Update does, and nothing else. */
  predicate IsUpdated(s: State, t: State) {
    && t.updater.Unlocked? && OnlyHandsOut(s, t)
    && t.slots == Filled(s.slots, s.pending) && t.pending == Left(s.slots, s.pending)
    && t.handedOut + t.pending == s.handedOut + s.pending
  }

  lemma LockedScan(s: State)
    requires s.updater.Unlocked?
    ensures IsUpdated(s, Undisturbed(After(s, UpdateLock)))
  {
    var locked := After(s, UpdateLock);
    ScanFrom(locked, 0);
    assert s.slots[0..] == s.slots && s.slots[..0] + Filled(s.slots, s.pending) == Filled(s.slots, s.pending);
  }

  /** The steps can be taken from `s`, and lead to `t`. */
  ghost predicate Leads(s: State, steps: seq<Step>, t: State)
    decreases |steps|
  {
    if steps == [] then s == t else Enabled(s, steps[0]) && Leads(After(s, steps[0]), steps[1..], t)
  }

  lemma {:induction false} LeadsOn(s: State, first: seq<Step>, m: State, second: seq<Step>, t: State)
    requires Leads(s, first, m) && Leads(m, second, t)
    ensures Leads(s, first + second, t)
    decreases |first|
  {
    if first == [] {
      assert first + second == second;
    } else {
      assert (first + second)[1..] == first[1..] + second;
      LeadsOn(After(s, first[0]), first[1..], m, second, t);
    }
  }

  lemma OneStep(s: State, a: Step, rest: seq<Step>, t: State)
    requires Enabled(s, a) && Leads(After(s, a), rest, t)
    ensures Leads(s, [a] + rest, t)
  {
    assert ([a] + rest)[1..] == rest;
  }

  lemma {:induction false} LastLeads(n: nat, steps: seq<Step>, more: seq<Step>, t: State)
    requires Last(n, steps).Some? && Leads(Last(n, steps).value, more, t)
    ensures Last(n, steps + more) == Some(t)
    decreases |more|
  {
    if more == [] {
      assert steps + more == steps;
    } else {
      assert (steps + [more[0]])[..|steps|] == steps;
      assert steps + more == (steps + [more[0]]) + more[1..];
      LastLeads(n, steps + [more[0]], more[1..], t);
    }
  }

  predicate OnlyScans(steps: seq<Step>) {
    forall k :: 0 <= k < |steps| ==> IsScan(steps[k])
  }

  lemma {:induction false} ScanKeepsEnd(s: State, scan: seq<Step>, t: State)
    requires Leads(s, scan, t) && OnlyScans(scan)
    ensures Undisturbed(t) == Undisturbed(s)
    decreases |scan|
  {
    if scan == [] {
    } else {
      ScanStep(s, scan[0]);
      ScanKeepsEnd(After(s, scan[0]), scan[1..], t);
    }
  }

  /** An update that nothing disturbs from taking the mutex to releasing it does what Pool.Update does. */
  lemma UndisturbedUpdate(s: State, scan: seq<Step>, t: State)
    requires Leads(s, [UpdateLock] + scan, t) && OnlyScans(scan) && t.updater.Unlocked?
    ensures IsUpdated(s, t)
  {
    assert ([UpdateLock] + scan)[1..] == scan;
    ScanKeepsEnd(After(s, UpdateLock), scan, t);
    LockedScan(s);
  }

  // ----- Nothing waits for ever

  /** Every worker has a slot, and a task taken off the queue has one to go to. */
  predicate IsShaped(s: State) {
    |s.workers| == |s.slots| && (s.updater.Taken? ==> s.updater.at < |s.slots|)
  }

  lemma {:induction false} ScanEnds(s: State) returns (scan: seq<Step>, t: State)
    requires IsShaped(s)
    ensures Leads(s, scan, t) && OnlyScans(scan) && t.updater.Unlocked?
    ensures IsShaped(t) && |t.slots| == |s.slots| && t.submitted == s.submitted
    decreases ScanLeft(s)
  {
    if s.updater.Unlocked? {
      scan, t := [], s;
    } else {
      var a := if s.updater.Taken? then UpdateAssign else UpdateCheck;
      ScanStep(s, a);
      var rest;
      rest, t := ScanEnds(After(s, a));
      OneStep(s, a, rest, t);
      scan := [a] + rest;
    }
  }

  /** An update that nothing disturbs ends. */
  lemma UpdateCanFinish(s: State) returns (scan: seq<Step>, t: State)
    requires IsShaped(s) && s.updater.Unlocked?
    ensures Leads(s, [UpdateLock] + scan, t) && OnlyScans(scan) && IsUpdated(s, t)
    ensures IsShaped(t) && |t.slots| == |s.slots|
  {
    scan, t := ScanEnds(After(s, UpdateLock));
    OneStep(s, UpdateLock, scan, t);
    UndisturbedUpdate(s, scan, t);
  }

  /** The next step of a worker whose slot is taken. */
  function WorkerStep(worker: Worker, w: nat): Step {
    match worker
    case Looking => WorkerLoad(w)
    case Loaded(_) => WorkerRun(w)
    case Ran(_) => WorkerDelete(w)
    case Deleted(_) => WorkerClear(w)
  }

  function WorkerLeft(worker: Worker): nat {
    match worker
    case Looking => 3
    case Loaded(_) => 2
    case Ran(_) => 1
    case Deleted(_) => 0
  }

  /** The same, but for the workers, their slots and the history. */
  predicate SameQueue(s: State, t: State) {
    && IsShaped(t) && |t.slots| == |s.slots| && t.pending == s.pending && t.updater == s.updater
    && t.submitted == s.submitted
  }

  lemma WorkerGoesOn(s: State, w: nat, a: Step, t: State)
    requires IsShaped(s) && w < |s.slots| && s.slots[w].Some? && a == WorkerStep(s.workers[w], w)
    requires Enabled(s, a) ==> t == After(s, a)
    ensures Enabled(s, a) && SameQueue(s, t)
    ensures if a.WorkerClear? then t.slots == s.slots[w := None]
      else t.slots == s.slots && WorkerLeft(t.workers[w]) < WorkerLeft(s.workers[w])
  {
  }

  /** A worker that holds a task runs it, deletes it and is idle again. */
  lemma {:induction false} WorkerEnds(s: State, w: nat) returns (work: seq<Step>, t: State)
    requires IsShaped(s) && w < |s.slots| && s.slots[w].Some?
    ensures Leads(s, work, t) && SameQueue(s, t) && t.slots == s.slots[w := None]
    decreases WorkerLeft(s.workers[w])
  {
    var a := WorkerStep(s.workers[w], w);
    var next := if Enabled(s, a) then After(s, a) else s;
    WorkerGoesOn(s, w, a, next);
    if a.WorkerClear? {
      work, t := [], next;
    } else {
      work, t := WorkerEnds(next, w);
    }
    OneStep(s, a, work, t);
    work := [a] + work;
  }

  predicate AllIdle(slots: seq<Option<Task>>) {
    forall w :: 0 <= w < |slots| ==> slots[w].None?
  }

  lemma {:induction false} WorkersEnd(s: State, k: nat) returns (work: seq<Step>, t: State)
    requires IsShaped(s) && k <= |s.slots|
    ensures Leads(s, work, t) && SameQueue(s, t) && AllIdle(t.slots[..k])
  {
    if k == 0 {
      work, t := [], s;
    } else {
      work, t := WorkersEnd(s, k - 1);
      if t.slots[k - 1].Some? {
        var m := t;
        var last;
        last, t := WorkerEnds(m, k - 1);
        LeadsOn(s, work, m, last, t);
        work := work + last;
      }
    }
  }

  lemma IdleWorkerTakes(slots: seq<Option<Task>>, tasks: seq<Task>)
    requires slots != [] && AllIdle(slots) && tasks != []
    ensures |Left(slots, tasks)| < |tasks|
  {
    IdleWorkersTakeOldest(slots, tasks);
  }

  lemma {:induction false} QueueEmpties(s: State) returns (work: seq<Step>, t: State)
    requires IsShaped(s) && s.updater.Unlocked? && s.slots != []
    ensures Leads(s, work, t) && t.pending == [] && t.updater.Unlocked? && AllIdle(t.slots) && t.submitted == s.submitted
    decreases |s.pending|
  {
    work, t := WorkersEnd(s, |s.slots|);
    assert t.slots[..|s.slots|] == t.slots;
    if t.pending != [] {
      IdleWorkerTakes(t.slots, t.pending);
      var scan, updated := UpdateCanFinish(t);
      LeadsOn(s, work, t, [UpdateLock] + scan, updated);
      var rest;
      rest, t := QueueEmpties(updated);
      work := work + ([UpdateLock] + scan);
      LeadsOn(s, work, updated, rest, t);
      work := work + rest;
    }
  }

  /** From whatever point of whatever run, a pool with a worker can go on to run and delete all the tasks submitted. */
  lemma AllCanFinish(n: nat, steps: seq<Step>) returns (more: seq<Step>)
    requires n > 0 && Last(n, steps).Some?
    ensures Last(n, steps + more).Some?
    ensures
      var s, t := Last(n, steps).value, Last(n, steps + more).value;
      && t.submitted == s.submitted && t.pending == []
      && multiset(t.ran) == multiset(s.submitted) && multiset(t.deleted) == multiset(s.submitted)
  {
    EveryRunKeepsInv(n, steps);
    var s := Last(n, steps).value;
    var scan, m := ScanEnds(s);
    var work, t := QueueEmpties(m);
    LeadsOn(s, scan, m, work, t);
    more := scan + work;
    LastLeads(n, steps, more, t);
    IdlePoolHasRunAll(n, steps + more);
  }

  /** Tasks can be submitted one after the other, before anything else happens. */
  lemma {:induction false} AllCanBeSubmitted(n: nat, tasks: seq<Task>) returns (steps: seq<Step>)
    requires NoDup(tasks)
    ensures Last(n, steps) == Some(Initial(n).(pending := tasks, submitted := tasks))
  {
    if tasks == [] {
      steps := [];
    } else {
      var init, task := tasks[..|tasks| - 1], tasks[|tasks| - 1];
      var before := AllCanBeSubmitted(n, init);
      steps := before + [AddWork(task)];
      assert steps[..|before|] == before && init + [task] == tasks;
    }
  }

  /** And whatever tasks are submitted, a pool with a worker can run them all. */
  lemma AnyTasksCanBeRun(n: nat, tasks: seq<Task>) returns (steps: seq<Step>)
    requires n > 0 && NoDup(tasks)
    ensures Last(n, steps).Some? && Last(n, steps).value.submitted == tasks
    ensures multiset(Last(n, steps).value.ran) == multiset(Last(n, steps).value.deleted) == multiset(tasks)
  {
    var first := AllCanBeSubmitted(n, tasks);
    var more := AllCanFinish(n, first);
    steps := first + more;
  }
}
