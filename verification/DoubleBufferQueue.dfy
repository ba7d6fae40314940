/** The double-buffered message queue, under every interleaving of pushes, pops and swaps, and as its clients use it. */
module DoubleBufferQueue {
  import opened Basics

  type Thread = nat

  /** A call that has read the index but not yet acted on what it found: the buffer it chose, or the index to store. */
  datatype Call<T> = Pushing(buffer: nat, item: T) | Popping(buffer: nat) | Checking(buffer: nat) | Swapping(next: nat)

  /** The two buffers, the current index, the calls under way, and everything appended and popped so far, in order. */
  datatype State<T> = State(
    first: seq<T>, second: seq<T>, index: nat, calls: map<Thread, Call<T>>, pushed: seq<T>, popped: seq<T>)

  /** Any thread may begin any call, with the load of the index; later it acts, under a lock or with a store. */
  datatype Step<T> =
    | PushLoad(thread: Thread, item: T) | PopLoad(thread: Thread) | EmptyLoad(thread: Thread) | SwapLoad(thread: Thread)
    | Act(thread: Thread)

  function NextQueueIndex(v: nat): nat {
    (v + 1) % 2
  }

  function Buffer<T>(s: State<T>, i: nat): seq<T> {
    if i == 0 then s.first else s.second
  }

  function SetBuffer<T>(s: State<T>, i: nat, q: seq<T>): State<T> {
    if i == 0 then s.(first := q) else s.(second := q)
  }

  function Current<T>(s: State<T>): seq<T> {
    Buffer(s, s.index)
  }

  function Other<T>(s: State<T>): seq<T> {
    Buffer(s, NextQueueIndex(s.index))
  }

  function Initial<T>(): State<T> {
    State([], [], 0, map[], [], [])
  }

  predicate Enabled<T>(s: State<T>, a: Step<T>) {
    a.Act? <==> a.thread in s.calls
  }

  function AfterAppend<T>(s: State<T>, buffer: nat, item: T): State<T> {
    SetBuffer(s, buffer, Buffer(s, buffer) + [item]).(pushed := s.pushed + [item])
  }

  function AfterPop<T>(s: State<T>, buffer: nat): State<T> {
    var q := Buffer(s, buffer);
    if q == [] then s else SetBuffer(s, buffer, q[1..]).(popped := s.popped + [q[0]])
  }

  function AfterAct<T>(s: State<T>, call: Call<T>): State<T> {
    match call
    case Pushing(buffer, item) => AfterAppend(s, buffer, item)
    case Popping(buffer) => AfterPop(s, buffer)
    case Checking(_) => s
    case Swapping(next) => s.(index := next)
  }

  function Begun<T>(s: State<T>, a: Step<T>): Call<T>
    requires !a.Act?
  {
    match a
    case PushLoad(_, item) => Pushing(NextQueueIndex(s.index), item)
    case PopLoad(_) => Popping(s.index)
    case EmptyLoad(_) => Checking(s.index)
    case SwapLoad(_) => Swapping(NextQueueIndex(s.index))
  }

  function After<T>(s: State<T>, a: Step<T>): State<T>
    requires Enabled(s, a)
  {
    if a.Act? then AfterAct(s, s.calls[a.thread]).(calls := s.calls - {a.thread})
    else s.(calls := s.calls[a.thread := Begun(s, a)])
  }

  predicate InShape<T>(call: Call<T>) {
    match call
    case Pushing(buffer, _) => buffer < 2
    case Popping(buffer) => buffer < 2
    case Checking(buffer) => buffer < 2
    case Swapping(next) => next < 2
  }

  ghost predicate Shape<T>(s: State<T>) {
    s.index < 2 && forall t {:trigger s.calls[t]} :: t in s.calls ==> InShape(s.calls[t])
  }

  // ----- Conservation, under every interleaving

  ghost predicate Conserved<T>(s: State<T>) {
    multiset(s.pushed) == multiset(s.popped) + multiset(s.first) + multiset(s.second)
  }

  lemma AppendConserves<T>(s: State<T>, buffer: nat, item: T)
    requires Conserved(s)
    ensures Conserved(AfterAppend(s, buffer, item))
  {
  }

  lemma PopConserves<T>(s: State<T>, buffer: nat)
    requires Conserved(s)
    ensures Conserved(AfterPop(s, buffer))
  {
    var q := Buffer(s, buffer);
    if q != [] {
      assert q == [q[0]] + q[1..];
    }
  }

  lemma StepConserves<T>(s: State<T>, a: Step<T>)
    requires Shape(s) && Conserved(s) && Enabled(s, a)
    ensures Shape(After(s, a)) && Conserved(After(s, a))
  {
    if a.Act? {
      match s.calls[a.thread]
      case Pushing(buffer, item) => AppendConserves(s, buffer, item);
      case Popping(buffer) => PopConserves(s, buffer);
      case Checking(_) =>
      case Swapping(_) =>
    }
  }

  // ----- Order, when the steps allow it

  /** What was popped, then the current buffer, then the other one: everything pushed, in order. */
  ghost predicate InOrder<T>(s: State<T>) {
    s.popped + Current(s) + Other(s) == s.pushed
  }

  /**
   * The step keeps the order: a push appends to the other buffer, or finds it empty; a pop takes from the current buffer,
   * or finds one of the two empty; and a swap that moves the index finds one of the two empty.
   */
  predicate KeepsOrder<T>(s: State<T>, a: Step<T>) {
    a.Act? && a.thread in s.calls ==>
      match s.calls[a.thread]
      case Pushing(buffer, _) => buffer == NextQueueIndex(s.index) || Other(s) == []
      case Popping(buffer) => buffer == s.index || Current(s) == [] || Other(s) == []
      case Checking(_) => true
      case Swapping(next) => next == s.index || Current(s) == [] || Other(s) == []
  }

  lemma AppendOrder<T>(a: seq<T>, b: seq<T>, c: seq<T>, x: T)
    ensures a + b + (c + [x]) == a + b + c + [x]
    ensures c == [] ==> a + (b + [x]) + c == a + b + c + [x]
  {
  }

  lemma StaleAppendOrder<T>(a: seq<T>, b: seq<T>, c: seq<T>, x: T)
    requires NoDup(a + b + c + [x]) && c != []
    ensures a + (b + [x]) + c != a + b + c + [x]
  {
    var s := a + b + c + [x];
    assert (a + (b + [x]) + c)[|a| + |b|] == x == s[|a| + |b| + |c|];
    assert s[|a| + |b|] == c[0];
  }

  lemma SwapOrder<T>(a: seq<T>, b: seq<T>, c: seq<T>)
    requires b == [] || c == []
    ensures a + c + b == a + b + c
  {
  }

  lemma BadSwapOrder<T>(a: seq<T>, b: seq<T>, c: seq<T>)
    requires NoDup(a + b + c) && b != [] && c != []
    ensures a + c + b != a + b + c
  {
    var s := a + b + c;
    assert (a + c + b)[|a|] == c[0] == s[|a| + |b|] && s[|a|] == b[0];
  }

  lemma PopOrder<T>(a: seq<T>, b: seq<T>, c: seq<T>)
    requires b != []
    ensures (a + [b[0]]) + b[1..] + c == a + b + c
  {
    assert b == [b[0]] + b[1..];
  }

  lemma StalePopOrder<T>(a: seq<T>, b: seq<T>, c: seq<T>)
    requires c != []
    ensures b == [] ==> (a + [c[0]]) + b + c[1..] == a + b + c
    ensures b != [] && NoDup(a + b + c) ==> (a + [c[0]]) + b + c[1..] != a + b + c
  {
    assert c == [c[0]] + c[1..];
    if b != [] && NoDup(a + b + c) {
      var s := a + b + c;
      assert ((a + [c[0]]) + b + c[1..])[|a|] == c[0] == s[|a| + |b|] && s[|a|] == b[0];
    }
  }

  /** A pushing thread's act keeps the order exactly when its buffer is the other one, or that is empty. */
  lemma AppendKeepsIff<T>(s: State<T>, buffer: nat, item: T)
    requires s.index < 2 && buffer < 2 && InOrder(s)
    ensures buffer == NextQueueIndex(s.index) || Other(s) == [] ==> InOrder(AfterAppend(s, buffer, item))
    ensures NoDup(s.pushed + [item]) && InOrder(AfterAppend(s, buffer, item)) ==>
      buffer == NextQueueIndex(s.index) || Other(s) == []
  {
    AppendOrder(s.popped, Current(s), Other(s), item);
    if buffer == s.index && Other(s) != [] && NoDup(s.pushed + [item]) {
      StaleAppendOrder(s.popped, Current(s), Other(s), item);
    }
  }

  lemma PopKeepsIff<T>(s: State<T>, buffer: nat)
    requires s.index < 2 && buffer < 2 && InOrder(s)
    ensures buffer == s.index || Current(s) == [] || Other(s) == [] ==> InOrder(AfterPop(s, buffer))
    ensures NoDup(s.pushed) && InOrder(AfterPop(s, buffer)) ==> buffer == s.index || Current(s) == [] || Other(s) == []
  {
    if Buffer(s, buffer) != [] {
      if buffer == s.index {
        PopOrder(s.popped, Current(s), Other(s));
      } else {
        StalePopOrder(s.popped, Current(s), Other(s));
      }
    }
  }

  lemma SwapKeepsIff<T>(s: State<T>, next: nat)
    requires s.index < 2 && next < 2 && InOrder(s)
    ensures next == s.index || Current(s) == [] || Other(s) == [] ==> InOrder(s.(index := next))
    ensures NoDup(s.pushed) && InOrder(s.(index := next)) ==> next == s.index || Current(s) == [] || Other(s) == []
  {
    if next != s.index {
      if Current(s) == [] || Other(s) == [] {
        SwapOrder(s.popped, Current(s), Other(s));
      } else if NoDup(s.pushed) {
        BadSwapOrder(s.popped, Current(s), Other(s));
      }
    }
  }

  lemma KeepsOrderKeeps<T>(s: State<T>, a: Step<T>)
    requires Shape(s) && InOrder(s) && Enabled(s, a) && KeepsOrder(s, a)
    ensures InOrder(After(s, a))
  {
    if a.Act? {
      match s.calls[a.thread]
      case Pushing(buffer, item) => AppendKeepsIff(s, buffer, item);
      case Popping(buffer) => PopKeepsIff(s, buffer);
      case Checking(_) =>
      case Swapping(next) => SwapKeepsIff(s, next);
    }
  }

  /** With distinct messages, a step keeps the order exactly when it is one of the steps that may. */
  lemma OrderIsKeptIff<T>(s: State<T>, a: Step<T>)
    requires Shape(s) && InOrder(s) && Enabled(s, a) && NoDup(After(s, a).pushed)
    ensures InOrder(After(s, a)) <==> KeepsOrder(s, a)
  {
    if a.Act? {
      match s.calls[a.thread]
      case Pushing(buffer, item) => AppendKeepsIff(s, buffer, item);
      case Popping(buffer) => PopKeepsIff(s, buffer);
      case Checking(_) =>
      case Swapping(next) => SwapKeepsIff(s, next);
    }
  }

  // ----- Whole runs

  function Last<T>(steps: seq<Step<T>>): (r: Option<State<T>>) {
    if steps == [] then Some(Initial())
    else
      var before := Last(steps[..|steps| - 1]);
      var a := steps[|steps| - 1];
      if before.Some? && Enabled(before.value, a) then Some(After(before.value, a)) else None
  }

  /** The steps can be taken in this order from the initial state. */
  predicate IsRun<T>(steps: seq<Step<T>>) {
    Last(steps).Some?
  }

  /** Messages are never lost or duplicated, whoever pushes, pops and swaps, and whatever the interleaving. */
  lemma {:induction false} EveryRunConserves<T>(steps: seq<Step<T>>)
    requires IsRun(steps)
    ensures Shape(Last(steps).value) && Conserved(Last(steps).value)
  {
    if steps == [] {
    } else {
      EveryRunConserves(steps[..|steps| - 1]);
      StepConserves(Last(steps[..|steps| - 1]).value, steps[|steps| - 1]);
    }
  }

  /** The run is in order at every moment. */
  ghost predicate AlwaysInOrder<T>(steps: seq<Step<T>>)
    requires IsRun(steps)
  {
    InOrder(Last(steps).value) && (steps != [] ==> AlwaysInOrder(steps[..|steps| - 1]))
  }

  /** Every step of the run is one that keeps the order. */
  predicate AlwaysKeeps<T>(steps: seq<Step<T>>)
    requires IsRun(steps)
  {
    steps != [] ==>
      AlwaysKeeps(steps[..|steps| - 1]) && KeepsOrder(Last(steps[..|steps| - 1]).value, steps[|steps| - 1])
  }

  lemma PushedGrows<T>(s: State<T>, a: Step<T>)
    requires Enabled(s, a) && NoDup(After(s, a).pushed)
    ensures NoDup(s.pushed)
  {
    assert s.pushed == After(s, a).pushed[..|s.pushed|];
  }

  /** With distinct messages, a run is always in order exactly when each of its steps keeps the order. */
  lemma {:induction false} RunIsInOrderIff<T>(steps: seq<Step<T>>)
    requires IsRun(steps) && NoDup(Last(steps).value.pushed)
    ensures AlwaysInOrder(steps) <==> AlwaysKeeps(steps)
    ensures AlwaysKeeps(steps) ==> InOrder(Last(steps).value)
  {
    if steps == [] {
    } else {
      var before, a := steps[..|steps| - 1], steps[|steps| - 1];
      var s := Last(before).value;
      PushedGrows(s, a);
      RunIsInOrderIff(before);
      EveryRunConserves(before);
      if InOrder(s) {
        OrderIsKeptIff(s, a);
      }
    }
  }

  // ----- One consumer

  /** The two loops that read such a queue: swap first and then drain, or pop first and swap when there is nothing. */
  datatype Client = Callback | PopFirst

  /** The consumer's next call; Again is the second try of a client that pops first. */
  datatype Phase = Swap | Check | Pop | Again

  function StartPhase(client: Client): Phase {
    if client.Callback? then Swap else Pop
  }

  /** What the consumer does after a call that did or did not find a message. */
  function NextPhase(client: Client, phase: Phase, found: bool): Phase {
    match phase
    case Swap => if client.Callback? then Check else Again
    case Check => if found then Pop else Swap
    case Pop => if !found then Swap else if client.Callback? then Check else Pop
    case Again => Pop
  }

  predicate IsCallOf<T>(phase: Phase, call: Call<T>) {
    match phase
    case Swap => call.Swapping?
    case Check => call.Checking?
    case Pop => call.Popping?
    case Again => call.Popping?
  }

  predicate Found<T>(s: State<T>, call: Call<T>) {
    (call.Popping? || call.Checking?) && Buffer(s, call.buffer) != []
  }

  /** The step of a program in which one thread swaps, checks and pops as its phase says, and all others only push. */
  predicate Follows<T>(consumer: Thread, phase: Phase, s: State<T>, a: Step<T>)
    requires Enabled(s, a)
  {
    if a.thread != consumer then a.Act? || a.PushLoad? else a.Act? || IsCallOf(phase, Begun(s, a))
  }

  /** The consumer goes on when it has acted. */
  function PhaseStep<T>(client: Client, consumer: Thread, phase: Phase, s: State<T>, a: Step<T>): Phase
    requires Enabled(s, a)
  {
    if a.Act? && a.thread == consumer then NextPhase(client, phase, Found(s, s.calls[consumer])) else phase
  }

  /** The phase of the consumer after the run, if the run is one of such a program. */
  function PhaseAfter<T>(client: Client, consumer: Thread, steps: seq<Step<T>>): Option<Phase>
    requires IsRun(steps)
  {
    if steps == [] then Some(StartPhase(client))
    else
      var before, a := steps[..|steps| - 1], steps[|steps| - 1];
      var s, phase := Last(before).value, PhaseAfter(client, consumer, before);
      if phase.None? || !Follows(consumer, phase.value, s, a) then None
      else Some(PhaseStep(client, consumer, phase.value, s, a))
  }

  /** The swap of the run is stored while no push is between its two steps. */
  ghost predicate IsQuiet<T>(s: State<T>, a: Step<T>) {
    a.Act? && a.thread in s.calls && s.calls[a.thread].Swapping? ==>
      forall t {:trigger s.calls[t]} :: t in s.calls ==> !s.calls[t].Pushing?
  }

  ghost predicate NoSwapInsidePush<T>(steps: seq<Step<T>>)
    requires IsRun(steps)
  {
    steps != [] ==>
      NoSwapInsidePush(steps[..|steps| - 1]) && IsQuiet(Last(steps[..|steps| - 1]).value, steps[|steps| - 1])
  }

  /** Where the consumer and the others are: pushes go to the other buffer, and before a swap the current one is empty. */
  ghost predicate Tidy<T>(consumer: Thread, phase: Phase, s: State<T>) {
    && (forall t {:trigger s.calls[t]} :: t in s.calls ==> (s.calls[t].Pushing? <==> t != consumer))
    && (forall t {:trigger s.calls[t]} :: t in s.calls && s.calls[t].Pushing? ==>
          s.calls[t].buffer == NextQueueIndex(s.index))
    && (consumer in s.calls ==> IsCallOf(phase, s.calls[consumer]))
    && (consumer in s.calls && !s.calls[consumer].Swapping? && !s.calls[consumer].Pushing? ==>
          s.calls[consumer].buffer == s.index)
    && (consumer in s.calls && s.calls[consumer].Swapping? ==> s.calls[consumer].next == NextQueueIndex(s.index))
    && (phase.Swap? ==> Current(s) == [])
  }

  lemma StepKeepsTidy<T>(client: Client, consumer: Thread, phase: Phase, s: State<T>, a: Step<T>)
    requires Shape(s) && Enabled(s, a) && Tidy(consumer, phase, s) && Follows(consumer, phase, s, a) && IsQuiet(s, a)
    ensures KeepsOrder(s, a)
    ensures Tidy(consumer, PhaseStep(client, consumer, phase, s, a), After(s, a))
  {
  }

  lemma {:induction false} TidyRuns<T>(client: Client, consumer: Thread, steps: seq<Step<T>>)
    requires IsRun(steps) && PhaseAfter(client, consumer, steps).Some? && NoSwapInsidePush(steps)
    ensures Tidy(consumer, PhaseAfter(client, consumer, steps).value, Last(steps).value) && InOrder(Last(steps).value)
  {
    if steps == [] {
    } else {
      var before, a := steps[..|steps| - 1], steps[|steps| - 1];
      var s := Last(before).value;
      TidyRuns(client, consumer, before);
      EveryRunConserves(before);
      StepKeepsTidy(client, consumer, PhaseAfter(client, consumer, before).value, s, a);
      KeepsOrderKeeps(s, a);
    }
  }

  /**
   * First in, first out: with one consumer of either kind, and no swap inside a push, messages are handled in the order
   * in which they were appended.
   */
  lemma TidyRunsAreFifo<T>(client: Client, consumer: Thread, steps: seq<Step<T>>)
    requires IsRun(steps) && PhaseAfter(client, consumer, steps).Some? && NoSwapInsidePush(steps)
    ensures
      var s := Last(steps).value;
      s.popped <= s.pushed && s.pushed[|s.popped|..] == Current(s) + Other(s)
  {
    TidyRuns(client, consumer, steps);
    var s := Last(steps).value;
    InOrderIsPrefix(s.popped, Current(s), Other(s), s.pushed);
  }

  lemma InOrderIsPrefix<T>(popped: seq<T>, current: seq<T>, other: seq<T>, pushed: seq<T>)
    requires popped + current + other == pushed
    ensures popped <= pushed && pushed[|popped|..] == current + other
  {
    assert popped + current + other == popped + (current + other);
  }

  lemma LastStep<T>(steps: seq<Step<T>>, a: Step<T>)
    requires IsRun(steps) && Enabled(Last(steps).value, a)
    ensures Last(steps + [a]) == Some(After(Last(steps).value, a))
  {
    assert (steps + [a])[..|steps|] == steps;
  }

  /** A swap inside a push lets a later message overtake an earlier one. */
  lemma OvertakingExample() returns (steps: seq<Step<int>>)
    ensures IsRun(steps) && Last(steps).value.pushed == [1, 2] && Last(steps).value.popped == [2]
  {
    // Thread 7 picks the second buffer, which thread 0 makes the current one before thread 7 appends to it.
    steps := [];
    LastStep(steps, PushLoad(7, 2));
    steps := steps + [PushLoad(7, 2)];
    LastStep(steps, SwapLoad(0));
    steps := steps + [SwapLoad(0)];
    LastStep(steps, Act(0));
    steps := steps + [Act(0)];
    var p7 := map[7 := Pushing(1, 2)];
    assert p7[0 := Swapping(1)] - {0} == p7;
    assert Last(steps) == Some(State([], [], 1, p7, [], []));
    // Thread 8 comes later, and appends first.
    LastStep(steps, PushLoad(8, 1));
    steps := steps + [PushLoad(8, 1)];
    LastStep(steps, Act(8));
    steps := steps + [Act(8)];
    assert p7[8 := Pushing(0, 1)] - {8} == p7 && [] + [1] == [1];
    assert Last(steps) == Some(State([1], [], 1, p7, [1], []));
    LastStep(steps, Act(7));
    steps := steps + [Act(7)];
    assert p7 - {7} == map[] && [] + [2] == [2] && [1] + [2] == [1, 2];
    assert Last(steps) == Some(State([1], [2], 1, map[], [1, 2], []));
    LastStep(steps, PopLoad(0));
    steps := steps + [PopLoad(0)];
    LastStep(steps, Act(0));
    steps := steps + [Act(0)];
  }

  // ----- The calls, undisturbed

  class Queue<T> {
    var first: seq<T>
    var second: seq<T>
    var index: nat

    ghost predicate Valid()
      reads this
    {
      index < 2
    }

    function CurrentBuffer(): seq<T>
      reads this
    {
      if index == 0 then first else second
    }

    function OtherBuffer(): seq<T>
      reads this
    {
      if index == 0 then second else first
    }

    constructor ()
      ensures Valid() && CurrentBuffer() == [] && OtherBuffer() == []
    {
      first, second, index := [], [], 0;
    }

    method Swap()
      requires Valid()
      modifies this`index
      ensures Valid() && CurrentBuffer() == old(OtherBuffer()) && OtherBuffer() == old(CurrentBuffer())
    {
      index := NextQueueIndex(index);
    }

    method Push(item: T)
      requires Valid()
      modifies this
      ensures Valid() && OtherBuffer() == old(OtherBuffer()) + [item] && CurrentBuffer() == old(CurrentBuffer())
    {
      var next := NextQueueIndex(index);
      if next == 0 {
        first := first + [item];
      } else {
        second := second + [item];
      }
    }

    method Pop() returns (item: Option<T>)
      requires Valid()
      modifies this
      ensures Valid() && OtherBuffer() == old(OtherBuffer())
      ensures item.None? <==> old(CurrentBuffer()) == []
      ensures if item.Some? then old(CurrentBuffer()) == [item.value] + CurrentBuffer() else CurrentBuffer() == []
    {
      var q := CurrentBuffer();
      if q == [] {
        return None;
      }
      item := Some(q[0]);
      if index == 0 {
        first := first[1..];
      } else {
        second := second[1..];
      }
    }

    method Empty() returns (b: bool)
      ensures b <==> CurrentBuffer() == []
    {
      b := CurrentBuffer() == [];
    }
  }

  lemma MoveFirst<T>(handled: seq<T>, buffer: seq<T>)
    requires buffer != []
    ensures (handled + [buffer[0]]) + buffer[1..] == handled + buffer
  {
  }

  /** The receiver of asynchronous messages: what it has handled, and the queue that other threads post to. */
  class Async<T> {
    const queue: Queue<T>
    var handled: seq<T>

    constructor ()
      ensures queue.Valid() && fresh(queue) && handled == []
      ensures queue.CurrentBuffer() == [] && queue.OtherBuffer() == []
    {
      queue := new Queue();
      handled := [];
    }

    /** In its own thread a message is handled at once, overtaking those posted by other threads. */
    method PostMessage(msg: T, inAsyncThread: bool)
      requires queue.Valid()
      modifies this, queue
      ensures queue.Valid() && queue.CurrentBuffer() == old(queue.CurrentBuffer())
      ensures handled == if inAsyncThread then old(handled) + [msg] else old(handled)
      ensures queue.OtherBuffer() == if inAsyncThread then old(queue.OtherBuffer()) else old(queue.OtherBuffer()) + [msg]
    {
      if !inAsyncThread {
        queue.Push(msg);
        return;
      }
      handled := handled + [msg];
    }

    /** Handles everything posted since the last callback; what the last one left behind waits for the next one. */
    method Callback()
      requires queue.Valid()
      modifies this, queue
      ensures queue.Valid() && queue.CurrentBuffer() == [] && queue.OtherBuffer() == old(queue.CurrentBuffer())
      ensures handled == old(handled) + old(queue.OtherBuffer())
    {
      queue.Swap();
      DrainCurrent();
    }

    method DrainCurrent()
      requires queue.Valid()
      modifies this, queue
      ensures queue.Valid() && queue.CurrentBuffer() == [] && queue.OtherBuffer() == old(queue.OtherBuffer())
      ensures handled == old(handled) + old(queue.CurrentBuffer())
    {
      ghost var all := handled + queue.CurrentBuffer();
      var empty := queue.Empty();
      while !empty
        invariant queue.Valid() && queue.OtherBuffer() == old(queue.OtherBuffer())
        invariant handled + queue.CurrentBuffer() == all
        invariant empty <==> queue.CurrentBuffer() == []
        decreases |queue.CurrentBuffer()|
      {
        MoveFirst(handled, queue.CurrentBuffer());
        var req := queue.Pop();
        if req.None? {
          break;
        }
        handled := handled + [req.value];
        empty := queue.Empty();
      }
      assert handled + [] == handled;
    }
  }
}
