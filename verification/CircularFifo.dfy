/** The single-producer single-consumer ring, step by atomic step. */
module CircularFifo {
  import opened Basics

  /** What one thread has done of its current call. */
  datatype Producer<T> =
    | Outside
    | TailLoaded(item: T, tail: nat)
    | RoomSeen(item: T, tail: nat, next: nat)
    | SlotWritten(item: T, next: nat)

  datatype Consumer<T> =
    | Outside
    | HeadLoaded(head: nat)
    | ItemSeen(head: nat)
    | SlotRead(head: nat, item: T)

  /**
   * The shared indices and array, where the two threads are, and what has happened: the items whose push has returned
   * true and the items that pops have handed out, in order.
   */
  datatype State<T> = State(
    slots: seq<T>, tail: nat, head: nat, producer: Producer<T>, consumer: Consumer<T>, pushed: seq<T>, popped: seq<T>)

  datatype Step<T> =
    | PushLoadTail(item: T) | PushLoadHead | PushWrite | PushStore
    | PopLoadHead | PopLoadTail | PopRead | PopStore

  function Increment(index: nat, capacity: nat): (next: nat)
    requires index < capacity
    ensures next == if index + 1 == capacity then 0 else index + 1
  {
    (index + 1) % capacity
  }

  ghost predicate Initial<T>(s: State<T>) {
    && |s.slots| >= 1 && s.tail == 0 && s.head == 0
    && s.producer == Producer.Outside && s.consumer == Consumer.Outside && s.pushed == [] && s.popped == []
  }

  ghost predicate InBounds<T>(s: State<T>) {
    && s.tail < |s.slots| && s.head < |s.slots|
    && (s.producer.TailLoaded? ==> s.producer.tail < |s.slots|)
    && (s.producer.RoomSeen? ==> s.producer.tail < |s.slots|)
    && (s.consumer.ItemSeen? ==> s.consumer.head < |s.slots|)
    && (s.consumer.SlotRead? ==> s.consumer.head < |s.slots|)
  }

  /** One atomic load, store or array access of one of the threads. */
  ghost predicate Next<T>(s: State<T>, a: Step<T>, s': State<T>)
    requires InBounds(s)
  {
    match a
    case PushLoadTail(item) =>
      s.producer.Outside? && s' == s.(producer := TailLoaded(item, s.tail))
    case PushLoadHead =>
      && s.producer.TailLoaded?
      && var next := Increment(s.producer.tail, |s.slots|);
         s' == s.(producer := if next == s.head then Producer.Outside else RoomSeen(s.producer.item, s.producer.tail, next))
    case PushWrite =>
      && s.producer.RoomSeen?
      && s' == s.(slots := s.slots[s.producer.tail := s.producer.item],
                  producer := SlotWritten(s.producer.item, s.producer.next))
    case PushStore =>
      && s.producer.SlotWritten?
      && s' == s.(tail := s.producer.next, producer := Producer.Outside, pushed := s.pushed + [s.producer.item])
    case PopLoadHead =>
      s.consumer.Outside? && s' == s.(consumer := HeadLoaded(s.head))
    case PopLoadTail =>
      && s.consumer.HeadLoaded?
      && s' == s.(consumer := if s.consumer.head == s.tail then Consumer.Outside else ItemSeen(s.consumer.head))
    case PopRead =>
      && s.consumer.ItemSeen?
      && s' == s.(consumer := SlotRead(s.consumer.head, s.slots[s.consumer.head]))
    case PopStore =>
      && s.consumer.SlotRead?
      && s' == s.(head := Increment(s.consumer.head, |s.slots|), consumer := Consumer.Outside,
                  popped := s.popped + [s.consumer.item])
  }

  /** The queue that a client sees: what has been pushed and not popped. */
  function Queue<T>(s: State<T>): seq<T> {
    if |s.popped| <= |s.pushed| then s.pushed[|s.popped|..] else []
  }

  /** The slot of the `i`-th queued item. */
  function SlotAt(head: nat, i: nat, capacity: nat): nat {
    if head + i < capacity then head + i else head + i - capacity
  }

  /** The queue `q` lies in the ring from `head` to `tail`, and leaves one slot free. */
  ghost predicate Laid<T>(slots: seq<T>, head: nat, tail: nat, q: seq<T>) {
    && head < |slots| && |q| < |slots|
    && tail == SlotAt(head, |q|, |slots|)
    && forall i :: 0 <= i < |q| ==> slots[SlotAt(head, i, |slots|)] == q[i]
  }

  ghost predicate Inv<T>(s: State<T>) {
    && s.popped <= s.pushed
    && Laid(s.slots, s.head, s.tail, Queue(s))
    && ProducerInv(s) && ConsumerInv(s)
  }

  /** The tail is the producer's own, and the room it has seen can only grow. */
  ghost predicate ProducerInv<T>(s: State<T>) {
    && (s.producer.TailLoaded? ==> s.producer.tail == s.tail)
    && (s.producer.RoomSeen? ==>
          s.producer.tail == s.tail && s.tail < |s.slots| && s.producer.next == Increment(s.tail, |s.slots|)
          && |Queue(s)| + 1 < |s.slots|)
    && (s.producer.SlotWritten? ==>
          s.tail < |s.slots| && s.producer.next == Increment(s.tail, |s.slots|) && s.slots[s.tail] == s.producer.item
          && |Queue(s)| + 1 < |s.slots|)
  }

  /** The head is the consumer's own, and the item it has seen stays there. */
  ghost predicate ConsumerInv<T>(s: State<T>) {
    && (s.consumer.HeadLoaded? ==> s.consumer.head == s.head)
    && (s.consumer.ItemSeen? ==> s.consumer.head == s.head && Queue(s) != [])
    && (s.consumer.SlotRead? ==> s.consumer.head == s.head && Queue(s) != [] && s.consumer.item == Queue(s)[0])
  }

  lemma InvInitially<T>(s: State<T>)
    requires Initial(s)
    ensures Inv(s)
  {
  }

  /** Storing the tail makes the written slot the last of the queue. */
  lemma LaidAfterPush<T>(slots: seq<T>, head: nat, tail: nat, q: seq<T>)
    requires Laid(slots, head, tail, q) && tail < |slots| && |q| + 1 < |slots|
    ensures Laid(slots, head, Increment(tail, |slots|), q + [slots[tail]])
  {
  }

  /** Storing the head takes the first item off. */
  lemma LaidAfterPop<T>(slots: seq<T>, head: nat, tail: nat, q: seq<T>)
    requires Laid(slots, head, tail, q) && q != []
    ensures Laid(slots, Increment(head, |slots|), tail, q[1..]) && slots[head] == q[0]
  {
    var head' := Increment(head, |slots|);
    forall i | 0 <= i < |q| - 1 ensures slots[SlotAt(head', i, |slots|)] == q[1..][i] {
      assert SlotAt(head', i, |slots|) == SlotAt(head, i + 1, |slots|);
    }
    assert SlotAt(head, 0, |slots|) == head;
  }

  /** Writing the free slot at the tail disturbs no queued item. */
  lemma LaidAfterWrite<T>(slots: seq<T>, head: nat, tail: nat, q: seq<T>, item: T)
    requires Laid(slots, head, tail, q) && tail < |slots|
    ensures Laid(slots[tail := item], head, tail, q)
  {
  }

  /** Seen from the client: the queue changes only when an index is stored, at one end at a time. */
  ghost predicate Refines<T>(s: State<T>, a: Step<T>, s': State<T>) {
    match a
    case PushStore => s.producer.SlotWritten? && |Queue(s)| + 1 < |s.slots| && Queue(s') == Queue(s) + [s.producer.item]
    case PopStore => s.consumer.SlotRead? && Queue(s) != [] && s.consumer.item == Queue(s)[0] && Queue(s') == Queue(s)[1..]
    case _ => Queue(s') == Queue(s)
  }

  /** Every step of either thread keeps the invariant and does to the queue what its call promises. */
  lemma StepRefinesQueue<T>(s: State<T>, a: Step<T>, s': State<T>)
    requires Inv(s) && InBounds(s) && Next(s, a, s')
    ensures Inv(s') && InBounds(s') && Refines(s, a, s') && |s'.slots| == |s.slots|
  {
    match a
    case PushStore => LaidAfterPush(s.slots, s.head, s.tail, Queue(s));
    case PushWrite => LaidAfterWrite(s.slots, s.head, s.tail, Queue(s), s.producer.item);
    case PopStore => LaidAfterPop(s.slots, s.head, s.tail, Queue(s));
    case PopRead => LaidAfterPop(s.slots, s.head, s.tail, Queue(s));
    case _ =>
  }

  /** The answers: a push is refused exactly when the queue is full at that step, a pop exactly when it is empty. */
  lemma RefusalsAreJustified<T>(s: State<T>, a: Step<T>, s': State<T>)
    requires Inv(s) && InBounds(s) && Next(s, a, s')
    ensures a.PushLoadHead? ==> (s'.producer.Outside? <==> |Queue(s)| == |s.slots| - 1)
    ensures a.PopLoadTail? ==> (s'.consumer.Outside? <==> Queue(s) == [])
  {
  }

  /** The slot about to be written is never the slot about to be read. */
  lemma NoConflict<T>(s: State<T>)
    requires Inv(s)
    ensures s.producer.RoomSeen? && s.consumer.ItemSeen? ==> s.producer.tail != s.consumer.head
  {
  }

  // ----- Whole runs

  /** A run: a state to start from, and the steps taken with the state that each one leads to. */
  datatype Run<T> = Start(last: State<T>) | Extend(before: Run<T>, step: Step<T>, last: State<T>)

  ghost predicate IsRun<T>(run: Run<T>) {
    match run
    case Start(s) => Initial(s)
    case Extend(before, step, s) => IsRun(before) && InBounds(before.last) && Next(before.last, step, s)
  }

  /** The number of slots: one more than the items that fit. */
  function Capacity<T>(run: Run<T>): nat {
    if run.Start? then |run.last.slots| else Capacity(run.before)
  }

  /** What a step completes: the item of a push that returns true, or the item that a pop hands out. */
  function PushedBy<T>(s: State<T>, a: Step<T>): seq<T> {
    if a.PushStore? && s.producer.SlotWritten? then [s.producer.item] else []
  }

  function PoppedBy<T>(s: State<T>, a: Step<T>): seq<T> {
    if a.PopStore? && s.consumer.SlotRead? then [s.consumer.item] else []
  }

  /** The items of the calls to push that have returned true, in order. */
  function Pushes<T>(run: Run<T>): seq<T> {
    if run.Start? then [] else Pushes(run.before) + PushedBy(run.before.last, run.step)
  }

  /** The items that pops have handed out, in order. */
  function Pops<T>(run: Run<T>): seq<T> {
    if run.Start? then [] else Pops(run.before) + PoppedBy(run.before.last, run.step)
  }

  lemma StepHistory<T>(s: State<T>, a: Step<T>, s': State<T>)
    requires InBounds(s) && Next(s, a, s')
    ensures s'.pushed == s.pushed + PushedBy(s, a) && s'.popped == s.popped + PoppedBy(s, a)
  {
  }

  lemma {:induction false} RunKeepsInv<T>(run: Run<T>)
    requires IsRun(run)
    ensures Inv(run.last) && InBounds(run.last) && |run.last.slots| == Capacity(run)
  {
    if run.Start? {
      InvInitially(run.last);
    } else {
      RunKeepsInv(run.before);
      StepRefinesQueue(run.before.last, run.step, run.last);
    }
  }

  lemma {:induction false} RunHistory<T>(run: Run<T>)
    requires IsRun(run)
    ensures run.last.pushed == Pushes(run) && run.last.popped == Pops(run)
  {
    if run.Extend? {
      RunHistory(run.before);
      StepHistory(run.before.last, run.step, run.last);
    }
  }

  /**
   * Under every interleaving, what has been popped is a prefix of what has been pushed, and the rest is the queue,
   * never longer than the capacity: nothing is lost, duplicated or reordered. No step reaches outside the array.
   */
  lemma EveryRunIsFifo<T>(run: Run<T>)
    requires IsRun(run)
    ensures InBounds(run.last) && Inv(run.last)
    ensures Pops(run) + Queue(run.last) == Pushes(run) && |Queue(run.last)| < Capacity(run)
  {
    RunKeepsInv(run);
    RunHistory(run);
  }

  // ----- Calls can always finish

  /** The run goes on by one step, and its history with it. */
  lemma OneMore<T>(run: Run<T>, a: Step<T>, s: State<T>) returns (longer: Run<T>)
    requires IsRun(run) && (InBounds(run.last) ==> Next(run.last, a, s))
    ensures IsRun(longer) && longer.last == s && InBounds(s)
    ensures Pushes(longer) == s.pushed && Pops(longer) == s.popped
  {
    RunKeepsInv(run);
    longer := Extend(run, a, s);
    RunKeepsInv(longer);
    RunHistory(longer);
  }

  /** What the two threads read off the indices. */
  lemma IndicesTell<T>(run: Run<T>)
    requires IsRun(run)
    ensures
      var s := run.last;
      && InBounds(s) && |s.slots| == Capacity(run) && Pushes(run) == s.pushed && Pops(run) == s.popped
      && (Increment(s.tail, |s.slots|) == s.head <==> |Queue(s)| + 1 == Capacity(run)) && |Queue(s)| + 1 <= Capacity(run)
      && (s.head == s.tail <==> Queue(s) == []) && (Queue(s) != [] ==> s.slots[s.head] == Queue(s)[0])
  {
    RunKeepsInv(run);
    RunHistory(run);
    if Queue(run.last) != [] {
      LaidAfterPop(run.last.slots, run.last.head, run.last.tail, Queue(run.last));
    }
  }

  /** A push that begins can finish while the consumer stays where it is, and succeeds unless the queue is full. */
  lemma PushCanFinish<T>(run: Run<T>, item: T) returns (after: Run<T>)
    requires IsRun(run) && run.last.producer.Outside?
    ensures IsRun(after) && after.last.producer.Outside? && after.last.consumer == run.last.consumer
    ensures Pushes(after) == Pushes(run) + if |Queue(run.last)| + 1 < Capacity(run) then [item] else []
    ensures Pops(after) == Pops(run)
  {
    IndicesTell(run);
    var s := run.last;
    after := OneMore(run, PushLoadTail(item), s.(producer := TailLoaded(item, s.tail)));
    var next := Increment(s.tail, |s.slots|);
    if next == s.head {
      after := OneMore(after, PushLoadHead, s);
    } else {
      after := OneMore(after, PushLoadHead, s.(producer := RoomSeen(item, s.tail, next)));
      var slots := s.slots[s.tail := item];
      after := OneMore(after, PushWrite, s.(slots := slots, producer := SlotWritten(item, next)));
      after := OneMore(after, PushStore, s.(slots := slots, tail := next, pushed := s.pushed + [item]));
    }
  }

  /** So can a pop, and it takes the oldest item unless the queue is empty. */
  lemma PopCanFinish<T>(run: Run<T>) returns (after: Run<T>)
    requires IsRun(run) && run.last.consumer.Outside?
    ensures IsRun(after) && after.last.consumer.Outside? && after.last.producer == run.last.producer
    ensures Pops(after) == Pops(run) + if Queue(run.last) != [] then [Queue(run.last)[0]] else []
    ensures Pushes(after) == Pushes(run)
  {
    IndicesTell(run);
    var s := run.last;
    after := OneMore(run, PopLoadHead, s.(consumer := HeadLoaded(s.head)));
    if s.head == s.tail {
      after := OneMore(after, PopLoadTail, s);
    } else {
      after := OneMore(after, PopLoadTail, s.(consumer := ItemSeen(s.head)));
      var item := s.slots[s.head];
      after := OneMore(after, PopRead, s.(consumer := SlotRead(s.head, item)));
      after := OneMore(after, PopStore,
        s.(head := Increment(s.head, |s.slots|), consumer := Consumer.Outside, popped := s.popped + [item]));
    }
  }

  // ----- The calls, undisturbed

  class Fifo<T(0)> {
    const capacity: nat
    var tail: nat
    var head: nat
    const slots: array<T>
    ghost var contents: seq<T>

    ghost predicate Valid()
      reads this, slots
    {
      slots.Length == capacity && Laid(slots[..], head, tail, contents)
    }

    constructor (size: nat)
      ensures Valid() && contents == [] && capacity == size + 1 && fresh(slots)
    {
      capacity := size + 1;
      tail, head := 0, 0;
      slots := new T[size + 1];
      contents := [];
    }

    method Push(item: T) returns (ok: bool)
      requires Valid()
      modifies this, slots
      ensures Valid() && ok == (|old(contents)| + 1 < capacity)
      ensures contents == if ok then old(contents) + [item] else old(contents)
    {
      var currentTail := tail;
      var nextTail := Increment(currentTail, capacity);
      if nextTail != head {
        LaidAfterWrite(slots[..], head, tail, contents, item);
        ghost var written := slots[..][currentTail := item];
        slots[currentTail] := item;
        assert slots[..] == written;
        LaidAfterPush(slots[..], head, tail, contents);
        tail := nextTail;
        contents := contents + [item];
        return true;
      }
      return false;
    }

    method Pop() returns (item: Option<T>)
      requires Valid()
      modifies this
      ensures Valid() && (item.None? <==> old(contents) == [])
      ensures item.Some? ==> old(contents) == [item.value] + contents
      ensures item.None? ==> contents == []
    {
      var currentHead := head;
      if currentHead == tail {
        return None;
      }
      LaidAfterPop(slots[..], head, tail, contents);
      item := Some(slots[currentHead]);
      head := Increment(currentHead, capacity);
      contents := contents[1..];
    }

    method WasEmpty() returns (b: bool)
      requires Valid()
      ensures b <==> contents == []
    {
      b := head == tail;
    }

    method WasFull() returns (b: bool)
      requires Valid()
      ensures b <==> |contents| + 1 == capacity
    {
      var nextTail := Increment(tail, capacity);
      b := nextTail == head;
    }
  }
}
