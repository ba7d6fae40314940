/** The clients of the double-buffered queue can always go on until every message has been handled. */
module DoubleBufferProgress {
  import opened Basics
  import opened DoubleBufferQueue

  /** The program of one consumer and any number of pushing threads can take these steps, no swap inside a push. */
  ghost predicate Leads<T>(client: Client, consumer: Thread, s: State<T>, phase: Phase, steps: seq<Step<T>>, t: State<T>,
                           end: Phase)
    decreases |steps|
  {
    if steps == [] then s == t && phase == end
    else
      var a := steps[0];
      && Enabled(s, a) && Follows(consumer, phase, s, a) && IsQuiet(s, a)
      && Leads(client, consumer, After(s, a), PhaseStep(client, consumer, phase, s, a), steps[1..], t, end)
  }

  lemma OneStep<T>(client: Client, consumer: Thread, s: State<T>, phase: Phase, a: Step<T>, rest: seq<Step<T>>,
                   t: State<T>, end: Phase)
    requires Enabled(s, a) && Follows(consumer, phase, s, a) && IsQuiet(s, a)
    requires Leads(client, consumer, After(s, a), PhaseStep(client, consumer, phase, s, a), rest, t, end)
    ensures Leads(client, consumer, s, phase, [a] + rest, t, end)
  {
    assert ([a] + rest)[1..] == rest;
  }

  lemma {:induction false} LeadsOn<T>(client: Client, consumer: Thread, s: State<T>, phase: Phase, first: seq<Step<T>>,
                                      m: State<T>, between: Phase, second: seq<Step<T>>, t: State<T>, end: Phase)
    requires Leads(client, consumer, s, phase, first, m, between) && Leads(client, consumer, m, between, second, t, end)
    ensures Leads(client, consumer, s, phase, first + second, t, end)
    decreases |first|
  {
    if first == [] {
      assert first + second == second;
    } else {
      var a := first[0];
      assert (first + second)[1..] == first[1..] + second;
      LeadsOn(client, consumer, After(s, a), PhaseStep(client, consumer, phase, s, a), first[1..], m, between, second, t, end);
    }
  }

  /** A run of such a program. */
  ghost predicate IsProgramRun<T>(client: Client, consumer: Thread, steps: seq<Step<T>>) {
    IsRun(steps) && PhaseAfter(client, consumer, steps).Some? && NoSwapInsidePush(steps)
  }

  lemma RunStep<T>(client: Client, consumer: Thread, steps: seq<Step<T>>, a: Step<T>, s: State<T>, phase: Phase)
    requires IsProgramRun(client, consumer, steps)
    requires Last(steps) == Some(s) && PhaseAfter(client, consumer, steps) == Some(phase)
    requires Enabled(s, a) && Follows(consumer, phase, s, a) && IsQuiet(s, a)
    ensures IsProgramRun(client, consumer, steps + [a]) && Last(steps + [a]) == Some(After(s, a))
    ensures PhaseAfter(client, consumer, steps + [a]) == Some(PhaseStep(client, consumer, phase, s, a))
  {
    assert (steps + [a])[..|steps|] == steps;
  }

  lemma {:induction false} RunGoesOn<T>(client: Client, consumer: Thread, steps: seq<Step<T>>, s: State<T>, phase: Phase,
                                        more: seq<Step<T>>, t: State<T>, end: Phase)
    requires IsProgramRun(client, consumer, steps)
    requires Last(steps) == Some(s) && PhaseAfter(client, consumer, steps) == Some(phase)
    requires Leads(client, consumer, s, phase, more, t, end)
    ensures IsProgramRun(client, consumer, steps + more) && Last(steps + more) == Some(t)
    decreases |more|
  {
    if more == [] {
      assert steps + more == steps;
    } else {
      var a := more[0];
      RunStep(client, consumer, steps, a, s, phase);
      assert steps + more == (steps + [a]) + more[1..];
      RunGoesOn(client, consumer, steps + [a], After(s, a), PhaseStep(client, consumer, phase, s, a), more[1..], t, end);
    }
  }

  /** What every state of such a run meets. */
  ghost predicate IsSound<T>(consumer: Thread, phase: Phase, s: State<T>) {
    Shape(s) && Conserved(s) && Tidy(consumer, phase, s)
  }

  lemma SoundStep<T>(client: Client, consumer: Thread, phase: Phase, s: State<T>, a: Step<T>)
    requires IsSound(consumer, phase, s) && Enabled(s, a) && Follows(consumer, phase, s, a) && IsQuiet(s, a)
    ensures IsSound(consumer, PhaseStep(client, consumer, phase, s, a), After(s, a))
  {
    StepConserves(s, a);
    StepKeepsTidy(client, consumer, phase, s, a);
  }

  /** Messages already pushed stay pushed. */
  lemma PushedStays<T>(s: State<T>, a: Step<T>)
    requires Enabled(s, a)
    ensures s.pushed <= After(s, a).pushed
  {
  }

  /** All the calls under way can be finished: the pushes first, so that no swap falls inside one. */
  lemma {:induction false} CallsEnd<T>(client: Client, consumer: Thread, phase: Phase, s: State<T>)
    returns (steps: seq<Step<T>>, t: State<T>, end: Phase)
    requires IsSound(consumer, phase, s)
    ensures Leads(client, consumer, s, phase, steps, t, end)
    ensures IsSound(consumer, end, t) && t.calls == map[] && s.pushed <= t.pushed
    ensures s.calls == map[] ==> t == s
    decreases |s.calls.Keys|
  {
    if s.calls == map[] {
      steps, t, end := [], s, phase;
    } else {
      var thread := PushFirst(consumer, phase, s);
      var a: Step<T> := Act(thread);
      SoundStep(client, consumer, phase, s, a);
      PushedStays(s, a);
      assert After(s, a).calls.Keys == s.calls.Keys - {thread};
      steps, t, end := CallsEnd(client, consumer, PhaseStep(client, consumer, phase, s, a), After(s, a));
      OneStep(client, consumer, s, phase, a, steps, t, end);
      steps := [a] + steps;
    }
  }

  lemma PushFirst<T>(consumer: Thread, phase: Phase, s: State<T>) returns (thread: Thread)
    requires Tidy(consumer, phase, s) && s.calls != map[]
    ensures thread in s.calls && Follows(consumer, phase, s, Act(thread)) && IsQuiet(s, Act(thread))
  {
    if thread' :| thread' in s.calls && thread' != consumer {
      thread := thread';
    } else {
      assert consumer in s.calls;
      thread := consumer;
    }
  }

  /** The call that the consumer makes in a phase. */
  function CallIn<T>(consumer: Thread, phase: Phase): Step<T> {
    match phase
    case Swap => SwapLoad(consumer)
    case Check => EmptyLoad(consumer)
    case Pop => PopLoad(consumer)
    case Again => PopLoad(consumer)
  }

  /** What a whole call of the consumer does when nothing else happens. */
  function CallDone<T>(phase: Phase, s: State<T>): State<T> {
    match phase
    case Swap => s.(index := NextQueueIndex(s.index))
    case Check => s
    case Pop => AfterPop(s, s.index)
    case Again => AfterPop(s, s.index)
  }

  /** The first of the call's two steps. */
  lemma CallBegins<T>(client: Client, consumer: Thread, phase: Phase, s: State<T>, load: Step<T>)
    requires s.calls == map[] && load == CallIn(consumer, phase)
    ensures Enabled(s, load) && Follows(consumer, phase, s, load) && IsQuiet(s, load)
    ensures PhaseStep(client, consumer, phase, s, load) == phase
    ensures After(s, load) == s.(calls := map[consumer := Begun(s, load)])
  {
  }

  /** The second one. */
  lemma CallActs<T>(client: Client, consumer: Thread, phase: Phase, s: State<T>, call: Call<T>, m: State<T>)
    requires s.calls == map[] && m == s.(calls := map[consumer := call]) && call == Begun(s, CallIn(consumer, phase))
    ensures Enabled(m, Act(consumer)) && Follows(consumer, phase, m, Act(consumer)) && IsQuiet(m, Act(consumer))
    ensures After(m, Act(consumer)) == CallDone(phase, s)
    ensures PhaseStep(client, consumer, phase, m, Act(consumer)) ==
      NextPhase(client, phase, !phase.Swap? && Current(s) != [])
  {
    assert m.calls - {consumer} == map[];
  }

  lemma OneCall<T>(client: Client, consumer: Thread, phase: Phase, s: State<T>, t: State<T>, end: Phase)
    returns (steps: seq<Step<T>>)
    requires IsSound(consumer, phase, s) && s.calls == map[]
    requires t == CallDone(phase, s) && end == NextPhase(client, phase, !phase.Swap? && Current(s) != [])
    ensures Leads(client, consumer, s, phase, steps, t, end) && IsSound(consumer, end, t) && t.calls == map[]
  {
    var load: Step<T>, act: Step<T> := CallIn(consumer, phase), Act(consumer);
    CallBegins(client, consumer, phase, s, load);
    var m := After(s, load);
    CallActs(client, consumer, phase, s, Begun(s, load), m);
    SoundStep(client, consumer, phase, s, load);
    SoundStep(client, consumer, phase, m, act);
    OneStep(client, consumer, m, phase, act, [], t, end);
    steps := [act] + [];
    OneStep(client, consumer, s, phase, load, steps, t, end);
    steps := [load] + steps;
  }

  /** How far the consumer is from the call that next takes a message. */
  function Distance(phase: Phase, empty: bool): nat {
    match phase
    case Swap => 3
    case Check => if empty then 4 else 2
    case Pop => if empty then 4 else 1
    case Again => if empty then 5 else 1
  }

  lemma CallHelps<T>(client: Client, consumer: Thread, phase: Phase, s: State<T>, t: State<T>, end: Phase)
    requires IsSound(consumer, phase, s) && (Current(s) != [] || Other(s) != [])
    requires t == CallDone(phase, s) && end == NextPhase(client, phase, !phase.Swap? && Current(s) != [])
    ensures t.pushed == s.pushed
    ensures
      || |t.first| + |t.second| < |s.first| + |s.second|
      || (|t.first| + |t.second| == |s.first| + |s.second| &&
          Distance(end, Current(t) == []) < Distance(phase, Current(s) == []))
  {
  }

  /** Calling as its program says, the consumer takes all the messages there are. */
  lemma {:induction false} AllTaken<T>(client: Client, consumer: Thread, phase: Phase, s: State<T>)
    returns (steps: seq<Step<T>>, t: State<T>, end: Phase)
    requires IsSound(consumer, phase, s) && s.calls == map[]
    ensures Leads(client, consumer, s, phase, steps, t, end)
    ensures t.calls == map[] && Current(t) == [] && Other(t) == [] && t.pushed == s.pushed
    decreases |s.first| + |s.second|, Distance(phase, Current(s) == [])
  {
    if Current(s) == [] && Other(s) == [] {
      steps, t, end := [], s, phase;
    } else {
      var m, between := CallDone(phase, s), NextPhase(client, phase, !phase.Swap? && Current(s) != []);
      var first := OneCall(client, consumer, phase, s, m, between);
      CallHelps(client, consumer, phase, s, m, between);
      var rest;
      rest, t, end := AllTaken(client, consumer, between, m);
      LeadsOn(client, consumer, s, phase, first, m, between, rest, t, end);
      steps := first + rest;
    }
  }

  lemma {:induction false} ProgramRunIsSound<T>(client: Client, consumer: Thread, steps: seq<Step<T>>)
    requires IsProgramRun(client, consumer, steps)
    ensures IsSound(consumer, PhaseAfter(client, consumer, steps).value, Last(steps).value)
  {
    TidyRuns(client, consumer, steps);
    EveryRunConserves(steps);
  }

  /**
   * Wherever a program of either kind has got to, with no swap inside a push, it can go on until every message pushed has
   * been handled, and then they have been handled in the order in which they were pushed.
   */
  lemma AllCanBeHandled<T>(client: Client, consumer: Thread, steps: seq<Step<T>>) returns (more: seq<Step<T>>)
    requires IsProgramRun(client, consumer, steps)
    ensures IsProgramRun(client, consumer, steps + more)
    ensures
      var s, t := Last(steps).value, Last(steps + more).value;
      s.pushed <= t.pushed == t.popped && t.calls == map[] && (s.calls == map[] ==> t.pushed == s.pushed)
  {
    ProgramRunIsSound(client, consumer, steps);
    var s, phase := Last(steps).value, PhaseAfter(client, consumer, steps).value;
    var calls, m, between := CallsEnd(client, consumer, phase, s);
    var work, t, end := AllTaken(client, consumer, between, m);
    LeadsOn(client, consumer, s, phase, calls, m, between, work, t, end);
    more := calls + work;
    RunGoesOn(client, consumer, steps, s, phase, more, t, end);
    TidyRunsAreFifo(client, consumer, steps + more);
    assert t.pushed[|t.popped|..] == [];
  }

  lemma OnePush<T>(client: Client, consumer: Thread, steps: seq<Step<T>>, item: T) returns (longer: seq<Step<T>>)
    requires IsProgramRun(client, consumer, steps) && Last(steps).value.calls == map[]
    ensures IsProgramRun(client, consumer, longer) && Last(longer).value.calls == map[]
    ensures Last(longer).value.pushed == Last(steps).value.pushed + [item]
  {
    var s, phase, thread := Last(steps).value, PhaseAfter(client, consumer, steps).value, consumer + 1;
    var load: Step<T>, act: Step<T> := PushLoad(thread, item), Act(thread);
    RunStep(client, consumer, steps, load, s, phase);
    longer := steps + [load];
    RunStep(client, consumer, longer, act, After(s, load), phase);
    longer := longer + [act];
    assert After(s, load).calls - {thread} == map[];
  }

  lemma {:induction false} AllCanBePushed<T>(client: Client, consumer: Thread, items: seq<T>) returns (steps: seq<Step<T>>)
    ensures IsProgramRun(client, consumer, steps) && Last(steps).value.calls == map[] && Last(steps).value.pushed == items
  {
    if items == [] {
      steps := [];
    } else {
      var init, item := items[..|items| - 1], items[|items| - 1];
      steps := AllCanBePushed(client, consumer, init);
      steps := OnePush(client, consumer, steps, item);
      assert init + [item] == items;
    }
  }

  /** Whatever messages are pushed, a program of either kind can handle them all, in order. */
  lemma AnyMessagesCanBeHandled<T>(client: Client, consumer: Thread, items: seq<T>) returns (steps: seq<Step<T>>)
    ensures IsProgramRun(client, consumer, steps) && Last(steps).value.calls == map[]
    ensures Last(steps).value.pushed == Last(steps).value.popped == items
  {
    var first := AllCanBePushed(client, consumer, items);
    var more := AllCanBeHandled(client, consumer, first);
    steps := first + more;
  }
}
