/** Any sequence of timers being started and stopped and of interrupts. */
module TickerRuns {
  import opened TickerModel
  import opened TickerQueue

  /** `lo` is where the window of half a turn begins that the waiting events lie in at this step. */
  datatype Step = Edit(act: Act, lo: int) | Interrupt(w: World, horizon: int, lo: int)

  /** The step stays within the window, and an interrupt comes to an end. */
  ghost predicate Allowed(q: seq<Pending>, step: Step) {
    match step
    case Edit(act, lo) => Reaches(act, lo) && (act.Attach? ==> InWindow(q, lo))
    case Interrupt(w, horizon, lo) =>
      Clock(w.read, horizon) && Tame(w, horizon) && Progresses(q, horizon) && InWindow(q, lo) && lo <= w.read(0) &&
      horizon < lo + HALF && DelaysFit(q, horizon, lo)
  }

  /** What waits after a step, and what was fired in it. */
  ghost function After(q: seq<Pending>, step: Step): Outcome
    requires Allowed(q, step)
  {
    match step
    case Edit(act, lo) => Outcome(Apply(q, act), [])
    case Interrupt(w, horizon, lo) => Run(q, w, 0, horizon)
  }

  ghost predicate AllAllowed(q: seq<Pending>, steps: seq<Step>)
    decreases |steps|
  {
    steps == [] || (Allowed(q, steps[0]) && AllAllowed(After(q, steps[0]).queue, steps[1..]))
  }

  ghost function Play(q: seq<Pending>, steps: seq<Step>): Outcome
    requires AllAllowed(q, steps)
    decreases |steps|
  {
    if steps == [] then Outcome(q, [])
    else
      var first := After(q, steps[0]);
      var rest := Play(first.queue, steps[1..]);
      Outcome(rest.queue, first.log + rest.log)
  }

  // ----- What every interrupt does

  /** An interrupt hands out, in due order and none early, everything that is due at its last clock read, also what
      attached functions start meanwhile; every event that they leave alone fires at exactly its times up to then; and
      such events with equal times fire in the order in which they waited. */
  ghost predicate Fair(q: seq<Pending>, w: World, horizon: int)
    requires Clock(w.read, horizon) && Tame(w, horizon) && Progresses(q, horizon)
  {
    var r := Run(q, w, 0, horizon);
    var last := w.read(|r.log|);
    InOrder(r, w.read, 0) &&
    (forall p :: p in q && Untouched(w, 0, p.id) ==> FiresUpTo(r, p, last) && (p.due <= last ==> p in r.log)) &&
    (forall a, b :: Precedes(q, a, b) && a.due == b.due <= last && Untouched(w, 0, a.id) && Untouched(w, 0, b.id) ==>
                      Precedes(r.log, a, b))
  }

  ghost predicate FairThroughout(q: seq<Pending>, steps: seq<Step>)
    requires AllAllowed(q, steps)
    decreases |steps|
  {
    steps == [] ||
    ((steps[0].Interrupt? ==> Fair(q, steps[0].w, steps[0].horizon)) &&
     FairThroughout(After(q, steps[0]).queue, steps[1..]))
  }

  lemma {:induction false} InterruptIsFair(q: seq<Pending>, w: World, horizon: int)
    requires Clock(w.read, horizon) && Tame(w, horizon) && Progresses(q, horizon) && Sorted(q) && DistinctIds(q)
    ensures Fair(q, w, horizon)
  {
    hide Run, InOrder, FiresUpTo, Precedes, Sorted, DistinctIds, Clock, Progresses, Tame, Untouched;
    var r := Run(q, w, 0, horizon);
    RunInOrder(q, w, 0, horizon);
    assert 0 + |r.log| == |r.log|;
    forall p | p in q && Untouched(w, 0, p.id)
      ensures FiresUpTo(r, p, w.read(|r.log|)) && (p.due <= w.read(|r.log|) ==> p in r.log)
    {
      RunFirings(q, w, 0, horizon, p);
      FiresOnTime(q, w, 0, horizon, p);
    }
    forall a, b | Precedes(q, a, b) && a.due == b.due <= w.read(|r.log|) &&
                  Untouched(w, 0, a.id) && Untouched(w, 0, b.id)
      ensures Precedes(r.log, a, b)
    {
      EqualTimesFirstInFirstOut(q, w, 0, horizon, a, b);
    }
  }

  lemma {:induction false} RunKeepsIds(q: seq<Pending>, w: World, n: nat, horizon: int)
    requires Clock(w.read, horizon) && Tame(w, horizon) && Progresses(q, horizon) && DistinctIds(q)
    ensures DistinctIds(Run(q, w, n, horizon).queue)
    decreases Unrest(w, n), Work(q, horizon)
  {
    hide Fire, Round, Work, Run, DistinctIds, Clock, Tame, Progresses;
    if q == [] {
      RunEmpty(w, n, horizon);
    } else {
      RunUnfolds(q, w, n, horizon);
      if q[0].due <= w.read(n) {
        RoundWork(q, w, n, horizon);
        RoundKeepsIds(q, w, n);
        RunKeepsIds(Round(q, w, n), w, n + 1, horizon);
      }
    }
  }

  lemma {:induction false} RoundKeepsIds(q: seq<Pending>, w: World, n: nat)
    requires q != [] && DistinctIds(q)
    ensures DistinctIds(Round(q, w, n))
  {
    hide DistinctIds, Fire, ApplyAll;
    FireMembers(q);
    ApplyAllMembers(Fire(q), w.acts(n));
  }

  lemma {:induction false} StepKeepsOrder(q: seq<Pending>, step: Step)
    requires Allowed(q, step) && Sorted(q) && DistinctIds(q)
    ensures Sorted(After(q, step).queue) && DistinctIds(After(q, step).queue)
  {
    hide Apply, Run, Sorted, DistinctIds, InOrder, InWindow;
    match step
    case Edit(act, lo) => ApplyMembers(q, act);
    case Interrupt(w, horizon, lo) =>
      RunInOrder(q, w, 0, horizon);
      OrderIsSorted(Run(q, w, 0, horizon), w.read, 0);
      RunKeepsIds(q, w, 0, horizon);
  }

  lemma {:induction false} OrderIsSorted(r: Outcome, read: nat -> int, n: nat)
    requires InOrder(r, read, n)
    ensures Sorted(r.queue)
  {
  }

  /** Over any sequence of starts, stops and interrupts the queue stays sorted, and every interrupt is fair. */
  lemma {:induction false} EveryInterruptIsFair(q: seq<Pending>, steps: seq<Step>)
    requires AllAllowed(q, steps) && Sorted(q) && DistinctIds(q)
    ensures Sorted(Play(q, steps).queue) && DistinctIds(Play(q, steps).queue) && FairThroughout(q, steps)
    decreases |steps|
  {
    hide Sorted, DistinctIds, Fair, After, Allowed;
    if steps != [] {
      StepKeepsOrder(q, steps[0]);
      if steps[0].Interrupt? {
        InterruptAllowed(q, steps[0]);
        InterruptIsFair(q, steps[0].w, steps[0].horizon);
      }
      EveryInterruptIsFair(After(q, steps[0]).queue, steps[1..]);
    }
  }

  lemma {:induction false} InterruptAllowed(q: seq<Pending>, step: Step)
    requires Allowed(q, step) && step.Interrupt?
    ensures Clock(step.w.read, step.horizon) && Tame(step.w, step.horizon) && Progresses(q, step.horizon)
  {
  }

  // ----- The same with the linked list

  ghost predicate Ready(queue: EventQueue, timers: seq<TimerEvent>)
    reads queue, queue.events
  {
    queue.Valid() && queue.Armed() && queue.Known(timers)
  }

  ghost predicate StepConcerns(step: Step, timers: seq<TimerEvent>) {
    match step
    case Edit(act, lo) => Concerns(act, timers)
    case Interrupt(w, horizon, lo) => Confined(w, timers, horizon, lo)
  }

  method Perform(queue: EventQueue, timers: seq<TimerEvent>, step: Step) returns (ghost log: seq<Pending>)
    requires Ready(queue, timers) && StepConcerns(step, timers) && Allowed(queue.Queue(), step)
    modifies queue, timers
    ensures Ready(queue, timers) && Outcome(queue.Queue(), log) == old(After(queue.Queue(), step))
  {
    hide EventQueue.Valid, EventQueue.Armed, EventQueue.Known, InWindow, Apply, Run, Clock, Progresses, Tame, Confined,
         DelaysFit, Concerns, Reaches;
    log := [];
    match step {
      case Edit(act, lo) =>
        queue.Perform(act, timers, lo);
      case Interrupt(w, horizon, lo) =>
        log := queue.IrqHandler(w, timers, horizon, lo);
    }
  }

  /** The linked list under 32-bit time goes through any sequence of steps as the sorted list of waiting events does. */
  method Replay(queue: EventQueue, timers: seq<TimerEvent>, steps: seq<Step>) returns (ghost log: seq<Pending>)
    requires Ready(queue, timers) && AllAllowed(queue.Queue(), steps)
    requires forall i :: 0 <= i < |steps| ==> StepConcerns(steps[i], timers)
    modifies queue, timers
    ensures Ready(queue, timers) && Outcome(queue.Queue(), log) == old(Play(queue.Queue(), steps))
  {
    hide Allowed, After, Ready, StepConcerns;
    log := [];
    ghost var goal := Play(queue.Queue(), steps);
    for i := 0 to |steps|
      invariant Ready(queue, timers) && AllAllowed(queue.Queue(), steps[i..])
      invariant goal == Behind(log, Play(queue.Queue(), steps[i..]))
    {
      PlayFirst(queue.Queue(), steps[i..], log);
      assert steps[i..][0] == steps[i] && steps[i..][1..] == steps[i + 1..];
      ghost var fired := Perform(queue, timers, steps[i]);
      log := log + fired;
    }
    assert log + [] == log;
  }

  lemma {:induction false} PlayFirst(q: seq<Pending>, steps: seq<Step>, log: seq<Pending>)
    requires steps != [] && AllAllowed(q, steps)
    ensures Allowed(q, steps[0])
    ensures var first := After(q, steps[0]);
            AllAllowed(first.queue, steps[1..]) &&
            Behind(log, Play(q, steps)) == Behind(log + first.log, Play(first.queue, steps[1..]))
  {
    hide After, Allowed;
    var first := After(q, steps[0]);
    assert log + (first.log + Play(first.queue, steps[1..]).log) == log + first.log + Play(first.queue, steps[1..]).log;
  }
}
