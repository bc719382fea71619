/** The timer queue in true (unwrapped) time: what one run of the interrupt handler does to the pending events. */
module TickerModel {

  /** An event waits for its due time. A periodic one (a ticker) then waits again for its delay, any other one (a
      timeout) is over. */
  datatype Pending = Pending(id: nat, due: int, delay: nat, periodic: bool)

  function Next(p: Pending): Pending {
    p.(due := p.due + p.delay)
  }

  /** A ticker without a delay is due again at once. */
  predicate Stuck(p: Pending) {
    p.periodic && p.delay == 0
  }

  predicate Sorted(q: seq<Pending>) {
    forall i, j :: 0 <= i < j < |q| ==> q[i].due <= q[j].due
  }

  predicate DistinctIds(q: seq<Pending>) {
    forall i, j :: 0 <= i < j < |q| ==> q[i].id != q[j].id
  }

  /** Where a new event goes: in front of the first one that is due strictly later. */
  function PlaceIndex(q: seq<Pending>, due: int): (k: nat)
    ensures k <= |q| && (k < |q| ==> due < q[k].due)
    ensures forall i :: 0 <= i < k ==> q[i].due <= due
  {
    if q == [] || due < q[0].due then 0 else 1 + PlaceIndex(q[1..], due)
  }

  function Place(q: seq<Pending>, p: Pending): (r: seq<Pending>)
    ensures |r| == |q| + 1
  {
    var k := PlaceIndex(q, p.due);
    q[..k] + [p] + q[k..]
  }

  /** The head leaves the queue; a periodic event goes back in, one delay later. */
  function Fire(q: seq<Pending>): seq<Pending>
    requires q != []
  {
    if q[0].periodic then Place(q[1..], Next(q[0])) else q[1..]
  }

  function Without(q: seq<Pending>, id: nat): seq<Pending> {
    if q == [] then [] else (if q[0].id == id then [] else [q[0]]) + Without(q[1..], id)
  }

  lemma {:induction false} WithoutNone(q: seq<Pending>, id: nat)
    requires forall i :: 0 <= i < |q| ==> q[i].id != id
    ensures Without(q, id) == q
  {
    if q != [] {
      WithoutNone(q[1..], id);
    }
  }

  lemma {:induction false} WithoutAt(q: seq<Pending>, k: nat)
    requires k < |q| && DistinctIds(q)
    ensures Without(q, q[k].id) == q[..k] + q[k + 1..]
  {
    if k == 0 {
      WithoutNone(q[1..], q[0].id);
    } else {
      WithoutAt(q[1..], k - 1);
      assert q[..k] + q[k + 1..] == [q[0]] + (q[1..][..k - 1] + q[1..][k..]);
    }
  }

  lemma {:induction false} WithoutMembers(q: seq<Pending>, id: nat)
    ensures forall x :: x in Without(q, id) <==> x in q && x.id != id
  {
    if q != [] {
      WithoutMembers(q[1..], id);
      assert forall x :: x in q <==> x == q[0] || x in q[1..];
    }
  }

  lemma {:induction false} WithoutKeepsOrder(q: seq<Pending>, id: nat)
    ensures Sorted(q) ==> Sorted(Without(q, id))
    ensures DistinctIds(q) ==> DistinctIds(Without(q, id))
  {
    if q != [] {
      WithoutKeepsOrder(q[1..], id);
      WithoutMembers(q[1..], id);
      var rest := Without(q[1..], id);
      forall i | 0 <= i < |rest|
        ensures rest[i] in q[1..]
      {
        assert rest[i] in rest;
      }
    }
  }

  // ----- What attached functions do

  /** A function that is attached to an event may start timers, from the time that it reads, and stop them. */
  datatype Act = Attach(id: nat, now: int, delay: nat, periodic: bool) | Detach(id: nat)

  function Apply(q: seq<Pending>, act: Act): seq<Pending> {
    match act
    case Attach(id, now, delay, periodic) => Place(Without(q, id), Pending(id, now + delay, delay, periodic))
    case Detach(id) => Without(q, id)
  }

  function ApplyAll(q: seq<Pending>, acts: seq<Act>): seq<Pending>
    decreases |acts|
  {
    if acts == [] then q else ApplyAll(Apply(q, acts[0]), acts[1..])
  }

  predicate Spares(acts: seq<Act>, id: nat) {
    forall j :: 0 <= j < |acts| ==> acts[j].id != id
  }

  /** The acts happen at `now` or later, and start no ticker that would be due again at once within the horizon. */
  predicate Proper(acts: seq<Act>, now: int, horizon: int) {
    forall j :: 0 <= j < |acts| && acts[j].Attach? ==>
      now <= acts[j].now && (acts[j].periodic && acts[j].delay == 0 ==> acts[j].now > horizon)
  }

  lemma {:induction false} ApplyMembers(q: seq<Pending>, act: Act)
    ensures forall x: Pending :: x.id != act.id ==> (x in Apply(q, act) <==> x in q)
    ensures forall x :: x in Apply(q, act) && x.id == act.id ==>
              act.Attach? && x == Pending(act.id, act.now + act.delay, act.delay, act.periodic)
    ensures Sorted(q) ==> Sorted(Apply(q, act))
    ensures DistinctIds(q) ==> DistinctIds(Apply(q, act))
  {
    hide Place, Without, Sorted, DistinctIds;
    WithoutMembers(q, act.id);
    WithoutKeepsOrder(q, act.id);
    if act.Attach? {
      var p := Pending(act.id, act.now + act.delay, act.delay, act.periodic);
      PlaceMembers(Without(q, act.id), p);
      if Sorted(q) {
        PlaceSorted(Without(q, act.id), p);
      }
    }
  }

  lemma {:induction false} ApplyAllMembers(q: seq<Pending>, acts: seq<Act>)
    ensures forall x: Pending :: Spares(acts, x.id) ==> (x in ApplyAll(q, acts) <==> x in q)
    ensures Sorted(q) ==> Sorted(ApplyAll(q, acts))
    ensures DistinctIds(q) ==> DistinctIds(ApplyAll(q, acts))
    decreases |acts|
  {
    if acts != [] {
      hide Apply, Sorted, DistinctIds;
      ApplyMembers(q, acts[0]);
      ApplyAllMembers(Apply(q, acts[0]), acts[1..]);
      forall x: Pending | Spares(acts, x.id)
        ensures x.id != acts[0].id && Spares(acts[1..], x.id)
      {
      }
    }
  }

  ghost predicate Starts(act: Act, x: Pending) {
    act.Attach? && x == Pending(act.id, act.now + act.delay, act.delay, act.periodic)
  }

  /** One of the acts put the event into the queue as it is. */
  ghost predicate StartedBy(acts: seq<Act>, x: Pending) {
    exists j :: 0 <= j < |acts| && Starts(acts[j], x)
  }

  lemma {:induction false} StartedByLater(acts: seq<Act>, x: Pending)
    requires acts != [] && StartedBy(acts[1..], x)
    ensures StartedBy(acts, x)
  {
    var j :| 0 <= j < |acts[1..]| && Starts(acts[1..][j], x);
    assert acts[j + 1] == acts[1..][j];
  }

  /** What is in the queue afterwards was there, or one of the acts put it there. */
  lemma {:induction false} ApplyAllOrigin(q: seq<Pending>, acts: seq<Act>, x: Pending)
    requires x in ApplyAll(q, acts)
    ensures x in q || StartedBy(acts, x)
    decreases |acts|
  {
    hide Apply, StartedBy;
    if acts != [] {
      ApplyAllOrigin(Apply(q, acts[0]), acts[1..], x);
      if StartedBy(acts[1..], x) {
        StartedByLater(acts, x);
      } else {
        ApplyOrigin(q, acts, x);
      }
    }
  }

  lemma {:induction false} ApplyOrigin(q: seq<Pending>, acts: seq<Act>, x: Pending)
    requires acts != [] && x in Apply(q, acts[0])
    ensures x in q || StartedBy(acts, x)
  {
    hide Apply;
    ApplyMembers(q, acts[0]);
    if x.id == acts[0].id {
      assert Starts(acts[0], x);
    }
  }

  /** Whatever proper acts put into the queue is due later than now, and beyond the horizon if it would be due again at
      once. */
  lemma {:induction false} ProperStarts(acts: seq<Act>, now: int, horizon: int, x: Pending)
    requires Proper(acts, now, horizon) && StartedBy(acts, x)
    ensures now <= x.due && (Stuck(x) ==> x.due > horizon)
  {
  }

  // ----- Termination

  /** No ticker without a delay comes up within the horizon. */
  predicate Progresses(q: seq<Pending>, horizon: int) {
    forall i :: 0 <= i < |q| && Stuck(q[i]) ==> q[i].due > horizon
  }

  function Urgency(p: Pending, horizon: int): nat {
    if p.due <= horizon then horizon - p.due + 1 else 0
  }

  function Work(q: seq<Pending>, horizon: int): nat {
    if q == [] then 0 else Urgency(q[0], horizon) + Work(q[1..], horizon)
  }

  lemma {:induction false} WorkConcat(a: seq<Pending>, b: seq<Pending>, horizon: int)
    ensures Work(a + b, horizon) == Work(a, horizon) + Work(b, horizon)
  {
    if a == [] {
      assert a + b == b;
    } else {
      assert (a + b)[1..] == a[1..] + b;
      WorkConcat(a[1..], b, horizon);
    }
  }

  lemma {:induction false} PlaceWork(q: seq<Pending>, p: Pending, horizon: int)
    ensures Work(Place(q, p), horizon) == Work(q, horizon) + Urgency(p, horizon)
  {
    var k := PlaceIndex(q, p.due);
    assert q == q[..k] + q[k..];
    WorkConcat(q[..k], q[k..], horizon);
    WorkConcat(q[..k] + [p], q[k..], horizon);
    WorkConcat(q[..k], [p], horizon);
  }

  /** Firing an event that is due before the horizon leaves less to do, though the event may come back. */
  lemma {:induction false} FireWork(q: seq<Pending>, horizon: int)
    requires q != [] && q[0].due <= horizon && Progresses(q, horizon)
    ensures Work(Fire(q), horizon) < Work(q, horizon) && Progresses(Fire(q), horizon)
  {
    if q[0].periodic {
      PlaceWork(q[1..], Next(q[0]), horizon);
      forall i | 0 <= i < |q| && Stuck(Place(q[1..], Next(q[0]))[i])
        ensures Place(q[1..], Next(q[0]))[i].due > horizon
      {
        hide Place;
        PlacedAt(q[1..], Next(q[0]), i);
      }
    }
  }

  // ----- A run of the handler

  /** What the handler meets while it runs: the clock, read for the `i`-th time, and what the function attached to the
      `i`-th event that it fires does. From number `quiet` on these functions leave the queue alone. */
  datatype World = World(read: nat -> int, acts: nat -> seq<Act>, quiet: nat)

  /** The clock never goes back, and a run sees no time beyond the horizon. */
  ghost predicate Clock(read: nat -> int, horizon: int) {
    (forall i: nat :: read(i) <= horizon) && (forall i: nat, j: nat :: i <= j ==> read(i) <= read(j))
  }

  ghost predicate Tame(w: World, horizon: int) {
    (forall i: nat :: i >= w.quiet ==> w.acts(i) == []) &&
    (forall i: nat :: Proper(w.acts(i), w.read(i), horizon))
  }

  /** One round: the head fires, and then its function does what it does. */
  ghost function Round(q: seq<Pending>, w: World, n: nat): seq<Pending>
    requires q != []
  {
    ApplyAll(Fire(q), w.acts(n))
  }

  lemma {:induction false} RoundWork(q: seq<Pending>, w: World, n: nat, horizon: int)
    requires Clock(w.read, horizon) && Tame(w, horizon) && q != [] && q[0].due <= w.read(n) && Progresses(q, horizon)
    ensures Progresses(Round(q, w, n), horizon)
    ensures n >= w.quiet ==> Round(q, w, n) == Fire(q) && Work(Round(q, w, n), horizon) < Work(q, horizon)
  {
    hide Fire, Work, Apply;
    ClockBelow(w.read, horizon, n);
    FireWork(q, horizon);
    forall i | 0 <= i < |Round(q, w, n)| && Stuck(Round(q, w, n)[i])
      ensures Round(q, w, n)[i].due > horizon
    {
      StuckRound(q, w, n, horizon, Round(q, w, n)[i]);
    }
  }

  lemma {:induction false} StuckRound(q: seq<Pending>, w: World, n: nat, horizon: int, x: Pending)
    requires Tame(w, horizon) && q != [] && Progresses(Fire(q), horizon) && x in Round(q, w, n) && Stuck(x)
    ensures x.due > horizon
  {
    hide Fire, ApplyAll, Proper, StartedBy;
    ApplyAllOrigin(Fire(q), w.acts(n), x);
    if StartedBy(w.acts(n), x) {
      ProperStarts(w.acts(n), w.read(n), horizon, x);
    }
  }

  /** What is left in the queue, and the events that were handed to their handlers, in order. */
  datatype Outcome = Outcome(queue: seq<Pending>, log: seq<Pending>)

  lemma {:induction false} FireIs(q: seq<Pending>)
    requires q != []
    ensures Fire(q) ==
              if q[0].periodic then Place(q[1..], Pending(q[0].id, q[0].due + q[0].delay, q[0].delay, true)) else q[1..]
  {
    hide Place;
  }

  /** How long attached functions may still interfere. */
  function Unrest(w: World, n: nat): nat {
    if n < w.quiet then w.quiet - n else 0
  }

  /** Fires the head as long as it is due at the next clock read. */
  ghost function Run(q: seq<Pending>, w: World, n: nat, horizon: int): (r: Outcome)
    requires Clock(w.read, horizon) && Tame(w, horizon) && Progresses(q, horizon)
    ensures r.queue != [] ==> r.queue[0].due > w.read(n + |r.log|)
    decreases Unrest(w, n), Work(q, horizon)
  {
    if q == [] || q[0].due > w.read(n) then Outcome(q, [])
    else
      RoundWork(q, w, n, horizon);
      var rest := Run(Round(q, w, n), w, n + 1, horizon);
      Outcome(rest.queue, [q[0]] + rest.log)
  }

  // ----- Order

  lemma {:induction false} PlacedAt(q: seq<Pending>, p: Pending, i: nat)
    requires i <= |q|
    ensures var k := PlaceIndex(q, p.due); Place(q, p)[i] == if i < k then q[i] else if i == k then p else q[i - 1]
  {
  }

  lemma {:induction false} PlaceSorted(q: seq<Pending>, p: Pending)
    requires Sorted(q)
    ensures Sorted(Place(q, p))
  {
    hide Place;
    forall i, j | 0 <= i < j <= |q|
      ensures Place(q, p)[i].due <= Place(q, p)[j].due
    {
      PlacedAt(q, p, i);
      PlacedAt(q, p, j);
    }
  }

  lemma {:induction false} FireSorted(q: seq<Pending>)
    requires q != [] && Sorted(q)
    ensures Sorted(Fire(q)) && forall i :: 0 <= i < |Fire(q)| ==> q[0].due <= Fire(q)[i].due
  {
    hide Place;
    if q[0].periodic {
      var p := Next(q[0]);
      PlaceSorted(q[1..], p);
      forall i | 0 <= i < |q|
        ensures q[0].due <= Place(q[1..], p)[i].due
      {
        PlacedAt(q[1..], p, i);
      }
    }
  }

  /** Events were handed out in the order of their due times and none of them early, and what is left is sorted and not
      yet due at the last clock read. */
  ghost predicate InOrder(r: Outcome, read: nat -> int, n: nat) {
    var last := read(n + |r.log|);
    Sorted(r.queue) && Sorted(r.log) &&
    (forall i :: 0 <= i < |r.log| ==> r.log[i].due <= read(n + i) <= last) &&
    (forall i :: 0 <= i < |r.queue| ==> r.queue[i].due > last)
  }

  predicate NoneBefore(q: seq<Pending>, due: int) {
    forall i :: 0 <= i < |q| ==> due <= q[i].due
  }

  /** Whatever a round puts into the queue is due no earlier than the event that fired. */
  lemma {:induction false} RoundSorted(q: seq<Pending>, w: World, n: nat, horizon: int)
    requires Tame(w, horizon) && q != [] && Sorted(q) && q[0].due <= w.read(n)
    ensures Sorted(Round(q, w, n)) && NoneBefore(Round(q, w, n), q[0].due)
  {
    hide Fire, ApplyAll, Sorted, Proper, StartedBy;
    FireSorted(q);
    ApplyAllMembers(Fire(q), w.acts(n));
    forall i | 0 <= i < |Round(q, w, n)|
      ensures q[0].due <= Round(q, w, n)[i].due
    {
      var x := Round(q, w, n)[i];
      ApplyAllOrigin(Fire(q), w.acts(n), x);
      if StartedBy(w.acts(n), x) {
        ProperStarts(w.acts(n), w.read(n), horizon, x);
      }
    }
  }

  lemma {:induction false} RunInOrder(q: seq<Pending>, w: World, n: nat, horizon: int)
    requires Clock(w.read, horizon) && Tame(w, horizon) && Progresses(q, horizon) && Sorted(q)
    ensures var r := Run(q, w, n, horizon);
            InOrder(r, w.read, n) && (r.log != [] ==> q != [] && NoneBefore(r.log, q[0].due))
    decreases Unrest(w, n), Work(q, horizon)
  {
    hide Round, Work, Run, Clock, Sorted, InOrder, NoneBefore, Tame, Progresses;
    if q == [] {
      RunEmpty(w, n, horizon);
      NothingFired(q, w.read, n);
    } else {
      RunUnfolds(q, w, n, horizon);
      if q[0].due > w.read(n) {
        NothingFired(q, w.read, n);
      } else {
        RoundWork(q, w, n, horizon);
        RoundSorted(q, w, n, horizon);
        RunInOrder(Round(q, w, n), w, n + 1, horizon);
        FirstOf(Round(q, w, n), q[0].due);
        OneMoreFired(Run(Round(q, w, n), w, n + 1, horizon), Round(q, w, n), q[0], w.read, n, horizon);
      }
    }
  }

  lemma {:induction false} FirstOf(q: seq<Pending>, due: int)
    requires NoneBefore(q, due)
    ensures q != [] ==> due <= q[0].due
  {
  }

  lemma {:induction false} ClockBelow(read: nat -> int, horizon: int, n: nat)
    requires Clock(read, horizon)
    ensures read(n) <= horizon
  {
  }

  lemma {:induction false} NothingFired(q: seq<Pending>, read: nat -> int, n: nat)
    requires Sorted(q) && (q != [] ==> q[0].due > read(n))
    ensures InOrder(Outcome(q, []), read, n)
  {
    assert n + |Outcome(q, []).log| == n;
  }

  lemma {:induction false} OneMoreFired(rest: Outcome, left: seq<Pending>, p: Pending, read: nat -> int, n: nat,
                                        horizon: int)
    requires Clock(read, horizon) && InOrder(rest, read, n + 1) && p.due <= read(n)
    requires rest.log != [] ==> left != [] && NoneBefore(rest.log, left[0].due) && p.due <= left[0].due
    ensures InOrder(Outcome(rest.queue, [p] + rest.log), read, n) && NoneBefore([p] + rest.log, p.due)
  {
    var log := [p] + rest.log;
    assert forall i :: 0 < i < |log| ==> log[i] == rest.log[i - 1];
    assert n + |log| == n + 1 + |rest.log|;
    assert read(n) <= read(n + |log|);
    forall i | 0 <= i < |log|
      ensures log[i].due <= read(n + i) <= read(n + |log|)
    {
      assert i > 0 ==> rest.log[i - 1].due <= read(n + 1 + (i - 1)) <= read(n + 1 + |rest.log|);
    }
  }

  // ----- Who fires, and when

  /** The due times at which an event fires up to time `last`: its start, and then every `delay` without drift. */
  function Firings(p: Pending, last: int): seq<int>
    requires Stuck(p) ==> p.due > last
    decreases if p.due <= last then last - p.due + 1 else 0
  {
    if p.due > last then [] else if !p.periodic then [p.due] else [p.due] + Firings(Next(p), last)
  }

  /** The `k`-th firing carries `due + k * delay`, and there are as many as fit in the time. */
  lemma {:induction false} FiringsAt(p: Pending, last: int, k: nat)
    requires (Stuck(p) ==> p.due > last) && k < |Firings(p, last)|
    ensures Firings(p, last)[k] == p.due + k * p.delay <= last
    decreases k
  {
    if k > 0 {
      FiringsAt(Next(p), last, k - 1);
    }
  }

  lemma {:induction false} FiringsCount(p: Pending, last: int)
    requires p.due <= last && !Stuck(p)
    ensures var n := |Firings(p, last)|;
            if p.periodic then p.due + (n - 1) * p.delay <= last < p.due + n * p.delay else n == 1
    decreases last - p.due
  {
    if p.periodic {
      if p.due + p.delay <= last {
        FiringsCount(Next(p), last);
      } else {
        assert Firings(p, last) == [p.due] + [];
      }
    }
  }

  function DuesOf(log: seq<Pending>, id: nat): seq<int> {
    if log == [] then [] else (if log[0].id == id then [log[0].due] else []) + DuesOf(log[1..], id)
  }

  /** The event as it is after all its firings up to `last`. */
  function Later(p: Pending, last: int): Pending
    requires p.periodic && (Stuck(p) ==> p.due > last)
    decreases if p.due <= last then last - p.due + 1 else 0
  {
    if p.due > last then p else Later(Next(p), last)
  }

  lemma {:induction false} PlaceMembers(q: seq<Pending>, p: Pending)
    ensures forall x :: x in Place(q, p) <==> x in q || x == p
    ensures DistinctIds(q) && (forall x :: x in q ==> x.id != p.id) ==> DistinctIds(Place(q, p))
  {
    hide Place;
    var k, r := PlaceIndex(q, p.due), Place(q, p);
    forall x
      ensures x in r <==> x in q || x == p
    {
      if x in r {
        var i :| 0 <= i < |r| && r[i] == x;
        PlacedAt(q, p, i);
      }
      if x in q {
        var i :| 0 <= i < |q| && q[i] == x;
        PlacedAt(q, p, if i < k then i else i + 1);
      }
      PlacedAt(q, p, k);
    }
    if DistinctIds(q) && (forall x :: x in q ==> x.id != p.id) {
      forall i, j | 0 <= i < j < |r|
        ensures r[i].id != r[j].id
      {
        PlacedAt(q, p, i);
        PlacedAt(q, p, j);
      }
    }
  }

  lemma {:induction false} TailMembers(q: seq<Pending>)
    requires q != [] && DistinctIds(q)
    ensures forall x :: x in q <==> x == q[0] || x in q[1..]
    ensures DistinctIds(q[1..]) && forall x :: x in q[1..] ==> x.id != q[0].id
  {
    forall x | x in q
      ensures x == q[0] || x in q[1..]
    {
      var i :| 0 <= i < |q| && q[i] == x;
      assert i > 0 ==> q[1..][i - 1] == x;
    }
  }

  lemma {:induction false} FireMembers(q: seq<Pending>)
    requires q != [] && DistinctIds(q)
    ensures DistinctIds(Fire(q))
    ensures forall x :: x in q && x != q[0] ==> x in Fire(q) && x.id != q[0].id
    ensures q[0].periodic ==> Next(q[0]) in Fire(q)
    ensures forall x :: x in Fire(q) ==> (x in q && x != q[0]) || (q[0].periodic && x == Next(q[0]))
  {
    hide Place, DistinctIds;
    TailMembers(q);
    if q[0].periodic {
      PlaceMembers(q[1..], Next(q[0]));
    }
  }

  /** The event fires at its times up to `last`, and what becomes of it afterwards. */
  ghost predicate FiresUpTo(r: Outcome, p: Pending, last: int) {
    (Stuck(p) ==> p.due > last) && DuesOf(r.log, p.id) == Firings(p, last) &&
    if p.periodic then Later(p, last) in r.queue else p in r.queue <==> p.due > last
  }

  /** From the `n`-th firing on, attached functions neither start this event over nor stop it. */
  ghost predicate Untouched(w: World, n: nat, id: nat) {
    forall i: nat :: i >= n ==> Spares(w.acts(i), id)
  }

  lemma {:induction false} RoundMembers(q: seq<Pending>, w: World, n: nat, id: nat)
    requires q != [] && DistinctIds(q) && Untouched(w, n, id)
    ensures DistinctIds(Round(q, w, n)) && Untouched(w, n + 1, id)
    ensures forall x: Pending :: x.id == id ==> (x in Round(q, w, n) <==> x in Fire(q))
  {
    hide Fire, ApplyAll, DistinctIds, Spares;
    FireMembers(q);
    ApplyAllMembers(Fire(q), w.acts(n));
  }

  /** Every event that attached functions leave alone fires exactly at those of its times that the last clock read has
      reached, and a periodic event is then back in the queue for its next time. */
  lemma {:induction false} RunFirings(q: seq<Pending>, w: World, n: nat, horizon: int, p: Pending)
    requires Clock(w.read, horizon) && Tame(w, horizon) && Progresses(q, horizon)
    requires Sorted(q) && DistinctIds(q) && p in q && Untouched(w, n, p.id)
    ensures var r := Run(q, w, n, horizon); FiresUpTo(r, p, w.read(n + |r.log|))
    decreases Unrest(w, n), Work(q, horizon)
  {
    hide Fire, Round, Work, Run, FiresUpTo, Sorted, DistinctIds, Clock, Tame, Untouched;
    RunUnfolds(q, w, n, horizon);
    if q[0].due <= w.read(n) {
      RoundWork(q, w, n, horizon);
      RoundSorted(q, w, n, horizon);
      FireMembers(q);
      RoundMembers(q, w, n, p.id);
      var rest := Run(Round(q, w, n), w, n + 1, horizon);
      var last := w.read(n + 1 + |rest.log|);
      if p != q[0] {
        RunFirings(Round(q, w, n), w, n + 1, horizon, p);
      } else if p.periodic {
        RunFirings(Round(q, w, n), w, n + 1, horizon, Next(p));
      } else {
        GoneAfterFire(q);
        Gone(Round(q, w, n), w, n + 1, horizon, p.id);
      }
      HeadNotStuck(q, w.read, horizon, n, n + 1 + |rest.log|);
      FiresFirst(rest, q[0], p, last);
    } else {
      FiresLater(q, p, w.read(n));
    }
  }

  lemma {:induction false} HeadNotStuck(q: seq<Pending>, read: nat -> int, horizon: int, n: nat, m: nat)
    requires Clock(read, horizon) && Progresses(q, horizon) && q != [] && q[0].due <= read(n) && n <= m
    ensures !Stuck(q[0]) && q[0].due <= read(m)
  {
  }

  lemma {:induction false} GoneAfterFire(q: seq<Pending>)
    requires q != [] && DistinctIds(q) && !q[0].periodic
    ensures forall x :: x in Fire(q) ==> x.id != q[0].id
  {
    FireMembers(q);
    TailMembers(q);
  }

  lemma {:induction false} FiresLater(q: seq<Pending>, p: Pending, last: int)
    requires Sorted(q) && p in q && q[0].due > last
    ensures FiresUpTo(Outcome(q, []), p, last)
  {
    assert q[0].due <= p.due;
  }

  lemma {:induction false} FiresFirst(rest: Outcome, head: Pending, p: Pending, last: int)
    requires head.due <= last && !Stuck(head) && (p == head || p.id != head.id)
    requires if p != head then FiresUpTo(rest, p, last)
             else if p.periodic then FiresUpTo(rest, Next(p), last)
             else DuesOf(rest.log, p.id) == [] && p !in rest.queue
    ensures FiresUpTo(Outcome(rest.queue, [head] + rest.log), p, last)
  {
    assert ([head] + rest.log)[1..] == rest.log;
  }

  /** An event that is not in the queue, and is not put there, does not fire. */
  lemma {:induction false} Gone(q: seq<Pending>, w: World, n: nat, horizon: int, id: nat)
    requires Clock(w.read, horizon) && Tame(w, horizon) && Progresses(q, horizon) && DistinctIds(q)
    requires Untouched(w, n, id) && forall x :: x in q ==> x.id != id
    ensures var r := Run(q, w, n, horizon);
            DuesOf(r.log, id) == [] && forall x :: x in r.queue ==> x.id != id
    decreases Unrest(w, n), Work(q, horizon)
  {
    hide Fire, Round, Work, Run, DistinctIds, Clock, Tame, Untouched, Progresses;
    if q == [] {
      RunEmpty(w, n, horizon);
    } else {
      RunUnfolds(q, w, n, horizon);
      if q[0].due <= w.read(n) {
        RoundWork(q, w, n, horizon);
        FireMembers(q);
        RoundMembers(q, w, n, id);
        Gone(Round(q, w, n), w, n + 1, horizon, id);
        OthersFirst(q[0], Run(Round(q, w, n), w, n + 1, horizon).log, id);
      }
    }
  }

  lemma {:induction false} OthersFirst(head: Pending, log: seq<Pending>, id: nat)
    requires head.id != id
    ensures DuesOf([head] + log, id) == DuesOf(log, id)
  {
    assert ([head] + log)[1..] == log;
  }

  // ----- First in, first out among equal times

  ghost predicate Precedes(q: seq<Pending>, a: Pending, b: Pending) {
    exists i, j :: 0 <= i < j < |q| && q[i] == a && q[j] == b
  }

  lemma {:induction false} PlaceKeepsOrder(q: seq<Pending>, p: Pending, a: Pending, b: Pending)
    requires Precedes(q, a, b)
    ensures Precedes(Place(q, p), a, b)
  {
    hide Place, PlaceIndex;
    var i, j :| 0 <= i < j < |q| && q[i] == a && q[j] == b;
    var k := PlaceIndex(q, p.due);
    var x, y := if i < k then i else i + 1, if j < k then j else j + 1;
    PlacedAt(q, p, x);
    PlacedAt(q, p, y);
    assert x < y && Place(q, p)[x] == a && Place(q, p)[y] == b;
  }

  lemma {:induction false} ApplyKeepsOrder(q: seq<Pending>, acts: seq<Act>, a: Pending, b: Pending)
    requires Precedes(q, a, b) && Spares(acts, a.id) && Spares(acts, b.id)
    ensures Precedes(ApplyAll(q, acts), a, b)
    decreases |acts|
  {
    hide Precedes, Apply;
    if acts != [] {
      OneActKeepsOrder(q, acts[0], a, b);
      assert Spares(acts[1..], a.id) && Spares(acts[1..], b.id);
      ApplyKeepsOrder(Apply(q, acts[0]), acts[1..], a, b);
    }
  }

  lemma {:induction false} OneActKeepsOrder(q: seq<Pending>, act: Act, a: Pending, b: Pending)
    requires Precedes(q, a, b) && a.id != act.id && b.id != act.id
    ensures Precedes(Apply(q, act), a, b)
  {
    hide Place, Without, Precedes;
    WithoutKeepsPair(q, act.id, a, b);
    if act.Attach? {
      PlaceKeepsOrder(Without(q, act.id), Pending(act.id, act.now + act.delay, act.delay, act.periodic), a, b);
    }
  }

  lemma {:induction false} WithoutKeepsPair(q: seq<Pending>, id: nat, a: Pending, b: Pending)
    requires Precedes(q, a, b) && a.id != id && b.id != id
    ensures Precedes(Without(q, id), a, b)
  {
    var i, j :| 0 <= i < j < |q| && q[i] == a && q[j] == b;
    var tail := q[1..];
    assert tail[j - 1] == b;
    if i == 0 {
      WithoutMembers(tail, id);
      assert b in Without(tail, id);
      PrecedesFromFirst(Without(tail, id), a, b);
    } else {
      assert tail[i - 1] == a;
      WithoutKeepsPair(tail, id, a, b);
      if q[0].id != id {
        PrecedesBehind(q[0], Without(tail, id), a, b);
      } else {
        assert [] + Without(tail, id) == Without(tail, id);
      }
    }
  }

  lemma {:induction false} PrecedesFromFirst(rest: seq<Pending>, a: Pending, b: Pending)
    requires b in rest
    ensures Precedes([a] + rest, a, b)
  {
    var j :| 0 <= j < |rest| && rest[j] == b;
    assert ([a] + rest)[0] == a && ([a] + rest)[j + 1] == b;
  }

  /** Two events with the same due time, left alone by attached functions, fire in the order in which they wait. */
  lemma {:induction false} EqualTimesFirstInFirstOut(q: seq<Pending>, w: World, n: nat, horizon: int,
                                                     a: Pending, b: Pending)
    requires Clock(w.read, horizon) && Tame(w, horizon) && Progresses(q, horizon) && Sorted(q) && DistinctIds(q)
    requires Precedes(q, a, b) && a.due == b.due && Untouched(w, n, a.id) && Untouched(w, n, b.id)
    ensures var r := Run(q, w, n, horizon);
            a.due <= w.read(n + |r.log|) ==> Precedes(r.log, a, b)
    decreases Unrest(w, n), Work(q, horizon)
  {
    hide Fire, Round, Work, Run, Sorted, DistinctIds, Clock, Tame, Untouched, Precedes, Progresses;
    FirstOfPair(q, a, b);
    RunUnfolds(q, w, n, horizon);
    var r := Run(q, w, n, horizon);
    if q[0].due <= w.read(n) {
      if q[0] == a {
        FiresOnTime(q, w, n, horizon, b);
        PrecedesFromHead(r.log, a, b);
      } else {
        RoundWork(q, w, n, horizon);
        RoundSorted(q, w, n, horizon);
        FireKeepsOrder(q, a, b);
        RoundMembers(q, w, n, a.id);
        RoundMembers(q, w, n, b.id);
        RoundKeepsOrder(q, w, n, a, b);
        EqualTimesFirstInFirstOut(Round(q, w, n), w, n + 1, horizon, a, b);
        var rest := Run(Round(q, w, n), w, n + 1, horizon);
        if a.due <= w.read(n + |r.log|) {
          PrecedesBehind(q[0], rest.log, a, b);
        }
      }
    }
  }

  lemma {:induction false} FirstOfPair(q: seq<Pending>, a: Pending, b: Pending)
    requires Precedes(q, a, b) && Sorted(q) && DistinctIds(q)
    ensures q != [] && b in q && q[0].due <= a.due && a.id != b.id
  {
  }

  lemma {:induction false} RoundKeepsOrder(q: seq<Pending>, w: World, n: nat, a: Pending, b: Pending)
    requires q != [] && Precedes(Fire(q), a, b) && Untouched(w, n, a.id) && Untouched(w, n, b.id)
    ensures Precedes(Round(q, w, n), a, b)
  {
    ApplyKeepsOrder(Fire(q), w.acts(n), a, b);
  }

  lemma {:induction false} RunUnfolds(q: seq<Pending>, w: World, n: nat, horizon: int)
    requires Clock(w.read, horizon) && Tame(w, horizon) && Progresses(q, horizon) && q != []
    ensures var r := Run(q, w, n, horizon);
            if q[0].due > w.read(n) then r == Outcome(q, [])
            else
              Progresses(Round(q, w, n), horizon) &&
              var rest := Run(Round(q, w, n), w, n + 1, horizon);
              r == Outcome(rest.queue, [q[0]] + rest.log) && n + |r.log| == n + 1 + |rest.log|
  {
    hide Round, Work, Tame, Clock, Progresses;
    if q[0].due <= w.read(n) {
      RoundWork(q, w, n, horizon);
    }
  }

  lemma {:induction false} RunEmpty(w: World, n: nat, horizon: int)
    requires Clock(w.read, horizon) && Tame(w, horizon)
    ensures Run([], w, n, horizon) == Outcome([], [])
  {
  }

  lemma {:induction false} PrecedesFromHead(log: seq<Pending>, a: Pending, b: Pending)
    requires log != [] && log[0] == a && a.id != b.id
    ensures b in log ==> Precedes(log, a, b)
  {
  }

  lemma {:induction false} PrecedesBehind(head: Pending, log: seq<Pending>, a: Pending, b: Pending)
    requires Precedes(log, a, b)
    ensures Precedes([head] + log, a, b)
  {
    var i, j :| 0 <= i < j < |log| && log[i] == a && log[j] == b;
    assert ([head] + log)[i + 1] == a && ([head] + log)[j + 1] == b;
  }

  lemma {:induction false} FireKeepsOrder(q: seq<Pending>, a: Pending, b: Pending)
    requires Precedes(q, a, b) && q[0] != a && DistinctIds(q)
    ensures Precedes(Fire(q), a, b) && a.id != b.id
  {
    var i, j :| 0 <= i < j < |q| && q[i] == a && q[j] == b;
    assert q[1..][i - 1] == a && q[1..][j - 1] == b;
    if q[0].periodic {
      PlaceKeepsOrder(q[1..], Next(q[0]), a, b);
    }
  }

  lemma {:induction false} FiresOnTime(q: seq<Pending>, w: World, n: nat, horizon: int, p: Pending)
    requires Clock(w.read, horizon) && Tame(w, horizon) && Progresses(q, horizon)
    requires Sorted(q) && DistinctIds(q) && p in q && Untouched(w, n, p.id)
    ensures var r := Run(q, w, n, horizon); p.due <= w.read(n + |r.log|) ==> p in r.log
    decreases Unrest(w, n), Work(q, horizon)
  {
    hide Fire, Round, Work, Run, Sorted, DistinctIds, Clock, Tame, Untouched, Progresses;
    RunUnfolds(q, w, n, horizon);
    if q[0].due > w.read(n) {
      assert n + |Run(q, w, n, horizon).log| == n;
      FirstIsEarliest(q, p);
    } else if q[0] != p {
      RoundWork(q, w, n, horizon);
      RoundSorted(q, w, n, horizon);
      FireMembers(q);
      RoundMembers(q, w, n, p.id);
      FiresOnTime(Round(q, w, n), w, n + 1, horizon, p);
    }
  }

  lemma {:induction false} FirstIsEarliest(q: seq<Pending>, p: Pending)
    requires Sorted(q) && p in q
    ensures q[0].due <= p.due
  {
  }
}
