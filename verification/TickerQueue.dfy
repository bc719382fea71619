/** The timer event queue as it runs: a linked list under 32-bit time that wraps, and a hardware match for its head. */
module TickerQueue {
  import opened TickerModel

  const WRAP: int := 0x1_0000_0000
  const HALF: int := 0x8000_0000

  type uint32 = x: int | 0 <= x < 0x1_0000_0000

  /** The time that the 32-bit counter shows. */
  function Stamp(time: int): uint32 {
    time % WRAP
  }

  /** `(int)(a - b) < 0` on 32-bit numbers. */
  predicate Before(a: uint32, b: uint32) {
    (a - b) % WRAP >= HALF
  }

  /** `(int)(a - b) <= 0`. */
  predicate NotAfter(a: uint32, b: uint32) {
    a == b || Before(a, b)
  }

  /** Wrapped timestamps compare like the times themselves exactly when these lie within half a turn of each other. */
  lemma {:induction false} BeforeIff(x: int, y: int)
    requires -WRAP < x - y < WRAP
    ensures (Before(Stamp(x), Stamp(y)) <==> x < y) <==> -HALF <= x - y < HALF
  {
    var turns := x / WRAP - y / WRAP;
    assert Stamp(x) - Stamp(y) == (x - y) - WRAP * turns;
    TurnsDoNotShow(x - y, turns);
  }

  lemma {:induction false} TurnsDoNotShow(d: int, turns: int)
    requires -WRAP < d < WRAP
    ensures (d - WRAP * turns) % WRAP == if d < 0 then d + WRAP else d
  {
  }

  lemma {:induction false} StampLater(time: int, delay: uint32)
    ensures (Stamp(time) + delay) % WRAP == Stamp(time + delay)
  {
  }

  lemma {:induction false} NotAfterInWindow(x: int, y: int)
    requires -HALF <= x - y < HALF
    ensures NotAfter(Stamp(x), Stamp(y)) <==> x <= y
  {
    BeforeIff(x, y);
  }

  /** Where a walk over wrapped timestamps stops: in front of the first event that the timestamp is before. */
  function StopAt(q: seq<Pending>, timestamp: uint32, from: nat): (k: nat)
    requires from <= |q|
    ensures from <= k <= |q|
    decreases |q| - from
  {
    if from == |q| || Before(timestamp, Stamp(q[from].due)) then from else StopAt(q, timestamp, from + 1)
  }

  /** Insertion as the wrapped timestamps have it. */
  function WrappedPlace(q: seq<Pending>, p: Pending): seq<Pending> {
    var k := StopAt(q, Stamp(p.due), 0);
    q[..k] + [p] + q[k..]
  }

  /** Within a window of half a turn that is insertion by due time. */
  lemma {:induction false} WrappedPlaceInWindow(q: seq<Pending>, p: Pending, lo: int)
    requires InWindow(q, lo) && lo <= p.due < lo + HALF
    ensures WrappedPlace(q, p) == Place(q, p)
  {
    hide Stamp;
    StopAtPlace(q, p.due, lo, 0);
  }

  lemma {:induction false} StopAtPlace(q: seq<Pending>, due: int, lo: int, from: nat)
    requires InWindow(q, lo) && lo <= due < lo + HALF && from <= |q|
    requires forall i :: 0 <= i < from ==> q[i].due <= due
    ensures StopAt(q, Stamp(due), from) == PlaceIndex(q, due)
    decreases |q| - from
  {
    hide Stamp, Before;
    if from < |q| {
      BeforeIff(due, q[from].due);
      if q[from].due <= due {
        StopAtPlace(q, due, lo, from + 1);
      }
    }
  }

  predicate InWindow(q: seq<Pending>, lo: int) {
    forall i :: 0 <= i < |q| ==> lo <= q[i].due < lo + HALF
  }

  lemma {:induction false} PlaceInWindow(q: seq<Pending>, p: Pending, lo: int)
    requires InWindow(q, lo) && lo <= p.due < lo + HALF
    ensures InWindow(Place(q, p), lo)
  {
    hide Place;
    forall i | 0 <= i <= |q|
      ensures lo <= Place(q, p)[i].due < lo + HALF
    {
      PlacedAt(q, p, i);
    }
  }

  lemma {:induction false} TailInWindow(q: seq<Pending>, lo: int)
    requires q != [] && InWindow(q, lo)
    ensures InWindow(q[1..], lo) && lo <= q[0].due < lo + HALF
  {
  }

  lemma {:induction false} WithoutInWindow(q: seq<Pending>, id: nat, lo: int)
    ensures InWindow(q, lo) ==> InWindow(Without(q, id), lo)
  {
    WithoutMembers(q, id);
    assert forall i :: 0 <= i < |Without(q, id)| ==> Without(q, id)[i] in Without(q, id);
  }

  class TimerEvent {
    const id: nat
    var timestamp: uint32
    var next: TimerEvent?
    /** A ticker puts itself back after each firing; a timeout, which it is otherwise, does not. */
    const periodic: bool
    var delay: uint32
    /** The time that `timestamp` stands for. */
    ghost var due: int

    constructor (id: nat, periodic: bool)
      ensures this.id == id && this.periodic == periodic && next == null && delay == 0
    {
      this.id, this.periodic, next, delay := id, periodic, null, 0;
    }

    ghost function View(): Pending
      reads this
    {
      Pending(id, due, delay, periodic)
    }
  }

  /** What is started comes up within the window, and again if it fires before the horizon. */
  predicate Reaches(act: Act, lo: int) {
    act.Attach? ==> act.delay < WRAP && lo <= act.now + act.delay < lo + HALF
  }

  predicate DelaysFit(q: seq<Pending>, horizon: int, lo: int) {
    forall p :: p in q && p.periodic ==> horizon + p.delay < lo + HALF
  }

  predicate AllReach(acts: seq<Act>, horizon: int, lo: int) {
    forall j :: 0 <= j < |acts| ==>
      Reaches(acts[j], lo) && (acts[j].Attach? && acts[j].periodic ==> horizon + acts[j].delay < lo + HALF)
  }

  /** The acts concern these timers. */
  predicate Concerns(act: Act, timers: seq<TimerEvent>) {
    act.id < |timers| && (act.Attach? ==> timers[act.id].periodic == act.periodic)
  }

  predicate AllConcern(acts: seq<Act>, timers: seq<TimerEvent>) {
    forall j :: 0 <= j < |acts| ==> Concerns(acts[j], timers)
  }

  /** Whatever attached functions start in a run concerns these timers, and stays within the window. */
  ghost predicate Confined(w: World, timers: seq<TimerEvent>, horizon: int, lo: int) {
    forall i: nat :: AllConcern(w.acts(i), timers) && AllReach(w.acts(i), horizon, lo)
  }

  lemma {:induction false} DelaysFitRound(q: seq<Pending>, w: World, n: nat, horizon: int, lo: int)
    requires q != [] && DelaysFit(q, horizon, lo) && AllReach(w.acts(n), horizon, lo)
    ensures DelaysFit(Round(q, w, n), horizon, lo)
  {
    hide Fire, ApplyAll, StartedBy;
    forall x | x in Round(q, w, n) && x.periodic
      ensures horizon + x.delay < lo + HALF
    {
      ApplyAllOrigin(Fire(q), w.acts(n), x);
      if StartedBy(w.acts(n), x) {
        StartedFits(w.acts(n), horizon, lo, x);
      } else {
        FiredFits(q, horizon, lo, x);
      }
    }
  }

  lemma {:induction false} StartedFits(acts: seq<Act>, horizon: int, lo: int, x: Pending)
    requires AllReach(acts, horizon, lo) && StartedBy(acts, x) && x.periodic
    ensures horizon + x.delay < lo + HALF
  {
  }

  lemma {:induction false} FiredFits(q: seq<Pending>, horizon: int, lo: int, x: Pending)
    requires q != [] && DelaysFit(q, horizon, lo) && x in Fire(q) && x.periodic
    ensures horizon + x.delay < lo + HALF
  {
    hide Place;
    if q[0].periodic {
      PlaceMembers(q[1..], Next(q[0]));
    }
  }

  /** The timers are known by their numbers, and only they are in the list. */
  ghost predicate AreKnown(list: seq<TimerEvent>, timers: seq<TimerEvent>) {
    (forall i :: 0 <= i < |timers| ==> timers[i].id == i) &&
    forall e :: e in list ==> e.id < |timers| && timers[e.id] == e
  }

  lemma {:induction false} KnownFirst(list: seq<TimerEvent>, timers: seq<TimerEvent>)
    requires AreKnown(list, timers) && list != []
    ensures AreKnown(list[1..], timers) && list[0].id < |timers| && timers[list[0].id] == list[0]
  {
    assert list[0] in list;
  }

  lemma {:induction false} ConfinedAt(w: World, timers: seq<TimerEvent>, horizon: int, lo: int, n: nat)
    requires Confined(w, timers, horizon, lo)
    ensures AllConcern(w.acts(n), timers) && AllReach(w.acts(n), horizon, lo)
  {
  }

  /** The hardware match: off, or set for a timestamp. */
  datatype Match = Off | At(timestamp: uint32)

  class EventQueue {
    var head: TimerEvent?
    var match_: Match
    ghost var events: seq<TimerEvent>

    ghost predicate Valid()
      reads this`head, this`events, events
    {
      head == (if events == [] then null else events[0]) &&
      (forall i {:trigger events[i].next} :: 0 <= i < |events| ==>
         events[i].next == if i + 1 < |events| then events[i + 1] else null) &&
      (forall i, j :: 0 <= i < j < |events| ==> events[i].id != events[j].id) &&
      (forall i :: 0 <= i < |events| ==> events[i].timestamp == Stamp(events[i].due))
    }

    ghost function Objects(): set<TimerEvent>
      reads this`events
    {
      set e | e in events
    }

    /** The timers are known by their numbers, and only they are in the queue. */
    ghost predicate Known(timers: seq<TimerEvent>)
      reads this`events
    {
      (forall i :: 0 <= i < |timers| ==> timers[i].id == i) &&
      forall e :: e in Objects() ==> e.id < |timers| && timers[e.id] == e
    }

    lemma {:induction false} ListKnown(timers: seq<TimerEvent>)
      ensures Known(timers) <==> AreKnown(events, timers)
    {
      assert forall e :: e in events <==> e in Objects();
    }

    /** The match is set for the head, and off when there is none. */
    ghost predicate Armed()
      reads this, events
    {
      match_ == if events == [] then Off else At(events[0].timestamp)
    }

    ghost function Queue(): (q: seq<Pending>)
      reads this`events, events
      ensures |q| == |events| && forall i :: 0 <= i < |q| ==> q[i] == events[i].View()
    {
      var list := events;
      seq(|list|, i requires 0 <= i < |list| reads list => list[i].View())
    }

    constructor ()
      ensures Valid() && Armed() && events == []
    {
      head, match_, events := null, Off, [];
    }

    /** Where the walk of an insertion stops: in front of the first event that the timestamp is before. */
    ghost function StopIndex(timestamp: uint32, from: nat): (k: nat)
      requires from <= |events|
      reads this`events, events
      ensures from <= k <= |events| && (k < |events| ==> Before(timestamp, events[k].timestamp))
      ensures forall i :: from <= i < k ==> !Before(timestamp, events[i].timestamp)
      decreases |events| - from
    {
      if from == |events| || Before(timestamp, events[from].timestamp) then from else StopIndex(timestamp, from + 1)
    }

    /** The walk of an insertion: the event behind which the new one goes, and the one in front of which. */
    method FindPlace(timestamp: uint32) returns (prev: TimerEvent?, p: TimerEvent?, ghost k: nat)
      requires Valid()
      ensures k == StopIndex(timestamp, 0)
      ensures p == (if k < |events| then events[k] else null) && prev == (if k > 0 then events[k - 1] else null)
    {
      prev, p, k := null, head, 0;
      while p != null
        invariant 0 <= k <= |events| && p == (if k < |events| then events[k] else null)
        invariant prev == (if k > 0 then events[k - 1] else null)
        invariant StopIndex(timestamp, 0) == StopIndex(timestamp, k)
        decreases |events| - k
      {
        if Before(timestamp, p.timestamp) {
          break;
        }
        prev := p;
        p := p.next;
        k := k + 1;
      }
    }

    method InsertEvent(obj: TimerEvent, timestamp: uint32, ghost due: int)
      requires Valid() && timestamp == Stamp(due)
      requires forall e :: e in events ==> e.id != obj.id
      modifies this`head, this`match_, this`events, obj`timestamp, obj`due, obj`next, Objects()`next
      ensures Valid() && (old(Armed()) ==> Armed())
      ensures obj.timestamp == timestamp && obj.due == due
      ensures var k := old(StopIndex(timestamp, 0)); events == old(events)[..k] + [obj] + old(events)[k..]
    {
      var prev, p, k := FindPlace(timestamp);
      obj.timestamp := timestamp;
      obj.due := due;
      Link(prev, p, obj, k);
      if prev == null {
        match_ := At(timestamp);
      }
    }

    /** Puts an event between two neighbours. */
    method Link(prev: TimerEvent?, p: TimerEvent?, obj: TimerEvent, ghost k: nat)
      requires Valid() && k <= |events| && obj.timestamp == Stamp(obj.due)
      requires p == (if k < |events| then events[k] else null) && prev == (if k > 0 then events[k - 1] else null)
      requires forall e :: e in events ==> e.id != obj.id
      modifies this`head, this`events, obj`next, Objects()`next
      ensures Valid() && events == old(events)[..k] + [obj] + old(events)[k..]
    {
      hide Stamp;
      ghost var before := events;
      assert forall i :: 0 <= i < |before| ==>
               before[i].id != obj.id && (prev != null && i != k - 1 ==> before[i].id != prev.id);
      obj.next := p;
      if prev == null {
        head := obj;
      } else {
        prev.next := obj;
      }
      events := before[..k] + [obj] + before[k..];
      LinkedBetween(before, obj, k);
    }

    /** The list is well linked when the new event has its neighbours, and the others those that they had. */
    lemma {:induction false} LinkedBetween(before: seq<TimerEvent>, obj: TimerEvent, k: nat)
      requires k <= |before| && events == before[..k] + [obj] + before[k..]
      requires head == if k == 0 then obj else before[0]
      requires obj.next == (if k < |before| then before[k] else null) && obj.timestamp == Stamp(obj.due)
      requires forall i {:trigger before[i].next} :: 0 <= i < |before| ==>
                 before[i].next == if i == k - 1 then obj else if i + 1 < |before| then before[i + 1] else null
      requires forall i, j :: 0 <= i < j < |before| ==> before[i].id != before[j].id
      requires forall i :: 0 <= i < |before| ==> before[i].timestamp == Stamp(before[i].due) && before[i].id != obj.id
      ensures Valid()
    {
      hide Stamp;
      forall i | 0 <= i < |events|
        ensures events[i] == if i < k then before[i] else if i == k then obj else before[i - 1]
      {
      }
      forall i {:trigger events[i].next} | 0 <= i < |events|
        ensures events[i].next == if i + 1 < |events| then events[i + 1] else null
      {
        assert i < k ==> before[i].next == if i == k - 1 then obj else before[i + 1];
        assert i > k ==> before[i - 1].next == if i < |before| then before[i] else null;
      }
    }

    /** The walk of a removal: the event in front of the one to remove. */
    method FindBefore(obj: TimerEvent) returns (p: TimerEvent?, ghost k: nat)
      requires Valid() && head != obj
      ensures p == null ==> obj !in events
      ensures p != null ==> k + 1 < |events| && p == events[k] && events[k + 1] == obj
    {
      p, k := head, 0;
      while p != null
        invariant 0 <= k <= |events| && p == (if k < |events| then events[k] else null)
        invariant forall i :: 0 <= i <= k && i < |events| ==> events[i] != obj
        decreases |events| - k
      {
        if p.next == obj {
          return;
        }
        p := p.next;
        k := k + 1;
      }
    }

    method RemoveEvent(obj: TimerEvent) returns (ghost k: nat)
      requires Valid()
      modifies this`head, this`match_, this`events, Objects()`next
      ensures Valid() && (old(Armed()) ==> Armed())
      ensures if obj in old(events) then
                k < |old(events)| && old(events)[k] == obj && events == old(events)[..k] + old(events)[k + 1..]
              else events == old(events)
      ensures Objects() == old(Objects()) - {obj}
    {
      hide Stamp, Valid, Armed;
      Start();
      ghost var before := events;
      k := 0;
      if head == obj {
        RemoveHead();
        WithoutFirst(before);
        WithoutOne(before, 0, obj);
      } else {
        k := RemoveInside(obj);
      }
    }

    /** A removal in terms of what is waiting. */
    method RemoveView(obj: TimerEvent)
      requires Valid() && forall e :: e in events && e != obj ==> e.id != obj.id
      modifies this`head, this`match_, this`events, Objects()`next
      ensures Valid() && (old(Armed()) ==> Armed())
      ensures Objects() == old(Objects()) - {obj}
      ensures Queue() == Without(old(Queue()), obj.id)
      ensures forall e :: e in events ==> e != obj && e.id != obj.id
    {
      hide Stamp, Valid, Armed, Without;
      ghost var before, q := events, Queue();
      QueueWithout(obj);
      ghost var k := RemoveEvent(obj);
      if obj in before {
        ViewsRemoved(before, k, q);
      } else {
        SameViews(q);
      }
      forall e | e in events
        ensures e != obj && e.id != obj.id
      {
        assert e in Objects();
      }
    }

    lemma {:induction false} ViewsRemoved(before: seq<TimerEvent>, k: nat, q: seq<Pending>)
      requires k < |before| == |q| && events == before[..k] + before[k + 1..]
      requires forall i :: 0 <= i < |before| ==> before[i].View() == q[i]
      ensures Queue() == q[..k] + q[k + 1..]
    {
      hide TimerEvent.View;
      ghost var r := q[..k] + q[k + 1..];
      forall i | 0 <= i < |events|
        ensures Queue()[i] == r[i]
      {
        assert Queue()[i] == events[i].View();
        assert events[i] == before[if i < k then i else i + 1];
      }
    }

    lemma {:induction false} SameViews(q: seq<Pending>)
      requires |q| == |events| && forall i :: 0 <= i < |q| ==> q[i] == events[i].View()
      ensures Queue() == q
    {
    }

    /** What waits without an event, which stands at one place at most. */
    lemma {:induction false} QueueWithout(obj: TimerEvent)
      requires Valid()
      ensures forall k :: 0 <= k < |events| && events[k] == obj ==>
                Without(Queue(), obj.id) == Queue()[..k] + Queue()[k + 1..]
      ensures obj !in events && (forall e :: e in events ==> e.id != obj.id) ==> Without(Queue(), obj.id) == Queue()
    {
      hide Without, Stamp;
      var q := Queue();
      assert DistinctIds(q);
      forall k | 0 <= k < |events| && events[k] == obj
        ensures Without(q, obj.id) == q[..k] + q[k + 1..]
      {
        WithoutAt(q, k);
      }
      if obj !in events && (forall e :: e in events ==> e.id != obj.id) {
        WithoutNone(q, obj.id);
      }
    }

    lemma {:induction false} Start()
      requires Valid()
      ensures head == if events == [] then null else events[0]
      ensures forall i, j :: 0 <= i < j < |events| ==> events[i].id != events[j].id
    {
    }

    method RemoveHead()
      requires Valid() && head != null
      modifies this`head, this`match_, this`events
      ensures Valid() && Armed() && old(head) == old(events)[0] && events == old(events)[1..]
    {
      var p := PopHead();
      if head == null {
        match_ := Off;
      } else {
        match_ := At(head.timestamp);
      }
    }

    static lemma {:induction false} WithoutFirst(list: seq<TimerEvent>)
      requires list != []
      ensures list[1..] == list[..0] + list[0 + 1..]
    {
    }

    method RemoveInside(obj: TimerEvent) returns (ghost k: nat)
      requires Valid() && head != obj
      modifies this`events, Objects()`next
      ensures Valid() && head == old(head) && (old(Armed()) ==> Armed())
      ensures if obj in old(events) then
                k < |old(events)| && old(events)[k] == obj && events == old(events)[..k] + old(events)[k + 1..]
              else events == old(events)
      ensures Objects() == old(Objects()) - {obj}
    {
      hide Stamp;
      var p;
      p, k := FindBefore(obj);
      if p != null {
        WithoutOne(events, k + 1, obj);
        Unlink(p, obj, k);
        k := k + 1;
      }
    }

    method Unlink(p: TimerEvent, obj: TimerEvent, ghost k: nat)
      requires Valid() && k + 1 < |events| && p == events[k] && events[k + 1] == obj
      modifies this`events, Objects()`next
      ensures Valid() && head == old(head) && events != [] && events[0] == old(events)[0]
      ensures events == old(events)[..k + 1] + old(events)[(k + 1) + 1..]
    {
      hide Stamp;
      ghost var before := events;
      assert p in Objects();
      assert before[k + 1].next == if k + 2 < |before| then before[k + 2] else null;
      assert forall i :: 0 <= i < |before| && i != k ==> before[i].id != p.id;
      p.next := obj.next;
      events := before[..k + 1] + before[(k + 1) + 1..];
      assert forall i :: 0 <= i < |events| ==> events[i] == if i <= k then before[i] else before[i + 1];
    }

    /** Starts an event over: it leaves the queue if it was there, and waits `delay` from the clock read `now` on. */
    method Setup(obj: TimerEvent, delay: uint32, ghost now: int, clock: uint32)
      requires Valid() && clock == Stamp(now)
      requires forall e :: e in events && e != obj ==> e.id != obj.id
      modifies this`head, this`match_, this`events, obj, Objects()`next
      ensures Valid() && (old(Armed()) ==> Armed())
      ensures Objects() == old(Objects()) + {obj}
      ensures obj.delay == delay && obj.due == now + delay && obj.timestamp == Stamp(now + delay)
      ensures Queue() == WrappedPlace(Without(old(Queue()), obj.id), Pending(obj.id, now + delay, delay, obj.periodic))
    {
      hide Stamp, Valid, Armed, StopIndex, Without, WrappedPlace;
      RemoveView(obj);
      ghost var q := Queue();
      obj.delay := delay;
      SameViews(q);
      StampLater(now, delay);
      InsertView(obj, (delay + clock) % WRAP, now + delay);
    }

    /** Taking one event out of a queue takes out every occurrence of it. */
    static lemma {:induction false} WithoutOne(list: seq<TimerEvent>, k: nat, obj: TimerEvent)
      requires k < |list| && list[k] == obj && forall i, j :: 0 <= i < j < |list| ==> list[i].id != list[j].id
      ensures var rest := list[..k] + list[k + 1..]; (set e | e in rest) == (set e | e in list) - {obj}
    {
      var rest := list[..k] + list[k + 1..];
      forall e | e in rest
        ensures e in list && e != obj
      {
        var i :| 0 <= i < |rest| && rest[i] == e;
        assert e == list[if i < k then i else i + 1];
      }
      forall e | e in list && e != obj
        ensures e in rest
      {
        var i :| 0 <= i < |list| && list[i] == e;
        assert rest[if i < k then i else i - 1] == e;
      }
    }

    // ----- The interrupt handler

    /** All events are due within one half turn of the counter from `lo` on. */
    ghost predicate Window(lo: int)
      reads this`events, events
    {
      InWindow(Queue(), lo)
    }

    lemma {:induction false} StopIndexIs(timestamp: uint32, from: nat)
      requires Valid() && from <= |events|
      ensures StopIndex(timestamp, from) == StopAt(Queue(), timestamp, from)
      decreases |events| - from
    {
      hide Stamp, Before;
      if from < |events| {
        assert Queue()[from] == events[from].View();
        StopIndexIs(timestamp, from + 1);
      }
    }

    /** An insertion in terms of what is waiting, rather than of the objects. */
    method InsertView(obj: TimerEvent, timestamp: uint32, ghost due: int)
      requires Valid() && timestamp == Stamp(due)
      requires forall e :: e in events ==> e.id != obj.id
      modifies this`head, this`match_, this`events, obj`timestamp, obj`due, obj`next, Objects()`next
      ensures Valid() && (old(Armed()) ==> Armed())
      ensures obj.timestamp == timestamp && obj.due == due
      ensures Queue() == WrappedPlace(old(Queue()), Pending(obj.id, due, obj.delay, obj.periodic))
      ensures Objects() == old(Objects()) + {obj}
    {
      hide Stamp, StopIndex, StopAt, Valid, Armed;
      ghost var before, k, q := events, StopIndex(timestamp, 0), Queue();
      StopIndexIs(timestamp, 0);
      InsertEvent(obj, timestamp, due);
      InsertedObjects(before, k, obj);
      ViewsInserted(before, k, obj, q);
    }

    lemma {:induction false} ViewsInserted(before: seq<TimerEvent>, k: nat, obj: TimerEvent, q: seq<Pending>)
      requires k <= |before| == |q| && events == before[..k] + [obj] + before[k..]
      requires forall i :: 0 <= i < |before| ==> before[i].View() == q[i]
      ensures Queue() == q[..k] + [obj.View()] + q[k..]
    {
      hide TimerEvent.View;
      InsertedObjects(before, k, obj);
      ghost var r := q[..k] + [obj.View()] + q[k..];
      forall i | 0 <= i < |events|
        ensures Queue()[i] == r[i]
      {
        assert Queue()[i] == events[i].View();
        assert i < k ==> r[i] == q[i];
        assert i > k ==> r[i] == q[i - 1];
      }
    }

    /** Inserting within the window is stable insertion by due time. */
    method InsertInWindow(obj: TimerEvent, timestamp: uint32, ghost due: int, ghost lo: int)
      requires Valid() && timestamp == Stamp(due) && Window(lo) && lo <= due < lo + HALF
      requires forall e :: e in events ==> e.id != obj.id
      modifies this`head, this`match_, this`events, obj`timestamp, obj`due, obj`next, Objects()`next
      ensures Valid() && Window(lo) && (old(Armed()) ==> Armed())
      ensures Queue() == Place(old(Queue()), Pending(obj.id, due, obj.delay, obj.periodic))
      ensures Objects() == old(Objects()) + {obj}
    {
      hide Stamp, StopIndex, WrappedPlace, Place, Valid, Armed, InWindow;
      WrappedPlaceInWindow(Queue(), Pending(obj.id, due, obj.delay, obj.periodic), lo);
      PlaceInWindow(Queue(), Pending(obj.id, due, obj.delay, obj.periodic), lo);
      InsertView(obj, timestamp, due);
    }

    lemma {:induction false} InsertedObjects(before: seq<TimerEvent>, k: nat, obj: TimerEvent)
      requires k <= |before|
      ensures var after := before[..k] + [obj] + before[k..];
              (forall i :: 0 <= i < |after| ==>
                 after[i] == if i < k then before[i] else if i == k then obj else before[i - 1]) &&
              (forall e :: e in after <==> e in before || e == obj)
    {
      assert before == before[..k] + before[k..];
    }

    lemma {:induction false} OnlyOne(timers: seq<TimerEvent>, id: nat)
      requires Known(timers) && id < |timers|
      ensures forall e :: e in Objects() ==> e in timers
      ensures forall e :: e in events && e != timers[id] ==> e.id != timers[id].id
    {
      assert forall e :: e in events ==> e in Objects();
    }

    /** A timer is started or stopped. */
    method Perform(act: Act, timers: seq<TimerEvent>, ghost lo: int)
      requires Valid() && Known(timers) && Concerns(act, timers) && Reaches(act, lo) && (act.Attach? ==> Window(lo))
      modifies this`head, this`match_, this`events, timers
      ensures Valid() && Known(timers) && (old(Armed()) ==> Armed()) && (old(Window(lo)) ==> Window(lo))
      ensures Queue() == Apply(old(Queue()), act)
    {
      hide Stamp, Valid, Armed, InWindow, Place, Without, WrappedPlace;
      ghost var q := Queue();
      OnlyOne(timers, act.id);
      WithoutInWindow(q, act.id, lo);
      match act {
        case Attach(id, now, delay, periodic) =>
          ghost var p := Pending(id, now + delay, delay, periodic);
          WrappedPlaceInWindow(Without(q, id), p, lo);
          PlaceInWindow(Without(q, id), p, lo);
          Setup(timers[id], delay, now, Stamp(now));
        case Detach(id) =>
          RemoveView(timers[id]);
      }
    }

    method PerformAll(acts: seq<Act>, timers: seq<TimerEvent>, ghost horizon: int, ghost lo: int)
      requires Valid() && Known(timers) && Window(lo) && AllConcern(acts, timers) && AllReach(acts, horizon, lo)
      modifies this`head, this`match_, this`events, timers
      ensures Valid() && Known(timers) && Window(lo) && Queue() == ApplyAll(old(Queue()), acts)
    {
      hide Valid, Armed, Window, Known, Apply, Concerns, Reaches;
      ghost var goal := ApplyAll(Queue(), acts);
      for i := 0 to |acts|
        invariant Valid() && Known(timers) && Window(lo) && goal == ApplyAll(Queue(), acts[i..])
      {
        assert acts[i..][0] == acts[i] && acts[i..][1..] == acts[i + 1..];
        Perform(acts[i], timers, lo);
      }
    }

    /** What the handler of an event does to the queue: a ticker puts itself back one delay later, whatever the delay.
        Then the function that the user attached does what it does. */
    method HandleEvent(p: TimerEvent, acts: seq<Act>, timers: seq<TimerEvent>, ghost horizon: int, ghost lo: int)
      requires Valid() && Window(lo) && p.timestamp == Stamp(p.due) && lo <= p.due
      requires p.periodic ==> p.due + p.delay < lo + HALF
      requires Known(timers) && p.id < |timers| && timers[p.id] == p && forall e :: e in events ==> e.id != p.id
      requires AllConcern(acts, timers) && AllReach(acts, horizon, lo)
      modifies this`head, this`match_, this`events, timers
      ensures Valid() && Window(lo) && Known(timers)
      ensures Queue() ==
                ApplyAll(if p.periodic then Place(old(Queue()), Pending(p.id, old(p.due + p.delay), old(p.delay), true))
                         else old(Queue()), acts)
    {
      hide Stamp, Place, Valid, Window, Armed, ApplyAll, AllConcern, AllReach;
      OnlyOne(timers, p.id);
      StampLater(p.due, p.delay);
      if p.periodic {
        InsertInWindow(p, (p.timestamp + p.delay) % WRAP, p.due + p.delay, lo);
      }
      PerformAll(acts, timers, horizon, lo);
    }

    /** Takes the head out of the queue. */
    method PopHead() returns (p: TimerEvent)
      requires Valid() && head != null
      modifies this`head, this`events
      ensures Valid() && events == old(events)[1..] && p == old(events)[0] == old(head)
      ensures Queue() == old(Queue())[1..] && p.View() == old(Queue())[0]
      ensures forall e :: e in events ==> e.id != p.id
    {
      p := head;
      head := head.next;
      events := events[1..];
    }

    /** One round of the interrupt handler: the head fires. */
    method FireHead(acts: seq<Act>, timers: seq<TimerEvent>, ghost horizon: int, ghost lo: int)
      requires Valid() && head != null && Window(lo) && Known(timers)
      requires events[0].periodic ==> events[0].due + events[0].delay < lo + HALF
      requires AllConcern(acts, timers) && AllReach(acts, horizon, lo)
      modifies this`head, this`match_, this`events, timers
      ensures Valid() && Window(lo) && Known(timers) && Queue() == ApplyAll(Fire(old(Queue())), acts)
    {
      hide Place, Fire, Stamp, InWindow, ApplyAll, AllConcern, AllReach, AreKnown, Known;
      ghost var q := Queue();
      FireIs(q);
      TailInWindow(q, lo);
      ListKnown(timers);
      KnownFirst(events, timers);
      assert events[0].timestamp == Stamp(events[0].due) && q[0] == events[0].View();
      var p := PopHead();
      ListKnown(timers);
      HandleEvent(p, acts, timers, horizon, lo);
    }

    method IrqHandler(w: World, timers: seq<TimerEvent>, ghost horizon: int, ghost lo: int)
      returns (ghost log: seq<Pending>)
      requires Valid() && Known(timers)
      requires Clock(w.read, horizon) && Tame(w, horizon) && Confined(w, timers, horizon, lo)
      requires Window(lo) && lo <= w.read(0) && horizon < lo + HALF && DelaysFit(Queue(), horizon, lo)
      requires Progresses(Queue(), horizon)
      modifies this`head, this`match_, this`events, timers
      ensures Valid() && Armed() && Window(lo) && Known(timers)
      ensures Outcome(Queue(), log) == Run(old(Queue()), w, 0, horizon)
    {
      hide Run, Fire, Work, Valid, Window, Clock, Progresses, Tame, Known, ApplyAll, AllConcern, AllReach, DelaysFit,
           Confined, Stamp, Before, NotAfter;
      log := [];
      ghost var goal := Run(Queue(), w, 0, horizon);
      var n: nat := 0;
      while true
        invariant Valid() && Window(lo) && Known(timers) && n == |log|
        invariant Progresses(Queue(), horizon) && DelaysFit(Queue(), horizon, lo)
        invariant goal == Behind(log, Run(Queue(), w, n, horizon))
        decreases Unrest(w, n), Work(Queue(), horizon)
      {
        HeadFacts(horizon, lo);
        if head == null {
          RunEmpty(w, n, horizon);
          match_ := Off;
          return;
        }
        ClockAt(w.read, horizon, n, lo);
        NotAfterInWindow(head.due, w.read(n));
        RunUnfolds(Queue(), w, n, horizon);
        if NotAfter(head.timestamp, Stamp(w.read(n))) {
          RoundWork(Queue(), w, n, horizon);
          ConfinedAt(w, timers, horizon, lo, n);
          DelaysFitRound(Queue(), w, n, horizon, lo);
          BehindFired(log, Queue()[0], Run(Round(Queue(), w, n), w, n + 1, horizon));
          log := log + [Queue()[0]];
          FireHead(w.acts(n), timers, horizon, lo);
          n := n + 1;
        } else {
          match_ := At(head.timestamp);
          return;
        }
      }
    }

    lemma {:induction false} HeadFacts(horizon: int, lo: int)
      requires Valid() && Window(lo) && DelaysFit(Queue(), horizon, lo)
      ensures head == null <==> events == []
      ensures head == null ==> Queue() == []
      ensures head != null ==> head == events[0] && head in Objects() && Queue()[0] == head.View() &&
                               head.timestamp == Stamp(head.due) && lo <= head.due < lo + HALF &&
                               (head.periodic ==> horizon + head.delay < lo + HALF)
    {
      if head != null {
        assert Queue()[0] in Queue();
      }
    }
  }

  /** An outcome with more firings in front. */
  function Behind(log: seq<Pending>, r: Outcome): Outcome {
    Outcome(r.queue, log + r.log)
  }

  lemma {:induction false} BehindFired(log: seq<Pending>, p: Pending, rest: Outcome)
    ensures Behind(log, Outcome(rest.queue, [p] + rest.log)) == Behind(log + [p], rest)
  {
    assert log + ([p] + rest.log) == log + [p] + rest.log;
  }

  lemma {:induction false} ClockAt(read: nat -> int, horizon: int, n: nat, lo: int)
    requires Clock(read, horizon) && lo <= read(0)
    ensures lo <= read(n) <= horizon
  {
  }
}
