/** When the interrupt handler comes to an end: what tickers without a delay do to it. Attached functions leave the
    queue alone here. */
module TickerEnding {
  import opened TickerModel

  /** The queue after so many events were fired, whether they were due or not. */
  function Rounds(q: seq<Pending>, m: nat): seq<Pending>
    decreases m
  {
    if m == 0 || q == [] then q else Rounds(Fire(q), m - 1)
  }

  /** The handler finds nothing to do at its clock read number `n + m`. */
  predicate StopsAfter(q: seq<Pending>, read: nat -> int, n: nat, m: nat) {
    Rounds(q, m) == [] || Rounds(q, m)[0].due > read(n + m)
  }

  /** The handler's loop, started at clock read `n`, comes to an end. */
  ghost predicate Ends(q: seq<Pending>, read: nat -> int, n: nat) {
    exists m: nat :: StopsAfter(q, read, n, m)
  }

  /** The queue without the tickers that have no delay. */
  function Calm(q: seq<Pending>): seq<Pending> {
    if q == [] then [] else (if Stuck(q[0]) then [] else [q[0]]) + Calm(q[1..])
  }

  lemma {:induction false} CalmMembers(q: seq<Pending>)
    ensures forall x :: x in Calm(q) <==> x in q && !Stuck(x)
  {
    if q != [] {
      CalmMembers(q[1..]);
      assert q == [q[0]] + q[1..];
    }
  }

  lemma {:induction false} PlaceInFront(q: seq<Pending>, p: Pending)
    requires q == [] || p.due < q[0].due
    ensures Place(q, p) == [p] + q
  {
  }

  lemma {:induction false} PlaceBehind(q: seq<Pending>, p: Pending)
    requires q != [] && q[0].due <= p.due
    ensures Place(q, p) == [q[0]] + Place(q[1..], p)
  {
    var k := PlaceIndex(q[1..], p.due);
    assert q[..k + 1] == [q[0]] + q[1..][..k] && q[k + 1..] == q[1..][k..];
  }

  lemma {:induction false} CalmPlace(q: seq<Pending>, p: Pending)
    requires Sorted(q) && !Stuck(p)
    ensures Calm(Place(q, p)) == Place(Calm(q), p)
  {
    hide Place;
    if q == [] || p.due < q[0].due {
      PlaceInFront(q, p);
      assert ([p] + q)[1..] == q;
      CalmMembers(q);
      assert Calm(q) != [] ==> Calm(q)[0] in Calm(q);
      PlaceInFront(Calm(q), p);
    } else {
      PlaceBehind(q, p);
      CalmPlace(q[1..], p);
      assert ([q[0]] + Place(q[1..], p))[1..] == Place(q[1..], p);
      if !Stuck(q[0]) {
        assert Calm(q)[1..] == Calm(q[1..]);
        PlaceBehind(Calm(q), p);
      } else {
        assert [] + Calm(q[1..]) == Calm(q[1..]);
      }
    }
  }

  /** As long as a ticker with a delay comes first, firing it is the same without the others. */
  lemma {:induction false} CalmFire(q: seq<Pending>)
    requires Sorted(q) && q != [] && !Stuck(q[0])
    ensures Calm(q) != [] && Calm(q)[0] == q[0] && Calm(Fire(q)) == Fire(Calm(q))
  {
    assert Calm(q)[1..] == Calm(q[1..]);
    if q[0].periodic {
      CalmPlace(q[1..], Next(q[0]));
    }
  }

  lemma {:induction false} StuckStays(q: seq<Pending>, z: Pending)
    requires q != [] && z in q && Stuck(z)
    ensures z in Fire(q)
  {
    hide Place;
    if z == q[0] {
      PlacedAt(q[1..], z, PlaceIndex(q[1..], z.due));
    } else {
      var i :| 0 < i < |q| && q[i] == z;
      assert q[1..][i - 1] == z;
      if q[0].periodic {
        PlacedAt(q[1..], Next(q[0]), if i - 1 < PlaceIndex(q[1..], Next(q[0]).due) then i - 1 else i);
      }
    }
  }

  lemma {:induction false} NoNewStuck(q: seq<Pending>, z: Pending)
    requires q != [] && !Stuck(q[0]) && z in Fire(q) && Stuck(z)
    ensures z in q
  {
    hide Place;
    if q[0].periodic {
      var i :| 0 <= i < |Fire(q)| && Fire(q)[i] == z;
      PlacedAt(q[1..], Next(q[0]), i);
    }
  }

  /** The clock never goes back. */
  ghost predicate Monotone(read: nat -> int) {
    forall i: nat, j: nat :: i <= j ==> read(i) <= read(j)
  }

  /** A ticker without a delay that is due keeps the handler going for ever. */
  lemma {:induction false} StuckForever(q: seq<Pending>, read: nat -> int, n: nat, z: Pending, m: nat)
    requires Monotone(read) && Sorted(q) && z in q && Stuck(z) && z.due <= read(n)
    ensures !StopsAfter(q, read, n, m)
    decreases m
  {
    hide Fire;
    if m > 0 {
      StuckStays(q, z);
      FireSorted(q);
      assert read(n) <= read(n + 1);
      StuckForever(Fire(q), read, n + 1, z, m - 1);
      assert n + 1 + (m - 1) == n + m;
    }
  }

  // ----- How much there is to fire

  predicate NoneStuck(q: seq<Pending>) {
    forall i :: 0 <= i < |q| ==> !Stuck(q[i])
  }

  /** How often the events of a queue fire up to a time. */
  function Count(q: seq<Pending>, last: int): nat
    requires NoneStuck(q)
  {
    if q == [] then 0 else |Firings(q[0], last)| + Count(q[1..], last)
  }

  lemma {:induction false} NoneStuckParts(a: seq<Pending>, b: seq<Pending>)
    ensures NoneStuck(a + b) <==> NoneStuck(a) && NoneStuck(b)
  {
    if NoneStuck(a + b) {
      assert forall i :: 0 <= i < |a| ==> a[i] == (a + b)[i];
      assert forall i :: 0 <= i < |b| ==> b[i] == (a + b)[|a| + i];
    }
  }

  lemma {:induction false} CountConcat(a: seq<Pending>, b: seq<Pending>, last: int)
    requires NoneStuck(a) && NoneStuck(b)
    ensures NoneStuck(a + b) && Count(a + b, last) == Count(a, last) + Count(b, last)
  {
    hide Firings;
    NoneStuckParts(a, b);
    if a == [] {
      assert a + b == b;
    } else {
      assert (a + b)[1..] == a[1..] + b;
      CountConcat(a[1..], b, last);
    }
  }

  lemma {:induction false} CountFirst(p: Pending, q: seq<Pending>, last: int)
    requires !Stuck(p) && NoneStuck(q)
    ensures NoneStuck([p] + q) && Count([p] + q, last) == |Firings(p, last)| + Count(q, last)
  {
    hide Firings;
    assert ([p] + q)[1..] == q;
  }

  lemma {:induction false} CountPlace(q: seq<Pending>, p: Pending, last: int)
    requires !Stuck(p) && NoneStuck(q)
    ensures NoneStuck(Place(q, p)) && Count(Place(q, p), last) == Count(q, last) + |Firings(p, last)|
  {
    hide Firings, NoneStuck, Count, Stuck;
    var a, b := q[..PlaceIndex(q, p.due)], q[PlaceIndex(q, p.due)..];
    assert q == a + b && Place(q, p) == a + ([p] + b);
    NoneStuckParts(a, b);
    CountFirst(p, b, last);
    CountConcat(a, b, last);
    CountConcat(a, [p] + b, last);
  }

  /** Firing the head leaves one firing less to do. */
  lemma {:induction false} CountFire(q: seq<Pending>, last: int)
    requires q != [] && NoneStuck(q) && q[0].due <= last
    ensures NoneStuck(Fire(q)) && Count(q, last) == 1 + Count(Fire(q), last)
  {
    hide Place;
    assert NoneStuck(q[1..]);
    if q[0].periodic {
      CountPlace(q[1..], Next(q[0]), last);
    }
  }

  lemma {:induction false} CountNone(q: seq<Pending>, last: int)
    requires NoneStuck(q) && forall i :: 0 <= i < |q| ==> q[i].due > last
    ensures Count(q, last) == 0
  {
    if q != [] {
      CountNone(q[1..], last);
    }
  }

  lemma {:induction false} CalmCount(q: seq<Pending>)
    ensures NoneStuck(Calm(q))
  {
    CalmMembers(q);
    assert forall i :: 0 <= i < |Calm(q)| ==> Calm(q)[i] in Calm(q);
  }

  /** At clock read `n + m` the events with a delay have come up at most `m` times, and the tickers without a delay not
      at all. */
  ghost predicate Settled(q: seq<Pending>, read: nat -> int, n: nat, m: nat) {
    CalmCount(q);
    Count(Calm(q), read(n + m)) <= m && forall z :: z in q && Stuck(z) ==> z.due > read(n + m)
  }

  // ----- When the handler ends

  lemma {:induction false} SettledAtOnce(q: seq<Pending>, read: nat -> int, n: nat)
    requires Sorted(q) && (q == [] || q[0].due > read(n))
    ensures Settled(q, read, n, 0)
  {
    CalmMembers(q);
    CalmCount(q);
    assert forall p :: p in q ==> p.due > read(n);
    assert forall i :: 0 <= i < |Calm(q)| ==> Calm(q)[i] in Calm(q);
    CountNone(Calm(q), read(n + 0));
  }

  /** Firing an event with a delay brings the end one clock read nearer. */
  lemma {:induction false} SettledStep(q: seq<Pending>, read: nat -> int, n: nat, m: nat)
    requires Monotone(read) && Sorted(q) && q != [] && !Stuck(q[0]) && q[0].due <= read(n)
    ensures Settled(q, read, n, m + 1) <==> Settled(Fire(q), read, n + 1, m)
    ensures !Settled(q, read, n, 0)
  {
    hide Fire, Count;
    CalmFire(q);
    CalmCount(q);
    assert n + (m + 1) == (n + 1) + m && n + 0 == n && read(n) <= read(n + 1 + m);
    CountFire(Calm(q), read(n + 1 + m));
    CountFire(Calm(q), read(n));
    forall z | Stuck(z)
      ensures z in q <==> z in Fire(q)
    {
      if z in q {
        StuckStays(q, z);
      }
      if z in Fire(q) {
        NoNewStuck(q, z);
      }
    }
  }

  lemma {:induction false} SettledStops(q: seq<Pending>, read: nat -> int, n: nat, m: nat)
    requires Monotone(read) && Sorted(q) && Settled(q, read, n, m)
    ensures exists k: nat :: k <= m && StopsAfter(q, read, n, k)
    decreases m
  {
    hide Fire, Calm, Count;
    if q == [] || q[0].due > read(n) {
      assert n + 0 == n;
      assert StopsAfter(q, read, n, 0);
    } else {
      assert q[0] in q && read(n) <= read(n + m);
      SettledStep(q, read, n, if m == 0 then 0 else m - 1);
      FireSorted(q);
      SettledStops(Fire(q), read, n + 1, m - 1);
      var k: nat :| k <= m - 1 && StopsAfter(Fire(q), read, n + 1, k);
      assert n + 1 + k == n + (k + 1);
      assert StopsAfter(q, read, n, k + 1);
    }
  }

  lemma {:induction false} StopsSettled(q: seq<Pending>, read: nat -> int, n: nat, m: nat)
    requires Monotone(read) && Sorted(q) && StopsAfter(q, read, n, m)
    ensures exists k: nat :: k <= m && Settled(q, read, n, k)
    decreases m
  {
    hide Fire, Settled;
    if q == [] || q[0].due > read(n) {
      SettledAtOnce(q, read, n);
    } else {
      assert n + 0 == n;
      if Stuck(q[0]) {
        StuckForever(q, read, n, q[0], m);
      }
      FireSorted(q);
      assert n + 1 + (m - 1) == n + m;
      StopsSettled(Fire(q), read, n + 1, m - 1);
      var k: nat :| k <= m - 1 && Settled(Fire(q), read, n + 1, k);
      SettledStep(q, read, n, k);
      assert Settled(q, read, n, k + 1);
    }
  }

  /** The handler comes to an end exactly when there is a clock read, the `m`-th of the run, up to which the events with
      a delay come up at most `m` times, and the tickers without a delay not at all. */
  lemma {:induction false} EndsIff(q: seq<Pending>, read: nat -> int, n: nat)
    requires Monotone(read) && Sorted(q)
    ensures Ends(q, read, n) <==> exists m: nat :: Settled(q, read, n, m)
  {
    hide StopsAfter, Settled;
    if m: nat :| Settled(q, read, n, m) {
      SettledStops(q, read, n, m);
    }
    if m: nat :| StopsAfter(q, read, n, m) {
      StopsSettled(q, read, n, m);
    }
  }

  /** The run of the model, when attached functions leave the queue alone, is these rounds up to the end. */
  lemma {:induction false} RunIsRounds(q: seq<Pending>, w: World, n: nat, horizon: int)
    requires Clock(w.read, horizon) && Tame(w, horizon) && Progresses(q, horizon) && w.quiet == 0
    ensures var r := Run(q, w, n, horizon);
            r.queue == Rounds(q, |r.log|) && StopsAfter(q, w.read, n, |r.log|)
    decreases Work(q, horizon)
  {
    hide Fire, Work, Run, Clock, Tame, Progresses, Round;
    if q == [] {
      RunEmpty(w, n, horizon);
    } else {
      RunUnfolds(q, w, n, horizon);
      if q[0].due <= w.read(n) {
        RoundWork(q, w, n, horizon);
        RunIsRounds(Round(q, w, n), w, n + 1, horizon);
      } else {
        assert n + |Run(q, w, n, horizon).log| == n;
      }
    }
  }

  /** A clock that stands at 5. */
  function Five(i: nat): int {
    5
  }

  /** One ticker without a delay, due at time 5. */
  lemma {:induction false} ZeroDelayNeverEnds()
    ensures !Ends([Pending(0, 5, 0, true)], Five, 0)
  {
    hide StopsAfter;
    var q := [Pending(0, 5, 0, true)];
    assert q[0] in q;
    forall m: nat
      ensures !StopsAfter(q, Five, 0, m)
    {
      StuckForever(q, Five, 0, q[0], m);
    }
  }
}
