/** Asynchronous SPI transfers: one runs, the others wait in a ring buffer. */
module SpiQueue {

  class CircularBuffer<T(0)> {
    const pool: array<T>
    var head: nat
    var tail: nat
    var isFull: bool

    ghost predicate Valid()
      reads this
    {
      head < pool.Length && tail < pool.Length && (isFull ==> head == tail)
    }

    ghost function Count(): nat
      reads this
      requires Valid()
    {
      if isFull then pool.Length else if tail <= head then head - tail else head + pool.Length - tail
    }

    /** What was pushed and not popped, the oldest first. */
    ghost function Contents(): (s: seq<T>)
      reads this, pool
      requires Valid()
      ensures |s| == Count()
    {
      Ring(pool[..], head, tail, isFull)
    }

    /** What a ring holds from `tail` on up to `head`. */
    static ghost function Ring(s: seq<T>, head: nat, tail: nat, full: bool): seq<T>
      requires head < |s| && tail < |s|
    {
      if !full && tail <= head then s[tail..head] else s[tail..] + s[..head]
    }

    /** A ring with room takes one more behind the others; a full one makes room first. */
    static lemma {:induction false} RingTakes(s: seq<T>, head: nat, tail: nat, full: bool, data: T)
      requires head < |s| && tail < |s| && !full
      ensures var next := Next(head, |s|);
              Ring(s[head := data], next, tail, next == tail) == Ring(s, head, tail, full) + [data]
    {
      var t, next := s[head := data], Next(head, |s|);
      if tail <= head {
        assert s[tail..head] + [data] == t[tail..head + 1];
        assert next == 0 ==> t[tail..] + t[..0] == t[tail..head + 1];
      } else {
        assert t[tail..] == s[tail..] && t[..head + 1] == s[..head] + [data];
        assert s[tail..] + (s[..head] + [data]) == s[tail..] + s[..head] + [data];
      }
    }

    /** One that is not empty gives the first away. */
    static lemma {:induction false} RingDrops(s: seq<T>, head: nat, tail: nat, full: bool)
      requires head < |s| && tail < |s| && (full ==> head == tail) && (full || head != tail)
      ensures Ring(s, head, tail, full) != [] && s[tail] == Ring(s, head, tail, full)[0]
      ensures Ring(s, head, Next(tail, |s|), false) == Ring(s, head, tail, full)[1..]
    {
      hide Next;
      var next := Next(tail, |s|);
      if !full && tail < head {
        assert s[tail..head][1..] == s[tail + 1..head];
      } else {
        assert next == 0 ==> s[tail..] == [s[tail]] && ([s[tail]] + s[..head])[1..] == s[..head];
        assert next != 0 ==> (s[tail..] + s[..head])[1..] == s[next..] + s[..head];
      }
    }

    lemma {:induction false} Room()
      requires Valid()
      ensures 0 < pool.Length && |Contents()| <= pool.Length
    {
    }

    constructor (size: nat)
      requires size > 0
      ensures Valid() && Contents() == [] && pool.Length == size && fresh(pool)
    {
      pool, head, tail, isFull := new T[size], 0, 0, false;
    }

    predicate Empty()
      reads this
      requires Valid()
      ensures Empty() <==> Contents() == []
    {
      head == tail && !isFull
    }

    predicate Full()
      reads this
      requires Valid()
      ensures Full() <==> |Contents()| == pool.Length
    {
      isFull
    }

    /** One step around the ring. */
    static function Next(i: nat, size: nat): (r: nat)
      requires i < size
      ensures r == if i + 1 == size then 0 else i + 1
    {
      (i + 1) % size
    }

    /** Pushing into a full buffer overwrites the oldest entry. */
    method Push(data: T)
      requires Valid()
      modifies this, pool
      ensures Valid()
      ensures Contents()
           == (if |old(Contents())| == pool.Length then old(Contents())[1..] else old(Contents())) + [data]
    {
      hide Next, Ring;
      ghost var s, behind := pool[..], if isFull then Next(tail, pool.Length) else tail;
      if isFull {
        RingDrops(s, head, tail, true);
        tail := Next(tail, pool.Length);
      }
      RingTakes(s, head, behind, false, data);
      pool[head] := data;
      assert pool[..] == s[head := data];
      head := Next(head, pool.Length);
      if head == tail {
        isFull := true;
      }
    }

    method Pop() returns (ok: bool, data: T)
      requires Valid()
      modifies this
      ensures Valid() && ok == (old(Contents()) != [])
      ensures ok ==> data == old(Contents())[0] && Contents() == old(Contents())[1..]
      ensures !ok ==> Contents() == []
    {
      hide Next, Ring;
      data := pool[tail];
      if !(head == tail && !isFull) {
        RingDrops(pool[..], head, tail, isFull);
        tail := Next(tail, pool.Length);
        isFull := false;
        return true, data;
      }
      return false, data;
    }

    method Reset()
      requires Valid()
      modifies this
      ensures Valid() && Contents() == []
    {
      head, tail, isFull := 0, 0, false;
    }
  }

  /** Those of the transfers submitted that find room in a queue of `size` places. */
  function Taken<T>(queue: seq<T>, more: seq<T>, size: nat): (taken: seq<T>)
    requires |queue| <= size
    ensures |queue| + |taken| <= size && taken <= more
  {
    if |queue| + |more| <= size then more else more[..size - |queue|]
  }

  lemma {:induction false} NoneTaken<T>(queue: seq<T>, size: nat)
    requires |queue| <= size
    ensures Taken(queue, [], size) == []
  {
  }

  /** What is behind some prefix when one more was submitted. */
  lemma {:induction false} TakenNext<T>(queue: seq<T>, more: seq<T>, k: nat, size: nat, prefix: seq<T>)
    requires |queue| <= size && k < |more|
    ensures var taken := Taken(queue, more[..k], size);
            prefix + Taken(queue, more[..k + 1], size)
              == prefix + taken + if |queue + taken| < size then [more[k]] else []
  {
    assert more[..k + 1] == more[..k] + [more[k]];
  }

  class Spi<Transfer(0, ==)> {
    const buffer: CircularBuffer<Transfer>
    /** The peripheral is busy. */
    var active: bool
    /** Every transfer that was started, and every one that was accepted and not cleared, in order. */
    ghost var started: seq<Transfer>
    ghost var accepted: seq<Transfer>
    /** How often a transfer was started while another one was running. */
    ghost var overruns: nat

    /** Transfers wait only while one is running. */
    ghost predicate Valid()
      reads this, buffer, buffer.pool
    {
      buffer.Valid() && (buffer.Contents() != [] ==> active)
    }

    /** Every accepted transfer was started exactly once and in order, or still waits. */
    ghost predicate InOrder()
      reads this, buffer, buffer.pool
      requires buffer.Valid()
    {
      accepted == started + buffer.Contents()
    }

    constructor (size: nat)
      requires size > 0
      ensures Valid() && InOrder() && !active && started == [] && overruns == 0
      ensures fresh(buffer) && fresh(buffer.pool) && buffer.pool.Length == size
    {
      buffer := new CircularBuffer<Transfer>(size);
      active, started, accepted, overruns := false, [], [], 0;
    }

    method StartTransfer(t: Transfer)
      requires buffer.Valid()
      modifies this`active, this`started, this`overruns
      ensures active && started == old(started) + [t]
      ensures overruns == old(overruns) + if old(active) then 1 else 0
    {
      overruns := overruns + if active then 1 else 0;
      active := true;
      started := started + [t];
    }

    /** 0 when the transfer is started or queued, -1 when the queue is full. */
    method StartOrQueue(t: Transfer) returns (r: int)
      requires buffer.Valid()
      modifies this, buffer, buffer.pool
      ensures Valid() && active && overruns == old(overruns)
      ensures r == if old(active) && |old(buffer.Contents())| == buffer.pool.Length then -1 else 0
      ensures accepted == if r == 0 then old(accepted) + [t] else old(accepted)
      ensures started == if old(active) then old(started) else old(started) + [t]
      ensures buffer.Contents()
           == old(buffer.Contents()) + if old(active) && |old(buffer.Contents())| < buffer.pool.Length then [t] else []
      ensures old(Valid() && InOrder()) ==> InOrder()
    {
      if active {
        if buffer.Full() {
          return -1;
        }
        buffer.Push(t);
        accepted := accepted + [t];
        return 0;
      }
      StartTransfer(t);
      accepted := accepted + [t];
      return 0;
    }

    /** The peripheral is taken to have become free: the oldest waiting transfer starts. */
    method DequeueTransaction()
      requires buffer.Valid()
      modifies this`active, this`started, this`overruns, buffer
      ensures Valid()
      ensures if old(buffer.Contents()) == [] then
                active == old(active) && started == old(started) && overruns == old(overruns) && buffer.Contents() == []
              else
                active && started == old(started) + [old(buffer.Contents())[0]] &&
                buffer.Contents() == old(buffer.Contents())[1..] &&
                overruns == old(overruns) + if old(active) then 1 else 0
      ensures old(InOrder()) ==> InOrder()
    {
      hide CircularBuffer.Contents, CircularBuffer.Count;
      ghost var before := buffer.Contents();
      var ok, t := buffer.Pop();
      if ok {
        assert before == [t] + before[1..];
        StartTransfer(t);
      }
    }

    /** The callback of a transfer that is over submits more transfers: it finds the peripheral free, so the first of
        them is started in front of those that wait. */
    method Callback(submits: seq<Transfer>)
      requires buffer.Valid() && !active && submits != []
      modifies this, buffer, buffer.pool
      ensures Valid() && active && overruns == old(overruns)
      ensures started == old(started) + [submits[0]]
      ensures var taken := Taken(old(buffer.Contents()), submits[1..], buffer.pool.Length);
              buffer.Contents() == old(buffer.Contents()) + taken &&
              accepted == old(accepted) + ([submits[0]] + taken)
    {
      hide CircularBuffer.Contents, CircularBuffer.Count, Taken, CircularBuffer.Valid;
      ghost var queue := buffer.Contents();
      var r := StartOrQueue(submits[0]);
      assert buffer.Contents() == queue;
      QueueAll(submits[1..]);
    }

    method QueueAll(submits: seq<Transfer>)
      requires buffer.Valid() && active
      modifies this, buffer, buffer.pool
      ensures buffer.Valid() && active && overruns == old(overruns) && started == old(started)
      ensures var taken := Taken(old(buffer.Contents()), submits, buffer.pool.Length);
              buffer.Contents() == old(buffer.Contents()) + taken && accepted == old(accepted) + taken
    {
      hide CircularBuffer.Contents, CircularBuffer.Count, Taken, CircularBuffer.Valid;
      buffer.Room();
      ghost var queue, base, size := buffer.Contents(), accepted, buffer.pool.Length;
      NothingTaken(queue, submits, size);
      for i := 0 to |submits|
        invariant buffer.Valid() && active && overruns == old(overruns) && started == old(started)
        invariant buffer.Contents() == queue + Taken(queue, submits[..i], size)
        invariant accepted == base + Taken(queue, submits[..i], size)
      {
        TakenNext(queue, submits, i, size, queue);
        TakenNext(queue, submits, i, size, base);
        var r := StartOrQueue(submits[i]);
      }
      assert submits[..|submits|] == submits;
    }

    lemma {:induction false} NothingTaken(queue: seq<Transfer>, more: seq<Transfer>, size: nat)
      requires |queue| <= size
      ensures Taken(queue, more[..0], size) == []
    {
    }

    /** What the callback submits does not meet a transfer that is taken out of the queue right after it. */
    static predicate Harmless(queue: seq<Transfer>, submits: seq<Transfer>) {
      submits == [] || (queue == [] && |submits| == 1)
    }

    /** The interrupt of the peripheral. `free` says that the running transfer is over; then its callback runs, which
        may submit transfers, and then the oldest waiting transfer is started, whether the callback has started one or
        not. */
    method IrqHandler(free: bool, submits: seq<Transfer>)
      requires Valid() && active
      modifies this, buffer, buffer.pool
      ensures Valid()
      ensures !free ==> active && started == old(started) && accepted == old(accepted) &&
                        buffer.Contents() == old(buffer.Contents()) && overruns == old(overruns)
      ensures free ==>
                var queue := old(buffer.Contents());
                var taken := if submits == [] then [] else Taken(queue, submits[1..], buffer.pool.Length);
                var waiting := queue + taken;
                var next := if waiting == [] then 0 else 1;
                (active <==> submits != [] || queue != []) &&
                accepted == old(accepted) + (if submits == [] then [] else [submits[0]] + taken) &&
                started == old(started) + (if submits == [] then [] else [submits[0]]) + waiting[..next] &&
                buffer.Contents() == waiting[next..] &&
                overruns == old(overruns) + if Harmless(queue, submits) then 0 else 1
      ensures old(InOrder()) ==>
                (InOrder() <==> !free || submits == [] ||
                                [submits[0]] + old(buffer.Contents()) == old(buffer.Contents()) + [submits[0]])
    {
      hide CircularBuffer.Contents, CircularBuffer.Count, Taken, CircularBuffer.Valid;
      buffer.Room();
      if free {
        ghost var queue, size := buffer.Contents(), buffer.pool.Length;
        active := false;
        if submits != [] {
          Callback(submits);
          NothingWaitsIff(queue, submits[1..], size);
          ReorderedIff(old(started), queue, submits[0], Taken(queue, submits[1..], size));
        }
        ghost var waiting, begun := buffer.Contents(), started;
        DequeueTransaction();
        if waiting != [] {
          assert waiting[..1] == [waiting[0]];
          assert begun + waiting == begun + [waiting[0]] + waiting[1..];
        }
      }
    }

    static lemma {:induction false} NothingWaitsIff(queue: seq<Transfer>, more: seq<Transfer>, size: nat)
      requires |queue| <= size && size > 0
      ensures queue + Taken(queue, more, size) == [] <==> queue == [] && more == []
    {
    }

    /** A transfer that is started in front of the waiting ones is out of order, unless these are the same. */
    static lemma {:induction false} ReorderedIff(begun: seq<Transfer>, queue: seq<Transfer>, t: Transfer,
                                                 taken: seq<Transfer>)
      ensures begun + queue + ([t] + taken) == begun + ([t] + (queue + taken)) <==> [t] + queue == queue + [t]
    {
      var n := |begun|;
      var a, b := begun + queue + ([t] + taken), begun + ([t] + (queue + taken));
      assert a[n..] == queue + [t] + taken && b[n..] == [t] + queue + taken;
      assert a[n..][..|queue| + 1] == queue + [t] && b[n..][..|queue| + 1] == [t] + queue;
      assert a == begun + a[n..] && b == begun + b[n..];
    }

    method AbortTransfer()
      requires Valid()
      modifies this`active, this`started, this`overruns, buffer
      ensures Valid() && overruns == old(overruns) && (old(InOrder()) ==> InOrder())
      ensures started == if old(buffer.Contents()) != [] then old(started) + [old(buffer.Contents())[0]]
              else old(started)
      ensures active <==> old(buffer.Contents()) != []
    {
      active := false;
      DequeueTransaction();
    }

    method ClearTransferBuffer()
      requires Valid()
      modifies this`accepted, buffer
      ensures Valid() && buffer.Contents() == [] && accepted == started && InOrder()
    {
      buffer.Reset();
      accepted := started;
    }

    method AbortAllTransfers()
      requires Valid()
      modifies this, buffer
      ensures Valid() && InOrder() && !active && buffer.Contents() == []
      ensures started == old(started) && accepted == started && overruns == old(overruns)
    {
      ClearTransferBuffer();
      AbortTransfer();
    }

    /** When the interrupts keep coming, everything that was accepted is started. */
    method Drain()
      requires Valid() && InOrder()
      modifies this, buffer, buffer.pool
      ensures Valid() && !active && started == accepted == old(accepted) && overruns == old(overruns)
    {
      while active
        invariant Valid() && InOrder() && accepted == old(accepted) && overruns == old(overruns)
        decreases |buffer.Contents()|, active
      {
        IrqHandler(true, []);
      }
    }
  }

  /** A callback that submits a transfer while another one waits: both are started, the one that waits last. */
  method CallbackOverruns<Transfer(0, ==)>(a: Transfer, b: Transfer, c: Transfer) returns (spi: Spi<Transfer>)
    ensures spi.overruns == 1 && spi.accepted == [a, b, c] && spi.started == [a, c, b]
  {
    hide Taken, CircularBuffer.Contents, CircularBuffer.Count, CircularBuffer.Valid;
    spi := new Spi<Transfer>(2);
    var r := spi.StartOrQueue(a);
    r := spi.StartOrQueue(b);
    assert spi.buffer.Contents() == [b] && spi.started == [a] && spi.accepted == [a, b];
    NoneTaken([b], 2);
    assert [c][1..] == [] && [b] + [] == [b];
    spi.IrqHandler(true, [c]);
  }
}
