/** The lists that the OHCI driver shares with the host controller: 32 interrupt lists whose tails may be shared, the
    done list, and the queues of the endpoints (OpenHCI 1.0a, sections 4.4 and 4.6). */
module OhciLists {

  // ----- The interrupt table

  /** An endpoint descriptor, as far as the lists go. */
  class Endpoint {
    var next: Endpoint?

    constructor ()
      ensures next == null
    {
      next := null;
    }
  }

  /** When equal elements have equal successors and only the last one has none, no element occurs twice. */
  lemma {:induction false} Unrepeated<T>(list: seq<T>, i: nat, j: nat)
    requires i < j < |list|
    requires forall a, b :: 0 <= a < |list| - 1 && 0 <= b < |list| && list[a] == list[b] ==>
               b < |list| - 1 && list[a + 1] == list[b + 1]
    ensures list[i] != list[j]
    decreases |list| - j
  {
    if j + 1 < |list| {
      Unrepeated(list, i + 1, j + 1);
    }
  }

  /** The list that starts at `head` runs through exactly these endpoints, and ends. */
  ghost predicate IsList(head: Endpoint?, list: seq<Endpoint>)
    reads list
  {
    if list == [] then head == null
    else
      head == list[0] && list[|list| - 1].next == null &&
      forall i {:trigger list[i].next} :: 0 <= i < |list| - 1 ==> list[i].next == list[i + 1]
  }

  /** No endpoint occurs twice. */
  ghost predicate Distinct(list: seq<Endpoint>) {
    forall i, j :: 0 <= i < j < |list| ==> list[i] != list[j]
  }

  /** A list that ends visits no endpoint twice. */
  lemma {:induction false} ListIsAcyclic(head: Endpoint?, list: seq<Endpoint>)
    requires IsList(head, list)
    ensures Distinct(list)
  {
    forall a, b | 0 <= a < |list| - 1 && 0 <= b < |list| && list[a] == list[b]
      ensures b < |list| - 1 && list[a + 1] == list[b + 1]
    {
      assert list[a].next == list[a + 1];
      assert b < |list| - 1 ==> list[b].next == list[b + 1];
    }
    forall i, j | 0 <= i < j < |list|
      ensures list[i] != list[j]
    {
      Unrepeated(list, i, j);
    }
  }

  class HCCA {
    var interruptTable: array<Endpoint?>
    ghost var lists: seq<seq<Endpoint>>

    ghost predicate Valid()
      reads this, interruptTable, Members()
    {
      interruptTable.Length == 32 && |lists| == 32 &&
      forall k :: 0 <= k < 32 ==> IsList(interruptTable[k], lists[k])
    }

    /** Every endpoint in some list. */
    ghost function Members(): set<Endpoint>
      reads this
    {
      set k, j | 0 <= k < |lists| && 0 <= j < |lists[k]| :: lists[k][j]
    }

    constructor ()
      ensures Valid() && fresh(interruptTable) && lists == seq(32, _ => [])
    {
      interruptTable := new Endpoint?[32](_ => null);
      lists := seq(32, _ => []);
    }

    /** The inner loop: from the head of a list to its last node, which may already point to `ed`. */
    method WalkToLast(head: Endpoint, ghost list: seq<Endpoint>, ed: Endpoint) returns (nextEd: Endpoint)
      requires list != [] && head == list[0] && ed !in list
      requires forall j {:trigger list[j].next} :: 0 <= j < |list| - 1 ==> list[j].next == list[j + 1]
      requires list[|list| - 1].next == null || list[|list| - 1].next == ed
      ensures nextEd == list[|list| - 1]
    {
      nextEd := head;
      ghost var j := 0;
      while nextEd.next != null && nextEd.next != ed
        invariant 0 <= j < |list| && nextEd == list[j]
        decreases |list| - j
      {
        nextEd := nextEd.next;
        j := j + 1;
      }
    }

    /** Every list is linked as recorded, except that its last node may already point to `ed`; the first `done` lists
        have `ed` behind their last node. */
    ghost predicate Linked(ed: Endpoint, done: nat)
      reads this, interruptTable, Members()
    {
      interruptTable.Length == 32 && |lists| == 32 &&
      (forall k, j {:trigger lists[k][j]} :: 0 <= k < 32 && 0 <= j < |lists[k]| - 1 ==>
       lists[k][j].next == lists[k][j + 1]) &&
      forall k :: 0 <= k < 32 ==>
        if lists[k] == [] then interruptTable[k] == if k < done then ed else null
        else
          interruptTable[k] == lists[k][0] &&
          (if k < done then lists[k][|lists[k]| - 1].next == ed else lists[k][|lists[k]| - 1].next in {null, ed})
    }

    method AppendTo(i: nat, ed: Endpoint)
      requires i < 32 && Linked(ed, i) && ed !in Members()
      modifies interruptTable, Members()
      ensures Linked(ed, i + 1) && ed.next == old(ed.next)
    {
      if interruptTable[i] == null {
        interruptTable[i] := ed;
      } else {
        var nextEd := WalkToLast(interruptTable[i], lists[i], ed);
        assert lists[i][|lists[i]| - 1] in Members();
        nextEd.next := ed;
      }
    }

    /** Appends an endpoint that is in no list to each of the 32 lists. Lists that share a tail are reached several
        times at the same last node; the second time it already points to the new endpoint. */
    method Enqueue(ed: Endpoint)
      requires Valid() && ed !in Members() && ed.next == null
      modifies this`lists, interruptTable, Members()
      ensures Valid() && interruptTable == old(interruptTable)
      ensures |lists| == 32 && forall k :: 0 <= k < 32 ==> lists[k] == old(lists[k]) + [ed]
      ensures forall k :: 0 <= k < 32 ==> Distinct(lists[k])
      ensures ed.next == null
    {
      for i := 0 to 32
        invariant lists == old(lists) && Members() == old(Members())
        invariant Linked(ed, i) && ed.next == null
      {
        AppendTo(i, ed);
      }
      ghost var before := lists;
      lists := seq(32, k requires 0 <= k < 32 => before[k] + [ed]);
      forall k | 0 <= k < 32
        ensures Distinct(lists[k])
      {
        ListIsAcyclic(interruptTable[k], lists[k]);
      }
    }
  }

  // ----- Transfer descriptors

  /** How many descriptors the done queue of an endpoint holds. */
  const HCTD_QUEUE_SIZE: nat := 3

  class TransferDescriptor {
    const parent: TransferQueue
    var next: TransferDescriptor?

    constructor (parent: TransferQueue)
      ensures this.parent == parent && next == null
    {
      this.parent, next := parent, null;
    }
  }

  ghost predicate IsTdList(head: TransferDescriptor?, list: seq<TransferDescriptor>)
    reads list
  {
    if list == [] then head == null
    else
      head == list[0] && list[|list| - 1].next == null &&
      forall i {:trigger list[i].next} :: 0 <= i < |list| - 1 ==> list[i].next == list[i + 1]
  }

  lemma {:induction false} TdListIsAcyclic(list: seq<TransferDescriptor>)
    requires list != [] ==> IsTdList(list[0], list)
    ensures forall i, j :: 0 <= i < j < |list| ==> list[i] != list[j]
  {
    forall a, b | 0 <= a < |list| - 1 && 0 <= b < |list| && list[a] == list[b]
      ensures b < |list| - 1 && list[a + 1] == list[b + 1]
    {
      assert list[a].next == list[a + 1];
      assert b < |list| - 1 ==> list[b].next == list[b + 1];
    }
    forall i, j | 0 <= i < j < |list|
      ensures list[i] != list[j]
    {
      Unrepeated(list, i, j);
    }
  }

  function Reversed<T>(s: seq<T>): (r: seq<T>)
    ensures |r| == |s| && forall i :: 0 <= i < |s| ==> r[i] == s[|s| - 1 - i]
  {
    if s == [] then [] else Reversed(s[1..]) + [s[0]]
  }

  /** Reverses a list in place. */
  method TdReverse(td: TransferDescriptor?, ghost list: seq<TransferDescriptor>) returns (result: TransferDescriptor?)
    requires IsTdList(td, list)
    modifies list
    ensures IsTdList(result, Reversed(list))
  {
    TdListIsAcyclic(list);
    result := null;
    var rest := td;
    ghost var k := 0;
    while rest != null
      invariant 0 <= k <= |list|
      invariant rest == (if k < |list| then list[k] else null)
      invariant forall i {:trigger list[i].next} :: k <= i < |list| - 1 ==> list[i].next == list[i + 1]
      invariant k < |list| ==> list[|list| - 1].next == null
      invariant result == (if k > 0 then list[k - 1] else null)
      invariant forall i {:trigger list[i].next} :: 0 < i < k ==> list[i].next == list[i - 1]
      invariant k > 0 ==> list[0].next == null
      decreases |list| - k
    {
      var next := rest.next;
      rest.next := result;
      result := rest;
      rest := next;
      k := k + 1;
    }
  }

  /** The transfer descriptors of a list that belong to one endpoint, in order. */
  function Of(tds: seq<TransferDescriptor>, queue: TransferQueue): seq<TransferDescriptor> {
    if tds == [] then []
    else Of(tds[..|tds| - 1], queue) + (if tds[|tds| - 1].parent == queue then [tds[|tds| - 1]] else [])
  }

  /** What a done queue holds after more descriptors are put in: those that find no room are lost. */
  function Filled(queue: seq<TransferDescriptor>, more: seq<TransferDescriptor>): seq<TransferDescriptor> {
    if |queue| >= HCTD_QUEUE_SIZE then queue
    else if |queue| + |more| <= HCTD_QUEUE_SIZE then queue + more
    else queue + more[..HCTD_QUEUE_SIZE - |queue|]
  }

  /** Nothing is lost exactly when all of them find room. */
  lemma {:induction false} NothingLostIff(queue: seq<TransferDescriptor>, more: seq<TransferDescriptor>)
    requires |queue| <= HCTD_QUEUE_SIZE
    ensures Filled(queue, more) == queue + more <==> |queue| + |more| <= HCTD_QUEUE_SIZE
    ensures Filled(queue, more) <= queue + more
  {
    if |queue| == HCTD_QUEUE_SIZE && more != [] {
      assert |queue + more| > |queue|;
    }
    assert |queue| + |more| > HCTD_QUEUE_SIZE ==> |Filled(queue, more)| == HCTD_QUEUE_SIZE;
  }

  /** The two queues of an endpoint: what the controller still has to do, and what it has done. */
  class TransferQueue {
    var headTd: TransferDescriptor?
    var tailTd: TransferDescriptor?
    var doneQueue: seq<TransferDescriptor>

    constructor ()
      ensures headTd == null && tailTd == null && doneQueue == []
    {
      headTd, tailTd, doneQueue := null, null, [];
    }

    /** The queue of descriptors to do, the last one being a blank. */
    ghost predicate Holds(list: seq<TransferDescriptor>)
      reads this, list
    {
      list != [] && IsTdList(headTd, list) && tailTd == list[|list| - 1]
    }

    method Enqueue(td: TransferDescriptor?, ghost list: seq<TransferDescriptor>) returns (ok: bool)
      requires tailTd != null ==> Holds(list)
      requires td != null ==> td !in list && td.next == null
      modifies this`tailTd, tailTd
      ensures ok == (td != null && old(tailTd) != null)
      ensures ok ==> Holds(list + [td]) && headTd == old(headTd)
      ensures !ok ==> tailTd == old(tailTd) && (tailTd != null ==> Holds(list))
    {
      if td != null {
        var tail := tailTd;
        if tail != null {
          tail.next := td;
          tailTd := td;
          return true;
        }
      }
      return false;
    }

    method IrqWdhHandler(td: TransferDescriptor)
      modifies this`doneQueue
      ensures doneQueue == Filled(old(doneQueue), [td])
    {
      if |doneQueue| < HCTD_QUEUE_SIZE {
        doneQueue := doneQueue + [td];
      }
    }
  }

  lemma {:induction false} FilledTwice(queue: seq<TransferDescriptor>, more: seq<TransferDescriptor>,
                                       last: seq<TransferDescriptor>)
    requires |last| <= 1
    ensures Filled(Filled(queue, more), last) == Filled(queue, more + last)
  {
  }

  lemma {:induction false} OfNext(tds: seq<TransferDescriptor>, k: nat, queue: TransferQueue)
    requires k < |tds|
    ensures Of(tds[..k + 1], queue) == Of(tds[..k], queue) + if tds[k].parent == queue then [tds[k]] else []
  {
    assert tds[..k + 1][..k] == tds[..k];
  }

  /** Hands one descriptor to its endpoint. */
  method DeliverOne(td: TransferDescriptor, ghost queues: set<TransferQueue>,
                    ghost before: map<TransferQueue, seq<TransferDescriptor>>,
                    ghost completed: seq<TransferDescriptor>, ghost k: nat)
    requires k < |completed| && td == completed[k] && td.parent in queues && queues == before.Keys
    requires forall q :: q in queues ==> q.doneQueue == Filled(before[q], Of(completed[..k], q))
    modifies td.parent`doneQueue
    ensures forall q :: q in queues ==> q.doneQueue == Filled(before[q], Of(completed[..k + 1], q))
  {
    hide Filled, Of;
    td.parent.IrqWdhHandler(td);
    forall q | q in queues
      ensures q.doneQueue == Filled(before[q], Of(completed[..k + 1], q))
    {
      OfNext(completed, k, q);
      if td.parent == q {
        FilledTwice(before[q], Of(completed[..k], q), [td]);
      } else {
        assert Of(completed[..k + 1], q) == Of(completed[..k], q);
      }
    }
  }

  /** The done-list part of the interrupt handler. The controller pushes each finished descriptor on the front of the
      list, so `list` is the order of completion backwards; the endpoints receive theirs forwards. */
  method DeliverDone(doneHead: TransferDescriptor?, ghost list: seq<TransferDescriptor>,
                     ghost queues: set<TransferQueue>)
    requires IsTdList(doneHead, list)
    requires forall td :: td in list ==> td.parent in queues
    modifies list, queues`doneQueue
    ensures forall q :: q in queues ==> q.doneQueue == Filled(old(q.doneQueue), Of(Reversed(list), q))
    ensures forall q :: q in queues ==> q.headTd == old(q.headTd) && q.tailTd == old(q.tailTd)
  {
    hide Filled, Of;
    TdListIsAcyclic(list);
    ghost var before := map q | q in queues :: q.doneQueue;
    var td := TdReverse(doneHead, list);
    ghost var completed := Reversed(list);
    ghost var k := 0;
    NoneDelivered(completed);
    assert completed[..0] == [];
    while td != null
      invariant 0 <= k <= |completed|
      invariant td == (if k < |completed| then completed[k] else null)
      invariant IsTdList(if list == [] then null else completed[0], completed)
      invariant forall q :: q in queues ==> q.doneQueue == Filled(before[q], Of(completed[..k], q))
      decreases |completed| - k
    {
      assert completed[k] == list[|list| - 1 - k];
      DeliverOne(td, queues, before, completed, k);
      td := td.next;
      k := k + 1;
    }
    assert completed[..|completed|] == completed;
  }

  lemma {:induction false} NoneDelivered(tds: seq<TransferDescriptor>)
    ensures forall q :: Of([], q) == []
    ensures forall queue :: Filled(queue, []) == queue
  {
  }

  /** Four descriptors that complete before any is taken out: the one that completed last is lost. */
  method FourthIsLost(queue: TransferQueue) returns (tds: seq<TransferDescriptor>)
    requires queue.doneQueue == []
    modifies queue`doneQueue
    ensures |tds| == 4 && queue.doneQueue == tds[..3] && tds[3] !in queue.doneQueue
  {
    hide Reversed, Of, Filled;
    var a := new TransferDescriptor(queue);
    var b := new TransferDescriptor(queue);
    var c := new TransferDescriptor(queue);
    var d := new TransferDescriptor(queue);
    d.next := c;
    c.next := b;
    b.next := a;
    tds := [a, b, c, d];
    assert IsTdList(d, [d, c, b, a]);
    AllLost(tds, [d, c, b, a], queue);
    DeliverDone(d, [d, c, b, a], {queue});
  }

  lemma {:induction false} AllLost(tds: seq<TransferDescriptor>, list: seq<TransferDescriptor>, queue: TransferQueue)
    requires |tds| == |list| == 4 && list == [tds[3], tds[2], tds[1], tds[0]]
    requires forall td :: td in tds ==> td.parent == queue
    ensures Filled([], Of(Reversed(list), queue)) == tds[..3]
  {
    hide Reversed, Of;
    assert Reversed(list) == tds;
    AllOf(tds, queue);
  }

  lemma {:induction false} AllOf(tds: seq<TransferDescriptor>, queue: TransferQueue)
    requires forall td :: td in tds ==> td.parent == queue
    ensures Of(tds, queue) == tds
  {
    if tds != [] {
      AllOf(tds[..|tds| - 1], queue);
    }
  }
}
