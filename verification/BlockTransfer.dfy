/** Fetching an image block by block (Block2, section 2.2 of RFC 7959) over a network that loses messages: how one
    attempt goes, and from which exchanges it ends how. */
module BlockTransfer {

  const BYTEPAYLOADLEN: nat := 1024
  const TRIES: nat := 5

  // ----- The request

  /** The two bytes of the Block2 option in a request for block `number`, with blocks of 1024 bytes: the processor is
      little-endian, and the code swaps the bytes of the 16-bit value before it copies them from memory. */
  function BlockRequest(number: nat): (bytes: seq<nat>)
    ensures |bytes| == 2 && bytes[0] < 0x100 && bytes[1] < 0x100
  {
    var value := (number * 16 + 6) % 0x1_0000;
    var swapped := value % 0x100 * 0x100 + value / 0x100 % 0x100;
    [swapped % 0x100, swapped / 0x100]
  }

  /** Read as RFC 7959 says, the option asks for this block, without the more-bit, in units of 2^(6+4) bytes: exactly
      while the number fits 12 bits. */
  lemma {:induction false} BlockRequestIff(number: nat)
    ensures var v := BlockRequest(number)[0] * 0x100 + BlockRequest(number)[1];
            v % 16 == 6 && (v / 16 == number <==> number < 0x1000)
  {
    hide BlockRequest;
    LowBits(number);
    RequestIs(number);
    var low := number % 0x1000;
    assert (low * 16 + 6) / 16 == low && (low * 16 + 6) % 16 == 6;
    assert low == number <==> number < 0x1000;
  }

  lemma {:induction false} LowBits(number: nat)
    ensures (number * 16 + 6) % 0x1_0000 == number % 0x1000 * 16 + 6
  {
    var low, high := number % 0x1000, number / 0x1000;
    assert number * 16 + 6 == high * 0x1_0000 + (low * 16 + 6);
  }

  lemma {:induction false} RequestIs(number: nat)
    ensures BlockRequest(number)[0] * 0x100 + BlockRequest(number)[1] == (number * 16 + 6) % 0x1_0000
  {
    TwoBytes((number * 16 + 6) % 0x1_0000);
  }

  lemma {:induction false} TwoBytes(value: nat)
    requires value < 0x1_0000
    ensures var swapped := value % 0x100 * 0x100 + value / 0x100 % 0x100;
            swapped % 0x100 == value / 0x100 && swapped / 0x100 == value % 0x100
  {
  }

  // ----- The blocks of an image

  function Min(a: int, b: int): int {
    if a < b then a else b
  }

  /** The image up to the end of block `k - 1`. */
  function FirstBlocks(image: seq<bv8>, k: nat): (first: seq<bv8>)
    ensures |first| <= |image|
  {
    image[..Min(k * BYTEPAYLOADLEN, |image|)]
  }

  function BlockOf(image: seq<bv8>, k: nat): seq<bv8>
    requires k * BYTEPAYLOADLEN < |image|
  {
    image[k * BYTEPAYLOADLEN..Min((k + 1) * BYTEPAYLOADLEN, |image|)]
  }

  lemma {:induction false} NextBlock(image: seq<bv8>, k: nat)
    requires k * BYTEPAYLOADLEN < |image|
    ensures FirstBlocks(image, k + 1) == FirstBlocks(image, k) + BlockOf(image, k)
    ensures |FirstBlocks(image, k)| == k * BYTEPAYLOADLEN
  {
  }

  // ----- Client and network

  /** What one exchange with the server comes to. A reply carries its payload and the more-bit of its Block2 option. */
  datatype Event = SendFailed | TimedOut | Malformed | Reply(payload: seq<bv8>, more: bool)

  /** The network answers the `t`-th exchange of an attempt, which asks for block `k`. */
  type Network = (nat, nat) -> Event

  /** A reply is a status report rather than a block: its length is not that of a full block, and it reads as one. */
  predicate IsStatusReply(event: Event, isStatus: seq<bv8> -> bool) {
    event.Reply? && |event.payload| != BYTEPAYLOADLEN && isStatus(event.payload)
  }

  predicate IsBlock(event: Event, isStatus: seq<bv8> -> bool) {
    event.Reply? && !IsStatusReply(event, isStatus)
  }

  /** The replies that are not status reports are the blocks that were asked for. */
  ghost predicate Serves(net: Network, isStatus: seq<bv8> -> bool, image: seq<bv8>) {
    forall t: nat, k: nat :: IsBlock(net(t, k), isStatus) && k * BYTEPAYLOADLEN < |image| ==>
      net(t, k).payload == BlockOf(image, k) && (net(t, k).more <==> (k + 1) * BYTEPAYLOADLEN < |image|)
  }

  /** The result that an attempt returns, and how many blocks it stored. */
  datatype Ended = Ended(r: int, stored: nat)

  /** The attempt from exchange `t` on. A timeout only leads to another exchange when `next` is set, which is not so
      before the first reply. */
  ghost function AttemptFrom(net: Network, isStatus: seq<bv8> -> bool, image: seq<bv8>, t: nat, k: nat, tryNum1: nat,
                             tryNum2: nat, next: bool): Ended
    requires Serves(net, isStatus, image) && k * BYTEPAYLOADLEN < |image|
    decreases |image| - k * BYTEPAYLOADLEN, tryNum2, tryNum1
  {
    var event := net(t, k);
    match event
    case SendFailed => Ended(-2, k)
    case TimedOut =>
      if tryNum1 == 0 then Ended(-3, k)
      else if !next then Ended(0, k)
      else AttemptFrom(net, isStatus, image, t + 1, k, tryNum1 - 1, tryNum2, next)
    case Malformed => Ended(-4, k)
    case Reply(payload, more) =>
      if IsStatusReply(event, isStatus) then
        if tryNum2 == 0 then Ended(-5, k)
        else AttemptFrom(net, isStatus, image, t + 1, k, TRIES, tryNum2 - 1, true)
      else if !more then Ended(0, k + 1)
      else AttemptFrom(net, isStatus, image, t + 1, k + 1, TRIES, TRIES, true)
  }

  ghost function Attempt(net: Network, isStatus: seq<bv8> -> bool, image: seq<bv8>): Ended
    requires Serves(net, isStatus, image) && image != []
  {
    AttemptFrom(net, isStatus, image, 0, 0, TRIES, TRIES, false)
  }

  // ----- The exchanges as they follow one another

  /** The block that exchange `t` asks for: as many blocks came before. */
  function Asked(net: Network, isStatus: seq<bv8> -> bool, t: nat): nat {
    if t == 0 then 0
    else
      var k := Asked(net, isStatus, t - 1);
      if IsBlock(net(t - 1, k), isStatus) then k + 1 else k
  }

  function EventAt(net: Network, isStatus: seq<bv8> -> bool, t: nat): Event {
    net(t, Asked(net, isStatus, t))
  }

  /** How many timeouts in a row come right before exchange `t`. */
  function Timeouts(net: Network, isStatus: seq<bv8> -> bool, t: nat): nat {
    if t == 0 || !EventAt(net, isStatus, t - 1).TimedOut? then 0 else Timeouts(net, isStatus, t - 1) + 1
  }

  /** How many status replies came since the last block. */
  function Statuses(net: Network, isStatus: seq<bv8> -> bool, t: nat): nat {
    if t == 0 || IsBlock(EventAt(net, isStatus, t - 1), isStatus) then 0
    else Statuses(net, isStatus, t - 1) + if IsStatusReply(EventAt(net, isStatus, t - 1), isStatus) then 1 else 0
  }

  /** Exchange `t` does not end the attempt. */
  predicate GoesOn(net: Network, isStatus: seq<bv8> -> bool, image: seq<bv8>, t: nat) {
    match EventAt(net, isStatus, t)
    case SendFailed => false
    case TimedOut => t > 0 && Timeouts(net, isStatus, t) < TRIES
    case Malformed => false
    case Reply(_, _) =>
      if IsStatusReply(EventAt(net, isStatus, t), isStatus) then Statuses(net, isStatus, t) < TRIES
      else (Asked(net, isStatus, t) + 1) * BYTEPAYLOADLEN < |image|
  }

  /** What the attempt comes to when exchange `t` ends it. */
  function ResultAt(net: Network, isStatus: seq<bv8> -> bool, t: nat): Ended {
    var k := Asked(net, isStatus, t);
    match EventAt(net, isStatus, t)
    case SendFailed => Ended(-2, k)
    case TimedOut => Ended(if t == 0 then 0 else -3, k)
    case Malformed => Ended(-4, k)
    case Reply(_, _) => if IsStatusReply(EventAt(net, isStatus, t), isStatus) then Ended(-5, k) else Ended(0, k + 1)
  }

  /** Exchange `t` is the last one. */
  predicate EndsAt(net: Network, isStatus: seq<bv8> -> bool, image: seq<bv8>, t: nat) {
    (forall i :: 0 <= i < t ==> GoesOn(net, isStatus, image, i)) && !GoesOn(net, isStatus, image, t)
  }

  /** The counter of timeouts has reached `n` exactly when the last `n` exchanges timed out. */
  lemma {:induction false} TimeoutsInARow(net: Network, isStatus: seq<bv8> -> bool, t: nat, n: nat)
    ensures Timeouts(net, isStatus, t) >= n <==> n <= t && forall i :: t - n <= i < t ==>
            EventAt(net, isStatus, i).TimedOut?
    decreases n
  {
    if 0 < n && 0 < t && EventAt(net, isStatus, t - 1).TimedOut? {
      TimeoutsInARow(net, isStatus, t - 1, n - 1);
    }
  }

  lemma {:induction false} AttemptEndsAt(net: Network, isStatus: seq<bv8> -> bool, image: seq<bv8>,
                                         t: nat) returns (last: nat)
    requires Serves(net, isStatus, image) && Asked(net, isStatus, t) * BYTEPAYLOADLEN < |image|
    requires Timeouts(net, isStatus, t) <= TRIES && Statuses(net, isStatus, t) <= TRIES
    requires forall i :: 0 <= i < t ==> GoesOn(net, isStatus, image, i)
    ensures EndsAt(net, isStatus, image, last)
    ensures AttemptFrom(net, isStatus, image, t, Asked(net, isStatus, t), TRIES - Timeouts(net, isStatus, t),
                        TRIES - Statuses(net, isStatus, t), t > 0) == ResultAt(net, isStatus, last)
    decreases |image| - Asked(net, isStatus, t) * BYTEPAYLOADLEN, TRIES - Statuses(net, isStatus, t),
              TRIES - Timeouts(net, isStatus, t)
  {
    if GoesOn(net, isStatus, image, t) {
      last := AttemptEndsAt(net, isStatus, image, t + 1);
    } else {
      last := t;
    }
  }

  /** Exactly one exchange is the last one, and the attempt comes to what that exchange says. */
  lemma {:induction false} AttemptIff(net: Network, isStatus: seq<bv8> -> bool, image: seq<bv8>, e: Ended)
    requires Serves(net, isStatus, image) && image != []
    ensures e == Attempt(net, isStatus, image) <==>
            exists t: nat :: EndsAt(net, isStatus, image, t) && e == ResultAt(net, isStatus, t)
  {
    hide AttemptFrom, GoesOn, ResultAt, Serves;
    var last := AttemptEndsAt(net, isStatus, image, 0);
    forall t: nat | EndsAt(net, isStatus, image, t)
      ensures t == last
    {
    }
  }

  // ----- What follows

  /** Everything is stored exactly when the last exchange brings the last block. */
  lemma {:induction false} SuccessIff(net: Network, isStatus: seq<bv8> -> bool, image: seq<bv8>)
    requires Serves(net, isStatus, image) && image != []
    ensures var e := Attempt(net, isStatus, image);
            (e.r == 0 && e.stored > 0 <==>
             exists t: nat :: EndsAt(net, isStatus, image, t) && IsBlock(EventAt(net, isStatus, t), isStatus)) &&
            (e.r == 0 && e.stored > 0 ==> FirstBlocks(image, e.stored) == image) &&
            (e.r == 0 && e.stored == 0 <==> net(0, 0).TimedOut?) &&
            e.r in {0, -2, -3, -4, -5} && (e.stored == 0 || (e.stored - 1) * BYTEPAYLOADLEN < |image|)
  {
    hide AttemptFrom, Serves;
    var e := Attempt(net, isStatus, image);
    AttemptIff(net, isStatus, image, e);
    var t: nat :| EndsAt(net, isStatus, image, t) && e == ResultAt(net, isStatus, t);
    AskedInImage(net, isStatus, image, t);
    assert t > 0 ==> GoesOn(net, isStatus, image, 0);
    assert Asked(net, isStatus, 0) == 0;
    forall u: nat | EndsAt(net, isStatus, image, u)
      ensures u == t
    {
    }
  }

  lemma {:induction false} AskedInImage(net: Network, isStatus: seq<bv8> -> bool, image: seq<bv8>, t: nat)
    requires image != [] && forall i :: 0 <= i < t ==> GoesOn(net, isStatus, image, i)
    ensures Asked(net, isStatus, t) * BYTEPAYLOADLEN < |image|
  {
    if t > 0 {
      AskedInImage(net, isStatus, image, t - 1);
      assert GoesOn(net, isStatus, image, t - 1);
    }
  }

  predicate SixTimeouts(net: Network, isStatus: seq<bv8> -> bool, t: nat) {
    forall i :: t <= i < t + 6 ==> EventAt(net, isStatus, i).TimedOut?
  }

  /** In the first `n` exchanges messages may be lost or put off, but not the first one, not six times in a row, and
      with at most five status replies for a block; nothing else goes wrong. */
  predicate Bearable(net: Network, isStatus: seq<bv8> -> bool, n: nat) {
    (n > 0 ==> !EventAt(net, isStatus, 0).TimedOut?) &&
    (forall t :: 0 <= t < n ==> !EventAt(net, isStatus, t).SendFailed? && !EventAt(net, isStatus, t).Malformed?) &&
    (forall t :: 0 <= t <= n - 6 ==> !SixTimeouts(net, isStatus, t)) &&
    (forall t :: 0 <= t <= n ==> Statuses(net, isStatus, t) <= 5)
  }

  /** The whole image is stored exactly when so many exchanges are bearable that they bring all its blocks. */
  lemma {:induction false} DeliveredIff(net: Network, isStatus: seq<bv8> -> bool, image: seq<bv8>)
    requires Serves(net, isStatus, image) && image != []
    ensures var e := Attempt(net, isStatus, image);
            e.r == 0 && e.stored > 0 <==>
            exists n: nat :: Bearable(net, isStatus, n) && Asked(net, isStatus, n) * BYTEPAYLOADLEN >= |image|
  {
    hide Attempt, AttemptFrom, Serves, Bearable, Asked, IsBlock, EventAt;
    SuccessIff(net, isStatus, image);
    var last := EndOf(net, isStatus, image);
    if IsBlock(EventAt(net, isStatus, last), isStatus) {
      GoingOnIsBearable(net, isStatus, image, last);
    }
    if n: nat :| Bearable(net, isStatus, n) && Asked(net, isStatus, n) * BYTEPAYLOADLEN >= |image| {
      BearableEndsWithBlock(net, isStatus, image, last, n);
    }
  }

  lemma {:induction false} EndOf(net: Network, isStatus: seq<bv8> -> bool, image: seq<bv8>) returns (last: nat)
    requires Serves(net, isStatus, image) && image != []
    ensures EndsAt(net, isStatus, image, last)
    ensures forall t: nat :: EndsAt(net, isStatus, image, t) ==> t == last
  {
    hide AttemptFrom, GoesOn, ResultAt, Serves;
    last := AttemptEndsAt(net, isStatus, image, 0);
  }

  lemma {:induction false} FewStatuses(net: Network, isStatus: seq<bv8> -> bool, image: seq<bv8>, t: nat)
    requires forall i :: 0 <= i < t ==> GoesOn(net, isStatus, image, i)
    ensures Statuses(net, isStatus, t) <= 5
  {
    if t > 0 {
      FewStatuses(net, isStatus, image, t - 1);
      assert GoesOn(net, isStatus, image, t - 1);
    }
  }

  lemma {:induction false} GoingOnIsBearable(net: Network, isStatus: seq<bv8> -> bool, image: seq<bv8>, last: nat)
    requires EndsAt(net, isStatus, image, last) && IsBlock(EventAt(net, isStatus, last), isStatus)
    ensures Bearable(net, isStatus, last + 1) && Asked(net, isStatus, last + 1) * BYTEPAYLOADLEN >= |image|
  {
    hide Asked, Timeouts;
    assert last > 0 ==> GoesOn(net, isStatus, image, 0);
    forall t | 0 <= t < last + 1
      ensures !EventAt(net, isStatus, t).SendFailed? && !EventAt(net, isStatus, t).Malformed?
    {
      assert t < last ==> GoesOn(net, isStatus, image, t);
    }
    forall t | 0 <= t <= last + 1 - 6
      ensures !SixTimeouts(net, isStatus, t)
    {
      TimeoutsInARow(net, isStatus, t + 5, 5);
      assert SixTimeouts(net, isStatus, t) ==> EventAt(net, isStatus, t + 5).TimedOut?;
      assert t + 5 < last ==> GoesOn(net, isStatus, image, t + 5);
    }
    forall t | 0 <= t <= last + 1
      ensures Statuses(net, isStatus, t) <= 5
    {
      if t <= last {
        FewStatuses(net, isStatus, image, t);
      }
    }
    AskedNext(net, isStatus, last);
  }

  lemma {:induction false} AskedNext(net: Network, isStatus: seq<bv8> -> bool, t: nat)
    ensures Asked(net, isStatus, t + 1)
         == Asked(net, isStatus, t) + if IsBlock(EventAt(net, isStatus, t), isStatus) then 1 else 0
  {
  }

  lemma {:induction false} BearableEndsWithBlock(net: Network, isStatus: seq<bv8> -> bool, image: seq<bv8>, last: nat,
                                                 n: nat)
    requires image != [] && EndsAt(net, isStatus, image, last)
    requires Bearable(net, isStatus, n) && Asked(net, isStatus, n) * BYTEPAYLOADLEN >= |image|
    ensures IsBlock(EventAt(net, isStatus, last), isStatus)
  {
    hide Asked, Timeouts;
    var event := EventAt(net, isStatus, last);
    TimeoutsInARow(net, isStatus, last, 5);
    assert event.TimedOut? && Timeouts(net, isStatus, last) >= 5 ==> SixTimeouts(net, isStatus, last - 5);
    assert IsStatusReply(event, isStatus) ==> Statuses(net, isStatus, last + 1) == Statuses(net, isStatus, last) + 1;
    if n <= last {
      AskedInImage(net, isStatus, image, n);
    }
  }

  // ----- Failing before anything is stored

  /** The attempt ends before the first block came. */
  ghost predicate FailsAtOnce(net: Network, isStatus: seq<bv8> -> bool, image: seq<bv8>) {
    exists t: nat :: EndsAt(net, isStatus, image, t) &&
                     forall i :: 0 <= i <= t ==> !IsBlock(EventAt(net, isStatus, i), isStatus)
  }

  lemma {:induction false} NothingStoredIff(net: Network, isStatus: seq<bv8> -> bool, image: seq<bv8>)
    requires Serves(net, isStatus, image) && image != []
    ensures Attempt(net, isStatus, image).stored == 0 <==> FailsAtOnce(net, isStatus, image)
  {
    hide Attempt, AttemptFrom, Serves, Asked, EventAt, EndsAt, IsBlock;
    var e := Attempt(net, isStatus, image);
    AttemptIff(net, isStatus, image, e);
    var last := EndOf(net, isStatus, image);
    NoneAskedIff(net, isStatus, last);
    AskedNext(net, isStatus, last);
  }

  lemma {:induction false} NoneAskedIff(net: Network, isStatus: seq<bv8> -> bool, t: nat)
    ensures ResultAt(net, isStatus, t).stored == 0 <==>
            forall i :: 0 <= i <= t ==> !IsBlock(EventAt(net, isStatus, i), isStatus)
    decreases t
  {
    if t > 0 {
      NoneAskedIff(net, isStatus, t - 1);
    }
  }
}
