/** Downloading a firmware image block by block (Block2 of RFC 7959, section 2.2) into one of two flash buffers. */
module FirmwareUpdate {
  import opened BlockTransfer
  import opened Flash25

  const USER_IMG_MAP_BUF_SIZE: nat := 0x40000
  const USER_IMG_MAP_BUF_FLAG_LEN: nat := 4
  const USER_IMG_MAP_BLOCK_SIZE: nat := 0x8000
  /** The room for an image in a buffer. */
  const IMAGE_MAX: nat := USER_IMG_MAP_BUF_SIZE - USER_IMG_MAP_BUF_FLAG_LEN

  /** 0x04030201 as the processor stores it. */
  const VALID_FLAG: seq<bv8> := [0x01, 0x02, 0x03, 0x04]
  const CLEAR_FLAG: seq<bv8> := [0xFF, 0xFF, 0xFF, 0xFF]

  // ----- The two buffers

  function BufferStart(i: nat): nat {
    i * USER_IMG_MAP_BUF_SIZE
  }

  predicate TwoBuffers(mem: seq<bv8>) {
    |mem| >= 2 * USER_IMG_MAP_BUF_SIZE
  }

  function Flag(mem: seq<bv8>, i: nat): seq<bv8>
    requires TwoBuffers(mem) && i < 2
  {
    mem[BufferStart(i)..BufferStart(i) + USER_IMG_MAP_BUF_FLAG_LEN]
  }

  predicate BufferErased(mem: seq<bv8>, i: nat)
    requires TwoBuffers(mem) && i < 2
  {
    IsErased(mem, BufferStart(i), USER_IMG_MAP_BUF_SIZE)
  }

  /** A buffer can be chosen, and whichever can be chosen is empty. */
  predicate Ready(mem: seq<bv8>) {
    TwoBuffers(mem) && (Flag(mem, 0) == CLEAR_FLAG || Flag(mem, 1) == CLEAR_FLAG) &&
    forall i: nat :: i < 2 && Flag(mem, i) == CLEAR_FLAG ==> BufferErased(mem, i)
  }

  /** The buffer that the next download will use: the first one whose flag is clear. */
  function Chosen(mem: seq<bv8>): (i: nat)
    requires TwoBuffers(mem)
    ensures i <= 2
  {
    if Flag(mem, 0) == CLEAR_FLAG then 0 else if Flag(mem, 1) == CLEAR_FLAG then 1 else 2
  }

  /** Memory after buffer `i` was marked and the other one erased. */
  function Prepared(mem: seq<bv8>, i: nat): (r: seq<bv8>)
    requires TwoBuffers(mem) && i < 2
    ensures |r| == |mem|
  {
    Cleared(Programmed(mem, BufferStart(i), VALID_FLAG), BufferStart(1 - i), USER_IMG_MAP_BUF_SIZE)
  }

  /** Memory after some of an image was stored as well. */
  function WithImage(mem: seq<bv8>, i: nat, image: seq<bv8>): (r: seq<bv8>)
    requires TwoBuffers(mem) && i < 2 && |image| <= IMAGE_MAX
    ensures |r| == |mem|
  {
    Programmed(Prepared(mem, i), BufferStart(i) + USER_IMG_MAP_BUF_FLAG_LEN, image)
  }

  /** Buffer `i` as an attempt leaves it: the flag, the stored bytes, and erased memory behind them. */
  predicate Holds(mem: seq<bv8>, i: nat, image: seq<bv8>)
    requires TwoBuffers(mem) && i < 2 && |image| <= IMAGE_MAX
  {
    var start := BufferStart(i) + USER_IMG_MAP_BUF_FLAG_LEN;
    Flag(mem, i) == VALID_FLAG && mem[start..start + |image|] == image &&
    IsErased(mem, start + |image|, IMAGE_MAX - |image|)
  }

  lemma {:induction false} WithImageAt(mem: seq<bv8>, i: nat, image: seq<bv8>, k: nat)
    requires TwoBuffers(mem) && i < 2 && |image| <= IMAGE_MAX && k < |mem|
    ensures var start := BufferStart(i) + USER_IMG_MAP_BUF_FLAG_LEN;
            WithImage(mem, i, image)[k] ==
              if BufferStart(1 - i) <= k < BufferStart(1 - i) + USER_IMG_MAP_BUF_SIZE then ERASED
              else if BufferStart(i) <= k < start then mem[k] & VALID_FLAG[k - BufferStart(i)]
              else if start <= k < start + |image| then mem[k] & image[k - start]
              else mem[k]
  {
  }

  lemma {:induction false} OtherBufferErased(mem: seq<bv8>, i: nat, image: seq<bv8>)
    requires TwoBuffers(mem) && i < 2 && |image| <= IMAGE_MAX
    ensures BufferErased(WithImage(mem, i, image), 1 - i)
    ensures WithImage(mem, i, image)[2 * USER_IMG_MAP_BUF_SIZE..] == mem[2 * USER_IMG_MAP_BUF_SIZE..]
  {
    hide WithImage;
    forall k | BufferStart(1 - i) <= k < BufferStart(1 - i) + USER_IMG_MAP_BUF_SIZE
      ensures WithImage(mem, i, image)[k] == ERASED
    {
      WithImageAt(mem, i, image, k);
    }
    forall k | 2 * USER_IMG_MAP_BUF_SIZE <= k < |mem|
      ensures WithImage(mem, i, image)[k] == mem[k]
    {
      WithImageAt(mem, i, image, k);
    }
  }

  lemma {:induction false} ThisBufferHolds(mem: seq<bv8>, i: nat, image: seq<bv8>)
    requires TwoBuffers(mem) && i < 2 && |image| <= IMAGE_MAX && BufferErased(mem, i)
    ensures Holds(WithImage(mem, i, image), i, image)
  {
    hide WithImage;
    var start, after := BufferStart(i) + USER_IMG_MAP_BUF_FLAG_LEN, WithImage(mem, i, image);
    forall k | BufferStart(i) <= k < BufferStart(i) + USER_IMG_MAP_BUF_SIZE
      ensures after[k] == if k < start then VALID_FLAG[k - BufferStart(i)]
                          else if k < start + |image| then image[k - start] else ERASED
    {
      WithImageAt(mem, i, image, k);
      if k < start {
        OnesAreNeutral(VALID_FLAG[k - BufferStart(i)]);
      } else if k < start + |image| {
        OnesAreNeutral(image[k - start]);
      }
    }
  }

  lemma {:induction false} ErasedIsClear(mem: seq<bv8>, i: nat)
    requires TwoBuffers(mem) && i < 2 && BufferErased(mem, i)
    ensures Flag(mem, i) == CLEAR_FLAG
  {
  }

  /** After any download attempt the buffer it used is marked valid, holds what was stored and is otherwise empty; the
      other one is empty and the next to be used; nothing else changed. */
  lemma {:induction false} AfterAttempt(mem: seq<bv8>, image: seq<bv8>)
    requires Ready(mem) && |image| <= IMAGE_MAX
    ensures var i := Chosen(mem);
            i < 2 &&
            var after := WithImage(mem, i, image);
            Ready(after) && Chosen(after) == 1 - i && Holds(after, i, image) && BufferErased(after, 1 - i) &&
            after[2 * USER_IMG_MAP_BUF_SIZE..] == mem[2 * USER_IMG_MAP_BUF_SIZE..]
  {
    hide WithImage, BufferErased;
    var i := Chosen(mem);
    OtherBufferErased(mem, i, image);
    ThisBufferHolds(mem, i, image);
    ErasedIsClear(WithImage(mem, i, image), 1 - i);
    assert VALID_FLAG[0] != CLEAR_FLAG[0];
  }

  // ----- The recorded length

  /** What attempts add to the recorded file length, given the number of blocks that each of them stored. */
  function AddedLength(image: seq<bv8>, stores: seq<nat>): nat {
    if stores == [] then 0
    else AddedLength(image, stores[..|stores| - 1]) + |FirstBlocks(image, stores[|stores| - 1])|
  }

  lemma {:induction false} OneMoreAdded(image: seq<bv8>, stores: seq<nat>, stored: nat)
    ensures AddedLength(image, stores + [stored]) == AddedLength(image, stores) + |FirstBlocks(image, stored)|
    ensures AddedLength(image, []) == 0
  {
    assert (stores + [stored])[..|stores|] == stores;
  }

  lemma {:induction false} NothingAddedIff(image: seq<bv8>, stores: seq<nat>)
    requires image != []
    ensures AddedLength(image, stores) == 0 <==> forall a :: 0 <= a < |stores| ==> stores[a] == 0
  {
    if stores != [] {
      var init := stores[..|stores| - 1];
      NothingAddedIff(image, init);
      assert forall a :: 0 <= a < |init| ==> init[a] == stores[a];
    }
  }

  /** After a complete download the length is that of the image exactly when no failed attempt stored a block. */
  lemma {:induction false} LengthIsRightIff(image: seq<bv8>, stores: seq<nat>)
    requires image != [] && stores != [] && FirstBlocks(image, stores[|stores| - 1]) == image
    ensures AddedLength(image, stores) == |image| <==> forall a :: 0 <= a < |stores| - 1 ==> stores[a] == 0
  {
    var init := stores[..|stores| - 1];
    NothingAddedIff(image, init);
    assert forall a :: 0 <= a < |init| ==> init[a] == stores[a];
  }

  /** In terms of the networks: the length recorded by attempts the last of which stored the whole image is right
      exactly when every attempt before it ended before its first block came. */
  lemma {:induction false} RecordedLengthIff(nets: nat -> Network, isStatus: seq<bv8> -> bool, image: seq<bv8>,
                                             stores: seq<nat>)
    requires image != [] && stores != [] && forall a: nat :: Serves(nets(a), isStatus, image)
    requires forall a :: 0 <= a < |stores| ==> stores[a] == Attempt(nets(a), isStatus, image).stored
    requires FirstBlocks(image, stores[|stores| - 1]) == image
    ensures AddedLength(image, stores) == |image|
       <==> forall a :: 0 <= a < |stores| - 1 ==> FailsAtOnce(nets(a), isStatus, image)
  {
    hide Attempt, FailsAtOnce, AddedLength, Serves;
    forall a | 0 <= a < |stores|
      ensures stores[a] == 0 <==> FailsAtOnce(nets(a), isStatus, image)
    {
      NothingStoredIff(nets(a), isStatus, image);
    }
    LengthIsRightIff(image, stores);
  }

  /** A network that delivers the first block and then fails to send. */
  function Breaking(image: seq<bv8>): Network
    requires |image| > BYTEPAYLOADLEN
  {
    (t, k) => if t == 0 && k == 0 then Reply(BlockOf(image, 0), true) else SendFailed
  }

  /** A network that delivers every block. */
  function Working(image: seq<bv8>): Network {
    (t: nat, k: nat) =>
      if k * BYTEPAYLOADLEN < |image| then Reply(BlockOf(image, k), (k + 1) * BYTEPAYLOADLEN < |image|) else SendFailed
  }

  /** An image of 1025 bytes over a connection that breaks once and then works: 2049 bytes are recorded. */
  lemma {:induction false} FailedAttemptCounts(image: seq<bv8>, isStatus: seq<bv8> -> bool)
    requires |image| == 1025 && forall payload :: !isStatus(payload)
    ensures Serves(Breaking(image), isStatus, image) && Attempt(Breaking(image), isStatus, image) == Ended(-2, 1)
    ensures Serves(Working(image), isStatus, image) && Attempt(Working(image), isStatus, image) == Ended(0, 2)
    ensures AddedLength(image, [1, 2]) == 2049
  {
    var broken := AttemptFrom(Breaking(image), isStatus, image, 1, 1, TRIES, TRIES, true);
    assert broken == Ended(-2, 1);
    var finished := AttemptFrom(Working(image), isStatus, image, 1, 1, TRIES, TRIES, true);
    assert finished == Ended(0, 2);
    assert [1, 2][..1] == [1] && [1][..0] == [];
    assert AddedLength(image, []) == 0 && AddedLength(image, [1]) == 1024;
  }

  class Updater {
    const flash: Flash
    /** How many bytes of the image were stored; it is only reset when the update is announced. */
    var fileLength: int

    ghost predicate Valid() {
      flash.Valid() && flash.blockSize == USER_IMG_MAP_BLOCK_SIZE && flash.mem.Length >= 2 * USER_IMG_MAP_BUF_SIZE
    }

    constructor (flash: Flash)
      requires flash.Valid() && flash.blockSize == USER_IMG_MAP_BLOCK_SIZE
      requires 2 * USER_IMG_MAP_BUF_SIZE <= flash.mem.Length
      ensures Valid() && this.flash == flash && fileLength == 0
    {
      this.flash, fileLength := flash, 0;
    }

    method EraseBuffer(start: nat)
      requires Valid() && start % USER_IMG_MAP_BLOCK_SIZE == 0 && start + USER_IMG_MAP_BUF_SIZE <= flash.mem.Length
      modifies flash.mem
      ensures flash.mem[..] == Cleared(old(flash.mem[..]), start, USER_IMG_MAP_BUF_SIZE)
    {
      ghost var before := flash.mem[..];
      ClearNothing(before, start);
      for i := 0 to USER_IMG_MAP_BUF_SIZE / USER_IMG_MAP_BLOCK_SIZE
        invariant flash.mem[..] == Cleared(before, start, i * USER_IMG_MAP_BLOCK_SIZE)
      {
        ClearConcat(before, start, i * USER_IMG_MAP_BLOCK_SIZE, USER_IMG_MAP_BLOCK_SIZE);
        AlignedAddress(start, i);
        flash.ClearBlock(start + i * USER_IMG_MAP_BLOCK_SIZE);
      }
    }

    lemma {:induction false} AlignedAddress(start: nat, i: nat)
      requires start % USER_IMG_MAP_BLOCK_SIZE == 0
      ensures (start + i * USER_IMG_MAP_BLOCK_SIZE) % USER_IMG_MAP_BLOCK_SIZE == 0
    {
    }

    /** Marks the first buffer whose flag is clear, and erases the other one. */
    method ChooseBuffer() returns (i: nat)
      requires Valid()
      modifies flash.mem
      ensures i == Chosen(old(flash.mem[..]))
      ensures flash.mem[..] == if i < 2 then Prepared(old(flash.mem[..]), i) else old(flash.mem[..])
    {
      hide Prepared;
      i := 0;
      while i < 2
        invariant i <= 2 && flash.mem[..] == old(flash.mem[..])
        invariant forall j: nat :: j < i ==> Flag(flash.mem[..], j) != CLEAR_FLAG
      {
        var ok, flag := flash.Read(BufferStart(i), USER_IMG_MAP_BUF_FLAG_LEN);
        assert flag == Flag(flash.mem[..], i);
        if flag == CLEAR_FLAG {
          Prepare(i);
          return;
        }
        i := i + 1;
      }
    }

    method Prepare(i: nat)
      requires Valid() && i < 2
      modifies flash.mem
      ensures flash.mem[..] == Prepared(old(flash.mem[..]), i)
    {
      hide Programmed, Cleared;
      var written := flash.Write(BufferStart(i), VALID_FLAG);
      EraseBuffer(BufferStart(1 - i));
    }

    /** Writes the block that was asked for behind the blocks before it. */
    method StoreBlock(payload: seq<bv8>, stored: nat, blockAddr: nat, ghost i: nat, ghost before: seq<bv8>,
                      ghost image: seq<bv8>) returns (ok: bool)
      requires Valid() && |before| == flash.mem.Length && i < 2 && |image| <= IMAGE_MAX
      requires stored * BYTEPAYLOADLEN < |image| && payload == BlockOf(image, stored)
      requires blockAddr == BufferStart(i) + USER_IMG_MAP_BUF_FLAG_LEN
      requires flash.mem[..] == WithImage(before, i, FirstBlocks(image, stored))
      modifies this`fileLength, flash.mem
      ensures ok && flash.mem[..] == WithImage(before, i, FirstBlocks(image, stored + 1))
      ensures fileLength == old(fileLength) + |FirstBlocks(image, stored + 1)| - |FirstBlocks(image, stored)|
    {
      hide WithImage, Prepared, FirstBlocks, BlockOf, Programmed, BufferStart, Valid, Flash.Valid;
      MemoryFits();
      StoredNext(before, i, image, stored);
      fileLength := fileLength + |payload|;
      ghost var next := FirstBlocks(image, stored + 1);
      assert Programmed(flash.mem[..], blockAddr + stored * BYTEPAYLOADLEN, payload) == WithImage(before, i, next);
      ok := WriteInside(blockAddr + stored * BYTEPAYLOADLEN, payload);
    }

    /** A write that fits the memory cannot fail. */
    method WriteInside(start: nat, data: seq<bv8>) returns (ok: bool)
      requires Valid() && start + |data| <= flash.mem.Length
      modifies flash.mem
      ensures ok && flash.mem[..] == Programmed(old(flash.mem[..]), start, data)
    {
      MemoryFits();
      ok := flash.Write(start, data);
    }

    lemma {:induction false} MemoryFits()
      requires Valid()
      ensures flash.Valid() && TwoBuffers(flash.mem[..]) && flash.mem.Length < 0x1_0000_0000
    {
    }

    lemma {:induction false} StoredNext(mem: seq<bv8>, i: nat, image: seq<bv8>, k: nat)
      requires TwoBuffers(mem) && i < 2 && k * BYTEPAYLOADLEN < |image| <= IMAGE_MAX
      ensures var start := BufferStart(i) + USER_IMG_MAP_BUF_FLAG_LEN + k * BYTEPAYLOADLEN;
              |BlockOf(image, k)| == |FirstBlocks(image, k + 1)| - |FirstBlocks(image, k)| &&
              start + |BlockOf(image, k)| <= |mem| &&
              Programmed(WithImage(mem, i, FirstBlocks(image, k)), start, BlockOf(image, k))
                == WithImage(mem, i, FirstBlocks(image, k + 1))
    {
      hide Prepared;
      NextBlock(image, k);
      ProgramConcat(Prepared(mem, i), BufferStart(i) + USER_IMG_MAP_BUF_FLAG_LEN, FirstBlocks(image, k),
                    BlockOf(image, k));
    }

    /** One attempt. `stored` counts the blocks that were written. */
    method Download(net: Network, isStatus: seq<bv8> -> bool, ghost image: seq<bv8>) returns (r: int, stored: nat)
      requires Valid() && 0 < |image| <= IMAGE_MAX && Serves(net, isStatus, image)
      modifies this`fileLength, flash.mem
      ensures r == -1 <==> Chosen(old(flash.mem[..])) == 2
      ensures r == -1 ==> stored == 0 && flash.mem[..] == old(flash.mem[..]) && fileLength == old(fileLength)
      ensures r != -1 ==>
                Ended(r, stored) == Attempt(net, isStatus, image) &&
                flash.mem[..] == WithImage(old(flash.mem[..]), Chosen(old(flash.mem[..])),
                                           FirstBlocks(image, stored)) &&
                fileLength == old(fileLength) + |FirstBlocks(image, stored)|
    {
      hide WithImage, Prepared, Flag, BufferErased, BlockOf, FirstBlocks;
      ghost var before := flash.mem[..];
      var i := ChooseBuffer();
      if i == 2 {
        return -1, 0;
      }
      NothingStored(before, i, image);
      SuccessIff(net, isStatus, image);
      ghost var goal := Attempt(net, isStatus, image);
      var blockAddr := BufferStart(i) + USER_IMG_MAP_BUF_FLAG_LEN;
      var tryNum1, tryNum2 := TRIES, TRIES;
      var again, nextCoapBlock := true, false;
      var t: nat := 0;
      r, stored := 0, 0;
      while again
        invariant again ==> stored * BYTEPAYLOADLEN < |image|
        invariant flash.mem[..] == WithImage(before, i, FirstBlocks(image, stored))
        invariant fileLength == old(fileLength) + |FirstBlocks(image, stored)|
        invariant 0 <= tryNum1 <= TRIES && 0 <= tryNum2 <= TRIES
        invariant goal == if again then AttemptFrom(net, isStatus, image, t, stored, tryNum1, tryNum2, nextCoapBlock)
                          else Ended(0, stored)
        decreases |image| - stored * BYTEPAYLOADLEN, tryNum2, tryNum1, again
      {
        var event := net(t, stored);
        t := t + 1;
        match event {
          case SendFailed => return -2, stored;
          case TimedOut =>
            if tryNum1 == 0 {
              return -3, stored;
            }
            tryNum1 := tryNum1 - 1;
            again := nextCoapBlock;
            continue;
          case Malformed => return -4, stored;
          case Reply(payload, more) =>
        }
        tryNum1 := TRIES;
        if |event.payload| != BYTEPAYLOADLEN && isStatus(event.payload) {
          nextCoapBlock := true;
          if tryNum2 == 0 {
            return -5, stored;
          }
          tryNum2 := tryNum2 - 1;
          continue;
        }
        tryNum2 := TRIES;
        var ok := StoreBlock(event.payload, stored, blockAddr, i, before, image);
        if !ok {
          return -5, stored;
        }
        nextCoapBlock := event.more;
        stored := stored + 1;
        again := nextCoapBlock;
      }
      return 0, stored;
    }

    /** The loop around the attempts: a round of at most six. `stores` counts the blocks that each attempt stored. */
    method DownloadWithRetries(nets: nat -> Network, isStatus: seq<bv8> -> bool, ghost image: seq<bv8>)
      returns (r: int, attempts: nat, ghost stores: seq<nat>)
      requires Valid() && Ready(flash.mem[..]) && 0 < |image| <= IMAGE_MAX
      requires forall a: nat :: Serves(nets(a), isStatus, image)
      modifies this`fileLength, flash.mem
      ensures 1 <= attempts == |stores| <= 6 && (r != 0 ==> attempts == 6)
      ensures AreAttempts(nets, isStatus, image, stores, r)
      ensures Ready(flash.mem[..]) && LastHolds(Chosen(old(flash.mem[..])), image, stores)
      ensures flash.mem[2 * USER_IMG_MAP_BUF_SIZE..] == old(flash.mem[2 * USER_IMG_MAP_BUF_SIZE..])
      ensures fileLength == old(fileLength) + AddedLength(image, stores)
    {
      hide WithImage, Prepared, Ready, BufferErased, Holds, FirstBlocks, Chosen, Flag, Serves, Attempt, AddedLength;
      OneMoreAdded(image, [], 0);
      var tryNum := 5;
      attempts, stores := 0, [];
      ghost var tail := flash.mem[..][2 * USER_IMG_MAP_BUF_SIZE..];
      ReadyChosen(flash.mem[..]);
      while true
        invariant attempts == 5 - tryNum == |stores| && 0 <= tryNum <= 5
        invariant fileLength == old(fileLength) + AddedLength(image, stores)
        invariant forall a :: 0 <= a < attempts ==> stores[a] == Attempt(nets(a), isStatus, image).stored &&
                                                    Attempt(nets(a), isStatus, image).r != 0
        invariant Ready(flash.mem[..]) && Chosen(flash.mem[..]) == LastUsed(Chosen(old(flash.mem[..])), attempts + 1)
        invariant flash.mem[..][2 * USER_IMG_MAP_BUF_SIZE..] == tail
        decreases tryNum
      {
        AfterAttempt(flash.mem[..], []);
        ghost var before := flash.mem[..];
        var stored;
        r, stored := Download(nets(attempts), isStatus, image);
        attempts := attempts + 1;
        OneMoreAdded(image, stores, stored);
        stores := stores + [stored];
        AfterAttempt(before, FirstBlocks(image, stored));
        if r == 0 || tryNum == 0 {
          return;
        }
        tryNum := tryNum - 1;
      }
    }

    /** The step of the update that downloads: round after round, with waits between them, until one succeeds. It is
        left here after some number of rounds. `stores` has all their attempts. */
    method DownloadInRounds(nets: nat -> Network, isStatus: seq<bv8> -> bool, rounds: nat, ghost image: seq<bv8>)
      returns (r: int, ghost stores: seq<nat>)
      requires Valid() && Ready(flash.mem[..]) && 0 < |image| <= IMAGE_MAX && rounds > 0
      requires forall a: nat :: Serves(nets(a), isStatus, image)
      modifies this`fileLength, flash.mem
      ensures 1 <= |stores| <= 6 * rounds && (r != 0 ==> |stores| == 6 * rounds)
      ensures AreAttempts(nets, isStatus, image, stores, r)
      ensures Ready(flash.mem[..]) && LastHolds(Chosen(old(flash.mem[..])), image, stores)
      ensures flash.mem[2 * USER_IMG_MAP_BUF_SIZE..] == old(flash.mem[2 * USER_IMG_MAP_BUF_SIZE..])
      ensures fileLength == old(fileLength) + AddedLength(image, stores)
    {
      hide Ready, BufferErased, Holds, FirstBlocks, Chosen, Serves, Attempt, AddedLength, LastUsed, AreAttempts,
           LastHolds;
      ghost var first, tail := Chosen(flash.mem[..]), flash.mem[2 * USER_IMG_MAP_BUF_SIZE..];
      ReadyChosen(flash.mem[..]);
      var attempts: nat;
      r, attempts, stores := DownloadWithRetries(nets, isStatus, image);
      var round := 1;
      while r != 0 && round < rounds
        invariant 1 <= round <= rounds && 1 <= attempts == |stores| <= 6 * round && (r != 0 ==> |stores| == 6 * round)
        invariant AreAttempts(nets, isStatus, image, stores, r)
        invariant Ready(flash.mem[..]) && LastHolds(first, image, stores)
        invariant flash.mem[2 * USER_IMG_MAP_BUF_SIZE..] == tail
        invariant fileLength == old(fileLength) + AddedLength(image, stores)
        decreases rounds - round
      {
        var count: nat;
        r, count, stores := AnotherRound(nets, isStatus, image, attempts, first, stores, r);
        attempts := attempts + count;
        round := round + 1;
      }
    }

    /** One more round after some that failed. */
    method AnotherRound(nets: nat -> Network, isStatus: seq<bv8> -> bool, ghost image: seq<bv8>, attempts: nat,
                        ghost first: nat, ghost before: seq<nat>, ghost failed: int)
      returns (r: int, count: nat, ghost stores: seq<nat>)
      requires Valid() && Ready(flash.mem[..]) && 0 < |image| <= IMAGE_MAX && attempts == |before| > 0 && failed != 0
      requires first < 2 && forall a: nat :: Serves(nets(a), isStatus, image)
      requires AreAttempts(nets, isStatus, image, before, failed) && LastHolds(first, image, before)
      modifies this`fileLength, flash.mem
      ensures 1 <= count <= 6 && (r != 0 ==> count == 6) && |stores| == |before| + count
      ensures AreAttempts(nets, isStatus, image, stores, r)
      ensures Ready(flash.mem[..]) && LastHolds(first, image, stores)
      ensures flash.mem[2 * USER_IMG_MAP_BUF_SIZE..] == old(flash.mem[2 * USER_IMG_MAP_BUF_SIZE..])
      ensures fileLength + AddedLength(image, before) == old(fileLength) + AddedLength(image, stores)
    {
      hide Ready, BufferErased, Holds, FirstBlocks, Chosen, Serves, Attempt, AddedLength, LastUsed, AreAttempts;
      ghost var more;
      var later := (a: nat) => nets(attempts + a);
      r, count, more := DownloadWithRetries(later, isStatus, image);
      AttemptsJoin(nets, later, isStatus, image, before, failed, more, r);
      TakeTurns(first, |before|, count);
      AddedConcat(image, before, more);
      stores := before + more;
    }

    /** Each attempt stored what it is specified to store, and only the last one can have succeeded. */
    ghost predicate AreAttempts(nets: nat -> Network, isStatus: seq<bv8> -> bool, image: seq<bv8>, stores: seq<nat>,
                                r: int)
      requires image != [] && forall a: nat :: Serves(nets(a), isStatus, image)
    {
      stores != [] && r == Attempt(nets(|stores| - 1), isStatus, image).r &&
      forall a :: 0 <= a < |stores| ==>
        stores[a] == Attempt(nets(a), isStatus, image).stored &&
        (Attempt(nets(a), isStatus, image).r == 0 <==> r == 0 && a == |stores| - 1)
    }

    lemma {:induction false} AttemptsJoin(nets: nat -> Network, later: nat -> Network, isStatus: seq<bv8> -> bool,
                                          image: seq<bv8>, a: seq<nat>, failed: int, b: seq<nat>, r: int)
      requires image != [] && (forall i: nat :: Serves(nets(i), isStatus, image))
      requires forall i: nat :: later(i) == nets(|a| + i)
      requires AreAttempts(nets, isStatus, image, a, failed) && failed != 0
      requires (forall i: nat :: Serves(later(i), isStatus, image)) && AreAttempts(later, isStatus, image, b, r)
      ensures AreAttempts(nets, isStatus, image, a + b, r)
    {
      hide Attempt, Serves;
      assert later(|b| - 1) == nets(|a + b| - 1);
      forall i | 0 <= i < |a + b|
        ensures (a + b)[i] == Attempt(nets(i), isStatus, image).stored
        ensures Attempt(nets(i), isStatus, image).r == 0 <==> r == 0 && i == |a + b| - 1
      {
        hide AreAttempts;
        if i < |a| {
          AttemptAt(nets, isStatus, image, a, failed, i);
        } else {
          assert later(i - |a|) == nets(i);
          AttemptAt(later, isStatus, image, b, r, i - |a|);
        }
      }
    }

    lemma {:induction false} AttemptAt(nets: nat -> Network, isStatus: seq<bv8> -> bool, image: seq<bv8>,
                                       stores: seq<nat>, r: int, i: nat)
      requires image != [] && (forall a: nat :: Serves(nets(a), isStatus, image))
      requires AreAttempts(nets, isStatus, image, stores, r) && i < |stores|
      ensures stores[i] == Attempt(nets(i), isStatus, image).stored
      ensures Attempt(nets(i), isStatus, image).r == 0 <==> r == 0 && i == |stores| - 1
    {
      hide Attempt, Serves;
    }

    /** The buffer whose turn it was holds what the last attempt stored; the other one is empty and next. */
    ghost predicate LastHolds(first: nat, image: seq<bv8>, stores: seq<nat>)
      reads this, flash, flash.mem
      requires Valid() && |image| <= IMAGE_MAX && stores != []
    {
      var last, stored := LastUsed(first, |stores|), stores[|stores| - 1];
      last < 2 && Holds(flash.mem[..], last, FirstBlocks(image, stored)) && BufferErased(flash.mem[..], 1 - last) &&
      Chosen(flash.mem[..]) == 1 - last
    }

    lemma {:induction false} TakeTurns(first: nat, m: nat, n: nat)
      requires m > 0 && n > 0
      ensures first < 2 ==> LastUsed(1 - LastUsed(first, m), n) == LastUsed(first, m + n)
    {
    }

    lemma {:induction false} AddedConcat(image: seq<bv8>, a: seq<nat>, b: seq<nat>)
      ensures AddedLength(image, a + b) == AddedLength(image, a) + AddedLength(image, b)
    {
      if b == [] {
        assert a + b == a;
      } else {
        AddedConcat(image, a, b[..|b| - 1]);
        assert (a + b)[..|a + b| - 1] == a + b[..|b| - 1];
      }
    }

    /** The buffers take turns: the one that the `n`-th attempt uses when the first attempt uses `first`. */
    function LastUsed(first: nat, n: nat): nat
      requires n > 0
    {
      if first >= 2 then first else if n % 2 == 1 then first else 1 - first
    }

    lemma {:induction false} ReadyChosen(mem: seq<bv8>)
      requires Ready(mem)
      ensures Chosen(mem) < 2
    {
    }

    lemma {:induction false} NothingStored(mem: seq<bv8>, i: nat, image: seq<bv8>)
      requires TwoBuffers(mem) && i < 2
      ensures FirstBlocks(image, 0) == [] && WithImage(mem, i, []) == Prepared(mem, i)
    {
      ProgramNothing(Prepared(mem, i), BufferStart(i) + USER_IMG_MAP_BUF_FLAG_LEN);
    }
  }
}
