/** First-fit allocation of the USB RAM in chunks of 64 bytes. The map holds, for every chunk of a block, the number of
    chunks from there to the end of the block, and 0 for a free chunk. */
module UsbRam {

  type byte = x: int | 0 <= x < 0x100

  const CHUNK_SIZE: nat := 64
  const BLOCK_COUNT: nat := 256

  /** Live blocks: the first chunk of each, and how many chunks it has. */
  type Blocks = map<nat, nat>

  predicate Within(blocks: Blocks, start: nat, c: int) {
    start in blocks && start <= c < start + blocks[start]
  }

  ghost predicate WellPlaced(blocks: Blocks) {
    (forall s :: s in blocks ==> 1 <= blocks[s] <= 0xFF && s + blocks[s] <= BLOCK_COUNT) &&
    (forall s, t, c :: Within(blocks, s, c) && Within(blocks, t, c) ==> s == t)
  }

  /** The map shows exactly these blocks. */
  ghost predicate Describes(cells: seq<byte>, blocks: Blocks) {
    |cells| >= BLOCK_COUNT && WellPlaced(blocks) &&
    (forall s, c :: Within(blocks, s, c) ==> cells[c] == s + blocks[s] - c) &&
    (forall c :: 0 <= c < BLOCK_COUNT && cells[c] != 0 ==> exists s :: Within(blocks, s, c))
  }

  predicate FreeRun(cells: seq<byte>, idx: nat, needs: nat) {
    idx + needs <= |cells| && forall i :: idx <= i < idx + needs ==> cells[i] == 0
  }

  predicate Aligned(base: nat, idx: nat, alignment: nat)
    requires alignment > 0
  {
    (base + idx * CHUNK_SIZE) % alignment == 0
  }

  /** How many chunks a request for some bytes takes. */
  function Chunks(size: nat): nat {
    (size + CHUNK_SIZE - 1) / CHUNK_SIZE
  }

  /** No chunk of the map from `lo` on begins a free run. */
  ghost predicate NoRun(cells: seq<byte>, needs: nat, lo: nat) {
    forall j: nat :: lo <= j < BLOCK_COUNT ==> !FreeRun(cells, j, needs)
  }

  /** No chunk of the map below `hi` begins a free run and is aligned. */
  ghost predicate NoAlignedRun(cells: seq<byte>, base: nat, needs: nat, alignment: nat, hi: int)
    requires alignment > 0
  {
    forall j: nat :: j < hi && j < BLOCK_COUNT && FreeRun(cells, j, needs) ==> !Aligned(base, j, alignment)
  }

  /** A block of `needs` chunks can start at chunk `idx`. */
  predicate Fits(cells: seq<byte>, base: nat, needs: nat, alignment: nat, idx: nat)
    requires alignment > 0
  {
    idx + needs <= BLOCK_COUNT && idx < BLOCK_COUNT && FreeRun(cells, idx, needs) && Aligned(base, idx, alignment)
  }

  lemma {:induction false} FirstAlignedIsFirstFit(cells: seq<byte>, base: nat, needs: nat, alignment: nat, idx: nat)
    requires alignment > 0 && idx < BLOCK_COUNT && FreeRun(cells, idx, needs) && Aligned(base, idx, alignment)
    requires NoAlignedRun(cells, base, needs, alignment, idx)
    ensures !NoAlignedRun(cells, base, needs, alignment, BLOCK_COUNT) && !NoRun(cells, needs, 0)
    ensures Fits(cells, base, needs, alignment, idx) <==> idx + needs <= BLOCK_COUNT
    ensures forall j :: 0 <= j < idx ==> !Fits(cells, base, needs, alignment, j)
    ensures idx + needs > BLOCK_COUNT ==> forall j :: 0 <= j < BLOCK_COUNT ==> !Fits(cells, base, needs, alignment, j)
  {
  }

  lemma {:induction false} NothingFits(cells: seq<byte>, base: nat, needs: nat, alignment: nat, last: int)
    requires alignment > 0 && NoAlignedRun(cells, base, needs, alignment, BLOCK_COUNT)
    requires -1 <= last < BLOCK_COUNT && (last >= 0 ==> FreeRun(cells, last, needs)) && NoRun(cells, needs, last + 1)
    ensures forall j :: 0 <= j < BLOCK_COUNT ==> !Fits(cells, base, needs, alignment, j)
    ensures NoRun(cells, needs, 0) <==> last == -1
  {
  }

  lemma {:induction false} BlockOfTooManyChunks(cells: seq<byte>, blocks: Blocks, idx: nat)
    requires idx in blocks && Describes(cells, blocks)
    ensures blocks[idx] <= 0xFF
  {
  }

  /** The map is determined by the blocks, so removing a block brings back the map from before it. */
  lemma {:induction false} MapOfBlocks(c1: seq<byte>, c2: seq<byte>, blocks: Blocks)
    requires Describes(c1, blocks) && Describes(c2, blocks)
    ensures c1[..BLOCK_COUNT] == c2[..BLOCK_COUNT]
  {
    forall c | 0 <= c < BLOCK_COUNT
      ensures c1[c] == c2[c]
    {
      if exists s :: Within(blocks, s, c) {
        var s :| Within(blocks, s, c);
      }
    }
  }

  /** The run at `idx` meets its first used chunk at `idx + i`. Skipping ahead by the count found there passes over
      no chunk where the block could start. */
  lemma {:induction false} SkipIsSafe(cells: seq<byte>, blocks: Blocks, needs: nat, idx: nat, i: nat, j: nat)
    requires Describes(cells, blocks) && i < needs && idx + i < BLOCK_COUNT && cells[idx + i] != 0
    requires idx <= j < idx + cells[idx + i]
    ensures !FreeRun(cells, j, needs)
  {
    var s :| Within(blocks, s, idx + i);
    if idx + i < j {
      assert Within(blocks, s, j);
    }
  }

  function Marked(cells: seq<byte>, idx: nat, needs: nat): (marked: seq<byte>)
    requires idx + needs <= |cells|
    ensures |marked| == |cells|
    ensures forall c :: 0 <= c < |cells| ==>
              marked[c] == if idx <= c < idx + needs then (idx + needs - c) % 0x100 else cells[c]
  {
    cells[..idx] + seq(needs, i requires 0 <= i < needs => ((needs - i) % 0x100) as byte) + cells[idx + needs..]
  }

  function Cleared(cells: seq<byte>, idx: nat, count: nat): (cleared: seq<byte>)
    requires idx + count <= |cells|
    ensures |cleared| == |cells|
    ensures forall c :: 0 <= c < |cells| ==> cleared[c] == if idx <= c < idx + count then 0 else cells[c]
  {
    cells[..idx] + seq(count, i => 0) + cells[idx + count..]
  }

  lemma {:induction false} MarkingAddsBlock(cells: seq<byte>, blocks: Blocks, idx: nat, needs: nat)
    requires Describes(cells, blocks) && 1 <= needs <= 0xFF && idx + needs <= BLOCK_COUNT && FreeRun(cells, idx, needs)
    ensures idx !in blocks && Describes(Marked(cells, idx, needs), blocks[idx := needs])
  {
    hide Marked;
    assert idx in blocks ==> Within(blocks, idx, idx);
    var blocks' := blocks[idx := needs];
    assert forall s, c :: Within(blocks', s, c) ==>
             (s == idx && idx <= c < idx + needs) || (s != idx && Within(blocks, s, c));
    assert forall s, c :: Within(blocks, s, c) ==> Within(blocks', s, c) && cells[c] != 0;
    forall c | 0 <= c < BLOCK_COUNT && Marked(cells, idx, needs)[c] != 0
      ensures exists s :: Within(blocks', s, c)
    {
      if idx <= c < idx + needs {
        assert Within(blocks', idx, c);
      } else {
        var s :| Within(blocks, s, c);
        assert Within(blocks', s, c);
      }
    }
  }

  /** A request for all 256 chunks does not fit the eight bits of a cell: its first chunk still counts as free, so the
      same address is handed out again. */
  lemma {:induction false} WholeRamStaysFree(cells: seq<byte>, base: nat, alignment: nat)
    requires |cells| >= BLOCK_COUNT && alignment > 0 && Aligned(base, 0, alignment)
    ensures Fits(Marked(cells, 0, BLOCK_COUNT), base, 1, alignment, 0)
  {
  }

  /** A request for no bytes is met by any aligned chunk, also by one in use, and leaves the map as it is. */
  lemma {:induction false} EmptyRequestFitsAnywhere(cells: seq<byte>, base: nat, alignment: nat, idx: nat)
    requires |cells| >= BLOCK_COUNT && alignment > 0 && idx < BLOCK_COUNT
    ensures Fits(cells, base, 0, alignment, idx) <==> Aligned(base, idx, alignment)
    ensures Marked(cells, idx, 0) == cells
  {
  }

  lemma {:induction false} ClearingRemovesBlock(cells: seq<byte>, blocks: Blocks, idx: nat)
    requires Describes(cells, blocks) && idx in blocks
    ensures cells[idx] == blocks[idx] && Describes(Cleared(cells, idx, cells[idx]), blocks - {idx})
  {
    assert Within(blocks, idx, idx);
    var blocks' := blocks - {idx};
    assert forall s, c :: Within(blocks', s, c) ==> s != idx && Within(blocks, s, c);
    forall c | 0 <= c < BLOCK_COUNT && Cleared(cells, idx, cells[idx])[c] != 0
      ensures exists s :: Within(blocks', s, c)
    {
      var s :| Within(blocks, s, c);
      assert s != idx;
      assert Within(blocks', s, c);
    }
    forall s, c | Within(blocks', s, c)
      ensures Cleared(cells, idx, cells[idx])[c] == s + blocks'[s] - c
    {
      assert Within(blocks, s, c);
      assert !Within(blocks, idx, c);
    }
  }

  /** Clearing from a used chunk on leaves a map of blocks exactly when that chunk is the first of its block. */
  lemma {:induction false} ClearingIsSafeIff(cells: seq<byte>, blocks: Blocks, idx: nat)
    requires Describes(cells, blocks) && idx < BLOCK_COUNT && cells[idx] != 0
    ensures idx + cells[idx] <= BLOCK_COUNT
    ensures (exists blocks' :: Describes(Cleared(cells, idx, cells[idx]), blocks')) <==> idx in blocks
  {
    var s :| Within(blocks, s, idx);
    var cleared := Cleared(cells, idx, cells[idx]);
    if idx in blocks {
      ClearingRemovesBlock(cells, blocks, idx);
    } else {
      assert Within(blocks, s, idx - 1);
      forall blocks'
        ensures !Describes(cleared, blocks')
      {
        BrokenCountdown(cleared, blocks', idx);
      }
    }
  }

  lemma {:induction false} BrokenCountdown(cells: seq<byte>, blocks: Blocks, idx: nat)
    requires 0 < idx < BLOCK_COUNT <= |cells| && cells[idx - 1] > 1 && cells[idx] == 0
    ensures !Describes(cells, blocks)
  {
    if s: nat :| Within(blocks, s, idx - 1) && cells[idx - 1] == s + blocks[s] - (idx - 1) {
      assert Within(blocks, s, idx);
    }
  }

  /** `Block` is an allocation. `Unreserved` is a pointer that the allocator returns without having reserved anything.
      `NoMemory` and `PastEnd` are its two failing assertions. */
  datatype Outcome = Block(idx: nat) | Unreserved(idx: nat) | NoMemory | PastEnd

  class Allocator {
    const base: nat
    /** The map, and behind it whatever the heap holds there: the search for a long run can read on past the map. */
    const cells: array<byte>
    ghost var blocks: Blocks

    ghost predicate Valid()
      reads this, cells
    {
      base % 256 == 0 && Describes(cells[..], blocks)
    }

    constructor (base: nat, cells: array<byte>)
      requires base % 256 == 0 && cells.Length >= BLOCK_COUNT
      modifies cells
      ensures Valid() && this.base == base && this.cells == cells && blocks == map[]
      ensures forall c :: 0 <= c < cells.Length ==> cells[c] == if c < BLOCK_COUNT then 0 else old(cells[c])
    {
      this.base, this.cells, blocks := base, cells, map[];
      new;
      forall c | 0 <= c < BLOCK_COUNT {
        cells[c] := 0;
      }
    }

    method Malloc(size: nat, alignment: nat) returns (r: Outcome)
      requires Valid() && alignment >= 4 && alignment % 4 == 0
      requires BLOCK_COUNT + Chunks(size) <= cells.Length
      modifies this`blocks, cells
      ensures match r
              case Block(idx) =>
                Fits(old(cells[..]), base, Chunks(size), alignment, idx) &&
                cells[..] == Marked(old(cells[..]), idx, Chunks(size)) &&
                blocks == (if Chunks(size) == 0 then old(blocks) else old(blocks)[idx := Chunks(size)]) &&
                (forall j :: 0 <= j < idx ==> !Fits(old(cells[..]), base, Chunks(size), alignment, j))
              case _ =>
                cells[..] == old(cells[..]) && blocks == old(blocks) &&
                (forall j :: 0 <= j < BLOCK_COUNT ==> !Fits(cells[..], base, Chunks(size), alignment, j))
      ensures r.NoMemory? <==> NoRun(old(cells[..]), Chunks(size), 0)
      ensures r.Unreserved? <==> !NoRun(old(cells[..]), Chunks(size), 0) &&
                                 NoAlignedRun(old(cells[..]), base, Chunks(size), alignment, BLOCK_COUNT)
      ensures r.Unreserved? ==> r.idx < BLOCK_COUNT && FreeRun(old(cells[..]), r.idx, Chunks(size)) &&
                                NoRun(old(cells[..]), Chunks(size), r.idx + 1)
      ensures Valid() <==> !r.Block? || size <= 0xFF * CHUNK_SIZE
    {
      hide Fits, NoRun, NoAlignedRun, FreeRun, Aligned, Describes, Marked;
      var needs := Chunks(size);
      var idx, p := Search(needs, alignment);
      if idx < BLOCK_COUNT {
        FirstAlignedIsFirstFit(cells[..], base, needs, alignment, idx);
        if idx + needs > BLOCK_COUNT {
          return PastEnd;
        }
        if 1 <= needs <= 0xFF {
          MarkingAddsBlock(cells[..], blocks, idx, needs);
        }
        Mark(idx, needs);
        if needs > 0 {
          blocks := blocks[idx := needs];
          if Valid() {
            BlockOfTooManyChunks(cells[..], blocks, idx);
          }
        } else {
          EmptyRequestFitsAnywhere(old(cells[..]), base, alignment, idx);
        }
        return Block(idx);
      }
      NothingFits(cells[..], base, needs, alignment, p);
      if p == -1 {
        return NoMemory;
      }
      return Unreserved(p);
    }

    /** The loop over the chunks: the first aligned chunk that begins a free run, or else (`idx` behind the map) the
        last misaligned one in `p`, -1 if there is none. */
    method Search(needs: nat, alignment: nat) returns (idx: nat, p: int)
      requires Valid() && alignment > 0 && BLOCK_COUNT + needs <= cells.Length
      ensures idx < BLOCK_COUNT ==> FreeRun(cells[..], idx, needs) && Aligned(base, idx, alignment) &&
                                    NoAlignedRun(cells[..], base, needs, alignment, idx)
      ensures idx >= BLOCK_COUNT ==> NoAlignedRun(cells[..], base, needs, alignment, BLOCK_COUNT) &&
                                     -1 <= p < BLOCK_COUNT && (p >= 0 ==> FreeRun(cells[..], p, needs)) &&
                                     NoRun(cells[..], needs, p + 1)
    {
      p := -1;
      idx := 0;
      while idx < BLOCK_COUNT
        invariant -1 <= p < idx && p < BLOCK_COUNT && (p >= 0 ==> FreeRun(cells[..], p, needs))
        invariant forall j: nat :: p < j < idx && j < BLOCK_COUNT ==> !FreeRun(cells[..], j, needs)
        invariant NoAlignedRun(cells[..], base, needs, alignment, idx)
      {
        var i := FirstUsed(idx, needs);
        if i < needs {
          if idx + i < BLOCK_COUNT {
            forall j: nat | idx <= j < idx + cells[idx + i]
              ensures !FreeRun(cells[..], j, needs)
            {
              SkipIsSafe(cells[..], blocks, needs, idx, i, j);
            }
          }
          idx := idx + cells[idx + i];
          continue;
        }
        p := idx;
        if (base + idx * CHUNK_SIZE) % alignment == 0 {
          return;
        }
        idx := idx + 1;
      }
    }

    /** The inner search: the offset of the first used chunk of a run, or `needs` when the run is free. */
    method FirstUsed(idx: nat, needs: nat) returns (i: nat)
      requires idx + needs <= cells.Length
      ensures i <= needs && (i < needs ==> cells[idx + i] != 0)
      ensures forall j :: idx <= j < idx + i ==> cells[j] == 0
      ensures i == needs <==> FreeRun(cells[..], idx, needs)
    {
      i := 0;
      while i < needs
        invariant i <= needs && forall j :: idx <= j < idx + i ==> cells[j] == 0
      {
        if cells[idx + i] != 0 {
          return;
        }
        i := i + 1;
      }
    }

    method Mark(idx: nat, needs: nat)
      requires idx + needs <= cells.Length
      modifies cells
      ensures cells[..] == Marked(old(cells[..]), idx, needs)
    {
      for i := 0 to needs
        invariant forall c :: 0 <= c < cells.Length ==>
                    cells[c] == if idx <= c < idx + i then (idx + needs - c) % 0x100 else old(cells[c])
      {
        cells[idx + i] := (needs - i) % 0x100;
      }
    }

    /** Frees from the chunk of a pointer on. `ok` is false when one of its assertions fails. */
    method Free(p: int) returns (ok: bool)
      requires Valid()
      modifies this`blocks, cells
      ensures ok <==> base <= p < base + CHUNK_SIZE * BLOCK_COUNT && old(cells[(p - base) / CHUNK_SIZE]) >= 1
      ensures !ok ==> cells[..] == old(cells[..]) && blocks == old(blocks) && Valid()
      ensures ok ==> var idx := (p - base) / CHUNK_SIZE;
                     idx + old(cells[idx]) <= BLOCK_COUNT &&
                       cells[..] == Cleared(old(cells[..]), idx, old(cells[idx])) &&
                     blocks == old(blocks) - {idx} && (Valid() <==> idx in old(blocks))
    {
      if !(p >= base) || !(p < base + CHUNK_SIZE * BLOCK_COUNT) {
        return false;
      }
      var idx := (p - base) / CHUNK_SIZE;
      var block := cells[idx];
      if !(block >= 1) {
        return false;
      }
      ghost var cleared, rest := Cleared(cells[..], idx, block), blocks - {idx};
      ClearingIsSafeIff(cells[..], blocks, idx);
      if idx in blocks {
        ClearingRemovesBlock(cells[..], blocks, idx);
      } else {
        assert !Describes(cleared, rest);
      }
      for i := 0 to block
        invariant forall c :: 0 <= c < cells.Length ==> cells[c] == if idx <= c < idx + i then 0 else old(cells[c])
      {
        cells[idx + i] := 0;
      }
      assert cells[..] == cleared;
      blocks := rest;
      return true;
    }
  }

  lemma {:induction false} AnyChunkIsAligned(base: nat, idx: nat)
    requires base % 256 == 0
    ensures Aligned(base, idx, 4)
  {
    var n := 64 * (base / 256) + 16 * idx;
    assert base + idx * CHUNK_SIZE == 4 * n;
    FourTimes(n);
  }

  lemma {:induction false} FourTimes(n: int)
    ensures (4 * n) % 4 == 0
  {
  }

  lemma {:induction false} NextChunkFits(cells: seq<byte>, base: nat, used: nat, needs: nat)
    requires |cells| >= BLOCK_COUNT && base % 256 == 0 && 1 <= needs && used + needs <= BLOCK_COUNT
    requires forall c :: 0 <= c < BLOCK_COUNT ==> (cells[c] != 0 <==> c < used)
    ensures Fits(cells, base, needs, 4, used) && !NoRun(cells, needs, 0)
    ensures forall j :: 0 <= j < used ==> !Fits(cells, base, needs, 4, j)
  {
    hide Aligned;
    AnyChunkIsAligned(base, used);
    assert FreeRun(cells, used, needs);
    forall j | 0 <= j < used
      ensures !Fits(cells, base, needs, 4, j)
    {
      assert cells[j] != 0;
    }
  }

  lemma {:induction false} OneMisalignedRun(cells: seq<byte>, base: nat)
    requires |cells| >= BLOCK_COUNT && base % 256 == 0
    requires forall c :: 0 <= c < BLOCK_COUNT ==> (cells[c] == 0 <==> 1 <= c <= 4)
    ensures forall j: nat :: j < BLOCK_COUNT ==> (FreeRun(cells, j, 4) <==> j == 1)
    ensures !NoRun(cells, 4, 0) && NoAlignedRun(cells, base, 4, 256, BLOCK_COUNT)
  {
    forall j: nat | j < BLOCK_COUNT && FreeRun(cells, j, 4)
      ensures j == 1
    {
      assert cells[j] == 0;
      assert cells[j + 3] == 0;
    }
    assert FreeRun(cells, 1, 4);
    assert !Aligned(base, 1, 256);
  }

  /** A run in which the communication area of the host controller, 256 bytes at a multiple of 256, gets a pointer that
      nothing reserves: the only free chunks are those from 1 to 4. */
  method HccaIsNotReserved(base: nat, cells: array<byte>) returns (r: Outcome)
    requires base % 256 == 0 && cells.Length == 2 * BLOCK_COUNT
    modifies cells
    ensures r == Unreserved(1) && cells[1] == cells[2] == cells[3] == cells[4] == 0
  {
    hide Describes, Marked, Cleared, Fits, FreeRun, Aligned, NoRun, NoAlignedRun, WellPlaced;
    var allocator := new Allocator(base, cells);
    NextChunkFits(cells[..], base, 0, 1);
    r := allocator.Malloc(64, 4);
    NextChunkFits(cells[..], base, 1, 4);
    r := allocator.Malloc(256, 4);
    NextChunkFits(cells[..], base, 5, 251);
    r := allocator.Malloc(251 * CHUNK_SIZE, 4);
    var ok := allocator.Free(base + CHUNK_SIZE);
    OneMisalignedRun(cells[..], base);
    r := allocator.Malloc(256, 256);
  }
}
