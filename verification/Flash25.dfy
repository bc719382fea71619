/** The serial flash chip and its driver. Programming can only clear bits, and it wraps round inside a page; erasing
    sets all bits of a block. */
module Flash25 {

  const ERASED: bv8 := 0xFF

  // ----- What the contents become

  /** Bytes ANDed into memory from `start` on, as if there were no pages. */
  function Programmed(mem: seq<bv8>, start: nat, data: seq<bv8>): (r: seq<bv8>)
    requires start + |data| <= |mem|
    ensures |r| == |mem|
    ensures forall i :: 0 <= i < |mem| ==>
              r[i] == if start <= i < start + |data| then mem[i] & data[i - start] else mem[i]
  {
    seq(|mem|, i requires 0 <= i < |mem| => if start <= i < start + |data| then mem[i] & data[i - start] else mem[i])
  }

  function Cleared(mem: seq<bv8>, start: nat, len: nat): (r: seq<bv8>)
    requires start + len <= |mem|
    ensures |r| == |mem| && forall i :: 0 <= i < |mem| ==> r[i] == if start <= i < start + len then ERASED else mem[i]
  {
    mem[..start] + seq(len, _ => ERASED) + mem[start + len..]
  }

  predicate IsErased(mem: seq<bv8>, start: nat, len: nat)
    requires start + len <= |mem|
  {
    forall i :: start <= i < start + len ==> mem[i] == ERASED
  }

  lemma {:induction false} ClearConcat(mem: seq<bv8>, start: nat, a: nat, b: nat)
    requires start + a + b <= |mem|
    ensures Cleared(Cleared(mem, start, a), start + a, b) == Cleared(mem, start, a + b)
  {
  }

  lemma {:induction false} ClearNothing(mem: seq<bv8>, start: nat)
    requires start <= |mem|
    ensures Cleared(mem, start, 0) == mem
  {
  }

  lemma {:induction false} ProgramNothing(mem: seq<bv8>, start: nat)
    requires start <= |mem|
    ensures Programmed(mem, start, []) == mem
  {
  }

  /** Two programs of adjacent ranges are one program. */
  lemma {:induction false} ProgramConcat(mem: seq<bv8>, start: nat, a: seq<bv8>, b: seq<bv8>)
    requires start + |a| + |b| <= |mem|
    ensures Programmed(Programmed(mem, start, a), start + |a|, b) == Programmed(mem, start, a + b)
  {
    var left, right := Programmed(Programmed(mem, start, a), start + |a|, b), Programmed(mem, start, a + b);
    forall i | 0 <= i < |mem|
      ensures left[i] == right[i]
    {
      if start <= i < start + |a| {
        assert (a + b)[i - start] == a[i - start];
      } else if start + |a| <= i < start + |a| + |b| {
        assert (a + b)[i - start] == b[i - (start + |a|)];
      }
    }
  }

  /** Erased memory takes on exactly the data. */
  lemma {:induction false} ProgramErased(mem: seq<bv8>, start: nat, data: seq<bv8>)
    requires start + |data| <= |mem|
    ensures IsErased(mem, start, |data|) ==> Programmed(mem, start, data)[start..start + |data|] == data
  {
    if IsErased(mem, start, |data|) {
      forall i | 0 <= i < |data|
        ensures Programmed(mem, start, data)[start + i] == data[i]
      {
        assert mem[start + i] == ERASED;
        OnesAreNeutral(data[i]);
      }
    }
  }

  /** Erasing a range, writing within it and reading back gives the data; the rest of the range is erased, and what lies
      outside is as it was. */
  lemma {:induction false} EraseWriteRead(mem: seq<bv8>, lo: nat, len: nat, start: nat, data: seq<bv8>)
    requires lo <= start && start + |data| <= lo + len <= |mem|
    ensures var after := Programmed(Cleared(mem, lo, len), start, data);
            after[start..start + |data|] == data && after[..lo] == mem[..lo] && after[lo + len..] == mem[lo + len..] &&
            IsErased(after, lo, start - lo) && IsErased(after, start + |data|, lo + len - start - |data|)
  {
    ProgramErased(Cleared(mem, lo, len), start, data);
  }

  lemma {:induction false} OnesAreNeutral(x: bv8)
    ensures ERASED & x == x
  {
  }

  /** What can be read back is the data exactly when every bit that the data need set was still set. */
  lemma {:induction false} ReadBackIff(mem: seq<bv8>, start: nat, data: seq<bv8>)
    requires start + |data| <= |mem|
    ensures Programmed(mem, start, data)[start..start + |data|] == data
       <==> forall i :: 0 <= i < |data| ==> mem[start + i] & data[i] == data[i]
  {
    var r := Programmed(mem, start, data)[start..start + |data|];
    assert forall i :: 0 <= i < |data| ==> r[i] == mem[start + i] & data[i];
  }

  // ----- The driver

  /** The range check of reads and writes, in unsigned 32-bit arithmetic. */
  predicate Accepts(startAdr: nat, len: nat, size: nat) {
    (startAdr + len) % 0x1_0000_0000 <= size
  }

  /** Besides the ranges inside the memory the check lets through those whose end wraps to an address inside it, such as
      two bytes at 0xFFFF_FFFF. */
  lemma {:induction false} AcceptsIff(startAdr: nat, len: nat, size: nat)
    requires startAdr < 0x1_0000_0000 && len < 0x1_0000_0000 && size < 0x1_0000_0000
    ensures Accepts(startAdr, len, size)
       <==> startAdr + len <= size || 0x1_0000_0000 <= startAdr + len <= 0x1_0000_0000 + size
    ensures Accepts(0xFFFF_FFFF, 2, size) <==> size > 0
  {
    var sum := startAdr + len;
    assert sum % 0x1_0000_0000 == if sum < 0x1_0000_0000 then sum else sum - 0x1_0000_0000;
  }

  class Flash {
    const mem: array<bv8>
    const pageSize: nat
    const blockSize: nat

    ghost predicate Valid() {
      pageSize > 0 && blockSize > 0 && mem.Length % pageSize == 0 && mem.Length % blockSize == 0 &&
      mem.Length < 0x1_0000_0000
    }

    constructor (mem: array<bv8>, pageSize: nat, blockSize: nat)
      requires pageSize > 0 && blockSize > 0 && mem.Length % pageSize == 0 && mem.Length % blockSize == 0
      requires mem.Length < 0x1_0000_0000
      ensures Valid() && this.mem == mem && this.pageSize == pageSize && this.blockSize == blockSize
    {
      this.mem, this.pageSize, this.blockSize := mem, pageSize, blockSize;
    }

    /** The chip's page program: the address counter wraps to the start of the page. */
    method WritePage(startAdr: nat, data: seq<bv8>)
      requires Valid() && startAdr < mem.Length
      requires PageOffset(startAdr, pageSize) + |data| <= pageSize
      modifies mem
      ensures startAdr + |data| <= mem.Length && mem[..] == Programmed(old(mem[..]), startAdr, data)
    {
      PageInMemory(startAdr);
      var page, offset := BlockStart(startAdr, pageSize), PageOffset(startAdr, pageSize);
      for i := 0 to |data|
        invariant forall j :: 0 <= j < mem.Length ==>
                    mem[j] == if startAdr <= j < startAdr + i then old(mem[j]) & data[j - startAdr] else old(mem[j])
      {
        ModSmall(offset + i, pageSize);
        mem[page + (offset + i) % pageSize] := mem[page + (offset + i) % pageSize] & data[i];
      }
    }

    lemma {:induction false} Sizes()
      requires Valid()
      ensures pageSize > 0 && mem.Length < 0x1_0000_0000
    {
    }

    lemma {:induction false} PageInMemory(a: nat)
      requires Valid() && a < mem.Length
      ensures pageSize > 0 && BlockStart(a, pageSize) + pageSize <= mem.Length
    {
      BlockBelow(a, mem.Length, pageSize);
    }

    lemma {:induction false} BlockInMemory(a: nat)
      requires Valid() && a < mem.Length
      ensures blockSize > 0 && BlockStart(a, blockSize) + blockSize <= mem.Length
    {
      BlockBelow(a, mem.Length, blockSize);
    }

    /** Splits a write at the page boundaries, so that no page program wraps. */
    method Write(startAdr: nat, data: seq<bv8>) returns (ok: bool)
      requires Valid() && startAdr + |data| < 0x1_0000_0000
      modifies mem
      ensures ok <==> startAdr + |data| <= mem.Length
      ensures mem[..] == if ok then Programmed(old(mem[..]), startAdr, data) else old(mem[..])
    {
      hide Valid, Accepts, PageOffset, Programmed;
      Sizes();
      AcceptsIff(startAdr, |data|, mem.Length);
      if !Accepts(startAdr, |data|, mem.Length) {
        return false;
      }
      var len := |data|;
      var ofs := 0;
      ProgramNothing(mem[..], startAdr);
      while ofs < len
        invariant 0 <= ofs <= len && mem[..] == Programmed(old(mem[..]), startAdr, data[..ofs])
      {
        var pageLen := pageSize - PageOffset(startAdr + ofs, pageSize);
        if ofs + pageLen > len {
          pageLen := len - ofs;
        }
        ProgramConcat(old(mem[..]), startAdr, data[..ofs], data[ofs..ofs + pageLen]);
        NextPiece(data, ofs, pageLen);
        WritePage(startAdr + ofs, data[ofs..ofs + pageLen]);
        ofs := ofs + pageLen;
      }
      assert data[..len] == data;
      return true;
    }

    method Read(startAdr: nat, len: nat) returns (ok: bool, data: seq<bv8>)
      requires Valid() && startAdr + len < 0x1_0000_0000
      ensures ok <==> startAdr + len <= mem.Length && len > 0
      ensures ok ==> data == mem[startAdr..startAdr + len]
    {
      data := [];
      AcceptsIff(startAdr, len, mem.Length);
      if !Accepts(startAdr, len, mem.Length) || len == 0 {
        return false, data;
      }
      for i := 0 to len
        invariant data == mem[startAdr..startAdr + i]
      {
        data := data + [mem[startAdr + i]];
      }
      return true, data;
    }

    /** Erases the block that an address lies in. */
    method ClearBlock(addr: nat)
      requires Valid() && addr < mem.Length
      modifies mem
      ensures BlockStart(addr, blockSize) + blockSize <= mem.Length
      ensures mem[..] == Cleared(old(mem[..]), BlockStart(addr, blockSize), blockSize)
    {
      hide Valid, BlockStart;
      BlockInMemory(addr);
      var start := BlockStart(addr, blockSize);
      forall i | start <= i < start + blockSize {
        mem[i] := ERASED;
      }
    }
  }

  /** How far into its page an address lies, when each has `size` bytes. */
  function PageOffset(addr: nat, size: nat): (offset: nat)
    requires size > 0
    ensures offset < size && offset <= addr
  {
    addr % size
  }

  /** Where the block (or page) of an address begins, when each has `size` bytes. */
  function BlockStart(addr: nat, size: nat): (start: nat)
    requires size > 0
    ensures start <= addr < start + size && (addr % size == 0 ==> start == addr)
  {
    addr - addr % size
  }

  lemma {:induction false} NextPiece(data: seq<bv8>, ofs: nat, len: nat)
    requires ofs + len <= |data|
    ensures data[..ofs + len] == data[..ofs] + data[ofs..ofs + len]
  {
  }

  lemma {:induction false} ModSmall(x: nat, m: nat)
    requires x < m
    ensures x % m == x
  {
  }

  /** The block of an address ends within a memory of whole blocks. */
  lemma {:induction false} BlockBelow(a: nat, n: nat, b: nat)
    requires b > 0 && n % b == 0 && a < n
    ensures BlockStart(a, b) + b <= n
  {
    var q, k := a / b, n / b;
    assert a == b * q + a % b && n == b * k;
    QuotientBelow(b, q, k);
    ProductUpTo(b, q + 1, k);
    assert b * (q + 1) == b * q + b;
  }

  lemma {:induction false} ProductUpTo(b: nat, x: nat, y: nat)
    requires x <= y
    ensures b * x <= b * y
    decreases y
  {
    if x < y {
      ProductUpTo(b, x, y - 1);
      assert b * y == b * (y - 1) + b;
    }
  }

  lemma {:induction false} QuotientBelow(b: nat, x: nat, y: nat)
    requires b * x < b * y
    ensures x < y
  {
    if y <= x {
      ProductUpTo(b, y, x);
    }
  }
}
