/** The bulk zeroer's arithmetic: how `zero_ints` splits `count` int slots
    starting at byte address `addr` into a scalar head up to the next 32-byte
    boundary, a body of 8-int streaming stores and a scalar tail.

    Memory is an array of 4-byte int slots; a plan names slots by their
    offset from the first slot of the buffer. */
module Zeroer {
  import opened Bits
  import opened Alignment

  /** sizeof(int). */
  const INT_SIZE: nat := 4
  /** Width in bytes of one 256-bit vector store. */
  const VECTOR_BYTES: nat := 32
  /** Ints written by one 256-bit vector store. */
  const LANES: nat := 8

  /** The slots one call writes, relative to the start of the buffer:
      `head` scalar stores at slots [0, head), then `chunks` vector stores of
      LANES slots each from slot `bodyStart`, then `tail` scalar stores right
      after the last chunk. */
  datatype Plan = Plan(head: nat, bodyStart: nat, chunks: nat, tail: nat)

  /** One past the highest slot the plan writes. */
  function Extent(p: Plan): nat
  {
    if p.chunks == 0 && p.tail == 0 then p.head
    else if p.head <= p.bodyStart + LANES * p.chunks + p.tail then p.bodyStart + LANES * p.chunks + p.tail
    else p.head
  }

  /** The vector width and the int size are powers of two. */
  lemma WidthsArePow2()
    ensures IsPow2(VECTOR_BYTES) && IsPow2(INT_SIZE)
  {
  }

  /** From an int-aligned address to a 32-byte boundary above it is a whole
      number of ints. */
  lemma WholeInts(addr: nat, boundary: nat)
    requires boundary % VECTOR_BYTES == 0 && addr <= boundary
    ensures addr % INT_SIZE == 0 ==> addr + INT_SIZE * ((boundary - addr) / INT_SIZE) == boundary
  {
    if addr % INT_SIZE == 0 {
      var a, b := addr / INT_SIZE, boundary / VECTOR_BYTES;
      assert boundary == INT_SIZE * (LANES * b);
      assert boundary - addr == INT_SIZE * (LANES * b - a);
      DivModUnique(boundary - addr, INT_SIZE, LANES * b - a, 0);
    }
  }

  /** `head_count`: the number of ints from addr up to the next 32-byte
      boundary. For an int-aligned address it is at most 7, and skipping that
      many ints lands exactly on the boundary. */
  function HeadCount(addr: nat): (h: nat)
    requires addr + VECTOR_BYTES <= WORD
    ensures h < LANES
    ensures addr % INT_SIZE == 0 ==> (addr + INT_SIZE * h) % VECTOR_BYTES == 0
  {
    WidthsArePow2();
    var alignedAddr := AlignUp(addr, VECTOR_BYTES);
    WholeInts(addr, alignedAddr);
    (alignedAddr - addr) / INT_SIZE
  }

  /** The head length depends only on where addr sits within its 32-byte
      block: (32 - addr % 32) % 32 bytes, in ints. */
  lemma HeadCountValue(addr: nat)
    requires addr % INT_SIZE == 0 && addr + VECTOR_BYTES <= WORD
    ensures HeadCount(addr) == ((VECTOR_BYTES - addr % VECTOR_BYTES) % VECTOR_BYTES) / INT_SIZE
  {
    WidthsArePow2();
    var alignedAddr := AlignUp(addr, VECTOR_BYTES);
    var k, r := addr / VECTOR_BYTES, addr % VECTOR_BYTES;
    var gap := (VECTOR_BYTES - r) % VECTOR_BYTES;
    var target := addr + gap;
    if r == 0 {
      assert gap == 0;
      DivModUnique(target, VECTOR_BYTES, k, 0);
    } else {
      DivModUnique(VECTOR_BYTES - r, VECTOR_BYTES, 0, VECTOR_BYTES - r);
      assert target == VECTOR_BYTES * (k + 1);
      DivModUnique(target, VECTOR_BYTES, k + 1, 0);
    }
    AlignUpIsLeast(addr, VECTOR_BYTES, target);
    MultiplesApart(alignedAddr, target, VECTOR_BYTES);
    assert HeadCount(addr) == gap / INT_SIZE;
  }

  /** The split zero_ints performs, with the remainder after the head taken
      only when the buffer reaches past the head (the case where
      `count - head_count` cannot wrap). Head, chunks and tail tile the
      buffer exactly, and every chunk starts on a 32-byte boundary. */
  function ZeroPlan(addr: nat, count: nat): (p: Plan)
    requires addr % INT_SIZE == 0 && addr + VECTOR_BYTES <= WORD
    ensures count == 0 ==> p == Plan(0, 0, 0, 0)
    ensures p.head == if count <= HeadCount(addr) then count else HeadCount(addr)
    ensures count > HeadCount(addr) ==> p.bodyStart == HeadCount(addr)
    ensures p.head + LANES * p.chunks + p.tail == count
    ensures p.tail < LANES
    ensures (p.chunks > 0 || p.tail > 0) ==> p.bodyStart == p.head
    ensures (addr + INT_SIZE * p.bodyStart) % VECTOR_BYTES == 0 || (p.chunks == 0 && p.tail == 0)
    ensures Extent(p) == count
  {
    var h := HeadCount(addr);
    if count == 0 then Plan(0, 0, 0, 0)
    else if count <= h then Plan(count, h, 0, 0)
    else
      var remaining := count - h;
      assert LANES * (remaining / LANES) + remaining % LANES == remaining;
      Plan(h, h, remaining / LANES, remaining % LANES)
  }

  /** The split exactly as voidallocator.cpp computes it, with
      `remaining = count - head_count` taken in 64-bit unsigned arithmetic. */
  function ZeroPlanAsWritten(addr: nat, count: nat): (p: Plan)
    requires addr % INT_SIZE == 0 && addr + VECTOR_BYTES <= WORD
    requires count < WORD
    ensures count > 0 ==> p.bodyStart == HeadCount(addr)
  {
    if count == 0 then Plan(0, 0, 0, 0)
    else
      var h := HeadCount(addr);
      var head := if h < count then h else count;
      var remaining := (count - h) % WORD;
      if remaining == 0 then Plan(head, h, 0, 0)
      else Plan(head, h, remaining / LANES, remaining % LANES)
  }

  /** Whenever the buffer reaches at least to the 32-byte boundary, the code
      as written performs the intended split. */
  lemma ZeroPlanAsWrittenAgrees(addr: nat, count: nat)
    requires addr % INT_SIZE == 0 && addr + VECTOR_BYTES <= WORD
    requires count < WORD
    requires count == 0 || HeadCount(addr) <= count
    ensures ZeroPlanAsWritten(addr, count) == ZeroPlan(addr, count)
  {
    if count > 0 {
      var h := HeadCount(addr);
      DivModUnique(count - h, WORD, 0, count - h);
    }
  }

  /** When a non-empty buffer ends before the 32-byte boundary,
      `count - head_count` wraps: the vector stores and the tail run from the
      boundary to count + 2^64 slots, far past the buffer. */
  lemma ZeroPlanAsWrittenOverruns(addr: nat, count: nat)
    requires addr % INT_SIZE == 0 && addr + VECTOR_BYTES <= WORD
    requires 0 < count < HeadCount(addr)
    ensures var p := ZeroPlanAsWritten(addr, count);
      p.chunks > 0 && p.bodyStart + LANES * p.chunks + p.tail == count + WORD
  {
    var h := HeadCount(addr);
    DivModUnique(count - h + WORD, WORD, 0, count - h + WORD);
    assert (count - h) % WORD == count - h + WORD;
  }

  /** The code as written keeps its stores inside the buffer exactly when the
      buffer is empty or reaches the 32-byte boundary. */
  lemma ZeroPlanAsWrittenInBounds(addr: nat, count: nat)
    requires addr % INT_SIZE == 0 && addr + VECTOR_BYTES <= WORD
    requires count < WORD
    ensures Extent(ZeroPlanAsWritten(addr, count)) <= count <==> (count == 0 || HeadCount(addr) <= count)
  {
    if count == 0 || HeadCount(addr) <= count {
      ZeroPlanAsWrittenAgrees(addr, count);
    } else {
      ZeroPlanAsWrittenOverruns(addr, count);
    }
  }

  /** `_mm256_stream_si256(p, zero)`: one 256-bit store of eight zero ints to a
      32-byte aligned address. `memAddr` is the byte address of mem[0]. */
  method StreamStoreZero(mem: array<int>, memAddr: nat, slot: nat)
    requires (memAddr + INT_SIZE * slot) % VECTOR_BYTES == 0
    requires slot + LANES <= mem.Length
    modifies mem
    ensures forall j :: 0 <= j < mem.Length ==>
      mem[j] == if slot <= j < slot + LANES then 0 else old(mem[j])
  {
    forall j | slot <= j < slot + LANES {
      mem[j] := 0;
    }
  }

  /** A scalar loop of `zero_ints`: `n` single-int stores from slot `lo`.
      The slots [lo, lo + n) become zero and no other slot changes. */
  method ScalarZero(mem: array<int>, lo: nat, n: nat)
    requires lo + n <= mem.Length
    modifies mem
    ensures forall j :: 0 <= j < mem.Length ==>
      mem[j] == if lo <= j < lo + n then 0 else old(mem[j])
  {
    var i := 0;
    while i < n
      invariant i <= n
      invariant forall j :: 0 <= j < mem.Length ==>
        mem[j] == if lo <= j < lo + i then 0 else old(mem[j])
    {
      mem[lo + i] := 0;
      i := i + 1;
    }
  }

  /** The vector loop of `zero_ints`: `chunks` streaming stores of LANES ints
      each, from the 32-byte aligned slot `start`. The slots
      [start, start + LANES * chunks) become zero and no other slot changes. */
  method StreamZero(mem: array<int>, memAddr: nat, start: nat, chunks: nat)
    requires (memAddr + INT_SIZE * start) % VECTOR_BYTES == 0
    requires start + LANES * chunks <= mem.Length
    modifies mem
    ensures forall j :: 0 <= j < mem.Length ==>
      mem[j] == if start <= j < start + LANES * chunks then 0 else old(mem[j])
  {
    var i := 0;
    while i < chunks
      invariant i <= chunks
      invariant (memAddr + INT_SIZE * (start + LANES * i)) % VECTOR_BYTES == 0
      invariant forall j :: 0 <= j < mem.Length ==>
        mem[j] == if start <= j < start + LANES * i then 0 else old(mem[j])
    {
      StreamStoreZero(mem, memAddr, start + LANES * i);
      i := i + 1;
    }
  }
}
