/** The VoidArena bump-pointer allocator: one reservation of ARENA_SIZE bytes,
    a cursor `ptr` that typed allocations advance, and `rewind`, which hands
    the whole region back at once. Addresses are naturals and NULL is 0, as
    the source's `nullptr`; the template type T of `allocate<T>` is passed as
    its `sizeof` and `alignof`. */
module Arena {
  import opened Bits
  import opened Alignment
  import opened Zeroer

  /** `arena_size`: 1 GiB. */
  const ARENA_SIZE: nat := 0x4000_0000
  /** The null pointer. */
  const NULL: nat := 0
  /** Granularity of the addresses mmap hands out. */
  const PAGE_SIZE: nat := 4096
  /** One past the highest user-space address on x86-64 (47-bit addresses). */
  const USER_TOP: nat := 0x8000_0000_0000

  /** The outcome of the constructor's mmap call. */
  datatype Reservation = MapFailed | Mapped(addr: nat)

  /** What the operating system guarantees of a successful mapping: a
      non-null, page-aligned user-space address with room for the region. */
  predicate ReservationOk(r: Reservation)
  {
    r.Mapped? ==> 0 < r.addr && r.addr % PAGE_SIZE == 0 && r.addr + ARENA_SIZE <= USER_TOP
  }

  /** The arena's three addresses. */
  datatype ArenaState = ArenaState(base: nat, ptr: nat, limit: nat)

  /** The state a failed reservation leaves: every address null. */
  predicate IsInert(s: ArenaState)
  {
    s.base == NULL
  }

  /** An inert arena is all null; a live one has base <= ptr <= limit with
      limit - base == ARENA_SIZE, at a page-aligned user-space base. */
  predicate Inv(s: ArenaState)
  {
    if IsInert(s) then
      s.ptr == NULL && s.limit == NULL
    else
      && s.base <= s.ptr <= s.limit
      && s.limit == s.base + ARENA_SIZE
      && s.base % PAGE_SIZE == 0
      && s.limit <= USER_TOP
  }

  /** The constructor: a live arena with the cursor at the base of the
      mapping, or the inert arena when the mapping failed. */
  function Init(r: Reservation): (s: ArenaState)
    requires ReservationOk(r)
    ensures Inv(s)
    ensures IsInert(s) <==> r.MapFailed?
    ensures r.Mapped? ==> s.base == s.ptr == r.addr && s.limit == r.addr + ARENA_SIZE
  {
    match r
    case MapFailed => ArenaState(NULL, NULL, NULL)
    case Mapped(addr) => ArenaState(addr, addr, addr + ARENA_SIZE)
  }

  /** A request `allocate<T>(count)`: sizeof(T), alignof(T) and count. */
  datatype Request = Request(size: nat, align: nat, count: nat)

  /** What C++ guarantees of a request: alignof(T) is a power of two, and all
      three are `size_t` values. */
  predicate WellFormed(q: Request)
  {
    IsPow2(q.align) && q.align < WORD && q.size < WORD && q.count < WORD
  }

  /** `allocate<int>(count)`. */
  function IntRequest(count: nat): (q: Request)
    ensures count < WORD ==> WellFormed(q)
  {
    assert IsPow2(INT_SIZE);
    Request(INT_SIZE, INT_SIZE, count)
  }

  /** The bytes a request needs, `count * sizeof(T)`, without wrap-around. */
  function Bytes(q: Request): nat
  {
    q.count * q.size
  }

  /** An allocation's outcome: the new state and the returned address. */
  datatype Grant = Grant(arena: ArenaState, addr: nat)

  /** The alignment rounding of a live cursor cannot wrap the 64-bit word. */
  lemma CursorRoundingFits(s: ArenaState, q: Request)
    requires Inv(s) && WellFormed(q)
    ensures s.ptr + q.align <= WORD
  {
    WordIsPow2();
    Pow2Below(q.align, WORD);
  }

  /** `allocate<T>(count)` with `count * sizeof(T)` checked rather than
      wrapped. An inert arena always answers NULL. A failure (NULL) leaves the
      state unchanged; a success returns an address at or after the cursor
      and moves the cursor to the end of the returned range, which lies
      inside the region. Which address is chosen is stated by
      AllocationIsFirstFit. */
  function Allocation(s: ArenaState, q: Request): (g: Grant)
    requires Inv(s) && WellFormed(q)
    ensures Inv(g.arena)
    ensures g.arena.base == s.base && g.arena.limit == s.limit
    ensures IsInert(s) ==> g.addr == NULL
    ensures g.addr == NULL ==> g.arena == s
    ensures g.addr != NULL ==>
      && s.base <= s.ptr <= g.addr
      && g.arena.ptr == g.addr + Bytes(q) <= s.limit
  {
    if IsInert(s) then Grant(s, NULL)
    else
      CursorRoundingFits(s, q);
      var aligned := AlignUp(s.ptr, q.align);
      if aligned + Bytes(q) > s.limit then Grant(s, NULL)
      else Grant(s.(ptr := aligned + Bytes(q)), aligned)
  }

  /** Address m can hold the request: it is aligned for it, at or after the
      cursor, and the request's bytes end within the limit. */
  predicate FitsAt(s: ArenaState, q: Request, m: nat)
    requires WellFormed(q)
  {
    s.ptr <= m && m % q.align == 0 && m + Bytes(q) <= s.limit
  }

  /** Allocation is first fit: a live arena serves a request exactly when
      some aligned address after the cursor can hold it, and then returns the
      lowest such address, which is less than one alignment step past the
      cursor. */
  lemma AllocationIsFirstFit(s: ArenaState, q: Request)
    requires Inv(s) && WellFormed(q)
    ensures Allocation(s, q).addr != NULL <==> !IsInert(s) && exists m: nat :: FitsAt(s, q, m)
    ensures var g := Allocation(s, q);
      g.addr != NULL ==>
        && FitsAt(s, q, g.addr)
        && g.addr < s.ptr + q.align
        && (forall m: nat :: FitsAt(s, q, m) ==> g.addr <= m)
  {
    if !IsInert(s) {
      CursorRoundingFits(s, q);
      var aligned := AlignUp(s.ptr, q.align);
      forall m: nat | FitsAt(s, q, m)
        ensures aligned <= m
      {
        AlignUpIsLeast(s.ptr, q.align, m);
      }
      if aligned + Bytes(q) <= s.limit {
        assert FitsAt(s, q, aligned);
      }
    }
  }

  /** `rewind()`: the cursor goes back to the base; base and limit stay. */
  function Rewound(s: ArenaState): (t: ArenaState)
    requires Inv(s)
    ensures Inv(t)
    ensures t.base == s.base && t.limit == s.limit
    ensures !IsInert(t) ==> t.ptr == t.base
  {
    s.(ptr := s.base)
  }

  /** After a rewind the arena is indistinguishable from a freshly
      constructed one over the same mapping, so the next allocations return
      the same addresses as the first allocations of a new arena. */
  lemma RewoundIsFresh(s: ArenaState)
    requires Inv(s)
    ensures IsInert(s) ==> Rewound(s) == Init(MapFailed)
    ensures !IsInert(s) ==> ReservationOk(Mapped(s.base)) && Rewound(s) == Init(Mapped(s.base))
  {
  }

  /** The outcome of a series of allocations. */
  datatype Trace = Trace(arena: ArenaState, addrs: seq<nat>)

  predicate AllWellFormed(qs: seq<Request>)
  {
    forall i :: 0 <= i < |qs| ==> WellFormed(qs[i])
  }

  /** Serving the requests one after the other. The cursor never moves
      back, and every returned range lies between the starting cursor and
      the final one. */
  function Run(s: ArenaState, qs: seq<Request>): (t: Trace)
    requires Inv(s) && AllWellFormed(qs)
    ensures Inv(t.arena) && |t.addrs| == |qs|
    ensures t.arena.base == s.base && t.arena.limit == s.limit
    ensures s.ptr <= t.arena.ptr
    ensures forall i :: 0 <= i < |qs| && t.addrs[i] != NULL ==>
      && s.ptr <= t.addrs[i]
      && t.addrs[i] + Bytes(qs[i]) <= t.arena.ptr
    decreases |qs|
  {
    if qs == [] then Trace(s, [])
    else
      var g := Allocation(s, qs[0]);
      var rest := Run(g.arena, qs[1..]);
      Trace(rest.arena, [g.addr] + rest.addrs)
  }

  /** Between rewinds, the ranges of any two successful allocations are
      disjoint: the earlier one ends at or before the later one starts. */
  lemma {:induction false} RunDisjoint(s: ArenaState, qs: seq<Request>, i: nat, j: nat)
    requires Inv(s) && AllWellFormed(qs)
    requires i < j < |qs|
    requires Run(s, qs).addrs[i] != NULL && Run(s, qs).addrs[j] != NULL
    ensures Run(s, qs).addrs[i] + Bytes(qs[i]) <= Run(s, qs).addrs[j]
    decreases |qs|
  {
    var g := Allocation(s, qs[0]);
    var rest := Run(g.arena, qs[1..]);
    RunUnfold(s, qs);
    if i == 0 {
      assert qs[1..][j - 1] == qs[j];
    } else {
      assert qs[1..][i - 1] == qs[i];
      RunDisjoint(g.arena, qs[1..], i - 1, j - 1);
    }
  }

  /** One step of a run: the first request is served from the starting
      state, the rest from the state it leaves. */
  lemma RunUnfold(s: ArenaState, qs: seq<Request>)
    requires Inv(s) && AllWellFormed(qs) && qs != []
    ensures var g := Allocation(s, qs[0]);
      var rest := Run(g.arena, qs[1..]);
      && Run(s, qs).addrs[0] == g.addr
      && (forall k :: 0 <= k < |rest.addrs| ==> Run(s, qs).addrs[k + 1] == rest.addrs[k])
  {
  }

  /** Every non-null address a series of allocations returns is aligned for
      its own request. */
  lemma {:induction false} RunAligned(s: ArenaState, qs: seq<Request>, i: nat)
    requires Inv(s) && AllWellFormed(qs)
    requires i < |qs| && Run(s, qs).addrs[i] != NULL
    ensures Run(s, qs).addrs[i] % qs[i].align == 0
    decreases |qs|
  {
    var g := Allocation(s, qs[0]);
    var rest := Run(g.arena, qs[1..]);
    assert Run(s, qs).addrs == [g.addr] + rest.addrs;
    if i == 0 {
      AllocationIsFirstFit(s, qs[0]);
    } else {
      assert qs[1..][i - 1] == qs[i];
      RunAligned(g.arena, qs[1..], i - 1);
    }
  }

  /** An inert arena stays inert and answers every request with NULL. */
  lemma {:induction false} InertRun(qs: seq<Request>)
    requires AllWellFormed(qs)
    ensures Run(Init(MapFailed), qs).arena == Init(MapFailed)
    ensures forall i :: 0 <= i < |qs| ==> Run(Init(MapFailed), qs).addrs[i] == NULL
    decreases |qs|
  {
    if qs != [] {
      InertRun(qs[1..]);
    }
  }

  /** The end-to-end use of a fresh arena: 100 ints fit at the base, which is
      4-byte aligned; a request for the whole region's worth of ints then
      fails and leaves the cursor alone; after a rewind the same request
      succeeds, again at the base, and fills the region. */
  lemma ExhaustThenRewind(addr: nat)
    requires ReservationOk(Mapped(addr))
    ensures var g1 := Allocation(Init(Mapped(addr)), IntRequest(100));
      g1.addr == addr && g1.addr % INT_SIZE == 0
    ensures var g1 := Allocation(Init(Mapped(addr)), IntRequest(100));
      var g2 := Allocation(g1.arena, IntRequest(ARENA_SIZE / INT_SIZE));
      g2.addr == NULL && g2.arena == g1.arena
    ensures var g1 := Allocation(Init(Mapped(addr)), IntRequest(100));
      var g2 := Allocation(g1.arena, IntRequest(ARENA_SIZE / INT_SIZE));
      var g3 := Allocation(Rewound(g2.arena), IntRequest(ARENA_SIZE / INT_SIZE));
      g3.addr == addr && g3.arena.ptr == g3.arena.limit
  {
    var s0 := Init(Mapped(addr));
    var big := IntRequest(ARENA_SIZE / INT_SIZE);
    IntsAtFreshBase(s0, 100);
    PageAlignedIsIntAligned(addr);
    var g1 := Allocation(s0, IntRequest(100));
    var g2 := Allocation(g1.arena, big);
    assert g2.addr == NULL by {
      CursorRoundingFits(g1.arena, big);
      assert AlignUp(g1.arena.ptr, INT_SIZE) >= addr + 400;
    }
    assert Rewound(g2.arena) == s0;
    IntsAtFreshBase(s0, ARENA_SIZE / INT_SIZE);
  }

  /** A fresh live arena serves `count` ints that fit at its base. */
  lemma IntsAtFreshBase(s: ArenaState, count: nat)
    requires Inv(s) && !IsInert(s) && s.ptr == s.base
    requires INT_SIZE * count <= ARENA_SIZE
    ensures Allocation(s, IntRequest(count)) == Grant(s.(ptr := s.base + INT_SIZE * count), s.base)
  {
    var q := IntRequest(count);
    assert q.align == INT_SIZE && WellFormed(q) && Bytes(q) == INT_SIZE * count;
    PageAlignedIsIntAligned(s.base);
    CursorRoundingFits(s, q);
    AlignUpFixesAligned(s.base, INT_SIZE);
  }

  /** `allocate<T>(count)` exactly as voidallocator.cpp computes it:
      `count * sizeof(T)` in 64-bit unsigned arithmetic, and the end address
      `aligned + bytes` likewise wrapping. */
  function AllocationAsWritten(s: ArenaState, q: Request): (g: Grant)
    requires Inv(s) && WellFormed(q)
    ensures g.arena.base == s.base && g.arena.limit == s.limit
    ensures g.addr == NULL ==> g.arena == s
  {
    if IsInert(s) then Grant(s, NULL)
    else
      var bytes := (q.count * q.size) % WORD;
      CursorRoundingFits(s, q);
      var aligned := AlignUp(s.ptr, q.align);
      var end := (aligned + bytes) % WORD;
      if end > s.limit then Grant(s, NULL)
      else Grant(s.(ptr := end), aligned)
  }

  /** When neither the size product nor the end address wraps, the code as
      written behaves as the checked allocation. */
  lemma AllocationAsWrittenAgrees(s: ArenaState, q: Request)
    requires Inv(s) && WellFormed(q)
    requires s.limit + q.align + Bytes(q) < WORD
    ensures AllocationAsWritten(s, q) == Allocation(s, q)
  {
    if !IsInert(s) {
      CursorRoundingFits(s, q);
      var aligned := AlignUp(s.ptr, q.align);
      assert aligned + Bytes(q) < WORD;
      DivModUnique(Bytes(q), WORD, 0, Bytes(q));
      DivModUnique(aligned + Bytes(q), WORD, 0, aligned + Bytes(q));
    }
  }

  /** A request for 2^62 ints wraps `count * sizeof(int)` to 0 bytes: the
      code as written returns the cursor as a 2^64-byte array without
      advancing it, so the next allocation hands out the same address. */
  lemma AllocationAsWrittenOverlaps(addr: nat)
    requires ReservationOk(Mapped(addr))
    ensures AllocationAsWritten(Init(Mapped(addr)), IntRequest(0x4000_0000_0000_0000))
      == Grant(Init(Mapped(addr)), addr)
    ensures addr + Bytes(IntRequest(0x4000_0000_0000_0000)) > Init(Mapped(addr)).limit
    ensures AllocationAsWritten(Init(Mapped(addr)), IntRequest(1)).addr == addr
  {
    var s0 := Init(Mapped(addr));
    PageAlignedIsIntAligned(addr);
    HugeIntRequestAtBase(s0);
    OneIntAtBase(s0);
  }

  /** 2^62 ints are 2^64 bytes, which wrap to 0: the fresh cursor is
      returned and stays where it is. */
  lemma HugeIntRequestAtBase(s: ArenaState)
    requires Inv(s) && !IsInert(s) && s.ptr % INT_SIZE == 0
    ensures AllocationAsWritten(s, IntRequest(0x4000_0000_0000_0000)) == Grant(s, s.ptr)
  {
    var q := IntRequest(0x4000_0000_0000_0000);
    assert q.count * q.size == WORD;
    assert WORD % WORD == 0 by {
      DivModUnique(WORD, WORD, 1, 0);
    }
    assert (s.ptr + 0) % WORD == s.ptr by {
      DivModUnique(s.ptr, WORD, 0, s.ptr);
    }
    AsWrittenAtAlignedCursor(s, q);
  }

  /** One int fits at an int-aligned cursor with room left. */
  lemma OneIntAtBase(s: ArenaState)
    requires Inv(s) && !IsInert(s) && s.ptr % INT_SIZE == 0 && s.ptr + INT_SIZE <= s.limit
    ensures AllocationAsWritten(s, IntRequest(1)).addr == s.ptr
  {
    var q := IntRequest(1);
    assert q.count * q.size == INT_SIZE;
    assert INT_SIZE % WORD == INT_SIZE by {
      DivModUnique(INT_SIZE, WORD, 0, INT_SIZE);
    }
    assert (s.ptr + INT_SIZE) % WORD == s.ptr + INT_SIZE by {
      DivModUnique(s.ptr + INT_SIZE, WORD, 0, s.ptr + INT_SIZE);
    }
    AsWrittenAtAlignedCursor(s, q);
  }

  /** At a cursor already aligned for the request, the code as written
      returns the cursor itself whenever the wrapped end address is within
      the limit, and moves the cursor to that end address. */
  lemma AsWrittenAtAlignedCursor(s: ArenaState, q: Request)
    requires Inv(s) && WellFormed(q) && !IsInert(s) && s.ptr % q.align == 0
    ensures var end := (s.ptr + (q.count * q.size) % WORD) % WORD;
      AllocationAsWritten(s, q) == if end > s.limit then Grant(s, NULL) else Grant(s.(ptr := end), s.ptr)
  {
    CursorRoundingFits(s, q);
    AlignUpFixesAligned(s.ptr, q.align);
  }

  lemma PageAlignedIsIntAligned(addr: nat)
    requires addr % PAGE_SIZE == 0
    ensures addr % INT_SIZE == 0
  {
    DivModUnique(addr, INT_SIZE, (addr / PAGE_SIZE) * (PAGE_SIZE / INT_SIZE), 0);
  }

  /** The arena object. */
  class VoidArena {
    var base: nat
    var ptr: nat
    var limit: nat

    function State(): ArenaState
      reads this
    {
      ArenaState(base, ptr, limit)
    }

    ghost predicate Valid()
      reads this
    {
      Inv(State())
    }

    /** Takes the outcome of the mmap reservation. */
    constructor (reservation: Reservation)
      requires ReservationOk(reservation)
      ensures Valid() && State() == Init(reservation)
    {
      match reservation
      case MapFailed =>
        base, ptr, limit := NULL, NULL, NULL;
      case Mapped(addr) =>
        base, ptr, limit := addr, addr, addr + ARENA_SIZE;
    }

    /** `allocate<T>(count)` with T given as its size and alignment. */
    method Allocate(size: nat, align: nat, count: nat) returns (p: nat)
      requires Valid() && WellFormed(Request(size, align, count))
      modifies this
      ensures Valid()
      ensures Grant(State(), p) == Allocation(old(State()), Request(size, align, count))
    {
      ghost var before, q := State(), Request(size, align, count);
      if base == NULL {
        assert Allocation(before, q) == Grant(before, NULL);
        return NULL;
      }
      var bytes := count * size;
      assert bytes == Bytes(q);
      CursorRoundingFits(before, q);
      var aligned := AlignUp(ptr, align);
      if aligned + bytes > limit {
        assert Allocation(before, q) == Grant(before, NULL);
        return NULL;
      }
      ptr := aligned + bytes;
      assert Allocation(before, q) == Grant(State(), aligned);
      return aligned;
    }

    /** `zero_ints(data, count)`: zero `count` int slots starting at slot
        `data` of `mem`, whose slot 0 sits at byte address `memAddr`. Every
        slot of the buffer ends as zero and every other slot is untouched. */
    method ZeroInts(mem: array<int>, memAddr: nat, data: nat, count: nat)
      requires memAddr % INT_SIZE == 0
      requires data + count <= mem.Length
      requires memAddr + INT_SIZE * mem.Length + VECTOR_BYTES <= WORD
      modifies mem
      ensures forall j :: 0 <= j < mem.Length ==>
        mem[j] == if data <= j < data + count then 0 else old(mem[j])
    {
      if count == 0 {
        return;
      }
      ghost var before := mem[..];
      var addr := memAddr + INT_SIZE * data;
      var plan := ZeroPlan(addr, count);

      ScalarZero(mem, data, plan.head);
      if plan.chunks == 0 && plan.tail == 0 {
        return;
      }
      var bodyStart := data + plan.bodyStart;
      assert forall j :: 0 <= j < mem.Length ==>
        mem[j] == if data <= j < bodyStart then 0 else before[j];

      assert (memAddr + INT_SIZE * bodyStart) % VECTOR_BYTES == 0;
      StreamZero(mem, memAddr, bodyStart, plan.chunks);
      var tailStart := bodyStart + LANES * plan.chunks;
      assert forall j :: 0 <= j < mem.Length ==>
        mem[j] == if data <= j < tailStart then 0 else before[j];

      ScalarZero(mem, tailStart, plan.tail);
    }

    /** `rewind()`: reclaim the whole region at once. */
    method Rewind()
      requires Valid()
      modifies this
      ensures Valid()
      ensures State() == Rewound(old(State()))
    {
      ptr := base;
    }
  }
}
