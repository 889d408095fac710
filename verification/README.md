# VoidArena in Dafny

A model of `VoidArena`, the bump-pointer region allocator of
`voidallocator.cpp`, and of its bulk zeroer. The arena reserves a 1 GiB
region once, with mmap, and keeps three addresses: `base`, the cursor `ptr`
and `limit`. If the reservation fails, the arena is inert, with all three
null. `allocate<T>(count)` rounds the cursor up to `alignof(T)` with the
power-of-two mask trick, checks the end of the request against `limit` and
advances the cursor. `rewind()` puts the cursor back at `base`.
`zero_ints(data, count)` zeroes an int buffer in three parts: scalar stores
up to the next 32-byte boundary, then 256-bit streaming stores of 8 ints
each, then a scalar tail.

Files:

- `bits.dfy` (module `Bits`) holds the 64-bit word size, powers of two, and a
  bitwise AND on naturals. It also proves that `x & (N - a)` rounds `x` down
  to a multiple of `a`.
- `alignment.dfy` (module `Alignment`) holds `(raw + alignment - 1) & ~(alignment - 1)`
  and what it guarantees.
- `zeroer.dfy` (module `Zeroer`) holds the head/chunk/tail split of
  `zero_ints`, both as written and corrected, and the streaming store.
- `arena.dfy` (module `Arena`) holds the arena state machine as functions on
  `ArenaState` and the class `VoidArena`. The class's fields are `base`,
  `ptr` and `limit`. Its methods are proved against those functions.

Conventions:

- Addresses are naturals, and null is 0, as in the source.
- `size_t` and `uintptr_t` arithmetic is written out modulo 2^64 where the
  code depends on it.
- The template type `T` is passed as its `sizeof` and `alignof`.
- The mmap outcome is a constructor parameter, `MapFailed | Mapped(addr)`.
- Memory for the zeroer is an `array<int>` of 4-byte slots. A separate
  parameter gives the byte address of slot 0.

## Model

| member | source | states |
|---|---|---|
| `Bits.AndClearsLow` | voidallocator.cpp:43 | For power-of-two `a` and `N` and `x < N`, `x & (N - a)` is `x - x % a`: the mask `~(a - 1)` clears exactly the bits below `a` |
| `Alignment.AlignUp` | voidallocator.cpp:40-43 | `(raw + alignment - 1) & ~(alignment - 1)` is a multiple of the alignment, at least `raw` and less than `raw + alignment` |
| `Alignment.AlignUpIsLeast` | voidallocator.cpp:43 | The rounded address is the least aligned address at or above `raw`: every multiple of the alignment that is at least `raw` is at least the result |
| `Alignment.AlignUpFixesAligned` | voidallocator.cpp:43 | An already aligned address is returned unchanged |
| `Zeroer.HeadCount` | voidallocator.cpp:58-60 | `head_count` is below 8, and for an int-aligned address, `addr + 4 * head_count` is on a 32-byte boundary |
| `Zeroer.HeadCountValue` | voidallocator.cpp:58-60 | `head_count` equals `((32 - addr % 32) % 32) / 4`, the ints from `addr` to the next 32-byte boundary |
| `Zeroer.ZeroPlan` | voidallocator.cpp:56-81 | The corrected split. An empty buffer gets no stores. The head is `head_count` capped at `count`, and when the buffer reaches past the boundary the vector body starts at `head_count`. `head + 8 * chunks + tail == count`, `tail < 8`, the body starts where the head ends and sits on a 32-byte boundary, and the highest slot written is the buffer's last |
| `Zeroer.ZeroPlanAsWritten` | voidallocator.cpp:56-78 | The split as the code computes it, with `count - head_count` in 64-bit unsigned arithmetic. The vector body starts at `head_count` |
| `Zeroer.ZeroPlanAsWrittenAgrees` | voidallocator.cpp:62-67 | When the buffer is empty or reaches the 32-byte boundary, the code as written performs the corrected split |
| `Zeroer.ZeroPlanAsWrittenOverruns` | voidallocator.cpp:66-79 | When `0 < count < head_count`, the subtraction wraps. There is at least one vector store, and the body and tail reach slot `count + 2^64` |
| `Zeroer.ZeroPlanAsWrittenInBounds` | voidallocator.cpp:60-79 | The code as written stays within `[0, count)` if and only if `count == 0` or `head_count <= count` |
| `Zeroer.StreamStoreZero` | voidallocator.cpp:74 | One streaming store to a 32-byte aligned address zeroes 8 consecutive slots and leaves every other slot unchanged |
| `Zeroer.ScalarZero` | voidallocator.cpp:62-64 | A scalar loop zeroes the `n` slots from `lo` and leaves every other slot unchanged. It serves as both the head loop and the tail loop (lines 78-80) |
| `Zeroer.StreamZero` | voidallocator.cpp:72-75 | The vector loop, starting on a 32-byte boundary, zeroes `8 * chunks` consecutive slots and leaves every other slot unchanged |
| `Arena.Init` | voidallocator.cpp:17-27 | The constructor's state satisfies the invariant. It is inert exactly when the mapping failed. Otherwise `base == ptr ==` the mapping and `limit == base + 1 GiB` |
| `Arena.Allocation` | voidallocator.cpp:36-53 | Allocation keeps the invariant and never changes `base` or `limit`. An inert arena always returns null. A null result leaves the state unchanged. Otherwise the address is at or after the old cursor, and the new cursor is the address plus the bytes, at most `limit` |
| `Arena.AllocationIsFirstFit` | voidallocator.cpp:40-52 | A live arena serves a request exactly when some aligned address at or after the cursor can hold it within `limit`. It then returns the lowest such address, which is less than one alignment step past the cursor |
| `Arena.Rewound` | voidallocator.cpp:84-86 | Rewinding keeps the invariant, keeps `base` and `limit`, and puts the cursor at `base` |
| `Arena.RewoundIsFresh` | voidallocator.cpp:84-86 | A rewound arena equals the arena the constructor builds over the same mapping, so later allocations return the same addresses as from a fresh arena |
| `Arena.Run` | voidallocator.cpp:36-53 | Over any series of requests the cursor never decreases, `base` and `limit` stay fixed, and each returned range starts at or after the initial cursor and ends at or before the final cursor |
| `Arena.RunAligned` | voidallocator.cpp:43 | Every non-null address returned in a series of requests is a multiple of its own request's alignment |
| `Arena.RunDisjoint` | voidallocator.cpp:43-51 | Between rewinds, for any two successful allocations `i < j`, range `i` ends at or before range `j` starts: issued ranges never overlap |
| `Arena.InertRun` | voidallocator.cpp:37 | After a failed reservation, every allocation in any series returns null and the arena stays all null |
| `Arena.ExhaustThenRewind` | voidallocator.cpp:36-86 | In a fresh arena, 100 ints go at the 4-aligned base. A 1 GiB int request then fails and leaves the state alone. After `rewind` the same request succeeds at the base and fills the region |
| `Arena.AllocationAsWritten` | voidallocator.cpp:36-53 | Allocation as the code computes it, with `count * sizeof(T)` and `aligned + bytes` wrapping modulo 2^64. `base` and `limit` never change, and a null result leaves the state unchanged |
| `Arena.AllocationAsWrittenAgrees` | voidallocator.cpp:39-48 | When neither the product nor the end address wraps, the code as written equals the checked `Allocation` |
| `Arena.AsWrittenAtAlignedCursor` | voidallocator.cpp:39-52 | At a cursor already aligned for the request, the code as written returns the cursor when the wrapped end `(ptr + (count * size mod 2^64)) mod 2^64` is within `limit`, and moves the cursor to that end. Otherwise it returns null and changes nothing |
| `Arena.AllocationAsWrittenOverlaps` | voidallocator.cpp:39 | `allocate<int>(2^62)` from a fresh arena returns the base without moving the cursor, though the request is larger than the region. A following `allocate<int>(1)` returns the same base |
| `Arena.VoidArena.constructor` | voidallocator.cpp:17-27 | The new object satisfies `Valid()`, and its fields equal `Init` of the mmap outcome |
| `Arena.VoidArena.Allocate` | voidallocator.cpp:36-53 | Keeps `Valid()`. The returned pointer and the new fields are exactly `Allocation` of the old fields |
| `Arena.VoidArena.ZeroInts` | voidallocator.cpp:55-82 | Every slot of `[data, data + count)` ends as zero, and every other slot of memory keeps its old value |
| `Arena.VoidArena.Rewind` | voidallocator.cpp:84-86 | Keeps `Valid()`. The fields become `Rewound` of the old fields, and no memory is written |

## Findings

| source | as written | input that shows it | evidently intended | confidence | as-written member | corrected member |
|---|---|---|---|---|---|---|
| voidallocator.cpp:39 | `count * sizeof(T)` is computed in `size_t` without an overflow check, and `aligned + bytes` is compared afterwards | `allocate<int>(1ULL << 62)` on a fresh arena: the byte count wraps to 0, so the call returns the base and does not move the cursor. The next `allocate<int>(1)` returns the same base | A request larger than the remaining space returns null | not executed | `Arena.AllocationAsWrittenOverlaps` | `Arena.Allocation` |
| voidallocator.cpp:66 | `remaining = count - head_count` is a `size_t` subtraction, taken even when the buffer ends before the 32-byte boundary | `zero_ints(data, 3)` with `data` at an address that is 4 modulo 32: `head_count` is 7 and `remaining` wraps to 2^64 - 4. The chunk loop then stores from the boundary towards slot 2^64 + 3 | Stop after the head when `count <= head_count` | not executed | `Zeroer.ZeroPlanAsWrittenOverruns` | `Zeroer.ZeroPlan` |

The class `VoidArena` uses the corrected behaviour in both places.

## Left out

- `Arena.VoidArena.Allocate`: compares `count * sizeof(T)` exactly, with no wrap-around, as the first finding intends. The unchecked code is modelled separately by `Arena.AllocationAsWritten`.
- `Arena.VoidArena.ZeroInts`: returns after the head when `count <= head_count`, as the second finding intends. It differs from the code only when `count < head_count`, where the code writes out of bounds.
- `Alignment.AlignUp`: requires that `raw + alignment - 1` does not wrap the 64-bit word. Arena cursors satisfy this because mmap addresses are below the 47-bit user-space top and `alignof(T)` is at most 2^63. The zeroer's addresses satisfy it through its own precondition.
- `Arena.Allocation`: says nothing about the memory behind a returned range. Region contents are not modelled: mmap's zero fill is not represented, and `rewind` writes no memory.
- `main` (the benchmark) is left out. It is timing with `std::chrono`, a comparison against `std::vector` and `std::fill`, and `printf` of floating-point results.
- The `mmap` call is not modelled. Its outcome is the constructor parameter `Reservation`. A successful mapping is assumed non-null, page aligned and below 2^47.
- The destructor and its `munmap` are not modelled; releasing the region is an operating-system call.
- `_mm256_setzero_si256` and `_mm256_stream_si256` are foreign intrinsics. Each streaming store is modelled only as writing 8 consecutive zero slots at a 32-byte aligned address.
- Non-temporal store visibility and the missing store fence after the streaming stores are memory-model concerns, not sequential behaviour.
- The caller contract that `zero_ints` receives memory from a live arena allocation is not modelled. Any array with enough slots is accepted.
- The unused local `old_ptr` in `allocate` has no counterpart.
- The capacity is the fixed `arena_size` of 1 GiB, and the model follows it (`ARENA_SIZE`).
- `allocate` has no overflow check on `count * sizeof(T)`, and `zero_ints` has no guard on `count - head_count`; its head loop is capped at `count` (see Findings).
