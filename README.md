# Virtual arena allocator, modelled in Dafny

The system is a bump-pointer arena over one large virtual-memory reservation
(`src/main.cpp`). `arena_init` reserves `length` bytes of address space. It
records the capacity and zeroes the allocation cursor `curr_offset`.
`arena_concurrent_alloc(a, size, align)` does four things:

- It rounds `size` up to the alignment.
- It bumps `curr_offset` by that amount with a fetch-add.
- It undoes the bump and returns `NULL` when the request ends past the
  capacity.
- Otherwise it runs a commit loop before returning `&buffer[offset]`. While
  the published commit cursor `committed` is below the request's end, the loop
  commits the gap from that cursor on, rounded up to whole 4096-byte pages,
  and then tries to publish a new cursor with a compare-exchange.

`arena_clear` rewinds the allocation cursor and leaves the commitments in
place. So a later request that fits the committed prefix needs no commit call.

The project has three files:

- `bits.dfy` (module `Bits`): `size_t` values as naturals below `WORD =
  2^64`. The operators the helpers use are defined bit by bit: `&`, `~` and a
  wrapping `x - 1`. The lemmas say what these compute on the masks the
  helpers build.
- `rounding.dfy` (module `Rounding`):
  - `is_power_of_two`, `align_forward` and `commit_size`, written with the
    same masks as the source.
  - Their meaning: at most one bit set; the smallest multiple of the
    alignment that is at least the size; the gap rounded up to pages.
- `arena.dfy`, two modules:
  - `ArenaSpec` models the three operations as functions on an `ArenaState`
    value. Besides the source's `length`, `committed` and `curr_offset`, the
    state records `backed`, the end of the prefix the commit calls have
    committed, and `commits`, the number of commit calls. The value the
    compare-exchange stores is a parameter, `CasStore`. `StoresIncrement` is
    the source as written; `StoresTotal` is the evident intent (see
    Findings). `Run` chains calls without a clear in between.
  - `ArenaImpl` holds the `Arena` class. Its fields are updated in place, and
    `ConcurrentAlloc` keeps the source's commit loop as a `while` loop. The
    class is proved to agree with the `ArenaSpec` functions, with the store
    as written.

## Model

| member | source | states |
|---|---|---|
| Rounding.IsPowerOfTwo | src/main.cpp:32-34 | the test `(x & (x - 1)) == 0` on a `size_t`, with `x - 1` wrapping at 0; what it accepts is stated by the two lemmas below |
| Rounding.AlignForward | src/main.cpp:36-38 | `(size + align - 1) & ~(align - 1)` on `size_t`, defined when the sum does not wrap; its meaning is stated by `Rounding.AlignForwardRoundsUp` |
| Rounding.CommitSize | src/main.cpp:40-43 | the gap `allocated - committed` rounded with the page mask; its meaning is stated by `Rounding.CommitSizeRoundsUp` |
| Rounding.IsPowerOfTwoIffAtMostOneBit | src/main.cpp:32-34 | on every `size_t`, `(x & (x - 1)) == 0` holds exactly when `x` has at most one bit set, 0 included (because `0 - 1` wraps around) |
| Rounding.IsPowerOfTwoIffPow2 | src/main.cpp:32-34 | on positive words, the test accepts exactly the numbers `2^k` |
| Rounding.AlignForwardRoundsUp | src/main.cpp:36-38 | for a power-of-two alignment with no overflow, `align_forward` is the smallest multiple of `align` at least `size`, and it is below `size + align` |
| Rounding.AlignForwardIs | src/main.cpp:36-38 | any multiple of `align` in `[size, size + align)` is what `align_forward` returns (uniqueness) |
| Rounding.CommitSizeRoundsUp | src/main.cpp:40-43 | `commit_size` is a multiple of 4096, at least the gap `allocated - committed`, and less than the gap plus 4096 |
| Rounding.CommitSizeIs | src/main.cpp:40-43 | any page multiple in that window is what `commit_size` returns |
| Rounding.PageSizeIsPowerOfTwo | src/main.cpp:12-14 | `PAGE_SIZE` is `2^12` and passes `is_power_of_two` |
| ArenaSpec.Init | src/main.cpp:26-30 | the state after `arena_init`: the capacity recorded, the allocation cursor 0, and (by assumption) nothing committed; see `ArenaSpec.InitValid` |
| ArenaSpec.CommitLoop | src/main.cpp:55-66 | the commit loop for one caller: nothing when the published cursor covers the request's end, otherwise one commit of the rounded gap from the published cursor and one store; see `ArenaSpec.AllocCommitsOnlyWhenUncovered` and `ArenaSpec.AllocBacksAllocation` |
| ArenaSpec.Alloc | src/main.cpp:45-69 | one call of `arena_concurrent_alloc`: bump, rollback on overflow of the capacity, or commit loop and old cursor; its properties are stated by the `ArenaSpec.Alloc*` lemmas |
| ArenaSpec.Clear | src/main.cpp:71-73 | `arena_clear`: the allocation cursor set to 0; see `ArenaSpec.ClearRewinds` |
| ArenaSpec.DefaultAlignmentIsPowerOfTwo | src/main.cpp:8-10 | the demo alignment, 8 (a pointer's size on the 64-bit target), passes `is_power_of_two` |
| ArenaSpec.InitValid | src/main.cpp:26-30 | a fresh arena records its capacity with cursor 0, and (by the assumption that `committed` starts at 0) keeps the invariant with nothing committed |
| ArenaSpec.AllocPreservesValid | src/main.cpp:45-69 | every call keeps the invariant: the published cursor is a page multiple, at most the capacity rounded up to a page, and within the committed prefix; the capacity is unchanged and the committed prefix only grows |
| ArenaSpec.AllocFailsIffPastCapacity | src/main.cpp:46-53 | a call returns `NULL` exactly when `offset + size` exceeds the capacity, and then the state is exactly as before (cursor restored, nothing committed) |
| ArenaSpec.AllocBumpsCursor | src/main.cpp:46-50 | a successful call returns the old cursor, its range fits the capacity, and the cursor moves by exactly `align_forward(size, align)`, which covers the request and is below `size + align` |
| ArenaSpec.AllocCommitsOnlyWhenUncovered | src/main.cpp:55-66 | one commit call is issued exactly when the call succeeds and the published cursor is below the request's end; otherwise the commit cursor, committed prefix and commit count are untouched |
| ArenaSpec.AllocBacksAllocation | src/main.cpp:55-68 | whatever the compare-exchange stores, and provided every commit call succeeds, a successful call returns only after the commit calls have covered the returned range |
| ArenaSpec.AllocPublishesCoverage | src/main.cpp:55-66 | the published cursor covers the returned range when the new total is stored, and, with the code as written, when nothing had been published before the call |
| ArenaSpec.IntendedCommitCursorMonotone | src/main.cpp:63 | if the new total is stored, the published commit cursor never decreases |
| ArenaSpec.AsWrittenCursorFallsShort | src/main.cpp:59-63 | as written, a call that commits while something is already published leaves the published cursor below the end of its own returned range, although that range is committed |
| ArenaSpec.AsWrittenCursorDecreases | src/main.cpp:59-63 | as written, when the gap plus one page is at most the published cursor, the call publishes less than it found |
| ArenaSpec.FirstCall | src/main.cpp:45-69 | on a fresh arena, a first request of whole pages at the demo alignment returns offset 0, makes one commit call of exactly those pages, and publishes their size |
| ArenaSpec.CommitCursorFallsBehind | src/main.cpp:63 | concrete run: after one page, a 4-byte request at offset 4096 is committed, but as written the published cursor stays below 4100; storing the total covers it |
| ArenaSpec.CommitCursorDecreases | src/main.cpp:63 | concrete run: after two pages (8192 published), a 4-byte request makes the published cursor, as written, fall below 8192 |
| ArenaSpec.ClearRewinds | src/main.cpp:71-73 | `arena_clear` sets the allocation cursor to 0, changes no other field, and keeps the invariant |
| ArenaSpec.ReuseAfterClearCommitsNothing | src/main.cpp:71-73 | after a clear, a request that fits the committed prefix is served from offset 0 with no commit call, and the commit cursor is unchanged |
| ArenaSpec.RunOffsetsFromCursor | src/main.cpp:47 | every offset a run of calls returns is at least the cursor the run started from |
| ArenaSpec.RunDisjoint | src/main.cpp:46-53 | in a run of calls with no clear, the successful ones return increasing, non-overlapping ranges `[offset, offset + align_forward(size, align))`, each with `offset + size` within the capacity |
| ArenaImpl.Arena.Init | src/main.cpp:26-30 | the constructor plus `arena_init` produce the state `ArenaSpec.Init(length)` and the invariant |
| ArenaImpl.Arena.ConcurrentAlloc | src/main.cpp:45-69 | the in-place fetch-add, rollback and commit loop produce exactly the state and offset of `ArenaSpec.Alloc` with the store as written, and keep the invariant |
| ArenaImpl.Arena.Clear | src/main.cpp:71-73 | the in-place clear produces `ArenaSpec.Clear` of the old state and keeps the invariant |

## Left out

- Reservation and commit calls (`VirtualAlloc`) are not modelled as calls. The
  reservation is assumed to succeed. Commits are recorded only in the ghost
  fields `backed` and `commits`, and the `buffer` pointer is absent.
- ArenaSpec.AllocBacksAllocation: every commit call is assumed to succeed. The
  source ignores what `VirtualAlloc` returns, both for the reservation at
  main.cpp:27 and for the commit at main.cpp:61. A refused commit would still
  be followed by the compare-exchange and by returning memory that is not
  committed; the model does not capture that case.
- The word size: `size_t` is 64 bits (`Bits.WORD` is `2^64`), and
  `DEFAULT_ALIGNMENT`, `sizeof(void *)`, is 8. A 32-bit target is not modelled.
- Pointers: `ConcurrentAlloc` returns the offset into the buffer (`Some(offset)`)
  instead of `&buffer[offset]`, and `None` for `NULL`.
- Concurrency: the model has one caller. Every atomic is a read followed by a
  write, and the compare-exchange finds the value it expects. So interleavings
  between threads are not modelled, and neither is a spurious failure of
  `compare_exchange_weak`. The loop's failure branch (`seen := committed`) is
  kept, but it is never taken.
- The demo driver (`allocate`, `main`), its threads and its console output are
  not part of this model.
- ArenaSpec.Alloc: the model requires `curr_offset + size + align <= 2^64`. The
  source does not guard against `size_t` wrap-around in `align_forward`, in
  the cursor bump or in `offset + size`, so the wrapped cases are not modelled.
- ArenaSpec.Alloc: the model requires a power-of-two alignment. The source
  never checks this, and `align_forward` is meaningless otherwise.
- ArenaSpec.Alloc: the model requires `align > 0`, although
  `is_power_of_two(0)` holds. With `align == 0` the source's `align_forward`
  yields 0 (the mask `~(0 - 1)` is 0), so the cursor never moves and every
  call returns the same offset; that case is not modelled.
- ArenaSpec.Valid: the model requires `length + 4096 <= 2^64`, so that the
  capacity rounded up to a page is a `size_t`.
- ArenaImpl.Arena.Init: `arena_init` never stores into `committed`. The model
  assumes it starts at 0, as for a zero-initialised `Arena`.
- The cursor bounds follow the code rather than the intended protocol, which
  keeps both cursors within `[0, capacity]`. In the code, `curr_offset` can pass
  `length` by alignment padding. `committed` is bounded only by `length`
  rounded up to a page, since the last commit is rounded up.
- The published cursor follows the code's store at main.cpp:63, the increment
  `to_commit`, rather than the new total `committed + to_commit` that
  commit-then-publish needs. The class keeps the code's store; the new total
  is the `StoresTotal` variant.

## Findings

| source | as written | input that shows it | evidently intended | confidence | as-written member | corrected member |
|---|---|---|---|---|---|---|
| src/main.cpp:63 | on success the compare-exchange stores `to_commit`, the size of the pages just committed, as the new commit cursor | an arena of at least three pages: `alloc(4096, 8)` publishes 4096; `alloc(4, 8)` then returns offset 4096, commits `[4096, 8192)` and publishes 4096 again, below the range's end 4100. From 8192 published, `alloc(4, 8)` publishes 4096: the cursor decreases | store the new total `committed + to_commit`, so that the cursor covers every returned range and never decreases | not executed | ArenaSpec.CommitCursorFallsBehind, ArenaSpec.CommitCursorDecreases, ArenaSpec.AsWrittenCursorFallsShort, ArenaSpec.AsWrittenCursorDecreases | ArenaSpec.AllocPublishesCoverage, ArenaSpec.IntendedCommitCursorMonotone |

With one caller, and provided every commit call succeeds, the pages are still
committed: `ArenaSpec.AllocBacksAllocation` holds for both stores. What goes wrong is the published cursor. It lags, so
later calls re-commit pages that are already committed (harmless with
`VirtualAlloc`, but a wasted system call). It can also move backwards.
`ConcurrentAlloc` models the code as written. The `ArenaSpec` functions and
the `Run` lemmas take the store as a parameter, so they hold for the corrected
store too.
