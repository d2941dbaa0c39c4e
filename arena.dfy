/** The bump-pointer arena of src/main.cpp:18-73 as a state machine, read as
    one sequential caller: every atomic operation is a read followed by a
    write, and a compare-exchange finds the value it expects.

    Beside the three fields of the source's `Arena`, the state records what
    the commit calls (`VirtualAlloc(..., MEM_COMMIT, ...)`) have done: each
    commits `[seen, seen + toCommit)` starting at or below the end of the
    prefix already committed, so together they always commit a prefix of the
    buffer, whose end is `backed`; `commits` counts the calls. */
module ArenaSpec {
  import opened Bits
  import opened Rounding

  datatype Option<T> = None | Some(value: T)

  datatype ArenaState = ArenaState(
    length: nat,      // capacity of the reservation, in bytes
    committed: nat,   // the published commit cursor
    currOffset: nat,  // the allocation cursor
    backed: nat,      // end of the prefix the commit calls have committed
    commits: nat)     // number of commit calls issued

  /** What the compare-exchange of the commit loop stores when it succeeds. */
  datatype CasStore =
    | StoresIncrement  // as written at main.cpp:63: the increment `to_commit`
    | StoresTotal      // as intended: the new total `committed + to_commit`

  /** The new state of one allocation call and the offset it returns
      (`None` for the source's `NULL`). */
  datatype AllocOutcome = AllocOutcome(next: ArenaState, offset: Option<nat>)

  /** One call `arena_concurrent_alloc(a, size, align)`. */
  datatype Request = Request(size: nat, align: nat)

  function Max(a: nat, b: nat): nat
  {
    if a < b then b else a
  }

  /** `n` rounded up to whole pages. */
  function PageCeil(n: nat): nat
    requires n + PageSize - 1 < WORD
  {
    AlignForward(n, PageSize)
  }

  /** The invariant every reachable state keeps: the capacity leaves room for
      the page rounding in a `size_t`, the published cursor is page-aligned,
      does not pass the capacity rounded up to a page, and lies within the
      prefix the commit calls really committed. */
  predicate Valid(s: ArenaState)
  {
    && s.length + PageSize <= WORD
    && s.committed % PageSize == 0
    && s.committed <= PageCeil(s.length)
    && s.committed <= s.backed
  }

  /** `arena_init` on a fresh `Arena`: the capacity is recorded and the
      allocation cursor is zero. The source never stores into `committed`;
      this model assumes it starts at zero, and nothing has been committed. */
  function Init(length: nat): ArenaState
  {
    ArenaState(length, 0, 0, 0, 0)
  }

  /** What an allocation call needs so that the model matches the source:
      a power-of-two alignment (the source does not check it), and a request
      small enough that neither `align_forward` nor the cursor bump nor
      `offset + size` wraps around. */
  predicate AllocPre(s: ArenaState, size: nat, align: nat)
  {
    0 < align < WORD && IsPowerOfTwo(align) && s.currOffset + size + align <= WORD
  }

  predicate ValidRequest(r: Request)
  {
    0 < r.align < WORD && IsPowerOfTwo(r.align) && r.size + r.align <= WORD
  }

  function Publish(store: CasStore, seen: nat, toCommit: nat): nat
  {
    match store
    case StoresIncrement => toCommit
    case StoresTotal => seen + toCommit
  }

  /** The commit loop (main.cpp:55-66) for an allocation ending at `allocEnd`:
      nothing happens when the published cursor already covers it; otherwise
      the gap is rounded to pages, committed from the published cursor on,
      and the compare-exchange publishes the value `store` says. */
  function CommitLoop(s: ArenaState, allocEnd: nat, store: CasStore): ArenaState
    requires Valid(s) && allocEnd <= s.length
  {
    if allocEnd <= s.committed then s
    else
      var toCommit := CommitSize(s.committed, allocEnd);
      s.(committed := Publish(store, s.committed, toCommit),
         backed := Max(s.backed, s.committed + toCommit),
         commits := s.commits + 1)
  }

  /** `arena_concurrent_alloc` (main.cpp:45-69): bump the cursor by the
      aligned size, undo the bump if the request ends past the capacity,
      otherwise run the commit loop and return the old cursor. */
  function Alloc(s: ArenaState, size: nat, align: nat, store: CasStore): AllocOutcome
    requires Valid(s) && AllocPre(s, size, align)
  {
    var alignedSize := AlignForward(size, align);
    var offset := s.currOffset;
    var bumped := s.(currOffset := offset + alignedSize);
    var allocEnd := offset + size;
    if allocEnd > s.length then
      AllocOutcome(bumped.(currOffset := bumped.currOffset - alignedSize), None)
    else
      AllocOutcome(CommitLoop(bumped, allocEnd, store), Some(offset))
  }

  /** `arena_clear` (main.cpp:71-73). */
  function Clear(s: ArenaState): ArenaState
  {
    s.(currOffset := 0)
  }

  /** The total a run of requests may add to the cursor, with slack; used to
      rule out wrap-around over a whole run. */
  function Demand(reqs: seq<Request>): nat
  {
    if reqs == [] then 0 else reqs[0].size + reqs[0].align + Demand(reqs[1..])
  }

  predicate RunPre(s: ArenaState, reqs: seq<Request>)
  {
    && (forall i :: 0 <= i < |reqs| ==> ValidRequest(reqs[i]))
    && s.currOffset + Demand(reqs) <= WORD
  }

  /** Consecutive allocation calls, with no `arena_clear` between them: the
      final state and what each call returned. */
  function Run(s: ArenaState, reqs: seq<Request>, store: CasStore): (r: (ArenaState, seq<Option<nat>>))
    requires Valid(s) && RunPre(s, reqs)
    ensures |r.1| == |reqs|
    decreases |reqs|
  {
    if reqs == [] then (s, [])
    else
      var o := Alloc(s, reqs[0].size, reqs[0].align, store);
      AllocPreservesValid(s, reqs[0].size, reqs[0].align, store);
      AllocBumpsCursor(s, reqs[0].size, reqs[0].align, store);
      assert RunPre(o.next, reqs[1..]) by {
        assert forall i :: 0 <= i < |reqs[1..]| ==> reqs[1..][i] == reqs[i + 1];
      }
      var rest := Run(o.next, reqs[1..], store);
      (rest.0, [o.offset] + rest.1)
  }

  // ---------------------------------------------------------------------
  // One call

  /** The rounded capacity used by `Valid`. */
  lemma PageCeilRoundsUp(n: nat)
    requires n + PageSize - 1 < WORD
    ensures PageCeil(n) % PageSize == 0 && n <= PageCeil(n) < n + PageSize
  {
    PageSizeIsPowerOfTwo();
    AlignForwardWindow(n, PageSize);
  }

  /** Every call keeps the invariant and the capacity, and the commit calls
      only ever extend the committed prefix. */
  lemma AllocPreservesValid(s: ArenaState, size: nat, align: nat, store: CasStore)
    requires Valid(s) && AllocPre(s, size, align)
    ensures var n := Alloc(s, size, align, store).next;
      Valid(n) && n.length == s.length && n.backed >= s.backed && n.commits >= s.commits
  {
    var allocEnd := s.currOffset + size;
    if allocEnd <= s.length && s.committed < allocEnd {
      var c := s.committed;
      CommitSizeRoundsUp(c, allocEnd);
      PageCeilRoundsUp(s.length);
      PublishWithinCeil(store, c, CommitSize(c, allocEnd), allocEnd, PageCeil(s.length));
    }
  }

  /** Both values the compare-exchange may store are page multiples that do
      not pass a page multiple `ceil` at or above the allocation's end. */
  lemma PublishWithinCeil(store: CasStore, c: nat, t: nat, allocEnd: nat, ceil: nat)
    requires c % PageSize == 0 && c < allocEnd <= ceil && ceil % PageSize == 0
    requires t % PageSize == 0 && allocEnd - c <= t < allocEnd - c + PageSize
    ensures Publish(store, c, t) % PageSize == 0 && Publish(store, c, t) <= ceil
    ensures c + t >= allocEnd
  {
  }

  /** A call fails exactly when the request ends past the capacity, and a
      failing call leaves the state exactly as it was (the bump is undone). */
  lemma AllocFailsIffPastCapacity(s: ArenaState, size: nat, align: nat, store: CasStore)
    requires Valid(s) && AllocPre(s, size, align)
    ensures var o := Alloc(s, size, align, store);
      && (o.offset.None? <==> s.currOffset + size > s.length)
      && (o.offset.None? ==> o.next == s)
  {
  }

  /** A successful call returns the old cursor, fits the capacity, and moves
      the cursor by exactly the aligned size, which covers the request and
      stays below `size + align`. */
  lemma AllocBumpsCursor(s: ArenaState, size: nat, align: nat, store: CasStore)
    requires Valid(s) && AllocPre(s, size, align)
    ensures var o := Alloc(s, size, align, store);
      && o.next.currOffset <= s.currOffset + size + align
      && (o.offset.Some? ==>
            && o.offset.value == s.currOffset
            && o.offset.value + size <= s.length
            && o.next.currOffset == s.currOffset + AlignForward(size, align)
            && o.offset.value + size <= o.next.currOffset < o.offset.value + size + align)
  {
    AlignForwardRoundsUp(size, align);
  }

  /** A call issues a commit exactly when it succeeds and the published
      cursor does not already cover it; otherwise the commit cursor, the
      committed prefix and the count of commit calls are untouched. */
  lemma AllocCommitsOnlyWhenUncovered(s: ArenaState, size: nat, align: nat, store: CasStore)
    requires Valid(s) && AllocPre(s, size, align)
    ensures var o := Alloc(s, size, align, store);
      var slow := o.offset.Some? && s.committed < s.currOffset + size;
      && (slow ==> o.next.commits == s.commits + 1)
      && (!slow ==> o.next.committed == s.committed && o.next.backed == s.backed
                    && o.next.commits == s.commits)
  {
  }

  /** Whatever the compare-exchange stores, a successful call returns only
      after the commit calls have covered the whole returned range (each
      commit call is taken to succeed; the source does not check). */
  lemma AllocBacksAllocation(s: ArenaState, size: nat, align: nat, store: CasStore)
    requires Valid(s) && AllocPre(s, size, align)
    ensures var o := Alloc(s, size, align, store);
      o.offset.Some? ==> o.offset.value + size <= o.next.backed
  {
    var allocEnd := s.currOffset + size;
    if allocEnd <= s.length && s.committed < allocEnd {
      CommitSizeRoundsUp(s.committed, allocEnd);
    }
  }

  /** The published cursor covers the returned range when the new total is
      stored, and, as written, when nothing had been committed before. */
  lemma AllocPublishesCoverage(s: ArenaState, size: nat, align: nat, store: CasStore)
    requires Valid(s) && AllocPre(s, size, align)
    requires store == StoresTotal || s.committed == 0
    ensures var o := Alloc(s, size, align, store);
      o.offset.Some? ==> o.offset.value + size <= o.next.committed
  {
    var allocEnd := s.currOffset + size;
    if allocEnd <= s.length && s.committed < allocEnd {
      CommitSizeRoundsUp(s.committed, allocEnd);
    }
  }

  /** When the new total is stored, the commit cursor never decreases. */
  lemma IntendedCommitCursorMonotone(s: ArenaState, size: nat, align: nat)
    requires Valid(s) && AllocPre(s, size, align)
    ensures Alloc(s, size, align, StoresTotal).next.committed >= s.committed
  {
  }

  /** A fresh arena is valid, and nothing is committed or allocated. */
  lemma InitValid(length: nat)
    requires length + PageSize <= WORD
    ensures Valid(Init(length))
    ensures Init(length).length == length && Init(length).currOffset == 0
    ensures Init(length).committed == 0 && Init(length).backed == 0 && Init(length).commits == 0
  {
  }

  /** `arena_clear` rewinds the allocation cursor to zero, keeps every other
      field, and keeps the invariant. */
  lemma ClearRewinds(s: ArenaState)
    requires Valid(s)
    ensures Valid(Clear(s)) && Clear(s).currOffset == 0
    ensures Clear(s).(currOffset := s.currOffset) == s
  {
  }

  /** `arena_clear` keeps the invariant, and afterwards a request that fits
      the committed prefix is served from offset 0 with no commit call. */
  lemma ReuseAfterClearCommitsNothing(s: ArenaState, size: nat, align: nat, store: CasStore)
    requires Valid(s) && AllocPre(Clear(s), size, align)
    requires size <= s.committed && size <= s.length
    ensures Valid(Clear(s))
    ensures var o := Alloc(Clear(s), size, align, store);
      o.offset == Some(0) && o.next.commits == s.commits && o.next.committed == s.committed
  {
  }

  // ---------------------------------------------------------------------
  // The commit cursor as written (main.cpp:63)

  /** As written, a call that runs the commit loop while something is
      already published stores only the page-rounded gap, which is less than
      the end of the returned range, although the commit calls do cover it. */
  lemma AsWrittenCursorFallsShort(s: ArenaState, size: nat, align: nat)
    requires Valid(s) && AllocPre(s, size, align)
    requires 0 < s.committed < s.currOffset + size <= s.length
    ensures var o := Alloc(s, size, align, StoresIncrement);
      && o.offset == Some(s.currOffset)
      && o.next.committed < s.currOffset + size <= o.next.backed
  {
    var allocEnd := s.currOffset + size;
    var n := AllocSlowPath(s, size, align, StoresIncrement);
    CommitSizeRoundsUp(s.committed, allocEnd);
    PageMultipleAtLeastPage(s.committed);
    BelowEnd(s.committed, CommitSize(s.committed, allocEnd), allocEnd);
  }

  /** A call that fits the capacity runs the commit loop on the bumped state
      and returns the old cursor. */
  lemma AllocSlowPath(s: ArenaState, size: nat, align: nat, store: CasStore) returns (n: ArenaState)
    requires Valid(s) && AllocPre(s, size, align) && s.currOffset + size <= s.length
    ensures s.committed < s.currOffset + size ==>
      && n.committed == Publish(store, s.committed, CommitSize(s.committed, s.currOffset + size))
      && n.backed >= s.committed + CommitSize(s.committed, s.currOffset + size)
    ensures Alloc(s, size, align, store) == AllocOutcome(n, Some(s.currOffset))
  {
    var bumped := s.(currOffset := s.currOffset + AlignForward(size, align));
    n := CommitLoop(bumped, s.currOffset + size, store);
  }

  lemma PageMultipleAtLeastPage(c: nat)
    requires 0 < c && c % PageSize == 0
    ensures PageSize <= c
  {
  }

  lemma BelowEnd(c: nat, t: nat, allocEnd: nat)
    requires PageSize <= c < allocEnd && t < allocEnd - c + PageSize
    ensures t < allocEnd
  {
  }

  /** As written, when the gap plus a page is at most the published cursor,
      the call stores less than it found: the commit cursor decreases. */
  lemma AsWrittenCursorDecreases(s: ArenaState, size: nat, align: nat)
    requires Valid(s) && AllocPre(s, size, align)
    requires s.committed < s.currOffset + size <= s.length
    requires s.currOffset + size + PageSize <= 2 * s.committed
    ensures Alloc(s, size, align, StoresIncrement).next.committed < s.committed
  {
    var n := AllocSlowPath(s, size, align, StoresIncrement);
    CommitSizeRoundsUp(s.committed, s.currOffset + size);
  }

  /** The demo driver's alignment passes the check. */
  lemma DefaultAlignmentIsPowerOfTwo()
    ensures IsPowerOfTwo(DefaultAlignment)
  {
    PopCountPow2(3);
    IsPowerOfTwoIffAtMostOneBit(DefaultAlignment);
  }

  /** A whole number of pages is a multiple of the demo's alignment. */
  lemma PagesAreAligned(size: nat)
    requires size % PageSize == 0
    ensures size % DefaultAlignment == 0
  {
    DivUnique(size, DefaultAlignment, (size / PageSize) * 512, 0);
  }

  /** The first call on a fresh arena, of a whole number of pages that fits,
      at the demo's alignment: it returns offset 0, commits exactly the
      requested pages with one commit call and publishes their size. */
  lemma FirstCall(length: nat, size: nat, align: nat)
    requires length + PageSize <= WORD && align == DefaultAlignment
    requires size % PageSize == 0 && 0 < size <= length
    ensures Valid(Init(length)) && AllocPre(Init(length), size, align)
    ensures Alloc(Init(length), size, align, StoresIncrement) ==
      AllocOutcome(ArenaState(length, size, size, size, 1), Some(0))
  {
    DefaultAlignmentIsPowerOfTwo();
    PagesAreAligned(size);
    AlignForwardIs(size, align, size);
    CommitSizeIs(0, size, size);
  }

  /** On a fresh arena of at least three pages (the demo's has 1 MiB), a first
      call of one page publishes 4096; a second call of 4 bytes, at offset
      4096, needs the bytes up to 4100 and commits them, but as written the
      published cursor stays below 4100. Storing the total covers them. */
  lemma CommitCursorFallsBehind(length: nat, first: nat, align: nat)
    requires 3 * PageSize <= length && length + PageSize <= WORD
    requires first == PageSize && align == DefaultAlignment
    ensures Valid(Init(length)) && AllocPre(Init(length), first, align)
    ensures Alloc(Init(length), first, align, StoresIncrement).next == ArenaState(length, first, first, first, 1)
    ensures var s1 := ArenaState(length, first, first, first, 1);
      && Valid(s1) && AllocPre(s1, 4, align)
      && Alloc(s1, 4, align, StoresIncrement).offset == Some(first)
      && Alloc(s1, 4, align, StoresIncrement).next.committed < first + 4
      && first + 4 <= Alloc(s1, 4, align, StoresIncrement).next.backed
      && first + 4 <= Alloc(s1, 4, align, StoresTotal).next.committed
  {
    var s1 := ArenaState(length, first, first, first, 1);
    assert Valid(s1) && AllocPre(s1, 4, align)
      && Alloc(s1, 4, align, StoresIncrement).offset == Some(first)
      && Alloc(s1, 4, align, StoresIncrement).next.committed < first + 4
      && first + 4 <= Alloc(s1, 4, align, StoresIncrement).next.backed
      && first + 4 <= Alloc(s1, 4, align, StoresTotal).next.committed
    by {
      DefaultAlignmentIsPowerOfTwo();
      PageCeilRoundsUp(length);
      AsWrittenCursorFallsShort(s1, 4, align);
      AllocPublishesCoverage(s1, 4, align, StoresTotal);
    }
    FirstCall(length, first, align);
  }

  /** On a fresh arena of at least three pages, a first call of two pages
      publishes 8192; as written, the next call, of 4 bytes, publishes less:
      the commit cursor decreases. */
  lemma CommitCursorDecreases(length: nat, first: nat, align: nat)
    requires 3 * PageSize <= length && length + PageSize <= WORD
    requires first == 2 * PageSize && align == DefaultAlignment
    ensures Valid(Init(length)) && AllocPre(Init(length), first, align)
    ensures Alloc(Init(length), first, align, StoresIncrement).next == ArenaState(length, first, first, first, 1)
    ensures var s1 := ArenaState(length, first, first, first, 1);
      && Valid(s1) && AllocPre(s1, 4, align)
      && Alloc(s1, 4, align, StoresIncrement).next.committed < first
  {
    var s1 := ArenaState(length, first, first, first, 1);
    assert Valid(s1) && AllocPre(s1, 4, align)
      && Alloc(s1, 4, align, StoresIncrement).next.committed < first
    by {
      DefaultAlignmentIsPowerOfTwo();
      PageCeilRoundsUp(length);
      AsWrittenCursorDecreases(s1, 4, align);
    }
    FirstCall(length, first, align);
  }

  // ---------------------------------------------------------------------
  // Consecutive calls

  /** The first call of a run, and the rest of the run after it. */
  lemma RunUnfold(s: ArenaState, reqs: seq<Request>, store: CasStore)
    requires Valid(s) && RunPre(s, reqs) && reqs != []
    ensures var o := Alloc(s, reqs[0].size, reqs[0].align, store);
      && Valid(o.next) && RunPre(o.next, reqs[1..])
      && o.next.length == s.length
      && Run(s, reqs, store).1 == [o.offset] + Run(o.next, reqs[1..], store).1
  {
    var o := Alloc(s, reqs[0].size, reqs[0].align, store);
    AllocPreservesValid(s, reqs[0].size, reqs[0].align, store);
    AllocBumpsCursor(s, reqs[0].size, reqs[0].align, store);
    assert forall i :: 0 <= i < |reqs[1..]| ==> reqs[1..][i] == reqs[i + 1];
  }

  /** Every offset a run returns is at least the cursor it started from. */
  lemma {:induction false} RunOffsetsFromCursor(s: ArenaState, reqs: seq<Request>, store: CasStore)
    requires Valid(s) && RunPre(s, reqs)
    decreases |reqs|
    ensures var res := Run(s, reqs, store).1;
      forall j :: 0 <= j < |res| && res[j].Some? ==> s.currOffset <= res[j].value
  {
    if reqs != [] {
      var o := Alloc(s, reqs[0].size, reqs[0].align, store);
      RunUnfold(s, reqs, store);
      AllocBumpsCursor(s, reqs[0].size, reqs[0].align, store);
      AllocFailsIffPastCapacity(s, reqs[0].size, reqs[0].align, store);
      assert s.currOffset <= o.next.currOffset;
      RunOffsetsFromCursor(o.next, reqs[1..], store);
      var res := Run(s, reqs, store).1;
      var tail := Run(o.next, reqs[1..], store).1;
      forall j | 0 <= j < |res| && res[j].Some?
        ensures s.currOffset <= res[j].value
      {
        if j > 0 {
          assert res[j] == tail[j - 1];
        }
      }
    }
  }

  /** Consecutive successful calls return ranges `[offset, offset + aligned
      size)` in increasing order that do not overlap, and each returned
      range `[offset, offset + size)` lies within the capacity. */
  lemma {:induction false} RunDisjoint(s: ArenaState, reqs: seq<Request>, store: CasStore)
    requires Valid(s) && RunPre(s, reqs)
    decreases |reqs|
    ensures var res := Run(s, reqs, store).1;
      && (forall j :: 0 <= j < |res| && res[j].Some? ==> res[j].value + reqs[j].size <= s.length)
      && (forall i, j :: 0 <= i < j < |res| && res[i].Some? && res[j].Some? ==>
            res[i].value + AlignForward(reqs[i].size, reqs[i].align) <= res[j].value)
  {
    if reqs != [] {
      var o := Alloc(s, reqs[0].size, reqs[0].align, store);
      var rest := reqs[1..];
      RunUnfold(s, reqs, store);
      AllocBumpsCursor(s, reqs[0].size, reqs[0].align, store);
      RunOffsetsFromCursor(o.next, rest, store);
      RunDisjoint(o.next, rest, store);
      var res := Run(s, reqs, store).1;
      var tail := Run(o.next, rest, store).1;
      forall j | 0 <= j < |res| && res[j].Some?
        ensures res[j].value + reqs[j].size <= s.length
      {
        if j > 0 {
          assert res[j] == tail[j - 1] && reqs[j] == rest[j - 1];
        }
      }
      forall i, j | 0 <= i < j < |res| && res[i].Some? && res[j].Some?
        ensures res[i].value + AlignForward(reqs[i].size, reqs[i].align) <= res[j].value
      {
        assert res[j] == tail[j - 1];
        if i > 0 {
          assert res[i] == tail[i - 1] && reqs[i] == rest[i - 1];
        }
      }
    }
  }
}

/** The `Arena` struct and its three operations, in place. */
module ArenaImpl {
  import opened Bits
  import opened Rounding
  import opened ArenaSpec

  class Arena {
    var length: nat
    var committed: nat
    var currOffset: nat
    ghost var backed: nat
    ghost var commits: nat

    ghost function State(): ArenaState
      reads this
    {
      ArenaState(length, committed, currOffset, backed, commits)
    }

    ghost predicate Valid()
      reads this
    {
      ArenaSpec.Valid(State())
    }

    /** `new Arena` followed by `arena_init(a, length)`; the reservation
        itself is not modelled. `committed` starts at zero by assumption. */
    constructor Init(length: nat)
      requires length + PageSize <= WORD
      ensures Valid() && State() == ArenaSpec.Init(length)
    {
      this.length := length;
      currOffset := 0;
      committed := 0;
      backed := 0;
      commits := 0;
    }

    /** `arena_concurrent_alloc(a, size, align)`, returning the offset into
        the buffer instead of a pointer. */
    method ConcurrentAlloc(size: nat, align: nat) returns (offset: Option<nat>)
      requires Valid() && AllocPre(State(), size, align)
      modifies this
      ensures Valid()
      ensures State() == Alloc(old(State()), size, align, StoresIncrement).next
      ensures offset == Alloc(old(State()), size, align, StoresIncrement).offset
    {
      ghost var s0 := State();
      var alignedSize := AlignForward(size, align);
      // fetch_add: the old cursor is this call's offset
      var start := currOffset;
      currOffset := currOffset + alignedSize;
      var allocEnd := start + size;
      if allocEnd > length {
        // fetch_sub: undo exactly this call's bump
        currOffset := currOffset - alignedSize;
        return None;
      }
      ghost var bumped := State();
      var seen := committed;
      var done := false;
      while !done
        invariant length == s0.length && currOffset == bumped.currOffset
        invariant ArenaSpec.Valid(bumped) && allocEnd <= length
        invariant !done ==> State() == bumped && seen == committed
        invariant done ==> State() == CommitLoop(bumped, allocEnd, StoresIncrement)
        decreases if done then 0 else 1
      {
        if allocEnd <= seen {
          done := true;
        } else {
          var toCommit := CommitSize(seen, allocEnd);
          // VirtualAlloc(&buffer[seen], toCommit, MEM_COMMIT, ...)
          backed := Max(backed, seen + toCommit);
          commits := commits + 1;
          // compare_exchange_weak(seen, toCommit); one caller: it succeeds
          if committed == seen {
            committed := toCommit;
            done := true;
          } else {
            seen := committed;
          }
        }
      }
      AllocPreservesValid(s0, size, align, StoresIncrement);
      offset := Some(start);
    }

    /** `arena_clear`: rewinds the allocation cursor and nothing else. */
    method Clear()
      requires Valid()
      modifies this
      ensures Valid()
      ensures State() == ArenaSpec.Clear(old(State()))
    {
      currOffset := 0;
    }
  }
}
