/**
  The page arena (`BufferCache`): one flat buffer of fixed-size pages that
  hands out page identifiers, recycles freed ones last-in first-out, and maps
  an identifier to the byte offset of its page in the buffer.  It never
  evicts and never checks its capacity: a caller must not ask for more pages
  than it was built with.
 */
module PageArena {
  import opened Codec

  /** Bytes per page. */
  const PageSize: nat := 8192

  /** The arena's bookkeeping: the bump counter and the LIFO free list. */
  datatype ArenaState = ArenaState(nextFreePage: nat, freeList: seq<uint32>)

  /** The counter only grows past identifiers that have been handed out. */
  ghost predicate ArenaInv(s: ArenaState, pages: nat)
  {
    && s.nextFreePage <= pages
    && forall i :: 0 <= i < |s.freeList| ==> s.freeList[i] < s.nextFreePage
  }

  /** Some identifier can be handed out without overrunning the buffer. */
  predicate CanAllocate(s: ArenaState, pages: nat)
  {
    s.freeList != [] || s.nextFreePage < pages
  }

  /**
    `init_next_free_page`, on the bookkeeping: reuse the most recently freed
    identifier if there is one, else take the next never-used one.
   */
  function Allocate(s: ArenaState): (r: (ArenaState, uint32))
    requires s.freeList != [] || s.nextFreePage < 0x1_0000_0000
    ensures s.freeList != [] ==>
      && r.1 in s.freeList
      && multiset(r.0.freeList) + multiset{r.1} == multiset(s.freeList)
      && r.0.nextFreePage == s.nextFreePage
    ensures s.freeList == [] ==> r.1 == s.nextFreePage && r.0 == ArenaState(s.nextFreePage + 1, [])
  {
    if |s.freeList| > 0 then
      assert s.freeList == s.freeList[..|s.freeList| - 1] + [s.freeList[|s.freeList| - 1]];
      (s.(freeList := s.freeList[..|s.freeList| - 1]), s.freeList[|s.freeList| - 1])
    else
      (s.(nextFreePage := s.nextFreePage + 1), s.nextFreePage)
  }

  /** `free`, on the bookkeeping: push the identifier onto the free list. */
  function FreePid(s: ArenaState, pid: uint32): (r: ArenaState)
    ensures multiset(r.freeList) == multiset(s.freeList) + multiset{pid}
    ensures r.nextFreePage == s.nextFreePage
  {
    s.(freeList := s.freeList + [pid])
  }

  /** The identifiers `k` successive allocations hand out, and the state they leave. */
  function AllocateMany(s: ArenaState, k: nat): (ArenaState, seq<uint32>)
    requires s.nextFreePage + k <= 0x1_0000_0000
    decreases k
  {
    if k == 0 then (s, [])
    else
      var (s1, pid) := Allocate(s);
      var (s2, pids) := AllocateMany(s1, k - 1);
      (s2, [pid] + pids)
  }

  /** Allocation keeps the invariant and hands out an identifier inside the buffer. */
  lemma AllocatePreservesInv(s: ArenaState, pages: nat)
    requires ArenaInv(s, pages) && CanAllocate(s, pages) && pages <= 0x1_0000_0000
    ensures ArenaInv(Allocate(s).0, pages)
    ensures Allocate(s).1 < Allocate(s).0.nextFreePage <= pages
  {
  }

  /** Freeing an identifier that was handed out keeps the invariant. */
  lemma FreePreservesInv(s: ArenaState, pid: uint32, pages: nat)
    requires ArenaInv(s, pages) && pid < s.nextFreePage
    ensures ArenaInv(FreePid(s, pid), pages)
  {
  }

  /** Allocation right after `free(pid)` hands `pid` back and restores the state. */
  lemma FreeThenAllocate(s: ArenaState, pid: uint32)
    ensures Allocate(FreePid(s, pid)) == (s, pid)
  {
    assert (s.freeList + [pid])[..|s.freeList|] == s.freeList;
  }

  /** Freed identifiers come back in reverse order of freeing. */
  lemma FreedComeBackLastInFirstOut(s: ArenaState, p: uint32, q: uint32)
    ensures Allocate(FreePid(FreePid(s, p), q)).1 == q
    ensures Allocate(Allocate(FreePid(FreePid(s, p), q)).0).1 == p
  {
    FreeThenAllocate(FreePid(s, p), q);
    FreeThenAllocate(s, p);
  }

  /**
    With an empty free list, `k` allocations hand out the next `k` identifiers
    in increasing order and advance the counter by `k`.
   */
  lemma {:induction false} FreshAllocationsCount(s: ArenaState, k: nat)
    requires s.freeList == [] && s.nextFreePage + k <= 0x1_0000_0000
    ensures |AllocateMany(s, k).1| == k
    ensures forall i :: 0 <= i < k ==> AllocateMany(s, k).1[i] == s.nextFreePage + i
    ensures AllocateMany(s, k).0 == ArenaState(s.nextFreePage + k, [])
    decreases k
  {
    if k > 0 {
      var s1 := Allocate(s).0;
      assert s1 == ArenaState(s.nextFreePage + 1, []);
      FreshAllocationsCount(s1, k - 1);
    }
  }

  /** The byte offset of page `pid` in the buffer: `pid * PageSize` in 32-bit arithmetic. */
  function PageOffset(pid: uint32): (offset: nat)
    ensures offset % PageSize == 0 && offset < 0x1_0000_0000
    ensures pid < 0x8_0000 ==> offset == pid * PageSize
  {
    (pid * PageSize) % 0x1_0000_0000
  }

  /** Distinct pages below 2^19 lie at disjoint offsets. */
  lemma PagesDisjoint(p: uint32, q: uint32)
    requires p < 0x8_0000 && q < 0x8_0000 && p != q
    ensures PageOffset(p) + PageSize <= PageOffset(q) || PageOffset(q) + PageSize <= PageOffset(p)
  {
    if p < q {
      assert q * PageSize - p * PageSize == (q - p) * PageSize;
    } else {
      assert p * PageSize - q * PageSize == (p - q) * PageSize;
    }
  }

  class BufferCache {
    /** `_pages`: the number of pages the arena was built for. */
    const pages: uint32
    /** The length of `_ptr`'s buffer: `_pages * PageSize` in 32-bit arithmetic. */
    const bufferLength: nat
    /** `_next_free_page`. */
    var nextFreePage: uint32
    /** `_freeList`, its back at the end. */
    var freeList: seq<uint32>

    ghost function State(): ArenaState
      reads this
    {
      ArenaState(nextFreePage, freeList)
    }

    ghost predicate Valid()
      reads this
    {
      && ArenaInv(State(), pages)
      && bufferLength == (pages * PageSize) % 0x1_0000_0000
    }

    /** `BufferCache(pages)`: an empty free list and a counter at page 0. */
    constructor (pages: uint32)
      ensures Valid()
      ensures this.pages == pages && State() == ArenaState(0, [])
    {
      this.pages := pages;
      bufferLength := (pages * PageSize) % 0x1_0000_0000;
      nextFreePage := 0;
      freeList := [];
    }

    /**
      `init_next_free_page`: hands out the last freed identifier, or the next
      never-used one, together with the offset of its page.
     */
    method InitNextFreePage() returns (pid: uint32, page: nat)
      requires Valid() && CanAllocate(State(), pages)
      modifies this
      ensures Valid()
      ensures (State(), pid) == Allocate(old(State()))
      ensures old(freeList) != [] ==>
        pid == old(freeList)[|old(freeList)| - 1] && freeList == old(freeList)[..|old(freeList)| - 1]
        && nextFreePage == old(nextFreePage)
      ensures old(freeList) == [] ==>
        pid == old(nextFreePage) && nextFreePage == old(nextFreePage) + 1 && freeList == old(freeList)
      ensures pid < pages && page == Get(pid)
    {
      AllocatePreservesInv(State(), pages);
      if |freeList| > 0 {
        pid := freeList[|freeList| - 1];
        freeList := freeList[..|freeList| - 1];
      } else {
        pid := nextFreePage;
        nextFreePage := nextFreePage + 1;
      }
      page := PageOffset(pid);
    }

    /** `free`: pushes a previously handed-out identifier onto the free list. */
    method Free(pid: uint32)
      requires Valid() && pid < nextFreePage
      modifies this
      ensures Valid()
      ensures State() == FreePid(old(State()), pid)
      ensures freeList == old(freeList) + [pid] && nextFreePage == old(nextFreePage)
    {
      FreePreservesInv(State(), pid, pages);
      freeList := freeList + [pid];
    }

    /**
      `get`: the offset of page `pid`.  When the whole buffer is addressable
      in 32 bits, a page of the arena lies entirely inside the buffer.
     */
    function Get(pid: uint32): (page: nat)
      reads this
      ensures page == PageOffset(pid)
      ensures Valid() && pages * PageSize < 0x1_0000_0000 && pid < pages ==> page + PageSize <= bufferLength
    {
      PageOffset(pid)
    }
  }

  /** The page the single-leaf test takes from the 100-page arena it starts with: page 0, at offset 0. */
  method FirstFreshPage() returns (pid: uint32, page: nat)
    ensures pid == 0 && page == 0
  {
    var cache := new BufferCache(100);
    pid, page := cache.InitNextFreePage();
  }

  /** The first three allocations of a fresh arena hand out pages 0, 1 and 2 in order. */
  method AllocateFirstThree(cache: BufferCache) returns (pids: seq<uint32>, offsets: seq<nat>)
    requires cache.Valid() && cache.pages == 100 && cache.State() == ArenaState(0, [])
    modifies cache
    ensures cache.Valid() && cache.pages == 100 && cache.State() == ArenaState(3, [])
    ensures pids == [0, 1, 2] && offsets == [0, PageSize, 2 * PageSize]
  {
    var p0, h0 := cache.InitNextFreePage();
    var p1, h1 := cache.InitNextFreePage();
    var p2, h2 := cache.InitNextFreePage();
    pids, offsets := [p0, p1, p2], [h0, h1, h2];
  }

  /** With pages 1 and then 0 freed, they come back first, before the fresh page 3. */
  method AllocateAfterFrees(cache: BufferCache) returns (pids: seq<uint32>)
    requires cache.Valid() && cache.pages == 100 && cache.State() == ArenaState(3, [1, 0])
    modifies cache
    ensures pids == [0, 1, 3]
  {
    var q0, _ := cache.InitNextFreePage();
    var q1, _ := cache.InitNextFreePage();
    var q2, _ := cache.InitNextFreePage();
    pids := [q0, q1, q2];
  }

  /**
    The allocation sequence of a fresh arena: three fresh pages in order, then,
    after freeing the second and the first, those two come back before a
    fourth fresh page.
   */
  method FreshArenaScenario() returns (first: seq<uint32>, offsets: seq<nat>, again: seq<uint32>)
    ensures first == [0, 1, 2] && offsets == [0, PageSize, 2 * PageSize]
    ensures again == [0, 1, 3]
  {
    var cache := new BufferCache(100);
    first, offsets := AllocateFirstThree(cache);
    cache.Free(1);
    cache.Free(0);
    again := AllocateAfterFrees(cache);
  }
}
