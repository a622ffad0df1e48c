/** Memory accounting (src/memory/pool.rs): `MemoryTracker`, a usage counter held
    against a limit, and `MemoryPool`, a set of equal-sized blocks handed out first
    fit. `usize` is 64 bits wide. A block's address is modelled by its index, so the
    pool hands out and takes back block indices. */
module Pool {
  import opened Base

  /** The error `MemoryTracker::allocate` reports. */
  const OUT_OF_MEMORY := Error(OutOfMemory, "Memory limit exceeded")

  /** `a + b` on `usize` with the wrap-around of an atomic `fetch_add` or of a
      release build's `+`. */
  function WrappingAdd(a: U64, b: U64): (r: U64)
    ensures a + b < U64_MOD ==> r == a + b
    ensures a + b >= U64_MOD ==> r == a + b - U64_MOD && r < a
  {
    if a + b < U64_MOD then a + b else a + b - U64_MOD
  }

  /** `a - b` on `usize` with the wrap-around of an atomic `fetch_sub`. */
  function WrappingSub(a: U64, b: U64): (r: U64)
    ensures b <= a ==> r == a - b
    ensures b > a ==> r == a - b + U64_MOD && r > a
  {
    if b <= a then a - b else a - b + U64_MOD
  }

  /** The two wrapping operations undo each other. */
  lemma {:induction false} WrapRoundTrip(a: U64, b: U64)
    ensures WrappingSub(WrappingAdd(a, b), b) == a
    ensures WrappingAdd(WrappingSub(a, b), b) == a
  {
  }

  /** `MemoryTracker::allocate` as written: `fetch_add` stores the wrapped sum, the
      new usage is the old one plus `size` again wrapped, and on failure `fetch_sub`
      takes `size` back off. The pair is the result and the new usage. */
  function TrackerAllocateAsWritten(usage: U64, size: U64, limit: U64): (r: (Result<()>, U64))
    ensures r.0.Err? ==> r.1 == usage && r.0.error == OUT_OF_MEMORY
    ensures usage + size < U64_MOD ==>
              (r.0.Ok? <==> usage + size <= limit) && (r.0.Ok? ==> r.1 == usage + size)
  {
    var stored := WrappingAdd(usage, size);
    var newUsage := WrappingAdd(usage, size);
    if newUsage > limit then
      WrapRoundTrip(usage, size);
      (Err(OUT_OF_MEMORY), WrappingSub(stored, size))
    else (Ok(()), stored)
  }

  /** When `usage + size` passes `usize::MAX` the sum wraps below the limit: with 10
      bytes in use and a limit of 100, a request for `usize::MAX - 4` bytes is
      granted and the usage drops to 5. */
  lemma OverflowingRequestGranted()
    ensures var r := TrackerAllocateAsWritten(10, U64_MAX - 4, 100);
            r.0.Ok? && r.1 == 5 && 10 + (U64_MAX - 4) > 100
  {
  }

  /** `MemoryTracker::allocate` as intended: a request is granted exactly when the
      usage plus the request stays within the limit, and a refused request leaves
      the usage alone. The pair is the result and the new usage. */
  function TrackerAllocate(usage: U64, size: U64, limit: U64): (r: (Result<()>, U64))
    ensures r.0.Ok? <==> usage + size <= limit
    ensures r.0.Ok? ==> r.1 == usage + size
    ensures r.0.Err? ==> r.1 == usage && r.0.error == OUT_OF_MEMORY
  {
    if usage + size > limit then (Err(OUT_OF_MEMORY), usage) else (Ok(()), usage + size)
  }

  /** The usage after a run of allocation requests, granted or refused. */
  function UsageAfter(usage: U64, limit: U64, sizes: seq<U64>): U64
    decreases |sizes|
  {
    if sizes == [] then usage
    else UsageAfter(TrackerAllocate(usage, sizes[0], limit).1, limit, sizes[1..])
  }

  /** Starting within the limit, no run of allocations takes the usage past it, and
      the usage never falls. */
  lemma {:induction false} UsageStaysWithinLimit(usage: U64, limit: U64, sizes: seq<U64>)
    requires usage <= limit
    ensures usage <= UsageAfter(usage, limit, sizes) <= limit
    decreases |sizes|
  {
    if sizes != [] {
      UsageStaysWithinLimit(TrackerAllocate(usage, sizes[0], limit).1, limit, sizes[1..]);
    }
  }

  /** A granted request followed by a deallocation of the same size restores the
      usage. */
  lemma AllocateThenDeallocate(usage: U64, size: U64, limit: U64)
    requires TrackerAllocate(usage, size, limit).0.Ok?
    ensures WrappingSub(TrackerAllocate(usage, size, limit).1, size) == usage
  {
  }

  /** `MemoryTracker`. */
  class MemoryTracker {
    var usage: U64
    const limit: U64

    /** `MemoryTracker::new`. */
    constructor (limit: U64)
      ensures usage == 0 && this.limit == limit
    {
      usage := 0;
      this.limit := limit;
    }

    /** `MemoryTracker::allocate`, with the sum taken without wrap-around. */
    method Allocate(size: U64) returns (r: Result<()>)
      modifies this
      ensures (r, usage) == TrackerAllocate(old(usage), size, limit)
    {
      if usage + size > limit {
        return Err(OUT_OF_MEMORY);
      }
      usage := usage + size;
      return Ok(());
    }

    /** `MemoryTracker::deallocate`: `fetch_sub`, wrapping when more is returned
        than is in use. */
    method Deallocate(size: U64)
      modifies this
      ensures usage == WrappingSub(old(usage), size)
    {
      usage := WrappingSub(usage, size);
    }

    /** `MemoryTracker::current_usage`. */
    method CurrentUsage() returns (r: U64)
      ensures r == usage
    {
      return usage;
    }
  }

  /** `Block`: its size and whether it is handed out; its address is its index. */
  datatype Block = Block(size: U64, inUse: bool)

  /** A block can serve a request when it is free and large enough. */
  predicate Fits(b: Block, size: U64)
  {
    b.size >= size && !b.inUse
  }

  /** The first block from `i` on that can serve the request. */
  function FirstFitFrom(blocks: seq<Block>, size: U64, i: nat): (r: Option<nat>)
    requires i <= |blocks|
    ensures r.Some? ==> i <= r.value < |blocks| && Fits(blocks[r.value], size) &&
                        forall j :: i <= j < r.value ==> !Fits(blocks[j], size)
    ensures r.None? ==> forall j :: i <= j < |blocks| ==> !Fits(blocks[j], size)
    decreases |blocks| - i
  {
    if i == |blocks| then None
    else if Fits(blocks[i], size) then Some(i)
    else FirstFitFrom(blocks, size, i + 1)
  }

  /** The block `MemoryPool::allocate` hands out: the first that can serve the
      request, or none. */
  function FirstFit(blocks: seq<Block>, size: U64): (r: Option<nat>)
    ensures r.Some? ==> r.value < |blocks| && Fits(blocks[r.value], size) &&
                        forall j :: 0 <= j < r.value ==> !Fits(blocks[j], size)
    ensures r.None? <==> forall j :: 0 <= j < |blocks| ==> !Fits(blocks[j], size)
  {
    FirstFitFrom(blocks, size, 0)
  }

  /** The blocks with block `i`'s in-use flag set to `flag`. */
  function SetInUse(blocks: seq<Block>, i: nat, flag: bool): (r: seq<Block>)
    requires i < |blocks|
    ensures |r| == |blocks| && r[i] == blocks[i].(inUse := flag)
    ensures forall j :: 0 <= j < |blocks| && j != i ==> r[j] == blocks[j]
  {
    blocks[i := blocks[i].(inUse := flag)]
  }

  /** A block once handed out is not handed out again until it is freed. */
  lemma {:induction false} AllocationsDistinct(blocks: seq<Block>, size1: U64, size2: U64)
    requires FirstFit(blocks, size1).Some?
    ensures var i := FirstFit(blocks, size1).value;
            FirstFit(SetInUse(blocks, i, true), size2) != Some(i)
  {
    var i := FirstFit(blocks, size1).value;
    assert !Fits(SetInUse(blocks, i, true)[i], size2);
  }

  /** Freeing the block just handed out restores the blocks as they were. */
  lemma {:induction false} AllocateThenFree(blocks: seq<Block>, size: U64)
    requires FirstFit(blocks, size).Some?
    ensures var i := FirstFit(blocks, size).value;
            SetInUse(SetInUse(blocks, i, true), i, false) == blocks
  {
    var i := FirstFit(blocks, size).value;
    assert !blocks[i].inUse;
    assert SetInUse(SetInUse(blocks, i, true), i, false)[i] == blocks[i];
  }

  /** `MemoryPool`. `allocate` and `deallocate` consult only the blocks; the free
      list and the used size keep the values `new` gave them. */
  class MemoryPool {
    var blocks: seq<Block>
    var freeList: seq<nat>
    var totalSize: nat
    var usedSize: nat

    /** `MemoryPool::new`: `numBlocks` free blocks of `blockSize` bytes, all of them
        on the free list in order. */
    constructor (numBlocks: U64, blockSize: U64)
      ensures |blocks| == numBlocks && forall i :: 0 <= i < numBlocks ==> blocks[i] == Block(blockSize, false)
      ensures |freeList| == numBlocks && forall i :: 0 <= i < numBlocks ==> freeList[i] == i
      ensures totalSize == numBlocks * blockSize && usedSize == 0
    {
      var bs: seq<Block> := [];
      var fl: seq<nat> := [];
      for i := 0 to numBlocks
        invariant |bs| == i && forall j :: 0 <= j < i ==> bs[j] == Block(blockSize, false)
        invariant |fl| == i && forall j :: 0 <= j < i ==> fl[j] == j
      {
        bs := bs + [Block(blockSize, false)];
        fl := fl + [i];
      }
      blocks := bs;
      freeList := fl;
      totalSize := numBlocks * blockSize;
      usedSize := 0;
    }

    /** `MemoryPool::allocate`: marks and hands out the first free block large
        enough, or nothing. */
    method Allocate(size: U64) returns (r: Option<nat>)
      modifies this
      ensures r == FirstFit(old(blocks), size)
      ensures r.Some? ==> blocks == SetInUse(old(blocks), r.value, true)
      ensures r.None? ==> blocks == old(blocks)
      ensures freeList == old(freeList) && totalSize == old(totalSize) && usedSize == old(usedSize)
    {
      for i := 0 to |blocks|
        invariant forall j :: 0 <= j < i ==> !Fits(blocks[j], size)
      {
        if blocks[i].size >= size && !blocks[i].inUse {
          assert FirstFit(blocks, size) == Some(i);
          blocks := SetInUse(blocks, i, true);
          return Some(i);
        }
      }
      return None;
    }

    /** `MemoryPool::deallocate`: frees the block at `ptr` if there is one; nothing
        else changes. */
    method Deallocate(ptr: nat)
      modifies this
      ensures ptr < |old(blocks)| ==> blocks == SetInUse(old(blocks), ptr, false)
      ensures ptr >= |old(blocks)| ==> blocks == old(blocks)
      ensures freeList == old(freeList) && totalSize == old(totalSize) && usedSize == old(usedSize)
    {
      for i := 0 to |blocks|
        invariant blocks == old(blocks) && i <= ptr
      {
        if i == ptr {
          blocks := SetInUse(blocks, i, false);
          return;
        }
      }
    }
  }
}
