/** The free-block allocator of the virtual file system: a FIFO queue of
    unused block indices (the doubly linked `BlockNode` list between
    `freeHead` and `freeTail`) and the `usedBlocks` counter. */
module BlockAllocator {

  /** Bytes per block. */
  const BLOCK_SIZE: nat := 512
  /** Blocks on the simulated disk. */
  const TOTAL_BLOCKS: nat := 1024

  /** `free` lists the queue from head to tail; `used` is `usedBlocks`. */
  datatype Allocator = Allocator(free: seq<int>, used: int)

  /** The result of `allocateBlock`: the allocator afterwards and the index returned. */
  datatype Allocation = Allocation(alloc: Allocator, index: int)

  /** The indices 0, 1, ..., n-1 in ascending order. */
  function Range(n: nat): (r: seq<int>)
    ensures |r| == n
    ensures forall i :: 0 <= i < n ==> r[i] == i
  {
    seq(n, i => i)
  }

  /** Every block index below n occurs exactly once in Range(n), and nothing else does. */
  lemma {:induction false} RangeOccurrences(n: nat, b: int)
    ensures multiset(Range(n))[b] == if 0 <= b < n then 1 else 0
  {
    if n > 0 {
      RangeOccurrences(n - 1, b);
      assert Range(n) == Range(n - 1) + [n - 1];
      assert multiset(Range(n)) == multiset(Range(n - 1)) + multiset{n - 1};
    }
  }

  /** The counter and the queue agree: `usedBlocks == TOTAL_BLOCKS - length of the free list`. */
  predicate Consistent(a: Allocator) {
    a.used == TOTAL_BLOCKS - |a.free|
  }

  /** The allocator right after `initVfs`: every block free, in ascending order, none used. */
  function Initial(): (a: Allocator)
    ensures Consistent(a)
    ensures |a.free| == TOTAL_BLOCKS && a.used == 0
  {
    Allocator(Range(TOTAL_BLOCKS), 0)
  }

  /** `initFreeBlockList(total)`: appends a node for each index 0..total-1 at the tail. */
  method InitFreeBlockList(total: nat) returns (free: seq<int>)
    ensures |free| == total
    ensures forall i :: 0 <= i < total ==> free[i] == i
  {
    free := [];
    var i := 0;
    while i < total
      invariant 0 <= i <= total
      invariant |free| == i
      invariant forall k :: 0 <= k < i ==> free[k] == k
    {
      free := free + [i];
      i := i + 1;
    }
  }

  /** `allocateBlock()`: -1 when the queue is empty, otherwise the head is unlinked and
      returned and `usedBlocks` grows by one. */
  function AllocateBlock(a: Allocator): (r: Allocation)
    ensures |a.free| == 0 ==> r.index == -1 && r.alloc == a
    ensures (forall k :: 0 <= k < |a.free| ==> a.free[k] >= 0) ==> (r.index == -1 <==> |a.free| == 0)
    ensures |a.free| > 0 ==> [r.index] + r.alloc.free == a.free && r.alloc.used == a.used + 1
    ensures Consistent(a) ==> Consistent(r.alloc)
  {
    if |a.free| == 0 then Allocation(a, -1)
    else Allocation(Allocator(a.free[1..], a.used + 1), a.free[0])
  }

  /** `releaseBlock(index)`: a node for the index is linked at the tail and `usedBlocks` drops by one. */
  function ReleaseBlock(a: Allocator, index: int): (r: Allocator)
    ensures |r.free| == |a.free| + 1 && r.used == a.used - 1
    ensures r.free[..|a.free|] == a.free && r.free[|a.free|] == index
    ensures Consistent(a) ==> Consistent(r)
  {
    Allocator(a.free + [index], a.used - 1)
  }

  /** `countFreeBlocks()`, which reads the counter rather than walking the queue. */
  function CountFreeBlocks(a: Allocator): (n: int)
    ensures Consistent(a) ==> n == |a.free|
  {
    TOTAL_BLOCKS - a.used
  }

  /** The release loop of `writeFile` and `deleteFile`: each block of `blocks`, first to last. */
  function ReleaseAll(a: Allocator, blocks: seq<int>): (r: Allocator)
    ensures r.free == a.free + blocks
    ensures r.used == a.used - |blocks|
    decreases |blocks|
  {
    if blocks == [] then a
    else ReleaseAll(ReleaseBlock(a, blocks[0]), blocks[1..])
  }

  /** The allocation loop of `writeFile`: n calls of `allocateBlock`, none of which fails
      because the queue holds at least n indices. */
  function AllocateMany(a: Allocator, n: nat): (r: (Allocator, seq<int>))
    requires n <= |a.free|
    ensures r.1 == a.free[..n] && r.0.free == a.free[n..]
    ensures r.0.used == a.used + n
    decreases n
  {
    if n == 0 then (a, [])
    else
      var step := AllocateBlock(a);
      var rest := AllocateMany(step.alloc, n - 1);
      (rest.0, [step.index] + rest.1)
  }

  /** FIFO reuse: a released block waits behind every block already queued. The next
      allocation still takes the old head (the released block itself when the queue was
      empty), and draining the queue hands out the old queue and then the released block. */
  lemma ReleaseThenAllocate(a: Allocator, index: int)
    ensures |a.free| == 0 ==> AllocateBlock(ReleaseBlock(a, index)).index == index
    ensures |a.free| == 0 ==> AllocateBlock(ReleaseBlock(a, index)).alloc == a
    ensures |a.free| > 0 ==>
      AllocateBlock(ReleaseBlock(a, index)).index == a.free[0] &&
      AllocateBlock(ReleaseBlock(a, index)).alloc.free == a.free[1..] + [index]
    ensures AllocateMany(ReleaseBlock(a, index), |a.free| + 1).1 == a.free + [index]
    ensures AllocateMany(ReleaseBlock(a, index), |a.free| + 1).0 == Allocator([], a.used + |a.free|)
  {
    var r := ReleaseBlock(a, index);
    assert r.free == a.free + [index];
    assert r.free[..|a.free| + 1] == r.free && r.free[|a.free| + 1..] == [];
    if |a.free| > 0 {
      assert AllocateBlock(r).alloc.free == r.free[1..];
      assert r.free[1..] == a.free[1..] + [index];
    }
  }
}
