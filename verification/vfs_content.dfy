/** File content and node removal of the virtual file system: `writeFile`,
    `readFile`, `deleteFile` and `removeDir`. */
module FileContent {
  import opened CType
  import opened BlockAllocator
  import opened VfsState
  import opened Namespace

  /** The results 0, -1 and -2 of `writeFile`. */
  datatype WriteStatus = Written | NotAFile | NoSpace

  /** The results 0, -1 and -2 of `removeDir`. */
  datatype RmdirStatus = Removed | NotADirectory | NotEmpty

  /** `writeFile` treats a negative size as 0. */
  function Clamp(size: int): (n: nat)
    ensures size >= 0 ==> n == size
    ensures size < 0 ==> n == 0
  {
    if size < 0 then 0 else size
  }

  /** The block that iteration i of the copy loop of `writeFile` stores: the bytes of
      the content from offset i*BLOCK_SIZE up to `size`, then zeros to the block's end. */
  function Chunk(content: seq<Byte>, size: nat, i: nat): (c: seq<Byte>)
    requires size <= |content|
    ensures |c| == BLOCK_SIZE
    ensures forall o {:trigger c[o]} :: 0 <= o < BLOCK_SIZE ==>
      c[o] == if Offset(i) + o < size then content[Offset(i) + o] else 0
  {
    var start := Offset(i);
    var toCopy := if start + BLOCK_SIZE > size then size - start else BLOCK_SIZE;
    if toCopy > 0 then content[start..start + toCopy] + seq(BLOCK_SIZE - toCopy, _ => 0)
    else seq(BLOCK_SIZE, _ => 0)
  }

  /** The copy loop of `writeFile` from iteration i on: block `blocks[k]` receives chunk k. */
  function WriteChunks(disk: seq<seq<Byte>>, blocks: seq<int>, content: seq<Byte>, size: nat, i: nat): (d: seq<seq<Byte>>)
    requires size <= |content| && i <= |blocks|
    requires forall k :: 0 <= k < |blocks| ==> 0 <= blocks[k] < |disk|
    ensures |d| == |disk|
    decreases |blocks| - i
  {
    if i == |blocks| then disk
    else WriteChunks(disk[blocks[i] := Chunk(content, size, i)], blocks, content, size, i + 1)
  }

  /** The copy loop touches no block outside `blocks[i..]`. */
  lemma {:induction false} WriteChunksKeeps(disk: seq<seq<Byte>>, blocks: seq<int>, content: seq<Byte>, size: nat, i: nat, b: int)
    requires size <= |content| && i <= |blocks|
    requires forall k :: 0 <= k < |blocks| ==> 0 <= blocks[k] < |disk|
    requires 0 <= b < |disk| && forall k :: i <= k < |blocks| ==> blocks[k] != b
    ensures WriteChunks(disk, blocks, content, size, i)[b] == disk[b]
    decreases |blocks| - i
  {
    if i < |blocks| {
      WriteChunksKeeps(disk[blocks[i] := Chunk(content, size, i)], blocks, content, size, i + 1, b);
    }
  }

  /** With no block listed twice, block `blocks[k]` ends up holding chunk k. */
  lemma {:induction false} WriteChunksStores(disk: seq<seq<Byte>>, blocks: seq<int>, content: seq<Byte>, size: nat, i: nat, k: nat)
    requires size <= |content| && i <= k < |blocks| && Distinct(blocks)
    requires forall j :: 0 <= j < |blocks| ==> 0 <= blocks[j] < |disk|
    ensures WriteChunks(disk, blocks, content, size, i)[blocks[k]] == Chunk(content, size, k)
    decreases |blocks| - i
  {
    var disk1 := disk[blocks[i] := Chunk(content, size, i)];
    if i < k {
      WriteChunksStores(disk1, blocks, content, size, i + 1, k);
    } else {
      WriteChunksKeeps(disk1, blocks, content, size, i + 1, blocks[k]);
    }
  }

  /** The copy loop keeps every block BLOCK_SIZE bytes long. */
  lemma {:induction false} WriteChunksShaped(disk: seq<seq<Byte>>, blocks: seq<int>, content: seq<Byte>, size: nat, i: nat)
    requires size <= |content| && i <= |blocks| && DiskShaped(disk)
    requires forall k :: 0 <= k < |blocks| ==> 0 <= blocks[k] < |disk|
    ensures DiskShaped(WriteChunks(disk, blocks, content, size, i))
    decreases |blocks| - i
  {
    if i < |blocks| {
      WriteChunksShaped(disk[blocks[i] := Chunk(content, size, i)], blocks, content, size, i + 1);
    }
  }

  /** The whole copy loop over distinct blocks: each block of `blocks` holds its chunk, every
      other block is unchanged, and the disk keeps its shape. */
  lemma WriteChunksSpec(disk: seq<seq<Byte>>, blocks: seq<int>, content: seq<Byte>, size: nat)
    requires size <= |content| && DiskShaped(disk) && Distinct(blocks)
    requires forall k :: 0 <= k < |blocks| ==> 0 <= blocks[k] < |disk|
    ensures var d := WriteChunks(disk, blocks, content, size, 0);
      && DiskShaped(d)
      && (forall k :: 0 <= k < |blocks| ==> d[blocks[k]] == Chunk(content, size, k))
      && (forall b :: 0 <= b < |disk| && b !in blocks ==> d[b] == disk[b])
  {
    WriteChunksShaped(disk, blocks, content, size, 0);
    forall k | 0 <= k < |blocks|
      ensures WriteChunks(disk, blocks, content, size, 0)[blocks[k]] == Chunk(content, size, k)
    {
      WriteChunksStores(disk, blocks, content, size, 0, k);
    }
    forall b | 0 <= b < |disk| && b !in blocks
      ensures WriteChunks(disk, blocks, content, size, 0)[b] == disk[b]
    {
      WriteChunksKeeps(disk, blocks, content, size, 0, b);
    }
  }

  /** `writeFile(file, content, size)`. The space check compares the blocks the new content
      needs with the free count BEFORE the file's old blocks are released, so rewriting a
      file with content of its current size is refused when its blocks are all the disk
      has left. */
  function WriteFile(v: Vfs, f: Handle, content: seq<Byte>, size: int): (r: (Vfs, WriteStatus))
    requires Valid(v) && size <= |content|
  {
    if !LiveFile(v.nodes, f) then (v, NotAFile)
    else if BlocksFor(Clamp(size)) > CountFreeBlocks(v.alloc) then (v, NoSpace)
    else (Rewrite(v, f, content, Clamp(size)), Written)
  }

  /** The part of `writeFile` past its checks: the old blocks go to the tail of the free
      list, the blocks the content needs are taken from its head and filled chunk by chunk. */
  function Rewrite(v: Vfs, f: Handle, content: seq<Byte>, n: nat): (v': Vfs)
    requires Valid(v) && LiveFile(v.nodes, f) && n <= |content|
    requires BlocksFor(n) <= CountFreeBlocks(v.alloc)
  {
    var node := At(v.nodes, f);
    var required := BlocksFor(n);
    var alloc1 := if |node.blockRefs| > 0 then ReleaseAll(v.alloc, node.blockRefs) else v.alloc;
    if required == 0 then
      v.(alloc := alloc1, nodes := v.nodes[f := Some(node.(blockRefs := [], contentSize := 0))])
    else
      ReleasedPool(v, f);
      assert alloc1.free == v.alloc.free + node.blockRefs;
      var (alloc2, blocks) := AllocateMany(alloc1, required);
      v.(disk := WriteChunks(v.disk, blocks, content, n, 0), alloc := alloc2,
         nodes := v.nodes[f := Some(node.(blockRefs := blocks, contentSize := n))])
  }

  /** What a successful `writeFile` of n bytes leaves behind. The pool is the free list
      followed by the file's old blocks; the file now owns the first blocks of the pool,
      which hold the content block by block, the rest of the pool is the free list, and no
      other node and no other block changes. */
  ghost predicate Rewritten(v: Vfs, v': Vfs, f: Handle, content: seq<Byte>, n: nat)
    requires LiveFile(v.nodes, f) && n <= |content|
  {
    var pool := v.alloc.free + At(v.nodes, f).blockRefs;
    var req := BlocksFor(n);
    && req <= |pool|
    && v'.nodes == v.nodes[f := Some(At(v.nodes, f).(blockRefs := pool[..req], contentSize := n))]
    && v'.root == v.root && v'.cwd == v.cwd
    && v'.alloc.free == pool[req..]
    && |v'.disk| == |v.disk|
    && (forall k :: 0 <= k < req ==> 0 <= pool[k] < |v'.disk| && v'.disk[pool[k]] == Chunk(content, n, k))
    && (forall b :: 0 <= b < |v.disk| && b !in pool[..req] ==> v'.disk[b] == v.disk[b])
  }

  /** The state a successful write builds, spelt out over the pool of blocks. */
  lemma RewriteShape(v: Vfs, f: Handle, content: seq<Byte>, n: nat)
    requires Valid(v) && LiveFile(v.nodes, f) && n <= |content|
    requires BlocksFor(n) <= CountFreeBlocks(v.alloc)
    ensures var node := At(v.nodes, f);
      var pool := v.alloc.free + node.blockRefs;
      var req := BlocksFor(n);
      var v' := Rewrite(v, f, content, n);
      && req <= |pool| && |v.disk| == TOTAL_BLOCKS
      && (forall k :: 0 <= k < |pool| ==> 0 <= pool[k] < TOTAL_BLOCKS)
      && v'.nodes == v.nodes[f := Some(node.(blockRefs := pool[..req], contentSize := n))]
      && v'.alloc == Allocator(pool[req..], v.alloc.used - |node.blockRefs| + req)
      && v'.root == v.root && v'.cwd == v.cwd
      && v'.disk == WriteChunks(v.disk, pool[..req], content, n, 0)
  {
    var node := At(v.nodes, f);
    var pool := v.alloc.free + node.blockRefs;
    var req := BlocksFor(n);
    ReleasedPool(v, f);
    var alloc1 := if |node.blockRefs| > 0 then ReleaseAll(v.alloc, node.blockRefs) else v.alloc;
    assert alloc1.free == pool;
    if req == 0 {
      assert pool[..req] == [] && pool[req..] == pool;
    }
  }

  /** The disk a successful write leaves: the first blocks of the pool hold the content
      chunk by chunk and every other block is unchanged. */
  lemma RewriteDisk(v: Vfs, f: Handle, content: seq<Byte>, n: nat)
    requires Valid(v) && LiveFile(v.nodes, f) && n <= |content|
    requires BlocksFor(n) <= CountFreeBlocks(v.alloc)
    ensures var pool := v.alloc.free + At(v.nodes, f).blockRefs;
      var req := BlocksFor(n);
      var d := Rewrite(v, f, content, n).disk;
      && req <= |pool| && DiskShaped(d)
      && (forall k :: 0 <= k < req ==> 0 <= pool[k] < |d| && d[pool[k]] == Chunk(content, n, k))
      && (forall b :: 0 <= b < |v.disk| && b !in pool[..req] ==> d[b] == v.disk[b])
  {
    var pool := v.alloc.free + At(v.nodes, f).blockRefs;
    var req := BlocksFor(n);
    RewriteShape(v, f, content, n);
    ReleasedPool(v, f);
    var blocks := pool[..req];
    assert Distinct(blocks);
    WriteChunksSpec(v.disk, blocks, content, n);
    forall k | 0 <= k < req
      ensures pool[k] == blocks[k]
    {
    }
  }

  /** The successful write keeps the file system valid. */
  lemma RewriteValid(v: Vfs, f: Handle, content: seq<Byte>, n: nat)
    requires Valid(v) && LiveFile(v.nodes, f) && n <= |content|
    requires BlocksFor(n) <= CountFreeBlocks(v.alloc)
    ensures Valid(Rewrite(v, f, content, n))
  {
    var v' := Rewrite(v, f, content, n);
    var req := BlocksFor(n);
    var node := At(v.nodes, f);
    var pool := v.alloc.free + node.blockRefs;
    RewriteShape(v, f, content, n);
    RewriteDisk(v, f, content, n);
    MultisetSplit(pool, req);
    assert NodeShaped(node);
    ContentSwapKeepsValid(v, f, node.(blockRefs := pool[..req], contentSize := n), v'.alloc, v'.disk);
  }

  /** The successful write keeps the file system valid and leaves it as `Rewritten` says. */
  lemma RewriteSpec(v: Vfs, f: Handle, content: seq<Byte>, n: nat)
    requires Valid(v) && LiveFile(v.nodes, f) && n <= |content|
    requires BlocksFor(n) <= CountFreeBlocks(v.alloc)
    ensures Valid(Rewrite(v, f, content, n))
    ensures Rewritten(v, Rewrite(v, f, content, n), f, content, n)
  {
    RewriteShape(v, f, content, n);
    RewriteDisk(v, f, content, n);
    RewriteValid(v, f, content, n);
  }

  /** `writeFile`: -1 exactly for a handle that is not a live file, -2 exactly when the
      content needs more blocks than are free, and nothing changes on either; on success
      the file system stays valid and holds the content as `Rewritten` describes. */
  lemma WriteFileSpec(v: Vfs, f: Handle, content: seq<Byte>, size: int)
    requires Valid(v) && size <= |content|
    ensures var r := WriteFile(v, f, content, size);
      && (r.1 == NotAFile <==> !LiveFile(v.nodes, f))
      && (r.1 == NoSpace <==> LiveFile(v.nodes, f) && BlocksFor(Clamp(size)) > CountFreeBlocks(v.alloc))
      && (r.1 != Written ==> r.0 == v)
      && Valid(r.0)
      && (r.1 == Written ==> Rewritten(v, r.0, f, content, Clamp(size)))
  {
    if WriteFile(v, f, content, size).1 == Written {
      RewriteSpec(v, f, content, Clamp(size));
    }
  }

  // ---------------------------------------------------------------------------
  // readFile

  /** The output loop of `readFile` from block i on, with `remaining` bytes still to print:
      at most one block's worth per block, stopping once nothing remains. */
  function Emit(disk: seq<seq<Byte>>, blocks: seq<int>, i: nat, remaining: int): (out: seq<Byte>)
    requires DiskShaped(disk) && i <= |blocks| && remaining > 0
    requires forall k :: 0 <= k < |blocks| ==> 0 <= blocks[k] < |disk|
    ensures remaining <= Offset(|blocks| - i) ==> |out| == remaining
    decreases |blocks| - i
  {
    if i == |blocks| then []
    else
      var toPrint := if remaining > BLOCK_SIZE then BLOCK_SIZE else remaining;
      var out := disk[blocks[i]][..toPrint];
      if remaining - toPrint <= 0 then out
      else out + Emit(disk, blocks, i + 1, remaining - toPrint)
  }

  /** `readFile(file)`: None (-1) for anything but a live file; otherwise the bytes written
      to standard output, exactly `contentSize` of them. */
  function ReadFile(v: Vfs, f: Handle): (r: Option<seq<Byte>>)
    requires Valid(v)
    ensures r.None? <==> !LiveFile(v.nodes, f)
    ensures r.Some? ==> |r.value| == At(v.nodes, f).contentSize
  {
    if !LiveFile(v.nodes, f) then None
    else
      var node := At(v.nodes, f);
      assert NodeShaped(node);
      if |node.blockRefs| == 0 || node.contentSize == 0 then Some([])
      else
        forall k | 0 <= k < |node.blockRefs|
          ensures 0 <= node.blockRefs[k] < |v.disk|
        {
          OwnedBlockIsExclusive(v, f, k);
        }
        Some(Emit(v.disk, node.blockRefs, 0, node.contentSize))
  }

  /** A block offset below the size lies in one of the blocks the size needs. */
  lemma BlockIndexBound(n: nat, i: nat)
    requires Offset(i) < n
    ensures i < BlocksFor(n)
  {
  }

  /** The first bytes of a chunk, up to the size, are the content at the chunk's offset. */
  lemma ChunkPrefix(content: seq<Byte>, n: nat, i: nat, end: nat)
    requires n <= |content| && Offset(i) <= end <= n && end - Offset(i) <= BLOCK_SIZE
    ensures Chunk(content, n, i)[..end - Offset(i)] == content[Offset(i)..end]
  {
    var start := Offset(i);
    forall o | 0 <= o < end - start
      ensures Chunk(content, n, i)[o] == content[start + o]
    {
    }
  }

  /** One round of the output loop with more than a block remaining. */
  lemma EmitMore(disk: seq<seq<Byte>>, blocks: seq<int>, i: nat, remaining: int)
    requires DiskShaped(disk) && i < |blocks| && remaining > BLOCK_SIZE
    requires forall k :: 0 <= k < |blocks| ==> 0 <= blocks[k] < |disk|
    ensures Emit(disk, blocks, i, remaining) == disk[blocks[i]][..BLOCK_SIZE] + Emit(disk, blocks, i + 1, remaining - BLOCK_SIZE)
  {
  }

  /** The last round of the output loop. */
  lemma EmitLast(disk: seq<seq<Byte>>, blocks: seq<int>, i: nat, remaining: int)
    requires DiskShaped(disk) && i < |blocks| && 0 < remaining <= BLOCK_SIZE
    requires forall k :: 0 <= k < |blocks| ==> 0 <= blocks[k] < |disk|
    ensures Emit(disk, blocks, i, remaining) == disk[blocks[i]][..remaining]
  {
  }

  /** A round of the output loop with more than a block remaining prints the block whole,
      so when the block holds the content's next BLOCK_SIZE bytes and the later rounds print
      the rest, this round and the later ones print the content from offset i*BLOCK_SIZE. */
  lemma EmitStep(disk: seq<seq<Byte>>, blocks: seq<int>, content: seq<Byte>, n: nat, i: nat)
    requires DiskShaped(disk) && n <= |content| && i < |blocks|
    requires forall k :: 0 <= k < |blocks| ==> 0 <= blocks[k] < |disk|
    requires Offset(i) + BLOCK_SIZE < n && disk[blocks[i]][..BLOCK_SIZE] == content[Offset(i)..Offset(i + 1)]
    requires Emit(disk, blocks, i + 1, n - Offset(i + 1)) == content[Offset(i + 1)..n]
    ensures Emit(disk, blocks, i, n - Offset(i)) == content[Offset(i)..n]
  {
    assert n - Offset(i) - BLOCK_SIZE == n - Offset(i + 1);
    EmitMore(disk, blocks, i, n - Offset(i));
    Glue(Emit(disk, blocks, i, n - Offset(i)), disk[blocks[i]][..BLOCK_SIZE], Emit(disk, blocks, i + 1, n - Offset(i + 1)),
      content, Offset(i), Offset(i + 1), n);
  }

  /** A sequence made of two adjacent slices is the slice they span. */
  lemma Glue<T>(e: seq<T>, h: seq<T>, t: seq<T>, s: seq<T>, a: nat, b: nat, c: nat)
    requires a <= b <= c <= |s| && e == h + t && h == s[a..b] && t == s[b..c]
    ensures e == s[a..c]
  {
    assert s[a..c] == s[a..b] + s[b..c];
  }

  /** Printing the blocks chunk by chunk from block i gives back the content from offset
      i*BLOCK_SIZE to its end. */
  lemma {:induction false} EmitChunks(disk: seq<seq<Byte>>, blocks: seq<int>, content: seq<Byte>, n: nat, i: nat)
    requires DiskShaped(disk) && n <= |content| && |blocks| == BlocksFor(n)
    requires Offset(i) < n
    requires forall k :: 0 <= k < |blocks| ==> 0 <= blocks[k] < |disk| && disk[blocks[k]] == Chunk(content, n, k)
    ensures i < |blocks|
    ensures Emit(disk, blocks, i, n - Offset(i)) == content[Offset(i)..n]
    decreases n - Offset(i)
  {
    BlockIndexBound(n, i);
    assert disk[blocks[i]] == Chunk(content, n, i);
    if Offset(i) + BLOCK_SIZE < n {
      EmitChunks(disk, blocks, content, n, i + 1);
      ChunkPrefix(content, n, i, Offset(i + 1));
      assert Offset(i + 1) - Offset(i) == BLOCK_SIZE;
      EmitStep(disk, blocks, content, n, i);
    } else {
      ChunkPrefix(content, n, i, n);
      EmitLast(disk, blocks, i, n - Offset(i));
    }
  }

  /** A file whose blocks hold the chunks of `content` reads back as its first
      `contentSize` bytes. */
  lemma ReadChunks(v: Vfs, f: Handle, content: seq<Byte>)
    requires Valid(v) && LiveFile(v.nodes, f) && At(v.nodes, f).contentSize <= |content|
    requires var node := At(v.nodes, f);
      forall k :: 0 <= k < |node.blockRefs| ==>
        0 <= node.blockRefs[k] < |v.disk| && v.disk[node.blockRefs[k]] == Chunk(content, node.contentSize, k)
    ensures ReadFile(v, f) == Some(content[..At(v.nodes, f).contentSize])
  {
    var node := At(v.nodes, f);
    var n := node.contentSize;
    assert NodeShaped(node);
    if n > 0 {
      EmitChunks(v.disk, node.blockRefs, content, n, 0);
      assert content[Offset(0)..n] == content[..n];
    }
  }

  /** Reading a file right after a successful write gives back the first `size` bytes
      written (none for a negative size). */
  lemma WriteThenRead(v: Vfs, f: Handle, content: seq<Byte>, size: int)
    requires Valid(v) && size <= |content|
    requires WriteFile(v, f, content, size).1 == Written
    ensures Valid(WriteFile(v, f, content, size).0)
    ensures ReadFile(WriteFile(v, f, content, size).0, f) == Some(content[..Clamp(size)])
  {
    WriteFileSpec(v, f, content, size);
    var v' := WriteFile(v, f, content, size).0;
    var n := Clamp(size);
    var pool := v.alloc.free + At(v.nodes, f).blockRefs;
    var blocks := At(v'.nodes, f).blockRefs;
    assert At(v'.nodes, f).contentSize == n && blocks == pool[..BlocksFor(n)];
    forall k | 0 <= k < |blocks|
      ensures 0 <= blocks[k] < |v'.disk| && v'.disk[blocks[k]] == Chunk(content, n, k)
    {
      assert blocks[k] == pool[k];
    }
    ReadChunks(v', f, content);
  }

  /** A file whose node and whose blocks' bytes are the same in two valid states reads
      the same in both. */
  lemma ReadSameBlocks(v: Vfs, v': Vfs, g: Handle)
    requires Valid(v) && Valid(v') && LiveFile(v.nodes, g) && Live(v'.nodes, g)
    requires At(v'.nodes, g) == At(v.nodes, g) && |v'.disk| == |v.disk|
    requires var blocks := At(v.nodes, g).blockRefs;
      forall k :: 0 <= k < |blocks| ==> 0 <= blocks[k] < |v.disk| && v'.disk[blocks[k]] == v.disk[blocks[k]]
    ensures ReadFile(v', g) == ReadFile(v, g)
  {
    var node := At(v.nodes, g);
    if |node.blockRefs| > 0 && node.contentSize > 0 {
      EmitSameBlocks(v.disk, v'.disk, node.blockRefs, 0, node.contentSize);
    }
  }

  /** A successful write leaves another file's node and blocks as they were. */
  lemma RewriteKeepsOthers(v: Vfs, f: Handle, content: seq<Byte>, n: nat, g: Handle)
    requires Valid(v) && LiveFile(v.nodes, f) && n <= |content|
    requires BlocksFor(n) <= CountFreeBlocks(v.alloc)
    requires g != f && LiveFile(v.nodes, g)
    ensures var v' := Rewrite(v, f, content, n);
      var blocks := At(v.nodes, g).blockRefs;
      && Live(v'.nodes, g) && At(v'.nodes, g) == At(v.nodes, g) && |v'.disk| == |v.disk|
      && forall k :: 0 <= k < |blocks| ==> 0 <= blocks[k] < |v.disk| && v'.disk[blocks[k]] == v.disk[blocks[k]]
  {
    var blocks := At(v.nodes, g).blockRefs;
    var pool := v.alloc.free + At(v.nodes, f).blockRefs;
    var req := BlocksFor(n);
    RewriteShape(v, f, content, n);
    RewriteDisk(v, f, content, n);
    forall k | 0 <= k < |blocks|
      ensures 0 <= blocks[k] < |v.disk| && blocks[k] !in pool[..req]
    {
      OwnedBlockIsExclusive(v, g, k);
      assert blocks[k] !in pool;
    }
  }

  /** A write changes no other file's content. */
  lemma WriteLeavesOthers(v: Vfs, f: Handle, content: seq<Byte>, size: int, g: Handle)
    requires Valid(v) && size <= |content| && g != f
    ensures Valid(WriteFile(v, f, content, size).0)
    ensures ReadFile(WriteFile(v, f, content, size).0, g) == ReadFile(v, g)
  {
    var n := Clamp(size);
    if LiveFile(v.nodes, f) && BlocksFor(n) <= CountFreeBlocks(v.alloc) {
      RewriteValid(v, f, content, n);
      if LiveFile(v.nodes, g) {
        RewriteKeepsOthers(v, f, content, n, g);
        ReadSameBlocks(v, Rewrite(v, f, content, n), g);
      }
    }
  }

  /** The output loop reads nothing but the listed blocks. */
  lemma {:induction false} EmitSameBlocks(disk: seq<seq<Byte>>, disk': seq<seq<Byte>>, blocks: seq<int>, i: nat, remaining: int)
    requires DiskShaped(disk) && DiskShaped(disk') && i <= |blocks| && remaining > 0
    requires forall k :: 0 <= k < |blocks| ==> 0 <= blocks[k] < |disk| && disk'[blocks[k]] == disk[blocks[k]]
    ensures Emit(disk', blocks, i, remaining) == Emit(disk, blocks, i, remaining)
    decreases |blocks| - i
  {
    if i < |blocks| {
      var toPrint := if remaining > BLOCK_SIZE then BLOCK_SIZE else remaining;
      if remaining - toPrint > 0 {
        EmitSameBlocks(disk, disk', blocks, i + 1, remaining - toPrint);
      }
    }
  }

  // ---------------------------------------------------------------------------
  // Removing nodes

  /** `removeChild(node->parent, node)` followed by `freeFileNode(node)`: the node leaves
      its parent's sibling ring and its slot is emptied. */
  function Detach(v: Vfs, h: Handle): (v': Vfs)
    requires TreeOk(v) && Live(v.nodes, h) && h != v.root
  {
    var p := ParentOf(v, h);
    ChildrenDistinct(v, p);
    v.(nodes := RemoveChild(v.nodes, p, h).0[h := None])
  }

  /** `nodes'` is `nodes` with the slot of h emptied and h unlinked from position k of the
      ring of its parent p; no other slot differs. */
  ghost predicate Unlinked(nodes: seq<Option<Node>>, nodes': seq<Option<Node>>, h: Handle, p: Handle, k: nat) {
    && Live(nodes, h) && h != p && |nodes'| == |nodes|
    && LiveDir(nodes, p) && k < |At(nodes, p).children| && At(nodes, p).children[k] == h
    && nodes'[h] == None
    && nodes'[p] == Some(At(nodes, p).(children := At(nodes, p).children[..k] + At(nodes, p).children[k + 1..]))
    && forall g :: 0 <= g < |nodes| && g != h && g != p ==> nodes'[g] == nodes[g]
  }

  /** Every node that survives the unlinking keeps its name, kind, parent and content. */
  lemma UnlinkedSurvivors(nodes: seq<Option<Node>>, nodes': seq<Option<Node>>, h: Handle, p: Handle, k: nat)
    requires Unlinked(nodes, nodes', h, p, k)
    ensures forall g: Handle :: Live(nodes', g) ==>
      && Live(nodes, g) && g != h
      && Skeleton(At(nodes', g)).(children := []) == Skeleton(At(nodes, g)).(children := [])
      && At(nodes', g).blockRefs == At(nodes, g).blockRefs
      && At(nodes', g).contentSize == At(nodes, g).contentSize
      && (g != p ==> At(nodes', g).children == At(nodes, g).children)
  {
  }

  lemma UnlinkedParents(nodes: seq<Option<Node>>, nodes': seq<Option<Node>>, h: Handle, p: Handle, k: nat, root: Handle)
    requires Unlinked(nodes, nodes', h, p, k) && h != root
    requires RootOk(nodes, root) && ParentLinks(nodes, root) && At(nodes, h).children == []
    requires Distinct(At(nodes, p).children)
    ensures RootOk(nodes', root) && ParentLinks(nodes', root)
  {
    UnlinkedSurvivors(nodes, nodes', h, p, k);
    DropAt(At(nodes, p).children, k);
    forall g: Handle | Live(nodes', g) && g != root
      ensures ParentOk(nodes', g)
    {
      assert ParentOk(nodes, g);
      var q := At(nodes, g).parent.value;
      assert q != h by {
        assert g in At(nodes, q).children;
      }
    }
  }

  lemma UnlinkedChildren(nodes: seq<Option<Node>>, nodes': seq<Option<Node>>, h: Handle, p: Handle, k: nat)
    requires Unlinked(nodes, nodes', h, p, k)
    requires ChildLinks(nodes) && At(nodes, h).parent == Some(p) && Distinct(At(nodes, p).children)
    ensures ChildLinks(nodes')
  {
    UnlinkedSurvivors(nodes, nodes', h, p, k);
    forall d: Handle | Live(nodes', d)
      ensures ChildrenOk(nodes', d)
    {
      assert ChildrenOk(nodes, d);
      forall i | 0 <= i < |At(nodes', d).children|
        ensures Live(nodes', At(nodes', d).children[i])
        ensures At(nodes', At(nodes', d).children[i]).parent == Some(d)
      {
        var ch := At(nodes, d).children;
        var c := At(nodes', d).children[i];
        if d == p {
          assert c == (if i < k then ch[i] else ch[i + 1]);
        } else {
          assert c == ch[i];
        }
      }
    }
  }

  lemma UnlinkedSiblings(nodes: seq<Option<Node>>, nodes': seq<Option<Node>>, h: Handle, p: Handle, k: nat)
    requires Unlinked(nodes, nodes', h, p, k)
    requires SiblingsDistinct(nodes)
    ensures SiblingsDistinct(nodes')
  {
    UnlinkedSurvivors(nodes, nodes', h, p, k);
    forall d: Handle | Live(nodes', d)
      ensures NamesDistinct(nodes', At(nodes', d).children)
    {
      assert NamesDistinct(nodes, At(nodes, d).children);
      if d == p {
        var ch := At(nodes, p).children;
        var ch' := At(nodes', p).children;
        forall i, j | 0 <= i < j < |ch'| && Live(nodes', ch'[i]) && Live(nodes', ch'[j])
          ensures At(nodes', ch'[i]).name != At(nodes', ch'[j]).name
        {
          var i' := if i < k then i else i + 1;
          var j' := if j < k then j else j + 1;
          assert ch'[i] == ch[i'] && ch'[j] == ch[j'];
        }
      }
    }
  }

  lemma UnlinkedShapes(nodes: seq<Option<Node>>, nodes': seq<Option<Node>>, h: Handle, p: Handle, k: nat)
    requires Unlinked(nodes, nodes', h, p, k)
    requires NodesShaped(nodes)
    ensures NodesShaped(nodes')
  {
    UnlinkedSurvivors(nodes, nodes', h, p, k);
    forall g: Handle | Live(nodes', g)
      ensures NodeShaped(At(nodes', g))
    {
      assert NodeShaped(At(nodes, g));
    }
  }

  /** `Detach` unlinks the node from its parent's ring at some position. */
  lemma DetachShape(v: Vfs, h: Handle) returns (k: nat)
    requires TreeOk(v) && Live(v.nodes, h) && h != v.root
    ensures Unlinked(v.nodes, Detach(v, h).nodes, h, ParentOf(v, h), k)
    ensures var v' := Detach(v, h);
      v'.disk == v.disk && v'.alloc == v.alloc && v'.root == v.root && v'.cwd == v.cwd
  {
    var p := ParentOf(v, h);
    ChildrenDistinct(v, p);
    var ch := At(v.nodes, p).children;
    var r := RemoveChild(v.nodes, p, h).0;
    k :| 0 <= k < |ch| && ch[k] == h && At(r, p).children == ch[..k] + ch[k + 1..];
  }

  /** Detaching a childless node other than the root and the current directory keeps the
      tree well formed. */
  lemma DetachKeepsTree(v: Vfs, h: Handle)
    requires TreeOk(v) && Live(v.nodes, h) && h != v.root && h != v.cwd
    requires At(v.nodes, h).children == []
    ensures TreeOk(Detach(v, h))
  {
    var p := ParentOf(v, h);
    var nodes' := Detach(v, h).nodes;
    var k := DetachShape(v, h);
    ChildrenDistinct(v, p);
    UnlinkedParents(v.nodes, nodes', h, p, k, v.root);
    UnlinkedChildren(v.nodes, nodes', h, p, k);
    UnlinkedSiblings(v.nodes, nodes', h, p, k);
    UnlinkedShapes(v.nodes, nodes', h, p, k);
    UnlinkedSurvivors(v.nodes, nodes', h, p, k);
  }

  /** Detaching a node that owns no blocks leaves the partition of the disk as it was. */
  lemma DetachKeepsPartition(v: Vfs, h: Handle)
    requires TreeOk(v) && Partitioned(v) && Live(v.nodes, h) && h != v.root
    requires At(v.nodes, h).blockRefs == []
    ensures Partitioned(Detach(v, h))
  {
    var v' := Detach(v, h);
    var k := DetachShape(v, h);
    forall g | 0 <= g < |v.nodes|
      ensures SlotBlocks(v'.nodes[g]) == SlotBlocks(v.nodes[g])
    {
    }
    OwnedFromSlots(v.nodes, v'.nodes);
  }

  /** Detaching an empty directory or a file without blocks that is neither the root nor
      the current directory keeps the file system valid: the node is gone, its parent lists
      every other child it listed and nothing else, and no other slot, block or byte changes. */
  lemma DetachSpec(v: Vfs, h: Handle)
    requires Valid(v) && Live(v.nodes, h) && h != v.root && h != v.cwd
    requires At(v.nodes, h).children == [] && At(v.nodes, h).blockRefs == []
    ensures Valid(Detach(v, h))
    ensures var v' := Detach(v, h); var p := ParentOf(v, h);
      && !Live(v'.nodes, h) && |v'.nodes| == |v.nodes|
      && v'.disk == v.disk && v'.alloc == v.alloc && v'.root == v.root && v'.cwd == v.cwd
      && LiveDir(v'.nodes, p)
      && At(v'.nodes, p) == At(v.nodes, p).(children := At(v'.nodes, p).children)
      && |At(v'.nodes, p).children| == |At(v.nodes, p).children| - 1
      && (forall x :: x in At(v'.nodes, p).children <==> x in At(v.nodes, p).children && x != h)
      && (forall g :: 0 <= g < |v.nodes| && g != h && g != p ==> v'.nodes[g] == v.nodes[g])
  {
    var p := ParentOf(v, h);
    var k := DetachShape(v, h);
    DetachKeepsTree(v, h);
    DetachKeepsPartition(v, h);
    ChildrenDistinct(v, p);
    DropAt(At(v.nodes, p).children, k);
  }

  /** The first half of `deleteFile`: the file's blocks go back to the tail of the free
      list and the file is left empty. */
  function Strip(v: Vfs, f: Handle): (v': Vfs)
    requires Valid(v) && LiveFile(v.nodes, f)
    ensures Valid(v')
    ensures v'.alloc.free == v.alloc.free + At(v.nodes, f).blockRefs
    ensures v'.nodes == v.nodes[f := Some(At(v.nodes, f).(blockRefs := [], contentSize := 0))]
    ensures v'.disk == v.disk && v'.root == v.root && v'.cwd == v.cwd
  {
    var node := At(v.nodes, f);
    var alloc1 := if |node.blockRefs| > 0 then ReleaseAll(v.alloc, node.blockRefs) else v.alloc;
    assert alloc1.free == v.alloc.free + node.blockRefs;
    assert NodeShaped(node);
    ContentSwapKeepsValid(v, f, node.(blockRefs := [], contentSize := 0), alloc1, v.disk);
    v.(alloc := alloc1, nodes := v.nodes[f := Some(node.(blockRefs := [], contentSize := 0))])
  }

  /** Stripping a file that owns no blocks changes nothing. */
  lemma StripEmpty(v: Vfs, f: Handle)
    requires Valid(v) && LiveFile(v.nodes, f)
    requires At(v.nodes, f).blockRefs == [] && At(v.nodes, f).contentSize == 0
    ensures Strip(v, f) == v
  {
    assert v.nodes[f := Some(At(v.nodes, f).(blockRefs := [], contentSize := 0))] == v.nodes;
  }

  /** `deleteFile(file)`: false (-1) and no change for anything but a live file; otherwise
      its blocks go back to the tail of the free list, it leaves its directory and its slot
      is freed. */
  function DeleteFile(v: Vfs, f: Handle): (r: (Vfs, bool))
    requires Valid(v)
    ensures r.1 <==> LiveFile(v.nodes, f)
    ensures !r.1 ==> r.0 == v
    ensures r.1 ==> Valid(r.0) && !Live(r.0.nodes, f)
    ensures r.1 ==> r.0.alloc.free == v.alloc.free + At(v.nodes, f).blockRefs
    ensures r.1 ==> CountFreeBlocks(r.0.alloc) == CountFreeBlocks(v.alloc) + |At(v.nodes, f).blockRefs|
    ensures r.1 ==> var p := ParentOf(v, f);
      |r.0.nodes| == |v.nodes| && LiveDir(r.0.nodes, p) && f !in At(r.0.nodes, p).children &&
      (forall x :: x in At(r.0.nodes, p).children <==> x in At(v.nodes, p).children && x != f) &&
      forall g :: 0 <= g < |v.nodes| && g != f && g != p ==> r.0.nodes[g] == v.nodes[g]
  {
    if !LiveFile(v.nodes, f) then (v, false)
    else
      assert NodeShaped(At(v.nodes, f));
      var v1 := Strip(v, f);
      assert ParentOf(v1, f) == ParentOf(v, f);
      DetachSpec(v1, f);
      (Detach(v1, f), true)
  }

  /** `removeDir(dir)`: -1 for anything but a live directory, -2 for a directory that
      still has children, nothing changing on either; otherwise the directory leaves its
      parent and its slot is freed. The shell never passes the root or the current
      directory (it looks the name up among the current directory's children). */
  function RemoveDir(v: Vfs, d: Handle): (r: (Vfs, RmdirStatus))
    requires Valid(v) && d != v.root && d != v.cwd
    ensures r.1 == NotADirectory <==> !LiveDir(v.nodes, d)
    ensures r.1 == NotEmpty <==> LiveDir(v.nodes, d) && At(v.nodes, d).children != []
    ensures r.1 != Removed ==> r.0 == v
    ensures r.1 == Removed ==> Valid(r.0) && !Live(r.0.nodes, d)
    ensures r.1 == Removed ==> r.0.alloc == v.alloc && r.0.disk == v.disk
    ensures r.1 == Removed ==> var p := ParentOf(v, d);
      |r.0.nodes| == |v.nodes| && LiveDir(r.0.nodes, p) && d !in At(r.0.nodes, p).children &&
      (forall x :: x in At(r.0.nodes, p).children <==> x in At(v.nodes, p).children && x != d) &&
      forall g :: 0 <= g < |v.nodes| && g != d && g != p ==> r.0.nodes[g] == v.nodes[g]
  {
    if !LiveDir(v.nodes, d) then (v, NotADirectory)
    else if At(v.nodes, d).children != [] then (v, NotEmpty)
    else
      assert NodeShaped(At(v.nodes, d));
      DetachSpec(v, d);
      (Detach(v, d), Removed)
  }
}
