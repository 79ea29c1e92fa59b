/** The state of the virtual file system: the disk, the free-block allocator,
    the node arena and the root and current-directory handles, together with
    the invariant every shell command preserves.

    The C program links `FileNode` records with pointers. Here a node lives
    in an arena slot addressed by a `Handle`; freeing a node empties its slot
    and slots are never reused. A directory's circular doubly linked child
    list (anchor `child`, links `next`/`prev`) is the sequence of handles read
    from the anchor along `next`: the successor of `children[k]` is
    `children[k+1]`, and that of the last child is the anchor `children[0]`. */
module VfsState {
  import opened CType
  import opened BlockAllocator

  /** Longest node name accepted by `mkdir` and `create`. */
  const MAX_NAME_LEN: nat := 50

  type Handle = nat

  /** `FileNode`: `blockRefs`/`blockCount` are one sequence, `child`/`next`/`prev`
      are the `children` sequence of the parent. */
  datatype Node = Node(
    name: string,
    isDir: bool,
    parent: Option<Handle>,
    children: seq<Handle>,
    blockRefs: seq<int>,
    contentSize: nat)

  datatype Vfs = Vfs(
    disk: seq<seq<Byte>>,
    alloc: Allocator,
    nodes: seq<Option<Node>>,
    root: Handle,
    cwd: Handle)

  predicate Live(nodes: seq<Option<Node>>, h: Handle) {
    h < |nodes| && nodes[h].Some?
  }

  function At(nodes: seq<Option<Node>>, h: Handle): Node
    requires Live(nodes, h)
  {
    nodes[h].value
  }

  predicate LiveDir(nodes: seq<Option<Node>>, h: Handle) {
    Live(nodes, h) && At(nodes, h).isDir
  }

  predicate LiveFile(nodes: seq<Option<Node>>, h: Handle) {
    Live(nodes, h) && !At(nodes, h).isDir
  }

  /** `(size + BLOCK_SIZE - 1) / BLOCK_SIZE`: the blocks a file of `size` bytes occupies.
      This and `Offset` spell BLOCK_SIZE as the literal 512, which keeps their arithmetic
      linear. */
  function BlocksFor(size: nat): nat {
    (size + 511) / 512
  }

  /** `i * BLOCK_SIZE`: the offset of a file's i-th block within its content. */
  function Offset(i: nat): nat {
    512 * i
  }

  /** The blocks an arena slot owns. */
  ghost function SlotBlocks(s: Option<Node>): multiset<int> {
    if s.Some? then multiset(s.value.blockRefs) else multiset{}
  }

  /** Every block owned by some node of the arena, with multiplicity. */
  ghost function Owned(nodes: seq<Option<Node>>): multiset<int> {
    if |nodes| == 0 then multiset{}
    else Owned(nodes[..|nodes| - 1]) + SlotBlocks(nodes[|nodes| - 1])
  }

  ghost predicate DiskShaped(disk: seq<seq<Byte>>) {
    |disk| == TOTAL_BLOCKS && forall b :: 0 <= b < |disk| ==> |disk[b]| == BLOCK_SIZE
  }

  /** Free blocks and file-owned blocks together are 0..TOTAL_BLOCKS-1, each exactly once. */
  ghost predicate Partitioned(v: Vfs) {
    multiset(v.alloc.free) + Owned(v.nodes) == multiset(Range(TOTAL_BLOCKS))
  }

  /** A directory owns no blocks; a file has no children and exactly the blocks its size needs. */
  ghost predicate NodeShaped(n: Node) {
    if n.isDir then n.blockRefs == [] && n.contentSize == 0
    else n.children == [] && |n.blockRefs| == BlocksFor(n.contentSize)
  }

  ghost predicate NodesShaped(nodes: seq<Option<Node>>) {
    forall h {:trigger NodeShaped(At(nodes, h))} :: Live(nodes, h) ==> NodeShaped(At(nodes, h))
  }

  ghost predicate RootOk(nodes: seq<Option<Node>>, root: Handle) {
    LiveDir(nodes, root) && At(nodes, root).parent == None
  }

  /** A non-root node hangs off a live directory created before it and is listed there. */
  ghost predicate ParentOk(nodes: seq<Option<Node>>, h: Handle)
    requires Live(nodes, h)
  {
    var p := At(nodes, h).parent;
    p.Some? && p.value < h && LiveDir(nodes, p.value) && h in At(nodes, p.value).children
  }

  ghost predicate ParentLinks(nodes: seq<Option<Node>>, root: Handle) {
    forall h {:trigger ParentOk(nodes, h)} :: Live(nodes, h) && h != root ==> ParentOk(nodes, h)
  }

  /** Every listed child is live and points back at the directory. */
  ghost predicate ChildrenOk(nodes: seq<Option<Node>>, d: Handle)
    requires Live(nodes, d)
  {
    forall k :: 0 <= k < |At(nodes, d).children| ==>
      Live(nodes, At(nodes, d).children[k]) && At(nodes, At(nodes, d).children[k]).parent == Some(d)
  }

  ghost predicate ChildLinks(nodes: seq<Option<Node>>) {
    forall d {:trigger ChildrenOk(nodes, d)} :: Live(nodes, d) ==> ChildrenOk(nodes, d)
  }

  /** No two entries of a child list carry the same name (so no handle is listed twice). */
  ghost predicate NamesDistinct(nodes: seq<Option<Node>>, ch: seq<Handle>) {
    forall i, j :: 0 <= i < j < |ch| && Live(nodes, ch[i]) && Live(nodes, ch[j]) ==>
      At(nodes, ch[i]).name != At(nodes, ch[j]).name
  }

  ghost predicate SiblingsDistinct(nodes: seq<Option<Node>>) {
    forall d {:trigger NamesDistinct(nodes, At(nodes, d).children)} :: Live(nodes, d) ==> NamesDistinct(nodes, At(nodes, d).children)
  }

  ghost predicate TreeOk(v: Vfs) {
    && RootOk(v.nodes, v.root)
    && ParentLinks(v.nodes, v.root)
    && ChildLinks(v.nodes)
    && SiblingsDistinct(v.nodes)
    && NodesShaped(v.nodes)
    && LiveDir(v.nodes, v.cwd)
  }

  /** The invariant of the whole file system. */
  ghost predicate Valid(v: Vfs) {
    && DiskShaped(v.disk)
    && Consistent(v.alloc)
    && Partitioned(v)
    && TreeOk(v)
  }

  /** `initVfs()`: a zeroed disk, every block free, and a root directory named "/"
      that is also the current directory. */
  function InitVfs(): (v: Vfs)
    ensures Valid(v)
    ensures CountFreeBlocks(v.alloc) == TOTAL_BLOCKS
    ensures At(v.nodes, v.root).children == [] && v.cwd == v.root
  {
    var v := Vfs(seq(TOTAL_BLOCKS, _ => seq(BLOCK_SIZE, _ => 0)), Initial(),
                 [Some(Node("/", true, None, [], [], 0))], 0, 0);
    assert Owned(v.nodes) == multiset{} by {
      assert v.nodes[..0] == [];
    }
    v
  }

  // ---------------------------------------------------------------------------
  // Bookkeeping of owned blocks

  lemma {:induction false} OwnedUpdate(nodes: seq<Option<Node>>, h: Handle, x: Option<Node>)
    requires h < |nodes|
    ensures Owned(nodes[h := x]) + SlotBlocks(nodes[h]) == Owned(nodes) + SlotBlocks(x)
    decreases |nodes|
  {
    var n := |nodes|;
    var u := nodes[h := x];
    var p := nodes[..n - 1];
    assert Owned(nodes) == Owned(p) + SlotBlocks(nodes[n - 1]);
    if h == n - 1 {
      assert Owned(u) == Owned(p) + SlotBlocks(x) by {
        assert u[..n - 1] == p && u[n - 1] == x;
      }
    } else {
      assert Owned(u) == Owned(p[h := x]) + SlotBlocks(nodes[n - 1]) by {
        assert u[..n - 1] == p[h := x] && u[n - 1] == nodes[n - 1];
      }
      OwnedUpdate(p, h, x);
      assert p[h] == nodes[h];
      MultisetShuffle(Owned(p[h := x]), SlotBlocks(nodes[n - 1]), SlotBlocks(nodes[h]), Owned(p), SlotBlocks(x));
    }
  }

  /** Replacing one slot keeps the partition when the free list gains exactly the blocks
      the slot gives up and loses exactly the blocks it takes on. */
  lemma Repartition(v: Vfs, h: Handle, x: Option<Node>, a': Allocator)
    requires Partitioned(v) && h < |v.nodes|
    requires multiset(a'.free) + SlotBlocks(x) == multiset(v.alloc.free) + SlotBlocks(v.nodes[h])
    ensures Partitioned(v.(alloc := a', nodes := v.nodes[h := x]))
  {
    OwnedUpdate(v.nodes, h, x);
    MultisetExchange(multiset(v.alloc.free), multiset(a'.free), Owned(v.nodes), Owned(v.nodes[h := x]),
      SlotBlocks(v.nodes[h]), SlotBlocks(x), multiset(Range(TOTAL_BLOCKS)));
  }

  /** Blocks moving between the free list and the owners keep their union. */
  lemma MultisetExchange(free: multiset<int>, free': multiset<int>, owned: multiset<int>, owned': multiset<int>,
                         out: multiset<int>, into: multiset<int>, all: multiset<int>)
    requires free' + into == free + out && owned' + out == owned + into && free + owned == all
    ensures free' + owned' == all
  {
    forall y
      ensures (free' + owned')[y] == all[y]
    {
      assert (free' + into)[y] == (free + out)[y];
      assert (owned' + out)[y] == (owned + into)[y];
      assert (free + owned)[y] == all[y];
    }
  }

  /** Arenas whose slots own the same blocks own the same blocks overall. */
  lemma {:induction false} OwnedFromSlots(nodes: seq<Option<Node>>, nodes': seq<Option<Node>>)
    requires |nodes'| == |nodes|
    requires forall h :: 0 <= h < |nodes| ==> SlotBlocks(nodes'[h]) == SlotBlocks(nodes[h])
    ensures Owned(nodes') == Owned(nodes)
    decreases |nodes|
  {
    var n := |nodes|;
    if n > 0 {
      OwnedFromSlots(nodes[..n - 1], nodes'[..n - 1]);
    }
  }

  /** With sibling names distinct, no handle is listed twice in a child list. */
  lemma ChildrenDistinct(v: Vfs, d: Handle)
    requires TreeOk(v) && Live(v.nodes, d)
    ensures Distinct(At(v.nodes, d).children)
  {
    assert ChildrenOk(v.nodes, d);
    assert NamesDistinct(v.nodes, At(v.nodes, d).children);
  }

  lemma OwnedAppend(nodes: seq<Option<Node>>, x: Option<Node>)
    ensures Owned(nodes + [x]) == Owned(nodes) + SlotBlocks(x)
  {
    assert (nodes + [x])[..|nodes|] == nodes;
  }

  lemma {:induction false} OwnedContains(nodes: seq<Option<Node>>, h: Handle)
    requires h < |nodes|
    ensures SlotBlocks(nodes[h]) <= Owned(nodes)
    decreases |nodes|
  {
    var n := |nodes|;
    var prefix := nodes[..n - 1];
    assert Owned(nodes) == Owned(prefix) + SlotBlocks(nodes[n - 1]);
    if h < n - 1 {
      OwnedContains(prefix, h);
      assert prefix[h] == nodes[h];
    }
  }

  // ---------------------------------------------------------------------------
  // Consequences of the partition

  /** Each block index occurs at most once among the free list and the owned blocks,
      and only indices of the disk occur at all. */
  lemma PartitionCounts(v: Vfs, b: int)
    requires Partitioned(v)
    ensures multiset(v.alloc.free)[b] + Owned(v.nodes)[b] == if 0 <= b < TOTAL_BLOCKS then 1 else 0
  {
    RangeOccurrences(TOTAL_BLOCKS, b);
  }

  /** A free-list entry is a disk block, owned by nobody. */
  lemma FreeBlockIsUnowned(v: Vfs, k: int)
    requires Partitioned(v)
    requires 0 <= k < |v.alloc.free|
    ensures 0 <= v.alloc.free[k] < TOTAL_BLOCKS
    ensures Owned(v.nodes)[v.alloc.free[k]] == 0
  {
    PartitionCounts(v, v.alloc.free[k]);
  }

  /** No element occurs twice. */
  predicate Distinct(s: seq<int>) {
    forall i, j :: 0 <= i < j < |s| ==> s[i] != s[j]
  }

  /** A sequence none of whose elements occurs twice in its multiset is `Distinct`. */
  lemma AtMostOnceIsDistinct(s: seq<int>)
    requires forall x :: multiset(s)[x] <= 1
    ensures Distinct(s)
  {
    forall i, j | 0 <= i < j < |s|
      ensures s[i] != s[j]
    {
      var b := s[i];
      assert s == s[..i] + [b] + s[i + 1..j] + [s[j]] + s[j + 1..];
      assert multiset(s)[b] >= 1 + (if s[j] == b then 1 else 0);
    }
  }

  /** The blocks `writeFile` draws from once it has released a file's old blocks: the free
      list followed by the file's blocks. They are disk blocks and none occurs twice. */
  lemma ReleasedPool(v: Vfs, f: Handle)
    requires Partitioned(v) && Live(v.nodes, f)
    ensures var pool := v.alloc.free + At(v.nodes, f).blockRefs;
      Distinct(pool) && forall k :: 0 <= k < |pool| ==> 0 <= pool[k] < TOTAL_BLOCKS
  {
    var pool := v.alloc.free + At(v.nodes, f).blockRefs;
    OwnedContains(v.nodes, f);
    assert multiset(pool) <= multiset(Range(TOTAL_BLOCKS));
    forall x
      ensures multiset(pool)[x] <= 1
    {
      RangeOccurrences(TOTAL_BLOCKS, x);
    }
    AtMostOnceIsDistinct(pool);
    forall k | 0 <= k < |pool|
      ensures 0 <= pool[k] < TOTAL_BLOCKS
    {
      assert pool[k] in multiset(pool);
      RangeOccurrences(TOTAL_BLOCKS, pool[k]);
    }
  }

  /** A block a live node owns is a disk block, is not free, and belongs to no other node. */
  lemma OwnedBlockIsExclusive(v: Vfs, h: Handle, k: int)
    requires Partitioned(v)
    requires Live(v.nodes, h) && 0 <= k < |At(v.nodes, h).blockRefs|
    ensures 0 <= At(v.nodes, h).blockRefs[k] < TOTAL_BLOCKS
    ensures At(v.nodes, h).blockRefs[k] !in v.alloc.free
    ensures forall g :: g != h && Live(v.nodes, g) ==> At(v.nodes, h).blockRefs[k] !in At(v.nodes, g).blockRefs
  {
    var b := At(v.nodes, h).blockRefs[k];
    var rest := v.nodes[h := None];
    OwnedUpdate(v.nodes, h, None);
    assert SlotBlocks(v.nodes[h]) == multiset(At(v.nodes, h).blockRefs);
    assert Owned(rest) + multiset(At(v.nodes, h).blockRefs) == Owned(v.nodes);
    assert multiset(At(v.nodes, h).blockRefs)[b] >= 1;
    PartitionCounts(v, b);
    forall g: Handle | g != h && Live(v.nodes, g)
      ensures b !in At(v.nodes, g).blockRefs
    {
      OwnedContains(rest, g);
      assert SlotBlocks(rest[g]) == multiset(At(v.nodes, g).blockRefs);
    }
  }

  // ---------------------------------------------------------------------------
  // Changes that leave the tree alone

  /** A node with its content stripped: what the tree invariant looks at. */
  function Skeleton(n: Node): Node {
    n.(blockRefs := [], contentSize := 0)
  }

  /** The two arenas have the same live slots, and their nodes differ at most in content. */
  ghost predicate SameTree(nodes: seq<Option<Node>>, nodes': seq<Option<Node>>) {
    && |nodes'| == |nodes|
    && (forall h :: 0 <= h < |nodes| ==> (nodes'[h].Some? <==> nodes[h].Some?))
    && (forall h :: Live(nodes, h) ==> Skeleton(At(nodes', h)) == Skeleton(At(nodes, h)))
  }

  lemma SameTreeKeepsTree(v: Vfs, v': Vfs)
    requires TreeOk(v) && SameTree(v.nodes, v'.nodes) && NodesShaped(v'.nodes)
    requires v'.root == v.root && v'.cwd == v.cwd
    ensures TreeOk(v')
  {
    var nodes := v.nodes;
    var nodes' := v'.nodes;
    forall h | Live(nodes', h)
      ensures Live(nodes, h)
      ensures At(nodes', h).name == At(nodes, h).name && At(nodes', h).isDir == At(nodes, h).isDir
      ensures At(nodes', h).parent == At(nodes, h).parent && At(nodes', h).children == At(nodes, h).children
    {
      assert Skeleton(At(nodes', h)) == Skeleton(At(nodes, h));
    }
    assert ParentLinks(nodes', v.root) by {
      forall h | Live(nodes', h) && h != v.root
        ensures ParentOk(nodes', h)
      {
        assert ParentOk(nodes, h);
      }
    }
    assert ChildLinks(nodes') by {
      forall d | Live(nodes', d)
        ensures ChildrenOk(nodes', d)
      {
        assert ChildrenOk(nodes, d);
      }
    }
    assert SiblingsDistinct(nodes') by {
      forall d | Live(nodes', d)
        ensures NamesDistinct(nodes', At(nodes', d).children)
      {
        assert NamesDistinct(nodes, At(nodes, d).children);
      }
    }
  }

  /** Giving a file other content (a node that differs only in blocks and size and fits
      them, a free list that takes over exactly the blocks the file gives up and gives up
      exactly those it takes, a disk of the same shape) keeps the file system valid. */
  lemma ContentSwapKeepsValid(v: Vfs, f: Handle, node': Node, a': Allocator, disk': seq<seq<Byte>>)
    requires Valid(v) && LiveFile(v.nodes, f)
    requires Skeleton(node') == Skeleton(At(v.nodes, f)) && NodeShaped(node')
    requires multiset(a'.free) + multiset(node'.blockRefs) == multiset(v.alloc.free) + multiset(At(v.nodes, f).blockRefs)
    requires Consistent(a') && DiskShaped(disk')
    ensures Valid(v.(disk := disk', alloc := a', nodes := v.nodes[f := Some(node')]))
  {
    var v' := v.(disk := disk', alloc := a', nodes := v.nodes[f := Some(node')]);
    Repartition(v, f, Some(node'), a');
    SwapKeepsShapes(v.nodes, f, node');
    SwapKeepsSkeletons(v.nodes, f, node');
    SameTreeKeepsTree(v, v');
  }

  /** Replacing a live node by a well-shaped one keeps every node well-shaped. */
  lemma SwapKeepsShapes(nodes: seq<Option<Node>>, f: Handle, node': Node)
    requires NodesShaped(nodes) && Live(nodes, f) && NodeShaped(node')
    ensures NodesShaped(nodes[f := Some(node')])
  {
    var nodes' := nodes[f := Some(node')];
    forall h | Live(nodes', h)
      ensures NodeShaped(At(nodes', h))
    {
      if h != f {
        assert NodeShaped(At(nodes, h));
      }
    }
  }

  /** Replacing a live node by one with the same skeleton keeps the tree's shape. */
  lemma SwapKeepsSkeletons(nodes: seq<Option<Node>>, f: Handle, node': Node)
    requires Live(nodes, f) && Skeleton(node') == Skeleton(At(nodes, f))
    ensures SameTree(nodes, nodes[f := Some(node')])
  {
  }

  /** The directory a non-root node hangs off. */
  function ParentOf(v: Vfs, h: Handle): (p: Handle)
    requires TreeOk(v) && Live(v.nodes, h) && h != v.root
    ensures At(v.nodes, h).parent == Some(p) && p < h
    ensures LiveDir(v.nodes, p) && h in At(v.nodes, p).children
  {
    assert ParentOk(v.nodes, h);
    At(v.nodes, h).parent.value
  }

  /** Splitting a sequence splits its multiset. */
  lemma MultisetSplit(s: seq<int>, k: nat)
    requires k <= |s|
    ensures multiset(s[..k]) + multiset(s[k..]) == multiset(s)
  {
    assert s == s[..k] + s[k..];
  }

  /** Cancelling a common part of two multiset sums. */
  lemma MultisetCancel(a: multiset<int>, b: multiset<int>, c: multiset<int>)
    requires a + c == b + c
    ensures a == b
  {
    forall y
      ensures a[y] == b[y]
    {
      assert (a + c)[y] == (b + c)[y];
    }
  }
}
