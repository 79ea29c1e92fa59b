/** The shell commands of the virtual file system that work on one bare name in the
    current directory: `mkdir`, `create`, `rmdir`, `write`, `read` and `delete`. */
module VfsShell {
  import opened CType
  import opened BlockAllocator
  import opened VfsState
  import opened Namespace
  import opened FileContent
  import opened WriteArgs

  /** `findChild(currentDir, name)`, the lookup every command here starts with: a child of
      the current directory carrying the name (so neither the root nor the current
      directory itself), or none when no child carries it. */
  function Lookup(v: Vfs, name: string): (r: Option<Handle>)
    requires Valid(v)
    ensures r.Some? ==> var c := r.value;
      && Live(v.nodes, c) && c in At(v.nodes, v.cwd).children
      && At(v.nodes, c).name == name && At(v.nodes, c).parent == Some(v.cwd)
      && c != v.root && c != v.cwd
    ensures r.None? <==> forall c :: c in At(v.nodes, v.cwd).children && Live(v.nodes, c) ==> At(v.nodes, c).name != name
  {
    assert ChildrenOk(v.nodes, v.cwd);
    var r := FindChild(v.nodes, v.cwd, name);
    assert RootOk(v.nodes, v.root);
    assert r.Some? ==> ParentOk(v.nodes, r.value);
    r
  }

  /** The C strings of the command line are byte strings; a character stands for the byte
      of its code (taken modulo 256). */
  function Bytes(s: string): (b: seq<Byte>)
    ensures |b| == |s|
    ensures forall i :: 0 <= i < |s| ==> b[i] == (s[i] as int) % 256
  {
    seq(|s|, i requires 0 <= i < |s| => (s[i] as int) % 256)
  }

  // ---------------------------------------------------------------------------
  // mkdir and create

  /** `nodes'` is `nodes` with the node n appended at handle h and listed last among the
      children of directory d; no other slot differs. */
  ghost predicate Attached(nodes: seq<Option<Node>>, nodes': seq<Option<Node>>, d: Handle, h: Handle, n: Node) {
    && h == |nodes| && |nodes'| == h + 1 && LiveDir(nodes, d)
    && n.parent == Some(d) && n.children == [] && n.blockRefs == [] && n.contentSize == 0
    && nodes'[h] == Some(n)
    && nodes'[d] == Some(At(nodes, d).(children := At(nodes, d).children + [h]))
    && forall g :: 0 <= g < h && g != d ==> nodes'[g] == nodes[g]
  }

  /** Every old node keeps its name, kind, parent and content; only d gains a child. */
  lemma AttachedSurvivors(nodes: seq<Option<Node>>, nodes': seq<Option<Node>>, d: Handle, h: Handle, n: Node)
    requires Attached(nodes, nodes', d, h, n)
    ensures forall g: Handle :: Live(nodes, g) ==>
      && Live(nodes', g) && g != h
      && Skeleton(At(nodes', g)).(children := []) == Skeleton(At(nodes, g)).(children := [])
      && At(nodes', g).blockRefs == At(nodes, g).blockRefs
      && At(nodes', g).contentSize == At(nodes, g).contentSize
      && (g != d ==> At(nodes', g).children == At(nodes, g).children)
  {
  }

  lemma AttachedParents(nodes: seq<Option<Node>>, nodes': seq<Option<Node>>, d: Handle, h: Handle, n: Node, root: Handle)
    requires Attached(nodes, nodes', d, h, n)
    requires RootOk(nodes, root) && ParentLinks(nodes, root)
    ensures RootOk(nodes', root) && ParentLinks(nodes', root)
  {
    AttachedSurvivors(nodes, nodes', d, h, n);
    forall g | Live(nodes', g) && g != root
      ensures ParentOk(nodes', g)
    {
      if g != h {
        assert ParentOk(nodes, g);
      }
    }
  }

  lemma AttachedChildren(nodes: seq<Option<Node>>, nodes': seq<Option<Node>>, d: Handle, h: Handle, n: Node)
    requires Attached(nodes, nodes', d, h, n)
    requires ChildLinks(nodes)
    ensures ChildLinks(nodes')
  {
    AttachedSurvivors(nodes, nodes', d, h, n);
    forall e | Live(nodes', e)
      ensures ChildrenOk(nodes', e)
    {
      if e != h {
        assert ChildrenOk(nodes, e);
      }
    }
  }

  lemma AttachedSiblings(nodes: seq<Option<Node>>, nodes': seq<Option<Node>>, d: Handle, h: Handle, n: Node)
    requires Attached(nodes, nodes', d, h, n)
    requires ChildLinks(nodes) && SiblingsDistinct(nodes)
    requires forall c :: c in At(nodes, d).children && Live(nodes, c) ==> At(nodes, c).name != n.name
    ensures SiblingsDistinct(nodes')
  {
    AttachedSurvivors(nodes, nodes', d, h, n);
    forall e | Live(nodes', e)
      ensures NamesDistinct(nodes', At(nodes', e).children)
    {
      if e != h {
        var ch := At(nodes, e).children;
        assert NamesDistinct(nodes, ch);
        assert ChildrenOk(nodes, e);
        if e == d {
          forall i, j | 0 <= i < j < |ch| + 1
            ensures At(nodes', (ch + [h])[i]).name != At(nodes', (ch + [h])[j]).name
          {
            assert (ch + [h])[i] == ch[i];
            if j == |ch| {
              assert ch[i] in At(nodes, d).children;
            }
          }
        }
      }
    }
  }

  lemma AttachedShapes(nodes: seq<Option<Node>>, nodes': seq<Option<Node>>, d: Handle, h: Handle, n: Node)
    requires Attached(nodes, nodes', d, h, n)
    requires NodesShaped(nodes)
    ensures NodesShaped(nodes')
  {
    AttachedSurvivors(nodes, nodes', d, h, n);
    forall g | Live(nodes', g)
      ensures NodeShaped(At(nodes', g))
    {
      if g != h {
        assert NodeShaped(At(nodes, g));
      }
    }
  }

  /** The appended node owns no blocks, so the owned blocks are the same. */
  lemma AttachedOwned(nodes: seq<Option<Node>>, nodes': seq<Option<Node>>, d: Handle, h: Handle, n: Node)
    requires Attached(nodes, nodes', d, h, n)
    ensures Owned(nodes') == Owned(nodes)
  {
    var prefix := nodes'[..h];
    assert Owned(nodes') == Owned(prefix) + SlotBlocks(Some(n));
    forall g | 0 <= g < h
      ensures SlotBlocks(prefix[g]) == SlotBlocks(nodes[g])
    {
    }
    OwnedFromSlots(nodes, prefix);
  }

  /** The arena after `createFileNode(name, isDir, currentDir)` and
      `addChild(currentDir, node)`. */
  function AttachNodes(v: Vfs, name: string, isDir: bool): seq<Option<Node>>
    requires Valid(v) && |name| <= MAX_NAME_LEN
  {
    var n := CreateFileNode(name, isDir, Some(v.cwd)).value;
    AddChild(v.nodes + [Some(n)], v.cwd, |v.nodes|).0
  }

  lemma AttachNodesShape(v: Vfs, name: string, isDir: bool)
    requires Valid(v) && |name| <= MAX_NAME_LEN
    ensures Attached(v.nodes, AttachNodes(v, name, isDir), v.cwd, |v.nodes|, Node(name, isDir, Some(v.cwd), [], [], 0))
  {
    assert At(v.nodes + [Some(Node(name, isDir, Some(v.cwd), [], [], 0))], v.cwd) == At(v.nodes, v.cwd);
  }

  /** Attaching a node whose name no sibling carries keeps the file system valid. */
  lemma AttachedValid(v: Vfs, nodes': seq<Option<Node>>, n: Node)
    requires Valid(v) && Attached(v.nodes, nodes', v.cwd, |v.nodes|, n)
    requires forall c :: c in At(v.nodes, v.cwd).children && Live(v.nodes, c) ==> At(v.nodes, c).name != n.name
    ensures Valid(v.(nodes := nodes'))
  {
    var h := |v.nodes|;
    AttachedParents(v.nodes, nodes', v.cwd, h, n, v.root);
    AttachedChildren(v.nodes, nodes', v.cwd, h, n);
    AttachedSiblings(v.nodes, nodes', v.cwd, h, n);
    AttachedShapes(v.nodes, nodes', v.cwd, h, n);
    AttachedOwned(v.nodes, nodes', v.cwd, h, n);
  }

  /** The attached node is what looking its name up finds. */
  lemma AttachedFound(v: Vfs, name: string, isDir: bool)
    requires Valid(v) && |name| <= MAX_NAME_LEN && Lookup(v, name) == None
    requires Valid(v.(nodes := AttachNodes(v, name, isDir)))
    ensures Lookup(v.(nodes := AttachNodes(v, name, isDir)), name) == Some(|v.nodes|)
  {
    var h := |v.nodes|;
    var nodes1 := v.nodes + [Some(Node(name, isDir, Some(v.cwd), [], [], 0))];
    assert At(nodes1, v.cwd) == At(v.nodes, v.cwd);
    assert ChildrenOk(v.nodes, v.cwd);
    assert FindChild(nodes1, v.cwd, name) == None by {
      forall k | 0 <= k < |At(nodes1, v.cwd).children|
        ensures At(nodes1, At(nodes1, v.cwd).children[k]).name != name
      {
        assert At(v.nodes, v.cwd).children[k] in At(v.nodes, v.cwd).children;
      }
    }
    AddThenFind(nodes1, v.cwd, h);
  }

  /** The part of `makeDirCmd` and `createFileCmd` past their checks:
      `createFileNode(name, isDir, currentDir)` then `addChild(currentDir, node)`. The new
      node takes the next handle, is listed last in the current directory and is what
      looking its name up finds; nothing else changes. */
  function Attach(v: Vfs, name: string, isDir: bool): (v': Vfs)
    requires Valid(v) && |name| <= MAX_NAME_LEN && Lookup(v, name) == None
    ensures Valid(v')
    ensures v'.disk == v.disk && v'.alloc == v.alloc && v'.root == v.root && v'.cwd == v.cwd
    ensures |v'.nodes| == |v.nodes| + 1
    ensures v'.nodes[|v.nodes|] == Some(Node(name, isDir, Some(v.cwd), [], [], 0))
    ensures LiveDir(v'.nodes, v.cwd)
    ensures At(v'.nodes, v.cwd) == At(v.nodes, v.cwd).(children := At(v.nodes, v.cwd).children + [|v.nodes|])
    ensures forall g :: 0 <= g < |v.nodes| && g != v.cwd ==> v'.nodes[g] == v.nodes[g]
    ensures Lookup(v', name) == Some(|v.nodes|)
  {
    var n := Node(name, isDir, Some(v.cwd), [], [], 0);
    AttachNodesShape(v, name, isDir);
    AttachedValid(v, AttachNodes(v, name, isDir), n);
    AttachedFound(v, name, isDir);
    v.(nodes := AttachNodes(v, name, isDir))
  }

  datatype MakeStatus = Made | MakeUsage | NameTooLong | NameHasSlash | NameExists

  /** `makeDirCmd(name)` (isDir) and `createFileCmd(name)` (not isDir): usage for an empty
      name, then refusals for a name longer than MAX_NAME_LEN, a name containing '/' and a
      name some child of the current directory already has, in that order, nothing changing
      on any; otherwise the new node is attached to the current directory and is what
      looking the name up finds from then on. */
  function Make(v: Vfs, name: string, isDir: bool): (r: (Vfs, MakeStatus))
    requires Valid(v)
    ensures Valid(r.0)
    ensures r.1 != Made ==> r.0 == v
    ensures r.1 == MakeUsage <==> name == ""
    ensures r.1 == NameTooLong <==> |name| > MAX_NAME_LEN
    ensures r.1 == NameHasSlash <==> 0 < |name| <= MAX_NAME_LEN && '/' in name
    ensures r.1 == NameExists <==> 0 < |name| <= MAX_NAME_LEN && '/' !in name && Lookup(v, name).Some?
    ensures r.1 == Made ==> var h := |v.nodes|;
      && Lookup(r.0, name) == Some(h)
      && At(r.0.nodes, h) == Node(name, isDir, Some(v.cwd), [], [], 0)
      && r.0.cwd == v.cwd && CountFreeBlocks(r.0.alloc) == CountFreeBlocks(v.alloc)
  {
    if name == "" then (v, MakeUsage)
    else if |name| > MAX_NAME_LEN then (v, NameTooLong)
    else if '/' in name then (v, NameHasSlash)
    else if Lookup(v, name).Some? then (v, NameExists)
    else (Attach(v, name, isDir), Made)
  }

  // ---------------------------------------------------------------------------
  // rmdir, read, delete, write

  /** Every other child of the current directory has a name other than that of the child
      c; so once c is gone from the list, looking its name up finds nothing. */
  lemma GoneFromCwd(v: Vfs, v': Vfs, c: Handle)
    requires Valid(v) && Valid(v') && v'.cwd == v.cwd && |v'.nodes| == |v.nodes|
    requires Live(v.nodes, c) && c in At(v.nodes, v.cwd).children
    requires forall x :: x in At(v'.nodes, v.cwd).children <==> x in At(v.nodes, v.cwd).children && x != c
    requires forall g :: 0 <= g < |v.nodes| && g != c && g != v.cwd ==> v'.nodes[g] == v.nodes[g]
    ensures Lookup(v', At(v.nodes, c).name) == None
  {
    var name := At(v.nodes, c).name;
    var ch := At(v.nodes, v.cwd).children;
    assert NamesDistinct(v.nodes, ch);
    assert ChildrenOk(v.nodes, v.cwd);
    forall x | x in At(v'.nodes, v.cwd).children && Live(v'.nodes, x)
      ensures At(v'.nodes, x).name != name
    {
      var i :| 0 <= i < |ch| && ch[i] == x;
      var j :| 0 <= j < |ch| && ch[j] == c;
      assert x != v.cwd by {
        assert ParentOk(v.nodes, x) by {
          assert RootOk(v.nodes, v.root);
        }
      }
    }
  }

  datatype RmdirOutcome = RmdirUsage | RmdirNotFound | RmdirNotADirectory | RmdirNotEmpty | DirRemoved

  /** The `rmdir` command: usage for an empty argument; otherwise the argument is looked
      up among the children of the current directory, and a missing name, a file and a
      directory with children are refused in that order, nothing changing on any;
      otherwise the directory is removed and its name no longer found. */
  function RmdirCmd(v: Vfs, args: string): (r: (Vfs, RmdirOutcome))
    requires Valid(v)
    ensures Valid(r.0)
    ensures r.1 != DirRemoved ==> r.0 == v
    ensures r.1 == RmdirUsage <==> args == ""
    ensures r.1 == RmdirNotFound <==> args != "" && Lookup(v, args).None?
    ensures r.1 == RmdirNotADirectory <==> args != "" && Lookup(v, args).Some? && !At(v.nodes, Lookup(v, args).value).isDir
    ensures r.1 == RmdirNotEmpty <==> (args != "" && Lookup(v, args).Some? && At(v.nodes, Lookup(v, args).value).isDir &&
      At(v.nodes, Lookup(v, args).value).children != [])
    ensures r.1 == DirRemoved ==>
      && !Live(r.0.nodes, Lookup(v, args).value) && Lookup(r.0, args) == None
      && r.0.cwd == v.cwd && r.0.disk == v.disk && r.0.alloc == v.alloc
  {
    if args == "" then (v, RmdirUsage)
    else
      match Lookup(v, args)
      case None => (v, RmdirNotFound)
      case Some(d) =>
        if !At(v.nodes, d).isDir then (v, RmdirNotADirectory)
        else if At(v.nodes, d).children != [] then (v, RmdirNotEmpty)
        else
          var (v', _) := RemoveDir(v, d);
          assert ParentOf(v, d) == v.cwd;
          GoneFromCwd(v, v', d);
          (v', DirRemoved)
  }

  datatype ReadOutcome = ReadUsage | ReadNotFound | ReadIsDirectory | Printed(data: seq<Byte>)

  /** The `read` command: usage for an empty argument, then refusals for a name no child
      of the current directory has and for a directory; otherwise the file's content as
      `readFile` prints it. Reading changes nothing. */
  function ReadCmd(v: Vfs, args: string): (r: ReadOutcome)
    requires Valid(v)
    ensures r == ReadUsage <==> args == ""
    ensures r == ReadNotFound <==> args != "" && Lookup(v, args).None?
    ensures r == ReadIsDirectory <==> args != "" && Lookup(v, args).Some? && At(v.nodes, Lookup(v, args).value).isDir
    ensures r.Printed? ==> ReadFile(v, Lookup(v, args).value) == Some(r.data)
  {
    if args == "" then ReadUsage
    else
      match Lookup(v, args)
      case None => ReadNotFound
      case Some(f) =>
        if At(v.nodes, f).isDir then ReadIsDirectory
        else Printed(ReadFile(v, f).value)
  }

  datatype DeleteOutcome = DeleteUsage | DeleteNotFound | DeleteIsDirectory | Deleted

  /** The `delete` command: usage for an empty argument, then refusals for a name no child
      of the current directory has and for a directory, nothing changing on any; otherwise
      the file is deleted, its blocks are free again and its name is no longer found. */
  function DeleteCmd(v: Vfs, args: string): (r: (Vfs, DeleteOutcome))
    requires Valid(v)
    ensures Valid(r.0)
    ensures r.1 != Deleted ==> r.0 == v
    ensures r.1 == DeleteUsage <==> args == ""
    ensures r.1 == DeleteNotFound <==> args != "" && Lookup(v, args).None?
    ensures r.1 == DeleteIsDirectory <==> args != "" && Lookup(v, args).Some? && At(v.nodes, Lookup(v, args).value).isDir
    ensures r.1 == Deleted ==> var f := Lookup(v, args).value;
      && !Live(r.0.nodes, f) && Lookup(r.0, args) == None && r.0.cwd == v.cwd
      && CountFreeBlocks(r.0.alloc) == CountFreeBlocks(v.alloc) + |At(v.nodes, f).blockRefs|
  {
    if args == "" then (v, DeleteUsage)
    else
      match Lookup(v, args)
      case None => (v, DeleteNotFound)
      case Some(f) =>
        if At(v.nodes, f).isDir then (v, DeleteIsDirectory)
        else
          var (v', _) := DeleteFile(v, f);
          assert ParentOf(v, f) == v.cwd;
          GoneFromCwd(v, v', f);
          (v', Deleted)
  }

  /** Looking a name up sees only names and child lists, which a write leaves alone. */
  lemma LookupSameTree(v: Vfs, v': Vfs, name: string)
    requires Valid(v) && Valid(v') && v'.cwd == v.cwd && SameTree(v.nodes, v'.nodes)
    ensures Lookup(v', name) == Lookup(v, name)
  {
    assert Skeleton(At(v'.nodes, v.cwd)) == Skeleton(At(v.nodes, v.cwd));
    var ch := At(v.nodes, v.cwd).children;
    assert ChildrenOk(v.nodes, v.cwd);
    forall k | 0 <= k < |ch|
      ensures Live(v'.nodes, ch[k]) && At(v'.nodes, ch[k]).name == At(v.nodes, ch[k]).name
    {
      assert Skeleton(At(v'.nodes, ch[k])) == Skeleton(At(v.nodes, ch[k]));
    }
    FindFromSameNames(v.nodes, v'.nodes, ch, name, 0);
  }

  /** Two arenas in which the ring's entries carry the same names give the same scan. */
  lemma {:induction false} FindFromSameNames(nodes: seq<Option<Node>>, nodes': seq<Option<Node>>, ring: seq<Handle>, name: string, i: nat)
    requires i <= |ring|
    requires forall k :: 0 <= k < |ring| ==> Live(nodes, ring[k]) && Live(nodes', ring[k])
    requires forall k :: 0 <= k < |ring| ==> At(nodes', ring[k]).name == At(nodes, ring[k]).name
    ensures FindFrom(nodes', ring, name, i) == FindFrom(nodes, ring, name, i)
    decreases |ring| - i
  {
    if i < |ring| {
      FindFromSameNames(nodes, nodes', ring, name, i + 1);
    }
  }

  datatype WriteOutcome = WriteUsage | MissingName | WriteNotFound | WriteIsDirectory
    | DataWritten(size: nat) | NotEnoughSpace | WriteFailed

  /** The content the `write` command hands to `writeFile`: the parsed text, or "" when
      there is none. */
  function WriteText(line: string): string {
    var content := ParseWriteArgs(line).1;
    if content.Some? then content.value else ""
  }

  /** The `write` command once the name has found the file f: `writeFile` of the text
      with its length as size, refused for want of blocks with nothing changing; after a
      successful write, reading the name prints exactly the text written. */
  function WriteFound(v: Vfs, name: string, f: Handle, text: string): (r: (Vfs, WriteOutcome))
    requires Valid(v) && name != "" && Lookup(v, name) == Some(f) && LiveFile(v.nodes, f)
    ensures Valid(r.0)
    ensures !r.1.DataWritten? ==> r.0 == v
    ensures r.1 == DataWritten(|text|) || r.1 == NotEnoughSpace
    ensures r.1 == NotEnoughSpace <==> BlocksFor(|text|) > CountFreeBlocks(v.alloc)
    ensures r.1.DataWritten? ==> ReadCmd(r.0, name) == Printed(Bytes(text))
  {
    var data := Bytes(text);
    var (v', status) := WriteFile(v, f, data, |text|);
    if status == Written then
      WrittenIsRead(v, name, f, data);
      (v', DataWritten(|text|))
    else if status == NoSpace then (v, NotEnoughSpace)
    else (v, WriteFailed)
  }

  /** The `write` command: usage for an empty line; the line is split by `parseWriteArgs`;
      refusals for a line without a name, a name no child of the current directory has and
      a directory, nothing changing on any; then the write of `WriteFound`. */
  function WriteCmd(v: Vfs, line: string): (r: (Vfs, WriteOutcome))
    requires Valid(v)
    ensures Valid(r.0)
    ensures !r.1.DataWritten? ==> r.0 == v
    ensures r.1 != WriteFailed
    ensures r.1 == WriteUsage <==> line == ""
    ensures r.1 == MissingName <==> line != "" && forall k :: 0 <= k < |line| ==> IsSpace(line[k])
    ensures var name := ParseWriteArgs(line).0;
      r.1 == WriteNotFound <==> line != "" && name != "" && Lookup(v, name).None?
    ensures var name := ParseWriteArgs(line).0;
      r.1 == WriteIsDirectory <==>
        line != "" && name != "" && Lookup(v, name).Some? && At(v.nodes, Lookup(v, name).value).isDir
    ensures var name := ParseWriteArgs(line).0;
      r.1 == NotEnoughSpace <==>
        && line != "" && name != "" && Lookup(v, name).Some? && !At(v.nodes, Lookup(v, name).value).isDir
        && BlocksFor(|WriteText(line)|) > CountFreeBlocks(v.alloc)
    ensures var name := ParseWriteArgs(line).0;
      r.1.DataWritten? <==>
        && line != "" && name != "" && Lookup(v, name).Some? && !At(v.nodes, Lookup(v, name).value).isDir
        && BlocksFor(|WriteText(line)|) <= CountFreeBlocks(v.alloc)
    ensures r.1.DataWritten? ==>
      && r.1.size == |WriteText(line)|
      && ReadCmd(r.0, ParseWriteArgs(line).0) == Printed(Bytes(WriteText(line)))
  {
    if line == "" then (v, WriteUsage)
    else
      var name := ParseWriteArgs(line).0;
      if name == "" then (v, MissingName)
      else
        match Lookup(v, name)
        case None => (v, WriteNotFound)
        case Some(f) =>
          if At(v.nodes, f).isDir then (v, WriteIsDirectory)
          else WriteFound(v, name, f, WriteText(line))
  }

  /** After a successful write to the file a name finds, the name still finds it and
      reading it prints exactly the bytes written. */
  lemma WrittenIsRead(v: Vfs, name: string, f: Handle, data: seq<Byte>)
    requires Valid(v) && name != "" && Lookup(v, name) == Some(f) && LiveFile(v.nodes, f)
    requires WriteFile(v, f, data, |data|).1 == Written
    ensures var v' := WriteFile(v, f, data, |data|).0;
      Valid(v') && ReadCmd(v', name) == Printed(data)
  {
    var v' := WriteFile(v, f, data, |data|).0;
    WriteFileSpec(v, f, data, |data|);
    WriteThenRead(v, f, data, |data|);
    assert data[..Clamp(|data|)] == data;
    SwapKeepsSkeletons(v.nodes, f, At(v'.nodes, f));
    LookupSameTree(v, v', name);
  }

  // ---------------------------------------------------------------------------
  // Undoing mkdir and create

  /** In the arena, unlinking the node attached last and emptying its slot gives back
      the arena it was attached to, with one more empty slot. */
  lemma UnlinkAttached(nodes: seq<Option<Node>>, nodes': seq<Option<Node>>, d: Handle, h: Handle, n: Node)
    requires Attached(nodes, nodes', d, h, n) && Distinct(At(nodes, d).children)
    requires forall k :: 0 <= k < |At(nodes, d).children| ==> At(nodes, d).children[k] < h
    ensures Live(nodes', h) && h != d
    ensures RemoveChild(nodes', d, h).0[h := None] == nodes + [None]
  {
    var ch := At(nodes, d).children;
    assert Distinct(ch + [h]) && h !in ch;
    assert IndexOf(ch + [h], h) == |ch|;
    assert (ch + [h])[..|ch|] + (ch + [h])[|ch| + 1..] == ch;
    var r := RemoveChild(nodes', d, h).0;
    assert At(r, d) == At(nodes, d);
    forall g | 0 <= g <= h
      ensures r[h := None][g] == (nodes + [None])[g]
    {
      if g < h && g != d {
        assert r[g] == nodes'[g];
      }
    }
  }

  /** Unlinking and freeing a freshly attached node gives back the file system it was
      attached to, but for the emptied slot it leaves behind. */
  lemma DetachAttached(v: Vfs, name: string, isDir: bool)
    requires Valid(v) && |name| <= MAX_NAME_LEN && Lookup(v, name) == None
    ensures Detach(Attach(v, name, isDir), |v.nodes|) == v.(nodes := v.nodes + [None])
  {
    var v1 := Attach(v, name, isDir);
    var h := |v.nodes|;
    AttachNodesShape(v, name, isDir);
    assert ChildrenOk(v.nodes, v.cwd);
    ChildrenDistinct(v, v.cwd);
    assert ParentOf(v1, h) == v.cwd;
    UnlinkAttached(v.nodes, v1.nodes, v.cwd, h, Node(name, isDir, Some(v.cwd), [], [], 0));
  }

  /** `rmdir` of a directory `mkdir` has just made restores the file system (the arena
      keeps the emptied slot). */
  lemma MakeThenRmdir(v: Vfs, name: string)
    requires Valid(v) && Make(v, name, true).1 == Made
    ensures RmdirCmd(Make(v, name, true).0, name) == (v.(nodes := v.nodes + [None]), DirRemoved)
  {
    DetachAttached(v, name, true);
  }

  /** `delete` of a file `create` has just made restores the file system (the arena keeps
      the emptied slot). */
  lemma CreateThenDelete(v: Vfs, name: string)
    requires Valid(v) && Make(v, name, false).1 == Made
    ensures DeleteCmd(Make(v, name, false).0, name) == (v.(nodes := v.nodes + [None]), Deleted)
  {
    var v1 := Attach(v, name, false);
    StripEmpty(v1, |v.nodes|);
    DetachAttached(v, name, false);
  }

  // ---------------------------------------------------------------------------
  // Names with a slash

  /** No node but the root carries a name containing '/'. */
  ghost predicate SlashFree(v: Vfs) {
    forall g :: Live(v.nodes, g) && g != v.root ==> '/' !in At(v.nodes, g).name
  }

  /** `mkdir` and `create` refuse names with '/', so they keep the names slash-free. */
  lemma MakeKeepsSlashFree(v: Vfs, name: string, isDir: bool)
    requires Valid(v) && SlashFree(v)
    ensures SlashFree(Make(v, name, isDir).0)
  {
    if Make(v, name, isDir).1 == Made {
      assert '/' !in name;
      var v' := Attach(v, name, isDir);
      forall g: Handle | Live(v'.nodes, g) && g != v'.root
        ensures '/' !in At(v'.nodes, g).name
      {
        if g == |v.nodes| {
          assert At(v'.nodes, g).name == name;
          assert '/' !in At(v'.nodes, g).name;
        } else if g == v.cwd {
          assert At(v'.nodes, g).name == At(v.nodes, g).name;
          assert '/' !in At(v.nodes, g).name;
        } else {
          assert v'.nodes[g] == v.nodes[g];
          assert Live(v.nodes, g);
          assert '/' !in At(v.nodes, g).name;
        }
      }
    }
  }

  /** The bare-name commands look a name up only among the current directory's children,
      so in a slash-free file system a path with '/' is never found, however it is spelt. */
  lemma SlashNameNotFound(v: Vfs, name: string)
    requires Valid(v) && SlashFree(v) && '/' in name
    ensures Lookup(v, name) == None
  {
  }
}
