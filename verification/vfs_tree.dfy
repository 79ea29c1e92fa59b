/** The namespace tree of the virtual file system: node creation and the
    circular sibling list of a directory (`createFileNode`, `addChild`,
    `removeChild`, `findChild`). */
module Namespace {
  import opened CType
  import opened VfsState

  /** The arena slots other than `a` and `b` are the same in both arenas. */
  ghost predicate SameExcept(nodes: seq<Option<Node>>, nodes': seq<Option<Node>>, a: Handle, b: Handle) {
    |nodes'| == |nodes| && forall h :: 0 <= h < |nodes| && h != a && h != b ==> nodes'[h] == nodes[h]
  }


  /** `createFileNode(name, isDir, parent)`: NULL for a name longer than MAX_NAME_LEN,
      otherwise a node without children, blocks or content. */
  function CreateFileNode(name: string, isDir: bool, parent: Option<Handle>): (r: Option<Node>)
    ensures r.None? <==> |name| > MAX_NAME_LEN
    ensures r.Some? ==> r.value.name == name && r.value.isDir == isDir && r.value.parent == parent
    ensures r.Some? ==> NodeShaped(r.value) && r.value.children == [] && r.value.contentSize == 0
  {
    if |name| > MAX_NAME_LEN then None
    else Some(Node(name, isDir, parent, [], [], 0))
  }

  // ---------------------------------------------------------------------------
  // The circular doubly linked sibling list

  /** `next` of the sibling at position k of a ring read from its anchor. */
  function Next(ring: seq<Handle>, k: nat): Handle
    requires k < |ring|
  {
    if k + 1 < |ring| then ring[k + 1] else ring[0]
  }

  /** `prev` of the sibling at position k. */
  function Prev(ring: seq<Handle>, k: nat): Handle
    requires k < |ring|
  {
    if k > 0 then ring[k - 1] else ring[|ring| - 1]
  }

  /** `addChild` links the child after the last sibling and before the anchor
      (`last->next = child; child->prev = last; child->next = first; first->prev = child`,
      or `child->next = child->prev = child` in an empty list); read from the
      anchor the new ring is the old one with the child at the end, and every
      other link is unchanged. */
  lemma AppendLinks(ring: seq<Handle>, child: Handle)
    ensures var r := ring + [child];
      && r[0] == (if ring == [] then child else ring[0])
      && Next(r, |ring|) == r[0] && Prev(r, 0) == child
      && (ring != [] ==> Next(r, |ring| - 1) == child && Prev(r, |ring|) == ring[|ring| - 1])
      && (forall k :: 0 <= k < |ring| - 1 ==> Next(r, k) == Next(ring, k))
      && (forall k :: 0 < k < |ring| ==> Prev(r, k) == Prev(ring, k))
  {
  }

  /** `removeChild` unlinks the node at position k (`prev->next = next; next->prev = prev`)
      and moves the anchor to the next sibling when the node was the anchor; read from
      the new anchor the ring is the old one without the node, and the sibling that
      followed (preceded) it now follows (precedes) the node's predecessor (successor). */
  lemma UnlinkLinks(ring: seq<Handle>, k: nat)
    requires k < |ring| && |ring| >= 2
    ensures var r := ring[..k] + ring[k + 1..];
      && r[0] == (if k == 0 then Next(ring, 0) else ring[0])
      && (k > 0 ==> Next(r, k - 1) == Next(ring, k))
      && (k == 0 ==> Next(r, |r| - 1) == Next(ring, k))
      && (k < |r| ==> Prev(r, k) == Prev(ring, k))
      && (k == |r| ==> Prev(r, 0) == Prev(ring, k))
  {
    var r := ring[..k] + ring[k + 1..];
    assert |r| == |ring| - 1;
    if k < |r| {
      assert r[k] == ring[k + 1];
    }
  }

  // ---------------------------------------------------------------------------
  // addChild, removeChild, findChild

  /** `addChild(parent, child)`: refused (-1, nothing changes) unless the parent is a
      directory; otherwise the child joins the end of the parent's sibling ring and
      records the parent. The boolean is `true` for the source's 0. */
  function AddChild(nodes: seq<Option<Node>>, parent: Handle, child: Handle): (r: (seq<Option<Node>>, bool))
    requires Live(nodes, child) && child != parent
    ensures !LiveDir(nodes, parent) ==> r == (nodes, false)
    ensures LiveDir(nodes, parent) ==>
      && r.1 && SameExcept(nodes, r.0, parent, child)
      && LiveDir(r.0, parent) && Live(r.0, child)
      && At(r.0, parent) == At(nodes, parent).(children := At(nodes, parent).children + [child])
      && At(r.0, child) == At(nodes, child).(parent := Some(parent))
  {
    if !LiveDir(nodes, parent) then (nodes, false)
    else
      var p := At(nodes, parent);
      var c := At(nodes, child);
      var nodes1 := nodes[parent := Some(p.(children := p.children + [child]))];
      (nodes1[child := Some(c.(parent := Some(parent)))], true)
  }

  /** Position of the first occurrence of `x` in the ring. */
  function IndexOf(ring: seq<Handle>, x: Handle): (k: nat)
    requires x in ring
    ensures k < |ring| && ring[k] == x
    ensures forall j :: 0 <= j < k ==> ring[j] != x
  {
    if ring[0] == x then 0 else 1 + IndexOf(ring[1..], x)
  }

  /** Removing the entry at position k of a ring without repeats: the entries before it
      stay put, those after it move up by one, and exactly the other entries remain. */
  lemma DropAt(ch: seq<Handle>, k: nat)
    requires k < |ch| && Distinct(ch)
    ensures var r := ch[..k] + ch[k + 1..];
      && |r| == |ch| - 1
      && (forall i :: 0 <= i < k ==> r[i] == ch[i])
      && (forall i :: k <= i < |r| ==> r[i] == ch[i + 1])
      && (forall x :: x in r <==> x in ch && x != ch[k])
  {
    var r := ch[..k] + ch[k + 1..];
    forall x | x in ch && x != ch[k]
      ensures x in r
    {
      var i :| 0 <= i < |ch| && ch[i] == x;
      if i < k {
        assert r[i] == x;
      } else {
        assert r[i - 1] == x;
      }
    }
  }

  /** `removeChild(parent, node)`: refused (-1, nothing changes) unless the parent is a
      directory with at least one child; otherwise the node leaves the ring (the only child
      leaves it empty, an anchor hands its role to its successor, everyone else keeps their
      relative order) and loses its parent. */
  function RemoveChild(nodes: seq<Option<Node>>, parent: Handle, node: Handle): (r: (seq<Option<Node>>, bool))
    requires Live(nodes, node) && node != parent
    requires LiveDir(nodes, parent) && At(nodes, parent).children != [] ==>
      node in At(nodes, parent).children && Distinct(At(nodes, parent).children)
    ensures !LiveDir(nodes, parent) || At(nodes, parent).children == [] ==> r == (nodes, false)
    ensures LiveDir(nodes, parent) && At(nodes, parent).children != [] ==>
      var ch := At(nodes, parent).children;
      && r.1 && SameExcept(nodes, r.0, parent, node)
      && LiveDir(r.0, parent) && Live(r.0, node)
      && At(r.0, parent) == At(nodes, parent).(children := At(r.0, parent).children)
      && At(r.0, node) == At(nodes, node).(parent := None)
      && (exists k :: 0 <= k < |ch| && ch[k] == node && At(r.0, parent).children == ch[..k] + ch[k + 1..])
      && node !in At(r.0, parent).children
      && (ch == [node] ==> At(r.0, parent).children == [])
      && (|ch| > 1 && ch[0] == node ==> At(r.0, parent).children == ch[1..])
  {
    if !LiveDir(nodes, parent) || At(nodes, parent).children == [] then (nodes, false)
    else
      var p := At(nodes, parent);
      var n := At(nodes, node);
      var k := IndexOf(p.children, node);
      DropAt(p.children, k);
      var nodes1 := nodes[parent := Some(p.(children := p.children[..k] + p.children[k + 1..]))];
      (nodes1[node := Some(n.(parent := None))], true)
  }

  /** `findChild(parent, name)`: one pass round the ring from the anchor; the first sibling
      whose name equals `name` exactly, or NULL when there is none or `parent` is not a
      directory. */
  function FindChild(nodes: seq<Option<Node>>, parent: Handle, name: string): (r: Option<Handle>)
    requires LiveDir(nodes, parent) ==>
      forall k :: 0 <= k < |At(nodes, parent).children| ==> Live(nodes, At(nodes, parent).children[k])
    ensures !LiveDir(nodes, parent) ==> r == None
    ensures r.Some? ==> LiveDir(nodes, parent) && Live(nodes, r.value)
    ensures r.Some? ==> exists k :: (0 <= k < |At(nodes, parent).children| &&
      At(nodes, parent).children[k] == r.value && At(nodes, r.value).name == name &&
      forall j :: 0 <= j < k ==> At(nodes, At(nodes, parent).children[j]).name != name)
    ensures r.None? && LiveDir(nodes, parent) ==>
      forall k :: 0 <= k < |At(nodes, parent).children| ==> At(nodes, At(nodes, parent).children[k]).name != name
  {
    if !LiveDir(nodes, parent) then None
    else FindFrom(nodes, At(nodes, parent).children, name, 0)
  }

  /** The scan of `findChild` from position i of the ring onwards. */
  function FindFrom(nodes: seq<Option<Node>>, ring: seq<Handle>, name: string, i: nat): (r: Option<Handle>)
    requires i <= |ring|
    requires forall k :: 0 <= k < |ring| ==> Live(nodes, ring[k])
    ensures r.Some? ==> exists k :: (i <= k < |ring| && ring[k] == r.value && At(nodes, r.value).name == name &&
      forall j :: i <= j < k ==> At(nodes, ring[j]).name != name)
    ensures r.None? ==> forall k :: i <= k < |ring| ==> At(nodes, ring[k]).name != name
    decreases |ring| - i
  {
    if i == |ring| then None
    else if At(nodes, ring[i]).name == name then Some(ring[i])
    else FindFrom(nodes, ring, name, i + 1)
  }

  /** Detaching a freshly attached child gives the parent its old ring back. */
  lemma AddThenRemove(nodes: seq<Option<Node>>, parent: Handle, child: Handle)
    requires Live(nodes, child) && child != parent && LiveDir(nodes, parent)
    requires child !in At(nodes, parent).children && Distinct(At(nodes, parent).children)
    ensures var added := AddChild(nodes, parent, child).0;
      RemoveChild(added, parent, child).1 &&
      At(RemoveChild(added, parent, child).0, parent) == At(nodes, parent)
  {
    var added := AddChild(nodes, parent, child).0;
    var ch := At(nodes, parent).children;
    assert Distinct(ch + [child]);
    assert IndexOf(ch + [child], child) == |ch|;
  }

  /** With sibling names distinct, a freshly attached child is what `findChild` finds
      under its name. */
  lemma AddThenFind(nodes: seq<Option<Node>>, parent: Handle, child: Handle)
    requires Live(nodes, child) && child != parent && LiveDir(nodes, parent)
    requires forall k :: 0 <= k < |At(nodes, parent).children| ==> Live(nodes, At(nodes, parent).children[k])
    requires FindChild(nodes, parent, At(nodes, child).name) == None
    ensures var added := AddChild(nodes, parent, child).0;
      FindChild(added, parent, At(nodes, child).name) == Some(child)
  {
    var added := AddChild(nodes, parent, child).0;
    var ch := At(nodes, parent).children;
    var name := At(nodes, child).name;
    var ch' := At(added, parent).children;
    assert ch' == ch + [child];
    forall k | 0 <= k < |ch|
      ensures Live(added, ch'[k]) && At(added, ch'[k]).name != name
    {
      assert ch'[k] == ch[k];
      assert At(nodes, ch[k]).name != name;
    }
    assert Live(added, ch'[|ch|]) && At(added, ch'[|ch|]).name == name;
  }
}
