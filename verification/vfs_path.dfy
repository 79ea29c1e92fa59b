/** Paths of the virtual file system: the absolute path `buildFullPath` prints
    for a node, and `changeDirPath`, the only command that resolves a path of
    several components (`cd a/../b`). Every other command looks a bare name up
    among the children of the current directory. */
module VfsPath {
  import opened CType
  import opened VfsState
  import opened Namespace

  /** Size of the shell's line buffer; `changeDirPath` copies at most one less character. */
  const MAX_CMD_LEN: nat := 2048
  /** Size of the buffer `buildFullPath` fills for the prompt, `pwd` and `cd`. */
  const PATH_BUF_LEN: nat := 1024

  /** The first n characters of s: what a bounded `strncpy`/`strncat` keeps. */
  function Prefix(s: string, n: nat): (r: string)
    ensures |r| <= n && |r| <= |s| && r == s[..|r|]
    ensures |s| <= n ==> r == s
  {
    if |s| <= n then s else s[..n]
  }

  // ---------------------------------------------------------------------------
  // buildFullPath

  /** The names on the way from the root (exclusive) down to h, outermost first:
      the stack `buildFullPath` fills while climbing the parent links, read from the top. */
  function Components(v: Vfs, h: Handle): (cs: seq<string>)
    requires TreeOk(v) && Live(v.nodes, h)
    ensures (cs == []) <==> (h == v.root)
    decreases h
  {
    if h == v.root then [] else Components(v, ParentOf(v, h)) + [At(v.nodes, h).name]
  }

  /** The components each preceded by a slash. */
  function Joined(cs: seq<string>): (s: string)
    ensures s == [] <==> cs == []
    ensures s != [] ==> s[0] == '/'
  {
    if cs == [] then "" else "/" + cs[0] + Joined(cs[1..])
  }

  /** `buildFullPath(node, out, PATH_BUF_LEN)`: "/" for the root; otherwise a slash and
      a name for each component, cut to the buffer. */
  function FullPath(v: Vfs, h: Handle): (p: string)
    requires TreeOk(v) && Live(v.nodes, h)
  {
    if h == v.root then "/"
    else
      var out := Prefix(Joined(Components(v, h)), PATH_BUF_LEN - 1);
      if |out| == 0 then "/" else out
  }

  /** A path always starts at the root and fits the buffer. */
  lemma FullPathShape(v: Vfs, h: Handle)
    requires TreeOk(v) && Live(v.nodes, h)
    ensures var p := FullPath(v, h);
      1 <= |p| < PATH_BUF_LEN && p[0] == '/'
  {
    if h != v.root {
      var j := Joined(Components(v, h));
      assert Prefix(j, PATH_BUF_LEN - 1)[0] == j[0];
    }
  }

  /** Names that `cd` can step into: non-empty, free of slashes, neither "." nor "..". */
  predicate Proper(name: string) {
    name != "" && '/' !in name && name != "." && name != ".."
  }

  /** Every component on the way down to h is a proper name. */
  ghost predicate ProperPath(v: Vfs, h: Handle)
    requires TreeOk(v) && Live(v.nodes, h)
  {
    forall i :: 0 <= i < |Components(v, h)| ==> Proper(Components(v, h)[i])
  }

  /** Appending a component appends a slash and the name. */
  lemma {:induction false} JoinedAppend(cs: seq<string>, c: string)
    ensures Joined(cs + [c]) == Joined(cs) + "/" + c
  {
    if cs != [] {
      assert (cs + [c])[1..] == cs[1..] + [c];
      JoinedAppend(cs[1..], c);
    }
  }

  /** The path of a node below the root is the path of its parent (nothing for the
      root), a slash and its name, as long as it fits the buffer. */
  lemma ChildPath(v: Vfs, h: Handle)
    requires TreeOk(v) && Live(v.nodes, h) && h != v.root
    requires |Joined(Components(v, h))| < PATH_BUF_LEN
    ensures var p := ParentOf(v, h);
      FullPath(v, h) == (if p == v.root then "" else FullPath(v, p)) + "/" + At(v.nodes, h).name
  {
    var p := ParentOf(v, h);
    JoinedAppend(Components(v, p), At(v.nodes, h).name);
  }

  // ---------------------------------------------------------------------------
  // changeDirPath

  /** Length of the run of non-slash characters at the front of s. */
  function Run(s: string): (k: nat)
    ensures k <= |s|
    ensures forall i :: 0 <= i < k ==> s[i] != '/'
    ensures k < |s| ==> s[k] == '/'
  {
    if s == [] || s[0] == '/' then 0 else 1 + Run(s[1..])
  }

  /** The tokens `strtok(copy, "/")` returns one after the other: the maximal runs of
      non-slash characters, in order. */
  function Tokens(s: string): (ts: seq<string>)
    ensures forall i :: 0 <= i < |ts| ==> ts[i] != "" && '/' !in ts[i]
    decreases |s|
  {
    if s == [] then []
    else if s[0] == '/' then Tokens(s[1..])
    else
      var k := Run(s);
      [s[..k]] + Tokens(s[k..])
  }

  /** The run at the front of a slash-free name followed by nothing or a slash is the name. */
  lemma {:induction false} RunOfName(c: string, rest: string)
    requires '/' !in c && (rest == [] || rest[0] == '/')
    ensures Run(c + rest) == |c|
  {
    if c == [] {
      assert c + rest == rest;
    } else {
      assert (c + rest)[1..] == c[1..] + rest;
      RunOfName(c[1..], rest);
    }
  }

  /** A slash-free name followed by nothing or a slash is one token, and what follows
      is split on its own. */
  lemma NameToken(c: string, rest: string)
    requires c != "" && '/' !in c && (rest == [] || rest[0] == '/')
    ensures Tokens(c + rest) == [c] + Tokens(rest)
  {
    RunOfName(c, rest);
    assert (c + rest)[..|c|] == c;
    assert (c + rest)[|c|..] == rest;
  }

  /** A leading slash is skipped. */
  lemma SlashToken(rest: string)
    ensures Tokens("/" + rest) == Tokens(rest)
  {
    assert ("/" + rest)[1..] == rest;
  }

  /** Splitting a joined list of slash-free, non-empty names at the slashes gives the list back. */
  lemma {:induction false} TokensOfJoined(cs: seq<string>)
    requires forall i :: 0 <= i < |cs| ==> cs[i] != "" && '/' !in cs[i]
    ensures Tokens(Joined(cs)) == cs
  {
    if cs != [] {
      var rest := Joined(cs[1..]);
      assert "/" + cs[0] + rest == "/" + (cs[0] + rest);
      SlashToken(cs[0] + rest);
      NameToken(cs[0], rest);
      TokensOfJoined(cs[1..]);
    }
  }

  /** Where the walk over the tokens ends: a directory, or the token that stopped it. */
  datatype Walked = Reached(dir: Handle) | Missing(token: string) | NotADir(token: string)

  /** The loop of `changeDirPath` from directory `cur` over the remaining tokens: "" and
      "." stay, ".." climbs unless at the root, any other token must name a child
      directory of `cur`. */
  function Walk(v: Vfs, cur: Handle, ts: seq<string>): (r: Walked)
    requires TreeOk(v) && LiveDir(v.nodes, cur)
    ensures r.Reached? ==> LiveDir(v.nodes, r.dir)
    decreases |ts|
  {
    if ts == [] then Reached(cur)
    else if ts[0] == "" || ts[0] == "." then Walk(v, cur, ts[1..])
    else if ts[0] == ".." then
      Walk(v, if At(v.nodes, cur).parent.Some? then ParentOf(v, cur) else cur, ts[1..])
    else
      assert ChildrenOk(v.nodes, cur);
      match FindChild(v.nodes, cur, ts[0])
      case None => Missing(ts[0])
      case Some(nx) => if !At(v.nodes, nx).isDir then NotADir(ts[0]) else Walk(v, nx, ts[1..])
  }

  /** The outcomes of `changeDirPath`: 0, or -1 with one of the three messages. */
  datatype CdStatus = Moved | CdUsage | CdNotFound(component: string) | CdNotADirectory(component: string)

  /** A valid file system stays valid when the current directory moves to a live directory. */
  lemma MoveKeepsValid(v: Vfs, d: Handle)
    requires Valid(v) && LiveDir(v.nodes, d)
    ensures Valid(v.(cwd := d))
  {
    var v' := v.(cwd := d);
    assert v'.nodes == v.nodes && v'.root == v.root;
  }

  /** `changeDirPath(path)`: the usage error for an empty path; otherwise the walk starts at
      the root for a path beginning with '/' and at the current directory otherwise, over
      the tokens of the first MAX_CMD_LEN - 1 characters, and the current directory moves
      only when the whole walk succeeds. */
  function ChangeDirPath(v: Vfs, path: string): (r: (Vfs, CdStatus))
    requires Valid(v)
    ensures Valid(r.0)
    ensures r.0 == v.(cwd := r.0.cwd)
    ensures r.1 != Moved ==> r.0 == v
    ensures r.1 == CdUsage <==> path == ""
  {
    if |path| == 0 then (v, CdUsage)
    else
      var start := if path[0] == '/' then v.root else v.cwd;
      match Walk(v, start, Tokens(Prefix(path, MAX_CMD_LEN - 1)))
      case Reached(d) => MoveKeepsValid(v, d); (v.(cwd := d), Moved)
      case Missing(t) => (v, CdNotFound(t))
      case NotADir(t) => (v, CdNotADirectory(t))
  }

  /** `cd .` stays where it is. */
  lemma CdDot(v: Vfs)
    requires Valid(v)
    ensures ChangeDirPath(v, ".") == (v, Moved)
  {
    assert Tokens(".") == ["."] by {
      NameToken(".", "");
      assert "." + "" == ".";
    }
    assert Prefix(".", MAX_CMD_LEN - 1) == ".";
    assert ["."][1..] == [];
    assert v.(cwd := v.cwd) == v;
  }

  /** `cd /` moves to the root. */
  lemma CdSlash(v: Vfs)
    requires Valid(v)
    ensures ChangeDirPath(v, "/") == (v.(cwd := v.root), Moved)
  {
    assert Tokens("/") == [] by {
      assert "/"[1..] == [];
    }
  }

  /** `cd ..` moves to the parent, and stays at the root. It never enters a child
      directory that happens to be named "..". */
  lemma CdDotDot(v: Vfs)
    requires Valid(v)
    ensures ChangeDirPath(v, "..").1 == Moved
    ensures ChangeDirPath(v, "..").0.cwd == if v.cwd == v.root then v.root else ParentOf(v, v.cwd)
  {
    assert Tokens("..") == [".."] by {
      NameToken("..", "");
      assert ".." + "" == "..";
    }
    assert Prefix("..", MAX_CMD_LEN - 1) == "..";
    assert [".."][1..] == [];
    assert v.cwd == v.root ==> At(v.nodes, v.cwd).parent == None;
    assert v.cwd != v.root ==> ParentOk(v.nodes, v.cwd);
  }

  /** With sibling names distinct, looking up a child's own name finds that child. */
  lemma FindNamedChild(v: Vfs, p: Handle, d: Handle)
    requires TreeOk(v) && LiveDir(v.nodes, p) && d in At(v.nodes, p).children
    ensures ChildrenOk(v.nodes, p) && Live(v.nodes, d)
    ensures FindChild(v.nodes, p, At(v.nodes, d).name) == Some(d)
  {
    var ch := At(v.nodes, p).children;
    assert ChildrenOk(v.nodes, p);
    assert NamesDistinct(v.nodes, ch);
    var kd :| 0 <= kd < |ch| && ch[kd] == d;
    var name := At(v.nodes, d).name;
    var r := FindChild(v.nodes, p, name);
    assert At(v.nodes, ch[kd]).name == name;
    assert r.Some?;
    var k :| 0 <= k < |ch| && ch[k] == r.value && At(v.nodes, r.value).name == name &&
      forall j :: 0 <= j < k ==> At(v.nodes, ch[j]).name != name;
    assert k == kd;
  }

  /** Walking over more tokens is walking over the first ones and then on from where they led. */
  lemma {:induction false} WalkAppend(v: Vfs, cur: Handle, ts: seq<string>, t: string)
    requires TreeOk(v) && LiveDir(v.nodes, cur) && Walk(v, cur, ts).Reached?
    ensures Walk(v, cur, ts + [t]) == Walk(v, Walk(v, cur, ts).dir, [t])
    decreases |ts|
  {
    if ts != [] {
      assert (ts + [t])[0] == ts[0];
      assert (ts + [t])[1..] == ts[1..] + [t];
      if ts[0] == "" || ts[0] == "." {
        WalkAppend(v, cur, ts[1..], t);
      } else if ts[0] == ".." {
        var next := if At(v.nodes, cur).parent.Some? then ParentOf(v, cur) else cur;
        WalkAppend(v, next, ts[1..], t);
      } else {
        assert ChildrenOk(v.nodes, cur);
        var nx := FindChild(v.nodes, cur, ts[0]).value;
        WalkAppend(v, nx, ts[1..], t);
      }
    }
  }

  /** Walking from the root over the components of a directory whose components are all
      proper reaches that directory. */
  lemma {:induction false} WalkComponents(v: Vfs, d: Handle)
    requires TreeOk(v) && LiveDir(v.nodes, d) && ProperPath(v, d)
    ensures LiveDir(v.nodes, v.root)
    ensures Walk(v, v.root, Components(v, d)) == Reached(d)
    decreases d
  {
    assert RootOk(v.nodes, v.root);
    if d != v.root {
      var p := ParentOf(v, d);
      var name := At(v.nodes, d).name;
      assert Components(v, d) == Components(v, p) + [name];
      assert ProperPath(v, p) by {
        forall i | 0 <= i < |Components(v, p)|
          ensures Proper(Components(v, p)[i])
        {
          assert Components(v, p)[i] == Components(v, d)[i];
        }
      }
      assert Proper(name) by {
        assert name == Components(v, d)[|Components(v, d)| - 1];
      }
      WalkComponents(v, p);
      WalkAppend(v, v.root, Components(v, p), name);
      FindNamedChild(v, p, d);
      assert [name][1..] == [];
    }
  }

  /** `cd` to the path `pwd` prints for a directory comes back to that directory, as
      long as the path fits the buffer and every name on it is proper. */
  lemma CdFullPath(v: Vfs, d: Handle)
    requires Valid(v) && LiveDir(v.nodes, d) && ProperPath(v, d)
    requires |Joined(Components(v, d))| < PATH_BUF_LEN
    ensures ChangeDirPath(v, FullPath(v, d)) == (v.(cwd := d), Moved)
  {
    WalkComponents(v, d);
    if d == v.root {
      assert Tokens("/") == [] by {
        assert "/"[1..] == [];
      }
    } else {
      var cs := Components(v, d);
      TokensOfJoined(cs);
      assert FullPath(v, d) == Joined(cs);
    }
  }

  /** `cd name/..` for a child directory with a proper name leaves the current directory
      where it was. */
  lemma CdIntoAndBack(v: Vfs, c: Handle)
    requires Valid(v) && c in At(v.nodes, v.cwd).children
    requires Live(v.nodes, c) && At(v.nodes, c).isDir && Proper(At(v.nodes, c).name)
    requires |At(v.nodes, c).name| <= MAX_NAME_LEN
    ensures ChangeDirPath(v, At(v.nodes, c).name + "/..") == (v, Moved)
  {
    var name := At(v.nodes, c).name;
    var path := name + "/..";
    assert Tokens(path) == [name, ".."] by {
      NameToken(name, "/..");
      assert "/.." == "/" + "..";
      SlashToken("..");
      NameToken("..", "");
      assert ".." + "" == "..";
    }
    assert Prefix(path, MAX_CMD_LEN - 1) == path;
    assert path[0] == name[0] && name[0] != '/';
    FindNamedChild(v, v.cwd, c);
    assert ChildrenOk(v.nodes, v.cwd);
    assert c != v.root && ParentOf(v, c) == v.cwd by {
      assert RootOk(v.nodes, v.root);
    }
    assert Walk(v, c, [".."]) == Reached(v.cwd) by {
      assert [".."][1..] == [];
    }
    assert Walk(v, v.cwd, [name, ".."]) == Reached(v.cwd) by {
      assert [name, ".."][1..] == [".."];
    }
    assert v.(cwd := v.cwd) == v;
  }
}
