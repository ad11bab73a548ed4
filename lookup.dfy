/** The side-effect-free walks over the inode tree: find_inode, find_parent_inode, the
    descent that starts create_directory_hierarchy_for_file, and inode_abspath. Each takes
    the link maps as values. The pointer walks are tied to reference definitions that pick
    children out of the ghost children sequences by whole path components. */
module Lookup {
  import opened Paths
  import opened Posix
  import opened Tree

  /** What the walks need of the tree: every chain is its children sequence, every child
      is itself a node, and names hold no '/'. */
  ghost predicate Walkable(child: map<Handle, Handle>, sibling: map<Handle, Handle>, name: map<Handle, string>,
                           kids: map<Handle, seq<Handle>>)
  {
    && Chained(child, sibling, kids)
    && kids.Keys == name.Keys && Null !in kids
    && (forall n, c :: n in kids && c in kids[n] ==> c in kids)
    && PlainNames(name)
  }

  lemma TreeWalkable(parent: map<Handle, Handle>, child: map<Handle, Handle>, sibling: map<Handle, Handle>,
                     name: map<Handle, string>, kids: map<Handle, seq<Handle>>, next: Handle)
    requires TreeOk(parent, child, sibling, name, kids, next)
    ensures Walkable(child, sibling, name, kids)
  {
  }

  /** The first handle of `s` named `c`, or null. */
  ghost function FirstNamed(name: map<Handle, string>, s: seq<Handle>, c: string): (m: Handle)
    requires forall x :: x in s ==> x in name
    ensures m != Null ==> m in s && m in name && name[m] == c
  {
    if s == [] then Null
    else if s[0] in name && name[s[0]] == c then s[0]
    else FirstNamed(name, s[1..], c)
  }

  /** The while loop of find_inode from `node` on: a child whose name path_cmp accepts
      either ends the path or is descended into; otherwise the walk moves to the sibling. */
  function Scan(child: map<Handle, Handle>, sibling: map<Handle, Handle>, name: map<Handle, string>,
                ghost kids: map<Handle, seq<Handle>>, node: Handle, path: string, ghost chain: seq<Handle>): (r: Handle)
    requires Walkable(child, sibling, name, kids)
    requires ChainIs(sibling, node, chain) && forall x :: x in chain ==> x in kids
    ensures r == Null || r in kids
    decreases |path|, |chain|
  {
    if node == Null then Null
    else
      ChainTail(sibling, node, chain);
      match PathCmp(path, name[node])
      case Some(p) =>
        if p == [] || p == "/" then node
        else Scan(child, sibling, name, kids, child[node], p, kids[node])
      case None => Scan(child, sibling, name, kids, sibling[node], path, chain[1..])
  }

  /** find_inode(root, path): "" and "/" give `root` itself; otherwise the walk starts at
      the root's first child. */
  function FindInode(child: map<Handle, Handle>, sibling: map<Handle, Handle>, name: map<Handle, string>,
                     ghost kids: map<Handle, seq<Handle>>, root: Handle, path: string): (r: Handle)
    requires Walkable(child, sibling, name, kids) && (root == Null || root in kids)
    ensures root == Null ==> r == Null
    ensures root != Null && (path == [] || path == "/") ==> r == root
    ensures r == Null || r in kids
  {
    if root == Null then Null
    else if path == [] || path == "/" then root
    else Scan(child, sibling, name, kids, child[root], path, kids[root])
  }

  /** Reference resolution: take the first child of `n` named like the first component of
      `path`, and continue with the rest of the path unless only "" or "/" is left. */
  ghost function Resolve(name: map<Handle, string>, kids: map<Handle, seq<Handle>>, n: Handle, path: string): Handle
    requires kids.Keys <= name.Keys && n in kids
    requires forall m, c :: m in kids && c in kids[m] ==> c in kids
    decreases |path|
  {
    var m := FirstNamed(name, kids[n], FirstComponent(path));
    if m == Null then Null
    else
      var p := AfterFirstComponent(path);
      if p == [] || p == "/" then m else Resolve(name, kids, m, p)
  }

  /** One step of the pointer walk is the first child of the chain whose name is the first
      component: path_cmp accepts exactly the names equal to it. */
  lemma {:induction false} ScanFirst(child: map<Handle, Handle>, sibling: map<Handle, Handle>, name: map<Handle, string>,
                                      kids: map<Handle, seq<Handle>>, node: Handle, path: string, chain: seq<Handle>)
    requires Walkable(child, sibling, name, kids)
    requires ChainIs(sibling, node, chain) && forall x :: x in chain ==> x in kids
    ensures var m := FirstNamed(name, chain, FirstComponent(path));
      Scan(child, sibling, name, kids, node, path, chain) ==
        if m == Null then Null
        else
          var p := AfterFirstComponent(path);
          if p == [] || p == "/" then m else Scan(child, sibling, name, kids, child[m], p, kids[m])
    decreases |chain|
  {
    if node != Null {
      ChainTail(sibling, node, chain);
      if PathCmp(path, name[node]).None? {
        ScanFirst(child, sibling, name, kids, sibling[node], path, chain[1..]);
      }
    }
  }

  /** The pointer walk of find_inode computes the reference resolution. */
  lemma {:induction false} FindInodeResolves(child: map<Handle, Handle>, sibling: map<Handle, Handle>, name: map<Handle, string>,
                                              kids: map<Handle, seq<Handle>>, root: Handle, path: string)
    requires Walkable(child, sibling, name, kids) && root in kids
    requires path != [] && path != "/"
    ensures FindInode(child, sibling, name, kids, root, path) == Resolve(name, kids, root, path)
    decreases |path|
  {
    ScanFirst(child, sibling, name, kids, child[root], path, kids[root]);
    var m := FirstNamed(name, kids[root], FirstComponent(path));
    if m != Null {
      var p := AfterFirstComponent(path);
      if p != [] && p != "/" {
        FindInodeResolves(child, sibling, name, kids, m, p);
      }
    }
  }

  /** A trailing '/' after the last component does not change what a path resolves to. */
  lemma {:induction false} ResolveTrailingSlash(name: map<Handle, string>, kids: map<Handle, seq<Handle>>, n: Handle, p: string)
    requires kids.Keys <= name.Keys && n in kids
    requires forall m, c :: m in kids && c in kids[m] ==> c in kids
    requires NoTrailingSlash(p)
    ensures Resolve(name, kids, n, p + "/") == Resolve(name, kids, n, p)
    decreases |p|
  {
    SplitWithTrailingSlash(p);
    var m := FirstNamed(name, kids[n], FirstComponent(p));
    if m != Null && |FirstComponent(p)| < |p| {
      var q := AfterFirstComponent(p);
      assert |q + "/"| >= 2;
      ResolveTrailingSlash(name, kids, m, q);
    }
  }

  /** find_inode resolves "a/b/" to the same node as "a/b". */
  lemma FindInodeTrailingSlash(child: map<Handle, Handle>, sibling: map<Handle, Handle>, name: map<Handle, string>,
                               kids: map<Handle, seq<Handle>>, root: Handle, p: string)
    requires Walkable(child, sibling, name, kids) && root in kids && NoTrailingSlash(p)
    ensures FindInode(child, sibling, name, kids, root, p + "/") == FindInode(child, sibling, name, kids, root, p)
  {
    assert |p + "/"| >= 2 && p != "/";
    FindInodeResolves(child, sibling, name, kids, root, p);
    FindInodeResolves(child, sibling, name, kids, root, p + "/");
    ResolveTrailingSlash(name, kids, root, p);
  }

  /** When no child of `root` carries the first component's name, find_inode fails. */
  lemma FindInodeMissing(child: map<Handle, Handle>, sibling: map<Handle, Handle>, name: map<Handle, string>,
                         kids: map<Handle, seq<Handle>>, root: Handle, path: string)
    requires Walkable(child, sibling, name, kids) && root in kids && path != [] && path != "/"
    requires forall x :: x in kids[root] ==> name[x] != FirstComponent(path)
    ensures FindInode(child, sibling, name, kids, root, path) == Null
  {
    FindInodeResolves(child, sibling, name, kids, root, path);
    FirstNamedAbsent(name, kids[root], FirstComponent(path));
  }

  lemma {:induction false} FirstNamedAbsent(name: map<Handle, string>, s: seq<Handle>, c: string)
    requires forall x :: x in s ==> x in name && name[x] != c
    ensures FirstNamed(name, s, c) == Null
  {
    if s != [] {
      FirstNamedAbsent(name, s[1..], c);
    }
  }

  /** Where the first loop of create_directory_hierarchy_for_file stops: at an existing
      node the whole path names, or at the deepest matched directory with the part of the
      path still to create. */
  datatype Descent = Found(node: Handle) | Stopped(dir: Handle, rest: string)

  function Descend(child: map<Handle, Handle>, sibling: map<Handle, Handle>, name: map<Handle, string>,
                   ghost kids: map<Handle, seq<Handle>>, node: Handle, path: string, dir: Handle, ghost chain: seq<Handle>): (d: Descent)
    requires Walkable(child, sibling, name, kids) && dir in kids
    requires ChainIs(sibling, node, chain) && forall x :: x in chain ==> x in kids
    ensures d.Found? ==> d.node in kids
    ensures d.Stopped? ==> d.dir in kids
    decreases |path|, |chain|
  {
    if node == Null then Stopped(dir, path)
    else
      ChainTail(sibling, node, chain);
      match PathCmp(path, name[node])
      case Some(p) =>
        if p == [] || p == "/" then Found(node)
        else Descend(child, sibling, name, kids, child[node], p, node, kids[node])
      case None => Descend(child, sibling, name, kids, sibling[node], path, dir, chain[1..])
  }

  /** The descent finds exactly what find_inode's walk finds, and stops exactly where
      that walk fails. */
  lemma {:induction false} DescendFinds(child: map<Handle, Handle>, sibling: map<Handle, Handle>, name: map<Handle, string>,
                                         kids: map<Handle, seq<Handle>>, node: Handle, path: string, dir: Handle, chain: seq<Handle>)
    requires Walkable(child, sibling, name, kids) && dir in kids
    requires ChainIs(sibling, node, chain) && forall x :: x in chain ==> x in kids
    ensures var d := Descend(child, sibling, name, kids, node, path, dir, chain);
      && (d.Found? <==> Scan(child, sibling, name, kids, node, path, chain) != Null)
      && (d.Found? ==> d.node == Scan(child, sibling, name, kids, node, path, chain))
    decreases |path|, |chain|
  {
    if node != Null {
      ChainTail(sibling, node, chain);
      match PathCmp(path, name[node])
      case Some(p) =>
        if p != [] && p != "/" {
          DescendFinds(child, sibling, name, kids, child[node], p, node, kids[node]);
        }
      case None =>
        DescendFinds(child, sibling, name, kids, sibling[node], path, dir, chain[1..]);
    }
  }

  /** A single component that no node of the chain matches: the descent stops in `dir`
      with the whole component left over. */
  lemma {:induction false} DescendAbsent(child: map<Handle, Handle>, sibling: map<Handle, Handle>, name: map<Handle, string>,
                                          kids: map<Handle, seq<Handle>>, node: Handle, c: string, dir: Handle, chain: seq<Handle>)
    requires Walkable(child, sibling, name, kids) && dir in kids
    requires ChainIs(sibling, node, chain) && forall x :: x in chain ==> x in kids
    requires '/' !in c && c != [] && Scan(child, sibling, name, kids, node, c, chain) == Null
    ensures Descend(child, sibling, name, kids, node, c, dir, chain) == Stopped(dir, c)
    decreases |chain|
  {
    if node != Null {
      ChainTail(sibling, node, chain);
      FirstComponentIsPrefix(c, c);
      assert PathCmp(c, name[node]).None?;
      DescendAbsent(child, sibling, name, kids, sibling[node], c, dir, chain[1..]);
    }
  }

  /** The name and children maps close over the children and leave out null: the shape
      reference lookups need. */
  ghost predicate NamedTree(name: map<Handle, string>, kids: map<Handle, seq<Handle>>)
  {
    kids.Keys <= name.Keys && Null !in kids && forall m, c :: m in kids && c in kids[m] ==> c in kids
  }

  /** Reference lookup by components: from `n`, the first child named by each component
      in turn; null as soon as one is missing. */
  ghost function Follow(name: map<Handle, string>, kids: map<Handle, seq<Handle>>, n: Handle, cs: seq<string>): (r: Handle)
    requires NamedTree(name, kids) && n in kids
    ensures r == Null || r in kids
    decreases |cs|
  {
    if cs == [] then n
    else
      var m := FirstNamed(name, kids[n], cs[0]);
      if m == Null then Null else Follow(name, kids, m, cs[1..])
  }

  /** A single component reaches the first child of that name. */
  lemma FollowOne(name: map<Handle, string>, kids: map<Handle, seq<Handle>>, n: Handle, c: string)
    requires NamedTree(name, kids) && n in kids
    ensures Follow(name, kids, n, [c]) == FirstNamed(name, kids[n], c)
  {
    assert [c][1..] == [];
  }

  /** Following `qs` then `rs` is following `rs` from wherever `qs` leads. */
  lemma {:induction false} FollowAppend(name: map<Handle, string>, kids: map<Handle, seq<Handle>>, n: Handle,
                                         qs: seq<string>, rs: seq<string>)
    requires NamedTree(name, kids) && n in kids
    ensures var m := Follow(name, kids, n, qs);
      Follow(name, kids, n, qs + rs) == if m == Null then Null else Follow(name, kids, m, rs)
    decreases |qs|
  {
    if qs == [] {
      assert qs + rs == rs;
    } else {
      assert (qs + rs)[0] == qs[0] && (qs + rs)[1..] == qs[1..] + rs;
      var m := FirstNamed(name, kids[n], qs[0]);
      if m != Null {
        FollowAppend(name, kids, m, qs[1..], rs);
      }
    }
  }

  /** FirstNamed reads only the names of the handles it scans. */
  lemma {:induction false} FirstNamedFrame(name: map<Handle, string>, name': map<Handle, string>, s: seq<Handle>, c: string)
    requires forall x :: x in s ==> x in name && x in name' && name'[x] == name[x]
    ensures FirstNamed(name', s, c) == FirstNamed(name, s, c)
  {
    if s != [] {
      FirstNamedFrame(name, name', s[1..], c);
    }
  }

  /** Putting a new leaf `m` named `c` in front of the children of `p`, which has no
      child named `c`, keeps every lookup that succeeded before. */
  lemma {:induction false} FollowGrow(name: map<Handle, string>, kids: map<Handle, seq<Handle>>,
                                       name': map<Handle, string>, kids': map<Handle, seq<Handle>>,
                                       p: Handle, m: Handle, c: string, n: Handle, cs: seq<string>)
    requires NamedTree(name, kids) && NamedTree(name', kids')
    requires p in kids && m !in kids && n in kids
    requires name' == name[m := c] && kids' == kids[m := []][p := [m] + kids[p]]
    requires FirstNamed(name, kids[p], c) == Null
    requires Follow(name, kids, n, cs) != Null
    ensures Follow(name', kids', n, cs) == Follow(name, kids, n, cs)
    decreases |cs|
  {
    if cs != [] {
      FirstNamedFrame(name, name', kids[n], cs[0]);
      var r := FirstNamed(name, kids[n], cs[0]);
      if n == p {
        assert cs[0] != c;
        assert FirstNamed(name', kids'[n], cs[0]) == r;
      } else {
        assert kids'[n] == kids[n];
      }
      FollowGrow(name, kids, name', kids', p, m, c, r, cs[1..]);
    }
  }

  /** The name-based resolution of a joined path follows its components. */
  lemma {:induction false} ResolveFollows(name: map<Handle, string>, kids: map<Handle, seq<Handle>>, n: Handle, cs: seq<string>)
    requires NamedTree(name, kids) && n in kids && PlainComponents(cs) && cs != []
    ensures Resolve(name, kids, n, JoinPath(cs)) == Follow(name, kids, n, cs)
    decreases |cs|
  {
    JoinFirst(cs);
    var m := FirstNamed(name, kids[n], cs[0]);
    if m != Null && |cs| > 1 {
      assert PlainComponents(cs[1..]);
      JoinFirst(cs[1..]);
      ResolveFollows(name, kids, m, cs[1..]);
    }
  }

  /** find_inode of a joined path follows its components; no components give the root. */
  lemma FindInodeFollows(child: map<Handle, Handle>, sibling: map<Handle, Handle>, name: map<Handle, string>,
                         kids: map<Handle, seq<Handle>>, root: Handle, cs: seq<string>)
    requires Walkable(child, sibling, name, kids) && root in kids && PlainComponents(cs)
    ensures FindInode(child, sibling, name, kids, root, JoinPath(cs)) == Follow(name, kids, root, cs)
  {
    if cs != [] {
      JoinFirst(cs);
      FindInodeResolves(child, sibling, name, kids, root, JoinPath(cs));
      ResolveFollows(name, kids, root, cs);
    }
  }

  /** One level of the descent: the first child of the chain named like the first
      component ends it or is descended into; without one, the descent stops in `dir`. */
  lemma {:induction false} DescendFirst(child: map<Handle, Handle>, sibling: map<Handle, Handle>, name: map<Handle, string>,
                                         kids: map<Handle, seq<Handle>>, node: Handle, path: string, dir: Handle, chain: seq<Handle>)
    requires Walkable(child, sibling, name, kids) && dir in kids
    requires ChainIs(sibling, node, chain) && forall x :: x in chain ==> x in kids
    ensures var m := FirstNamed(name, chain, FirstComponent(path));
      Descend(child, sibling, name, kids, node, path, dir, chain) ==
        if m == Null then Stopped(dir, path)
        else
          var p := AfterFirstComponent(path);
          if p == [] || p == "/" then Found(m) else Descend(child, sibling, name, kids, child[m], p, m, kids[m])
    decreases |chain|
  {
    if node != Null {
      ChainTail(sibling, node, chain);
      if PathCmp(path, name[node]).None? {
        DescendFirst(child, sibling, name, kids, sibling[node], path, dir, chain[1..]);
      }
    }
  }

  /** Taking one more component than a slice of the tail takes. */
  lemma SliceAfterFirst(cs: seq<string>, k: nat)
    requires k < |cs| - 1
    ensures cs[..k + 1][0] == cs[0] && cs[..k + 1][1..] == cs[1..][..k]
    ensures cs[k + 1..] == cs[1..][k..] && cs[k + 1] == cs[1..][k]
  {
  }

  /** The descent through a joined path that does not resolve stops after its longest
      prefix that does, at the inode that prefix names, which has no child named by the
      next component; what is left is the join of the remaining components. */
  lemma {:induction false} DescendJoin(child: map<Handle, Handle>, sibling: map<Handle, Handle>, name: map<Handle, string>,
                                        kids: map<Handle, seq<Handle>>, n: Handle, cs: seq<string>) returns (j: nat)
    requires Walkable(child, sibling, name, kids) && n in kids && PlainComponents(cs) && cs != []
    requires Follow(name, kids, n, cs) == Null
    ensures j < |cs| && Follow(name, kids, n, cs[..j]) != Null
    ensures Follow(name, kids, Follow(name, kids, n, cs[..j]), [cs[j]]) == Null
    ensures Descend(child, sibling, name, kids, child[n], JoinPath(cs), n, kids[n])
      == Stopped(Follow(name, kids, n, cs[..j]), JoinPath(cs[j..]))
    decreases |cs|
  {
    JoinFirst(cs);
    DescendFirst(child, sibling, name, kids, child[n], JoinPath(cs), n, kids[n]);
    var m := FirstNamed(name, kids[n], cs[0]);
    if m == Null {
      j := 0;
      assert cs[..0] == [] && cs[0..] == cs;
    } else {
      assert |cs| > 1;
      assert PlainComponents(cs[1..]);
      JoinFirst(cs[1..]);
      var k := DescendJoin(child, sibling, name, kids, m, cs[1..]);
      j := k + 1;
      SliceAfterFirst(cs, k);
    }
  }

  /** The while loop of find_parent_inode: `bl` is the length of the basename, so a match
      that leaves no more than the basename returns the matched node, and running off the
      end of a chain returns the directory the search started in. */
  function ParentScan(child: map<Handle, Handle>, sibling: map<Handle, Handle>, name: map<Handle, string>,
                      ghost kids: map<Handle, seq<Handle>>, node: Handle, path: string, bl: nat, root: Handle,
                      ghost chain: seq<Handle>): (r: Handle)
    requires Walkable(child, sibling, name, kids) && root in kids
    requires ChainIs(sibling, node, chain) && forall x :: x in chain ==> x in kids
    ensures r != Null && r in kids
    decreases |path|, |chain|
  {
    if node == Null then root
    else
      ChainTail(sibling, node, chain);
      match PathCmp(path, name[node])
      case Some(p) =>
        if |p| <= bl then node
        else ParentScan(child, sibling, name, kids, child[node], p, bl, root, kids[node])
      case None => ParentScan(child, sibling, name, kids, sibling[node], path, bl, root, chain[1..])
  }

  /** find_parent_inode(root, path). It never yields null for a real root. */
  function FindParentInode(child: map<Handle, Handle>, sibling: map<Handle, Handle>, name: map<Handle, string>,
                           ghost kids: map<Handle, seq<Handle>>, root: Handle, path: string): (r: Handle)
    requires Walkable(child, sibling, name, kids) && (root == Null || root in kids)
    ensures r == Null <==> root == Null
    ensures r == Null || r in kids
  {
    if root == Null then Null
    else ParentScan(child, sibling, name, kids, child[root], path, |BasenamePart(path)|, root, kids[root])
  }

  /** One step of find_parent_inode's walk, by first matching child. */
  lemma {:induction false} ParentScanFirst(child: map<Handle, Handle>, sibling: map<Handle, Handle>, name: map<Handle, string>,
                                            kids: map<Handle, seq<Handle>>, node: Handle, path: string, bl: nat, root: Handle,
                                            chain: seq<Handle>)
    requires Walkable(child, sibling, name, kids) && root in kids
    requires ChainIs(sibling, node, chain) && forall x :: x in chain ==> x in kids
    ensures var m := FirstNamed(name, chain, FirstComponent(path));
      ParentScan(child, sibling, name, kids, node, path, bl, root, chain) ==
        if m == Null then root
        else
          var p := AfterFirstComponent(path);
          if |p| <= bl then m else ParentScan(child, sibling, name, kids, child[m], p, bl, root, kids[m])
    decreases |chain|
  {
    if node != Null {
      ChainTail(sibling, node, chain);
      if PathCmp(path, name[node]).None? {
        ParentScanFirst(child, sibling, name, kids, sibling[node], path, bl, root, chain[1..]);
      }
    }
  }

  lemma BasenameOfPlain(c: string)
    requires '/' !in c
    ensures BasenamePart(c) == c
  {
  }

  /** For a one-component path find_parent_inode returns the child of that name itself
      when it exists, and the starting directory otherwise. */
  lemma FindParentSingle(child: map<Handle, Handle>, sibling: map<Handle, Handle>, name: map<Handle, string>,
                         kids: map<Handle, seq<Handle>>, root: Handle, c: string)
    requires Walkable(child, sibling, name, kids) && root in kids && '/' !in c
    ensures var m := FirstNamed(name, kids[root], c);
      FindParentInode(child, sibling, name, kids, root, c) == if m == Null then root else m
  {
    BasenameOfPlain(c);
    FirstComponentIsPrefix(c, c);
    ParentScanFirst(child, sibling, name, kids, child[root], c, |c|, root, kids[root]);
  }

  lemma {:induction false} BasenameAfterSlash(prefix: string, c: string)
    requires '/' !in c
    ensures BasenamePart(prefix + "/" + c) == c
  {
    var path := prefix + "/" + c;
    if c != [] {
      var c' := c[..|c| - 1];
      assert c[|c| - 1] in c;
      assert path[..|path| - 1] == prefix + "/" + c';
      BasenameAfterSlash(prefix, c');
      assert c == c' + [c[|c| - 1]];
    }
  }

  /** A missing intermediate directory does not make find_parent_inode fail: for "a/b/c"
      with "a" present and "b" missing it returns the starting directory. */
  lemma FindParentMissingIntermediate(child: map<Handle, Handle>, sibling: map<Handle, Handle>, name: map<Handle, string>,
                                      kids: map<Handle, seq<Handle>>, root: Handle, a: string, b: string, c: string)
    requires Walkable(child, sibling, name, kids) && root in kids
    requires '/' !in a && '/' !in b && '/' !in c
    requires FirstNamed(name, kids[root], a) != Null
    requires FirstNamed(name, kids[FirstNamed(name, kids[root], a)], b) == Null
    ensures FindParentInode(child, sibling, name, kids, root, a + "/" + b + "/" + c) == root
  {
    var path := a + "/" + b + "/" + c;
    var m := FirstNamed(name, kids[root], a);
    assert path == (a + "/" + b) + "/" + c;
    BasenameAfterSlash(a + "/" + b, c);
    FirstComponentIsPrefix(path, a);
    assert AfterFirstComponent(path) == b + "/" + c;
    ParentScanFirst(child, sibling, name, kids, child[root], path, |c|, root, kids[root]);
    var p := b + "/" + c;
    FirstComponentIsPrefix(p, b);
    ParentScanFirst(child, sibling, name, kids, child[m], p, |c|, root, kids[m]);
  }

  /** Two mkdir("x") in a row: the second call's parent lookup returns the existing "x"
      itself, in which no "x" exists yet, so the second call creates "x/x" instead of
      failing with EEXIST. */
  lemma MkdirTwiceNests(child: map<Handle, Handle>, sibling: map<Handle, Handle>, name: map<Handle, string>,
                        kids: map<Handle, seq<Handle>>, root: Handle, x: string)
    requires Walkable(child, sibling, name, kids) && root in kids && '/' !in x && x != []
    requires FirstNamed(name, kids[root], x) != Null
    requires FirstNamed(name, kids[FirstNamed(name, kids[root], x)], x) == Null
    ensures var m := FirstNamed(name, kids[root], x);
      && FindParentInode(child, sibling, name, kids, root, x) == m
      && FindInode(child, sibling, name, kids, m, BasenamePart(x)) == Null
  {
    var m := FirstNamed(name, kids[root], x);
    FindParentSingle(child, sibling, name, kids, root, x);
    BasenameOfPlain(x);
    assert x != "/" by { assert x[0] != '/' by { assert x[0] in x; } }
    FirstComponentIsPrefix(x, x);
    FindInodeResolves(child, sibling, name, kids, m, x);
  }

  /** find_parent_inode as its contract describes it: while more than the basename
      (the last `bl` characters) is left, descend into the child the next component
      names; the directory reached is the parent, and a missing component gives null. */
  function ParentWalk(child: map<Handle, Handle>, sibling: map<Handle, Handle>, name: map<Handle, string>,
                      ghost kids: map<Handle, seq<Handle>>, node: Handle, path: string, bl: nat, dir: Handle,
                      ghost chain: seq<Handle>): (r: Handle)
    requires Walkable(child, sibling, name, kids) && dir in kids
    requires ChainIs(sibling, node, chain) && forall x :: x in chain ==> x in kids
    ensures r == Null || r in kids
    decreases |path|, |chain|
  {
    if |path| <= bl then dir
    else if node == Null then Null
    else
      ChainTail(sibling, node, chain);
      match PathCmp(path, name[node])
      case Some(p) => ParentWalk(child, sibling, name, kids, child[node], p, bl, node, kids[node])
      case None => ParentWalk(child, sibling, name, kids, sibling[node], path, bl, dir, chain[1..])
  }

  /** The parent directory of `path` below `root`, or null when a directory on the way
      is missing. */
  function FindParentFixed(child: map<Handle, Handle>, sibling: map<Handle, Handle>, name: map<Handle, string>,
                           ghost kids: map<Handle, seq<Handle>>, root: Handle, path: string): (r: Handle)
    requires Walkable(child, sibling, name, kids) && root in kids
    ensures r == Null || r in kids
  {
    ParentWalk(child, sibling, name, kids, child[root], path, |BasenamePart(path)|, root, kids[root])
  }

  /** Reference parent lookup: follow the first child named by each component until only
      the last `bl` characters are left. */
  ghost function ParentOf(name: map<Handle, string>, kids: map<Handle, seq<Handle>>, n: Handle, path: string, bl: nat): Handle
    requires kids.Keys <= name.Keys && n in kids
    requires forall m, c :: m in kids && c in kids[m] ==> c in kids
    decreases |path|
  {
    if |path| <= bl then n
    else
      var m := FirstNamed(name, kids[n], FirstComponent(path));
      if m == Null then Null else ParentOf(name, kids, m, AfterFirstComponent(path), bl)
  }

  /** One step of the corrected walk, by first matching child. */
  lemma {:induction false} ParentWalkFirst(child: map<Handle, Handle>, sibling: map<Handle, Handle>, name: map<Handle, string>,
                                            kids: map<Handle, seq<Handle>>, node: Handle, path: string, bl: nat, dir: Handle,
                                            chain: seq<Handle>)
    requires Walkable(child, sibling, name, kids) && dir in kids && |path| > bl
    requires ChainIs(sibling, node, chain) && forall x :: x in chain ==> x in kids
    ensures var m := FirstNamed(name, chain, FirstComponent(path));
      ParentWalk(child, sibling, name, kids, node, path, bl, dir, chain) ==
        if m == Null then Null
        else ParentWalk(child, sibling, name, kids, child[m], AfterFirstComponent(path), bl, m, kids[m])
    decreases |chain|
  {
    if node != Null {
      ChainTail(sibling, node, chain);
      if PathCmp(path, name[node]).None? {
        ParentWalkFirst(child, sibling, name, kids, sibling[node], path, bl, dir, chain[1..]);
      }
    }
  }

  /** The corrected pointer walk computes the reference parent lookup. */
  lemma {:induction false} ParentWalkResolves(child: map<Handle, Handle>, sibling: map<Handle, Handle>, name: map<Handle, string>,
                                               kids: map<Handle, seq<Handle>>, n: Handle, path: string, bl: nat)
    requires Walkable(child, sibling, name, kids) && n in kids
    ensures ParentWalk(child, sibling, name, kids, child[n], path, bl, n, kids[n]) == ParentOf(name, kids, n, path, bl)
    decreases |path|
  {
    if |path| > bl {
      ParentWalkFirst(child, sibling, name, kids, child[n], path, bl, n, kids[n]);
      var m := FirstNamed(name, kids[n], FirstComponent(path));
      if m != Null {
        ParentWalkResolves(child, sibling, name, kids, m, AfterFirstComponent(path), bl);
      }
    }
  }

  /** The parent of "prefix/c" is what "prefix" resolves to. */
  lemma {:induction false} ParentOfDirPart(name: map<Handle, string>, kids: map<Handle, seq<Handle>>, n: Handle,
                                            prefix: string, c: string)
    requires kids.Keys <= name.Keys && n in kids
    requires forall m, x :: m in kids && x in kids[m] ==> x in kids
    requires NoTrailingSlash(prefix) && '/' !in c
    ensures ParentOf(name, kids, n, prefix + "/" + c, |c|) == Resolve(name, kids, n, prefix)
    decreases |prefix|
  {
    var path := prefix + "/" + c;
    var f := FirstComponent(prefix);
    FirstComponentIsPrefix(path, f);
    var m := FirstNamed(name, kids[n], f);
    if m != Null {
      if |f| < |prefix| {
        var r := AfterFirstComponent(prefix);
        assert path == f + "/" + (r + "/" + c);
        assert AfterFirstComponent(path) == r + "/" + c;
        assert r == prefix[|f| + 1..];
        assert NoTrailingSlash(r) by { assert r[|r| - 1] == prefix[|prefix| - 1]; }
        ParentOfDirPart(name, kids, m, r, c);
      } else {
        assert f == prefix;
        assert AfterFirstComponent(path) == c;
      }
    }
  }

  /** The corrected find_parent_inode finds the start directory for a one-component
      path, and for "prefix/c" what find_inode finds for "prefix". */
  lemma FindParentFixedResolves(child: map<Handle, Handle>, sibling: map<Handle, Handle>, name: map<Handle, string>,
                                kids: map<Handle, seq<Handle>>, root: Handle, prefix: string, c: string)
    requires Walkable(child, sibling, name, kids) && root in kids && '/' !in c
    ensures FindParentFixed(child, sibling, name, kids, root, c) == root
    ensures NoTrailingSlash(prefix) && prefix != "/" ==>
      FindParentFixed(child, sibling, name, kids, root, prefix + "/" + c) == FindInode(child, sibling, name, kids, root, prefix)
  {
    BasenameOfPlain(c);
    if NoTrailingSlash(prefix) && prefix != "/" {
      BasenameAfterSlash(prefix, c);
      ParentWalkResolves(child, sibling, name, kids, root, prefix + "/" + c, |c|);
      ParentOfDirPart(name, kids, root, prefix, c);
      FindInodeResolves(child, sibling, name, kids, root, prefix);
    }
  }

  /** With the corrected lookup a second mkdir("x") sees the parent of "x" and finds "x"
      in it, so it fails with EEXIST. */
  lemma MkdirTwiceExists(child: map<Handle, Handle>, sibling: map<Handle, Handle>, name: map<Handle, string>,
                         kids: map<Handle, seq<Handle>>, root: Handle, x: string)
    requires Walkable(child, sibling, name, kids) && root in kids && '/' !in x && x != []
    requires FirstNamed(name, kids[root], x) != Null
    ensures var p := FindParentFixed(child, sibling, name, kids, root, x);
      p == root && FindInode(child, sibling, name, kids, p, BasenamePart(x)) == FirstNamed(name, kids[root], x)
  {
    FindParentFixedResolves(child, sibling, name, kids, root, [], x);
    BasenameOfPlain(x);
    assert x != "/" by { assert x[0] != '/' by { assert x[0] in x; } }
    FirstComponentIsPrefix(x, x);
    FindInodeResolves(child, sibling, name, kids, root, x);
  }

  /** With the corrected lookup a missing intermediate directory gives null, so mkdir
      fails with ENOENT. */
  lemma ParentFixedMissing(child: map<Handle, Handle>, sibling: map<Handle, Handle>, name: map<Handle, string>,
                           kids: map<Handle, seq<Handle>>, root: Handle, a: string, b: string, c: string)
    requires Walkable(child, sibling, name, kids) && root in kids
    requires '/' !in a && '/' !in b && '/' !in c
    requires FirstNamed(name, kids[root], a) != Null
    requires FirstNamed(name, kids[FirstNamed(name, kids[root], a)], b) == Null
    ensures FindParentFixed(child, sibling, name, kids, root, a + "/" + b + "/" + c) == Null
  {
    var path := a + "/" + b + "/" + c;
    var m := FirstNamed(name, kids[root], a);
    assert path == (a + "/" + b) + "/" + c;
    BasenameAfterSlash(a + "/" + b, c);
    FirstComponentIsPrefix(path, a);
    assert AfterFirstComponent(path) == b + "/" + c;
    ParentWalkFirst(child, sibling, name, kids, child[root], path, |c|, root, kids[root]);
    var p := b + "/" + c;
    FirstComponentIsPrefix(p, b);
    ParentWalkFirst(child, sibling, name, kids, child[m], p, |c|, m, kids[m]);
  }

  /** The corrected find_parent_inode's loop. */
  method FindParentFixedWalk(child: map<Handle, Handle>, sibling: map<Handle, Handle>, name: map<Handle, string>,
                             ghost kids: map<Handle, seq<Handle>>, root: Handle, path: string) returns (r: Handle)
    requires Walkable(child, sibling, name, kids) && root in kids
    ensures r == FindParentFixed(child, sibling, name, kids, root, path)
  {
    var b := Basename(path);
    var bl := |path| - b;
    var n := child[root];
    var p := path;
    var dir := root;
    ghost var ch := kids[root];
    while |p| > bl && n != Null
      invariant ChainIs(sibling, n, ch) && (forall x :: x in ch ==> x in kids) && dir in kids
      invariant ParentWalk(child, sibling, name, kids, n, p, bl, dir, ch)
             == FindParentFixed(child, sibling, name, kids, root, path)
      decreases |p|, |ch|
    {
      ChainTail(sibling, n, ch);
      var cp := ComparePath(p, name[n]);
      if cp.Some? {
        p := cp.value;
        dir := n;
        ch := kids[n];
        n := child[n];
      } else {
        n := sibling[n];
        ch := ch[1..];
      }
    }
    if |p| <= bl {
      r := dir;
    } else {
      r := Null;
    }
  }

  /** Parents lead to nodes. */
  ghost predicate ParentClosed(parent: map<Handle, Handle>)
  {
    forall n :: n in parent && parent[n] != Null ==> parent[n] in parent
  }

  /** The stack inode_abspath fills: `n` and its ancestors up to, but excluding, the
      topmost one, at most `fuel` of them. */
  function AncestorPath(parent: map<Handle, Handle>, n: Handle, fuel: nat): (s: seq<Handle>)
    requires ParentClosed(parent) && n in parent
    ensures |s| <= fuel
    ensures forall i :: 0 <= i < |s| ==> s[i] in parent
    decreases fuel
  {
    if fuel == 0 || parent[n] == Null then [] else [n] + AncestorPath(parent, parent[n], fuel - 1)
  }

  /** "/name" for each handle, the last one first. */
  function JoinNames(name: map<Handle, string>, s: seq<Handle>): string
    requires forall i :: 0 <= i < |s| ==> s[i] in name
  {
    if s == [] then ""
    else
      JoinNames(name, s[1..]) + "/" + name[s[0]]
  }

  /** inode_abspath: "(null)" for null, "/" for the root, otherwise "/" and the names of
      the ancestors from the top down, ending with the node's own name. */
  function Abspath(parent: map<Handle, Handle>, name: map<Handle, string>, n: Handle): string
    requires ParentClosed(parent) && parent.Keys <= name.Keys && (n == Null || n in parent)
  {
    if n == Null then "(null)"
    else if n == Root then "/"
    else
      var s := AncestorPath(parent, n, MAX_DIRECTORY_DEPTH);
      JoinNames(name, s)
  }

  /** A stack that did not fill up is the same with one more slot of room. */
  lemma {:induction false} AncestorPathFuel(parent: map<Handle, Handle>, n: Handle, fuel: nat)
    requires ParentClosed(parent) && n in parent
    requires |AncestorPath(parent, n, fuel + 1)| < fuel + 1
    ensures AncestorPath(parent, n, fuel) == AncestorPath(parent, n, fuel + 1)
    decreases fuel
  {
    if parent[n] != Null {
      AncestorPathFuel(parent, parent[n], fuel - 1);
    }
  }

  /** The path of a child extends the path of its parent by "/" and the child's name, as
      long as the parent lies fewer than MAX_DIRECTORY_DEPTH levels deep. */
  lemma AbspathChild(parent: map<Handle, Handle>, name: map<Handle, string>, n: Handle)
    requires ParentClosed(parent) && parent.Keys <= name.Keys && Root in parent && parent[Root] == Null
    requires n in parent && n != Null && n != Root && parent[n] != Null
    requires |AncestorPath(parent, parent[n], MAX_DIRECTORY_DEPTH)| < MAX_DIRECTORY_DEPTH
    ensures Abspath(parent, name, n) ==
      (if parent[n] == Root then "" else Abspath(parent, name, parent[n])) + "/" + name[n]
  {
    var p := parent[n];
    AncestorPathFuel(parent, p, MAX_DIRECTORY_DEPTH - 1);
    var up := AncestorPath(parent, p, MAX_DIRECTORY_DEPTH);
    assert AncestorPath(parent, n, MAX_DIRECTORY_DEPTH) == [n] + up;
    assert ([n] + up)[1..] == up;
    assert JoinNames(name, [n] + up) == JoinNames(name, up) + "/" + name[n];
    assert Abspath(parent, name, n) == JoinNames(name, up) + "/" + name[n];
    if p == Root {
      assert up == [];
    } else {
      assert Abspath(parent, name, p) == JoinNames(name, up);
    }
  }

  // The pointer walks themselves: each loop is the source's, and each is proved to
  // compute its reference definition above.

  /** find_inode's while loop from `node`. */
  method ScanWalk(child: map<Handle, Handle>, sibling: map<Handle, Handle>, name: map<Handle, string>,
                  ghost kids: map<Handle, seq<Handle>>, node: Handle, path: string, ghost chain: seq<Handle>)
    returns (r: Handle)
    requires Walkable(child, sibling, name, kids)
    requires ChainIs(sibling, node, chain) && forall x :: x in chain ==> x in kids
    ensures r == Scan(child, sibling, name, kids, node, path, chain)
  {
    var n := node;
    var p := path;
    ghost var ch := chain;
    while n != Null
      invariant ChainIs(sibling, n, ch) && forall x :: x in ch ==> x in kids
      invariant Scan(child, sibling, name, kids, n, p, ch) == Scan(child, sibling, name, kids, node, path, chain)
      decreases |p|, |ch|
    {
      ChainTail(sibling, n, ch);
      var cp := ComparePath(p, name[n]);
      if cp.Some? {
        if cp.value == [] || cp.value == "/" {
          return n;
        }
        p := cp.value;
        ch := kids[n];
        n := child[n];
      } else {
        n := sibling[n];
        ch := ch[1..];
      }
    }
    r := Null;
  }

  /** find_inode(root, path). */
  method FindInodeWalk(child: map<Handle, Handle>, sibling: map<Handle, Handle>, name: map<Handle, string>,
                       ghost kids: map<Handle, seq<Handle>>, root: Handle, path: string) returns (r: Handle)
    requires Walkable(child, sibling, name, kids) && (root == Null || root in kids)
    ensures r == FindInode(child, sibling, name, kids, root, path)
  {
    if root == Null {
      return Null;
    }
    if path == [] || path == "/" {
      return root;
    }
    r := ScanWalk(child, sibling, name, kids, child[root], path, kids[root]);
  }

  /** find_parent_inode's while loop from `node`. */
  method ParentScanWalk(child: map<Handle, Handle>, sibling: map<Handle, Handle>, name: map<Handle, string>,
                        ghost kids: map<Handle, seq<Handle>>, node: Handle, path: string, bl: nat, root: Handle,
                        ghost chain: seq<Handle>) returns (r: Handle)
    requires Walkable(child, sibling, name, kids) && root in kids
    requires ChainIs(sibling, node, chain) && forall x :: x in chain ==> x in kids
    ensures r == ParentScan(child, sibling, name, kids, node, path, bl, root, chain)
  {
    var n := node;
    var p := path;
    ghost var ch := chain;
    while n != Null
      invariant ChainIs(sibling, n, ch) && forall x :: x in ch ==> x in kids
      invariant ParentScan(child, sibling, name, kids, n, p, bl, root, ch)
             == ParentScan(child, sibling, name, kids, node, path, bl, root, chain)
      decreases |p|, |ch|
    {
      ChainTail(sibling, n, ch);
      var cp := ComparePath(p, name[n]);
      if cp.Some? {
        if |cp.value| <= bl {
          return n;
        }
        p := cp.value;
        ch := kids[n];
        n := child[n];
      } else {
        n := sibling[n];
        ch := ch[1..];
      }
    }
    r := root;
  }

  /** find_parent_inode(root, path). */
  method FindParentInodeWalk(child: map<Handle, Handle>, sibling: map<Handle, Handle>, name: map<Handle, string>,
                             ghost kids: map<Handle, seq<Handle>>, root: Handle, path: string) returns (r: Handle)
    requires Walkable(child, sibling, name, kids) && (root == Null || root in kids)
    ensures r == FindParentInode(child, sibling, name, kids, root, path)
  {
    if root == Null {
      return Null;
    }
    var b := Basename(path);
    r := ParentScanWalk(child, sibling, name, kids, child[root], path, |path| - b, root, kids[root]);
  }

  /** The first loop of create_directory_hierarchy_for_file. */
  method DescendWalk(child: map<Handle, Handle>, sibling: map<Handle, Handle>, name: map<Handle, string>,
                     ghost kids: map<Handle, seq<Handle>>, root: Handle, path: string) returns (d: Descent)
    requires Walkable(child, sibling, name, kids) && root in kids
    ensures d == Descend(child, sibling, name, kids, child[root], path, root, kids[root])
  {
    var n := child[root];
    var p := path;
    var dir := root;
    ghost var ch := kids[root];
    while n != Null
      invariant dir in kids
      invariant ChainIs(sibling, n, ch) && forall x :: x in ch ==> x in kids
      invariant Descend(child, sibling, name, kids, n, p, dir, ch)
             == Descend(child, sibling, name, kids, child[root], path, root, kids[root])
      decreases |p|, |ch|
    {
      ChainTail(sibling, n, ch);
      var cp := ComparePath(p, name[n]);
      if cp.Some? {
        if cp.value == [] || cp.value == "/" {
          return Found(n);
        }
        p := cp.value;
        dir := n;
        ch := kids[n];
        n := child[n];
      } else {
        n := sibling[n];
        ch := ch[1..];
      }
    }
    d := Stopped(dir, p);
  }

  /** Each suffix of a stack of names joins to a prefix of the whole path. */
  lemma {:induction false} JoinNamesPrefix(name: map<Handle, string>, s: seq<Handle>, k: nat)
    requires forall i :: 0 <= i < |s| ==> s[i] in name
    requires k <= |s|
    ensures JoinNames(name, s[k..]) <= JoinNames(name, s)
    decreases k
  {
    if k > 0 {
      JoinNamesPrefix(name, s[1..], k - 1);
      assert s[1..][k - 1..] == s[k..];
    }
  }

  /** inode_abspath's first loop: the stack of `n` and its ancestors below the topmost
      one, filled bottom up, MAX_DIRECTORY_DEPTH entries at most. */
  method AncestorStack(parent: map<Handle, Handle>, n: Handle) returns (stack: seq<Handle>)
    requires ParentClosed(parent) && n in parent
    ensures stack == AncestorPath(parent, n, MAX_DIRECTORY_DEPTH)
  {
    stack := [];
    var node := n;
    ghost var fuel: nat := MAX_DIRECTORY_DEPTH;
    while parent[node] != Null && |stack| < MAX_DIRECTORY_DEPTH
      invariant node in parent && fuel == MAX_DIRECTORY_DEPTH - |stack|
      invariant stack + AncestorPath(parent, node, fuel) == AncestorPath(parent, n, MAX_DIRECTORY_DEPTH)
      decreases fuel
    {
      ghost var up := AncestorPath(parent, parent[node], fuel - 1);
      assert AncestorPath(parent, node, fuel) == [node] + up;
      assert stack + ([node] + up) == (stack + [node]) + up;
      stack := stack + [node];
      node := parent[node];
      fuel := fuel - 1;
    }
    assert AncestorPath(parent, node, fuel) == [];
    assert stack + [] == stack;
  }

  /** inode_abspath's second loop: "/" and a name for each stack entry from the top
      down, into a buffer with room for `m` characters; it stops when the room is used
      up. What it writes is the first `m` characters of the joined path. */
  method WriteNames(name: map<Handle, string>, stack: seq<Handle>, m: nat) returns (w: string)
    requires forall i :: 0 <= i < |stack| ==> stack[i] in name
    ensures w == Truncate(JoinNames(name, stack), m)
  {
    w := [];
    var depth := |stack|;
    while depth > 0 && |w| < m
      invariant 0 <= depth <= |stack|
      invariant w == Truncate(JoinNames(name, stack[depth..]), m)
    {
      ghost var x := JoinNames(name, stack[depth..]);
      w := w + ['/'];
      depth := depth - 1;
      assert stack[depth..][1..] == stack[depth + 1..];
      var nm := name[stack[depth]];
      var len := |nm|;
      if len > m - |w| {
        len := m - |w|;
      }
      w := w + nm[..len];
      assert JoinNames(name, stack[depth..]) == x + "/" + nm;
    }
    JoinNamesPrefix(name, stack, depth);
  }

  /** inode_abspath for a node other than null and the root, into a buffer of |buf|
      characters: the path truncated one short of the buffer's end, the characters
      after it as they were. */
  method AbspathWrite(parent: map<Handle, Handle>, name: map<Handle, string>, n: Handle, buf: seq<char>)
    returns (out: seq<char>)
    requires ParentClosed(parent) && parent.Keys <= name.Keys && n in parent && n != Null && n != Root
    requires |buf| >= 1
    ensures |out| == |buf|
    ensures var w := Truncate(Abspath(parent, name, n), |buf| - 1);
      out == w + buf[|w|..]
  {
    var stack := AncestorStack(parent, n);
    var w := WriteNames(name, stack, |buf| - 1);
    out := w + buf[|w|..];
  }
}
