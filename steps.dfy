/** The filesystem invariant is kept by every transition the syscalls are built from. */
module FsSteps {
  import opened Wrappers
  import opened Posix
  import opened Paths
  import opened Buffers
  import opened Tree
  import opened Lookup
  import opened FsState

  lemma RootResetOk(s: State)
    requires StateOk(s)
    ensures StateOk(RootReset(s))
  {
    var i := s.inode[Root := s.inode[Root].(mode := ROOT_MODE)];
    assert forall n :: n in i ==> ContentOk(i[n]) by {
      forall n | n in i ensures ContentOk(i[n]) {
        if n != Root { assert i[n] == s.inode[n]; }
      }
    }
  }

  /** Choosing the start directory keeps the invariant and the tree, and the start
      directory is a directory of the tree. */
  lemma StartedOk(s: State, path: string)
    requires StateOk(s)
    ensures StateOk(Started(s, path))
    ensures var t := Started(s, path);
      && t.parent == s.parent && t.child == s.child && t.sibling == s.sibling
      && t.name == s.name && t.kids == s.kids && t.nextHandle == s.nextHandle
      && t.fds == s.fds && t.nextFd == s.nextFd
      && t.stdoutLine == s.stdoutLine && t.stderrLine == s.stderrLine && t.console == s.console
    ensures var d := StartDir(s, path);
      d in s.parent && Started(s, path).inode[d].kind == Dir
    ensures Started(s, path).inode == s.inode[Root := Started(s, path).inode[Root]]
  {
    StartedInode(s, path);
    var t := Started(s, path);
    if Absolute(path) || s.cwd == Null {
      RootResetOk(s);
      assert t.inode == RootReset(s).inode;
    } else {
      assert t == s;
    }
    assert t.parent == s.parent && t.child == s.child && t.sibling == s.sibling;
    assert t.name == s.name && t.kids == s.kids && t.nextHandle == s.nextHandle;
  }

  /** Choosing the start directory changes no inode but the root's. */
  lemma StartedInode(s: State, path: string)
    requires Root in s.inode
    ensures Started(s, path).inode == s.inode[Root := Started(s, path).inode[Root]]
  {
    if !Absolute(path) && s.cwd != Null {
      assert s.inode[Root := s.inode[Root]] == s.inode;
    }
  }

  lemma CreatedOk(t: State, i: Inode, nm: string)
    requires StateOk(t) && '/' !in nm && ContentOk(i)
    ensures t.nextHandle !in t.parent && t.nextHandle != Root
    ensures StateOk(Created(t, i, nm))
  {
    TreeAdd(t.parent, t.child, t.sibling, t.name, t.kids, t.nextHandle, nm);
  }

  lemma LinkedOk(t: State, n: Handle, p: Handle)
    requires StateOk(t) && n in t.parent && p in t.parent && n != Root && t.parent[n] == Null
    ensures StateOk(Linked(t, n, p))
  {
    TreeLink(t.parent, t.child, t.sibling, t.name, t.kids, t.nextHandle, n, p);
  }

  lemma UnlinkHeadOk(t: State, n: Handle)
    requires StateOk(t) && n in t.parent && t.parent[n] != Null && t.child[t.parent[n]] == n
    ensures t.kids[t.parent[n]] != [] && IndexOf(t.kids[t.parent[n]], n) == 0
    ensures StateOk(UnlinkedHead(t, n))
  {
    TreeUnlinkHead(t.parent, t.child, t.sibling, t.name, t.kids, t.nextHandle, n);
  }

  lemma UnlinkInnerOk(t: State, n: Handle)
    requires StateOk(t) && n in t.parent && t.parent[n] != Null && t.child[t.parent[n]] != n
    ensures t.parent[n] in t.kids && n in t.kids[t.parent[n]]
    ensures 0 < IndexOf(t.kids[t.parent[n]], n)
    ensures StateOk(UnlinkedInner(t, n, IndexOf(t.kids[t.parent[n]], n)))
  {
    TreeUnlinkInner(t.parent, t.child, t.sibling, t.name, t.kids, t.nextHandle, n);
  }

  /** Replacing an inode's fields by consistent ones of the same kind. */
  lemma InodeSetOk(s: State, n: Handle, i: Inode)
    requires StateOk(s) && n in s.inode && i.kind == s.inode[n].kind && ContentOk(i)
    ensures StateOk(s.(inode := s.inode[n := i]))
  {
    var t := s.(inode := s.inode[n := i]);
    assert TreeOk(t.parent, t.child, t.sibling, t.name, t.kids, t.nextHandle);
    forall m | m in t.inode ensures ContentOk(t.inode[m]) {
      if m != n { assert t.inode[m] == s.inode[m]; }
    }
    assert t.inode.Keys == s.inode.Keys;
  }

  lemma CwdSetOk(s: State, n: Handle)
    requires StateOk(s) && n in s.inode && s.inode[n].kind == Dir
    ensures StateOk(s.(cwd := n))
  {
  }

  /** Handing out the next descriptor number for a node of the tree. */
  lemma FdAddOk(s: State, d: Descriptor)
    requires StateOk(s) && d.node in s.inode && d.filePos >= 0
    ensures StateOk(s.(fds := s.fds[s.nextFd := d], nextFd := s.nextFd + 1))
  {
  }

  lemma FdSetOk(s: State, fd: int, pos: int)
    requires StateOk(s) && fd in s.fds && pos >= 0
    ensures StateOk(s.(fds := s.fds[fd := s.fds[fd].(filePos := pos)]))
  {
  }

  lemma FdRemoveOk(s: State, fd: int)
    requires StateOk(s)
    ensures StateOk(s.(fds := s.fds - {fd}))
  {
  }

  lemma LinesSetOk(s: State, out: seq<byte>, err: seq<byte>, console: seq<seq<byte>>)
    requires StateOk(s) && LinesOk(out, err)
    ensures StateOk(s.(stdoutLine := out, stderrLine := err, console := console))
  {
  }

  /** unlink_inode: a node with no parent is left alone; otherwise it leaves its
      parent's chain, from the head or from the middle. */
  function Unlinked(s: State, n: Handle): (t: State)
    requires StateOk(s) && n in s.parent
  {
    var p := s.parent[n];
    if p == Null then s
    else if s.child[p] == n then
      UnlinkHeadOk(s, n);
      UnlinkedHead(s, n)
    else
      UnlinkInnerOk(s, n);
      UnlinkedInner(s, n, IndexOf(s.kids[p], n))
  }

  /** The second loop of create_directory_hierarchy_for_file: one new directory per
      name, each linked under the one before, starting under `d`; the result is the
      last directory created, or `d` itself. */
  ghost function MadeDirs(s: State, d: Handle, names: seq<string>, mode: bv32): (r: (State, Handle))
    requires StateOk(s) && d in s.parent
    requires forall i :: 0 <= i < |names| ==> '/' !in names[i]
    ensures StateOk(r.0) && r.1 in r.0.parent
    decreases |names|
  {
    if names == [] then (s, d)
    else
      var n := s.nextHandle;
      CreatedOk(s, FreshInode(Dir, mode), names[0]);
      var s1 := Created(s, FreshInode(Dir, mode), names[0]);
      RootResetOk(s1);
      LinkedOk(RootReset(s1), n, d);
      MadeDirs(Linked(RootReset(s1), n, d), n, names[1..], mode)
  }

  /** create_directory_hierarchy_for_file(root, rel, mode): an existing node the whole
      of `rel` names is returned as it is; otherwise the directories missing below the
      deepest existing match are created and the last one is returned. */
  ghost function Hierarchy(s: State, root: Handle, rel: string, mode: bv32): (r: (State, Handle))
    requires StateOk(s) && root in s.parent
    ensures StateOk(r.0) && r.1 in r.0.parent
  {
    TreeWalkable(s.parent, s.child, s.sibling, s.name, s.kids, s.nextHandle);
    match Descend(s.child, s.sibling, s.name, s.kids, s.child[root], rel, root, s.kids[root])
    case Found(n) => (s, n)
    case Stopped(d, rest) => MadeDirs(s, d, DirComponents(rest, |BasenamePart(rest)|), mode)
  }

  lemma ClosedOk(s: State, fd: int)
    requires StateOk(s) && fd in s.fds
    ensures StateOk(Closed(s, fd))
  {
    var n := s.fds[fd].node;
    var i := s.inode[n];
    if i.fetched.Some? {
      InodeSetOk(s, n, i.(fetched := None));
    }
  }

  /** The inode writev leaves is consistent: the size never passes the grown buffer,
      with the source's size and with the corrected one. */
  lemma WrittenContentOk(i: Inode, pos: nat, b: seq<byte>)
    requires ContentOk(i)
    ensures ContentOk(OverwrittenAsSource(i, pos, b))
    ensures ContentOk(Overwritten(i, pos, b))
  {
  }

  /** print_stream keeps both line buffers short and free of '\n', and touches nothing
      but them and the console. */
  lemma {:induction false} PrintedLines(s: State, toStdout: bool, iov: seq<IoVec>, k: nat)
    requires LinesOk(s.stdoutLine, s.stderrLine) && IovOk(iov) && k <= |iov| && ConsoleFits(s, toStdout, iov, k)
    ensures var t := PrintedAll(s, toStdout, iov, k);
      && LinesOk(t.stdoutLine, t.stderrLine)
      && t == s.(stdoutLine := t.stdoutLine, stderrLine := t.stderrLine, console := t.console)
  {
    if k > 0 {
      PrintedLines(s, toStdout, iov, k - 1);
      var t := PrintedAll(s, toStdout, iov, k - 1);
      LinesJoin(LineOf(t, toStdout) + IovBytes(iov[k - 1]));
    }
  }

  /** What open's new descriptor changes: the descriptor table and its counter. */
  lemma OpenedFields(s: State, n: Handle, flags: bv32, mode: bv32)
    requires n in s.inode
    ensures var (r, t) := Opened(s, n, flags, mode);
      && r == s.nextFd && t.nextFd == r + 1
      && t.fds == s.fds[r := Descriptor(StartPos(s.inode[n], flags), mode, flags, n)]
      && t.parent == s.parent && t.child == s.child && t.sibling == s.sibling && t.name == s.name
      && t.kids == s.kids && t.inode == s.inode && t.nextHandle == s.nextHandle && t.cwd == s.cwd
      && t.stdoutLine == s.stdoutLine && t.stderrLine == s.stderrLine && t.console == s.console
  {
  }

  lemma OpenedOk(s: State, n: Handle, flags: bv32, mode: bv32)
    requires StateOk(s) && n in s.inode
    ensures StateOk(Opened(s, n, flags, mode).1)
  {
  }

  /** get_cwd keeps the invariant. */
  lemma GetCwdOk(s: State)
    requires StateOk(s)
    ensures StateOk(CwdSet(s)) && CwdSet(s).parent == s.parent && CwdSet(s).kids == s.kids
    ensures CwdSet(s).child == s.child && CwdSet(s).name == s.name
    ensures Cwd(s) in s.parent && CwdSet(s).cwd == Cwd(s)
  {
    RootResetOk(s);
  }

  /** What inode_abspath needs of the tree: every parent is itself an inode, every inode
      has a name. */
  lemma AbspathReady(s: State)
    requires StateOk(s)
    ensures ParentClosed(s.parent) && s.parent.Keys <= s.name.Keys
  {
  }

  /** A console writev whose every print_stream call fits keeps the invariant. */
  lemma PrintedAllOk(s: State, toStdout: bool, iov: seq<IoVec>, k: nat)
    requires StateOk(s) && IovOk(iov) && k <= |iov| && ConsoleFits(s, toStdout, iov, k)
    ensures StateOk(PrintedAll(s, toStdout, iov, k))
  {
    PrintedLines(s, toStdout, iov, k);
    var t := PrintedAll(s, toStdout, iov, k);
    LinesSetOk(s, t.stdoutLine, t.stderrLine, t.console);
  }

  /** Each print_stream call of a console writev that fits has room for its entry. */
  lemma {:induction false} ConsoleFitsAt(s: State, toStdout: bool, iov: seq<IoVec>, k: nat, j: nat)
    requires IovOk(iov) && j < k <= |iov| && ConsoleFits(s, toStdout, iov, k)
    ensures |LineOf(PrintedAll(s, toStdout, iov, j), toStdout)| + iov[j].len <= CONSOLE_BUFFER_SIZE
    decreases k
  {
    assert ConsoleFits(s, toStdout, iov, k - 1);
    if j < k - 1 {
      ConsoleFitsAt(s, toStdout, iov, k - 1, j);
    }
  }

  /** What getdents64's walk needs of a directory's chain: its members are inodes with
      names, none of them null. */
  lemma KidsReady(s: State, n: Handle)
    requires StateOk(s) && n in s.parent
    ensures n in s.child && n in s.kids && ChainIs(s.sibling, s.child[n], s.kids[n])
    ensures forall c :: c in s.kids[n] ==> c != Null && c in s.inode && c in s.name
  {
  }
}

