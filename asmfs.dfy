/** The in-memory filesystem: a class whose one field is the whole filesystem state,
    with the tree edits, the path lookups with their side effects, and the syscalls. */
module Asmfs {
  import opened Wrappers
  import opened Posix
  import opened Paths
  import opened Buffers
  import opened Tree
  import opened Lookup
  import opened FsState
  import opened FsSteps
  import opened FsCalls
  import opened Transfer

  class FileSystem {
    var st: State

    ghost predicate Valid()
      reads this
    {
      StateOk(st)
    }

    /** The process start: only the root directory exists, nothing is open, no cwd yet. */
    constructor()
      ensures Valid()
      ensures st == State(map[Root := Null], map[Root := Null], map[Root := Null], map[Root := ""],
                          map[Root := []], map[Root := FreshInode(Dir, ROOT_MODE)], Root + 1,
                          Null, map[], 3, [], [], [])
    {
      st := State(map[Root := Null], map[Root := Null], map[Root := Null], map[Root := ""],
                  map[Root := []], map[Root := FreshInode(Dir, ROOT_MODE)], Root + 1,
                  Null, map[], 3, [], [], []);
    }

    /** filesystem_root: the root, whose mode is reset to 0777 on the way. */
    method FilesystemRoot() returns (r: Handle)
      requires Valid()
      modifies this
      ensures Valid()
      ensures r == Root && st == RootReset(old(st))
    {
      RootResetOk(st);
      st := RootReset(st);
      r := Root;
    }

    /** get_cwd: the working directory, which the first call sets to the root (resetting
        the root's mode through filesystem_root). */
    method GetCwdNode() returns (r: Handle)
      requires Valid()
      modifies this
      ensures Valid()
      ensures r == Cwd(old(st)) && st == CwdSet(old(st))
    {
      if st.cwd == Null {
        var root := FilesystemRoot();
        CwdSetOk(st, root);
        st := st.(cwd := root);
      }
      r := st.cwd;
    }

    /** create_inode with the caller's mode and name: a fresh, unlinked inode. */
    method CreateInode(kind: Kind, mode: bv32, nm: string) returns (n: Handle)
      requires Valid() && '/' !in nm
      modifies this
      ensures Valid()
      ensures n == old(st.nextHandle) && n !in old(st.parent)
      ensures st == Created(old(st), FreshInode(kind, mode), nm)
    {
      var t := st;
      CreatedOk(t, FreshInode(kind, mode), nm);
      n := t.nextHandle;
      st := t.(parent := t.parent[n := Null], child := t.child[n := Null], sibling := t.sibling[n := Null],
               name := t.name[n := nm], kids := t.kids[n := []], inode := t.inode[n := FreshInode(kind, mode)],
               nextHandle := n + 1);
    }

    /** link_inode: `n`, which is not in the tree, becomes the first child of `p`, in
        front of `p`'s former first child. Rebuilding `p`'s path for the log resets the
        root's mode. */
    method LinkInode(n: Handle, p: Handle)
      requires Valid()
      requires n in st.parent && p in st.parent && n != Root && st.parent[n] == Null
      modifies this
      ensures Valid()
      ensures st == Linked(RootReset(old(st)), n, p)
    {
      var _ := FilesystemRoot();
      var s := st;
      LinkedOk(s, n, p);
      st := s.(parent := s.parent[n := p], child := s.child[p := n], sibling := s.sibling[n := s.child[p]],
               kids := s.kids[p := [n] + s.kids[p]]);
    }

    /** find_predecessor_sibling: for a node in `p`'s chain, the node before it, or null
        when it heads the chain. */
    method FindPredecessorSibling(n: Handle, p: Handle) returns (pred: Handle)
      requires p in st.kids && p in st.child && n != Null && n in st.kids[p]
      requires ChainIs(st.sibling, st.child[p], st.kids[p])
      ensures var i := IndexOf(st.kids[p], n);
        pred == if i == 0 then Null else st.kids[p][i - 1]
    {
      var s := st.kids[p];
      ghost var i := IndexOf(s, n);
      var sib := st.sibling;
      var head := st.child[p];
      var c := head;
      ChainAt(sib, c, s, 0);
      if c == n {
        return Null;
      }
      ghost var j := 0;
      while sib[c] != n
        invariant 0 <= j < i && c == s[j]
        decreases i - j
      {
        ChainAt(sib, head, s, j);
        c := sib[c];
        j := j + 1;
      }
      ChainAt(sib, head, s, j);
      if sib[c] == Null {
        return Null;
      }
      pred := c;
    }

    /** unlink_inode: splices `n` out of its parent's chain; the chain keeps its order,
        `n` loses its parent and sibling, and only the parent's first child or the
        predecessor's sibling changes besides. An unlinked node is left alone. */
    method UnlinkInode(n: Handle)
      requires Valid() && n in st.parent
      modifies this
      ensures Valid()
      ensures st == Unlinked(old(st), n)
    {
      var t := st;
      var p := t.parent[n];
      if p == Null {
        return;
      }
      if t.child[p] == n {
        UnlinkHeadOk(t, n);
        st := t.(parent := t.parent[n := Null], child := t.child[p := t.sibling[n]], sibling := t.sibling[n := Null],
                 kids := t.kids[p := t.kids[p][1..]]);
      } else {
        UnlinkInnerOk(t, n);
        var pred := FindPredecessorSibling(n, p);
        var i := IndexOf(t.kids[p], n);
        st := t.(parent := t.parent[n := Null], sibling := t.sibling[pred := t.sibling[n]][n := Null],
                 kids := t.kids[p := RemoveAt(t.kids[p], i)]);
      }
    }

    /** Stores new fields for inode `n`, of the same kind and consistent. */
    method SetInode(n: Handle, i: Inode)
      requires Valid() && n in st.inode && i.kind == st.inode[n].kind && ContentOk(i)
      modifies this
      ensures Valid() && st == old(st).(inode := old(st.inode)[n := i])
    {
      InodeSetOk(st, n, i);
      st := st.(inode := st.inode[n := i]);
    }

    /** Moves descriptor `fd` to position `pos`. */
    method SetFilePos(fd: int, pos: int)
      requires Valid() && fd in st.fds && pos >= 0
      modifies this
      ensures Valid() && st == Repositioned(old(st), fd, pos)
    {
      FdSetOk(st, fd, pos);
      st := Repositioned(st, fd, pos);
    }

    /** set_cwd. */
    method SetCwd(n: Handle)
      requires Valid() && n in st.inode && st.inode[n].kind == Dir
      modifies this
      ensures Valid() && st == old(st).(cwd := n)
    {
      CwdSetOk(st, n);
      st := st.(cwd := n);
    }

    /** The parent of a node of the tree; a parent is itself a node. */
    method ParentNode(n: Handle) returns (p: Handle)
      requires Valid() && n in st.parent
      ensures p == st.parent[n] && n in st.inode && (p != Null ==> p in st.inode)
    {
      AbspathReady(st);
      p := st.parent[n];
    }

    /** Frees descriptor `fd`. */
    method RemoveFd(fd: int)
      requires Valid()
      modifies this
      ensures Valid() && st == old(st).(fds := old(st.fds) - {fd})
    {
      FdRemoveOk(st, fd);
      st := st.(fds := st.fds - {fd});
    }

    /** Starts the lookup of `path`: the root (through filesystem_root) for an absolute
        path, else the working directory (through get_cwd). */
    method StartOf(path: string) returns (root: Handle)
      requires Valid()
      modifies this
      ensures Valid() && root == StartDir(old(st), path) && st == Started(old(st), path)
      ensures root in st.parent && st.inode[root].kind == Dir
    {
      ghost var s0 := st;
      StartedOk(s0, path);
      if |path| > 0 && path[0] == '/' {
        root := FilesystemRoot();
      } else {
        root := GetCwdNode();
      }
    }

    /** find_inode(path). */
    method FindByPath(path: string) returns (root: Handle, n: Handle)
      requires Valid()
      modifies this
      ensures Valid() && st == Started(old(st), path) && n == FindPath(old(st), path)
      ensures root == StartDir(old(st), path) && root in st.parent
    {
      root := StartOf(path);
      var rel := RelPath(path);
      TreeWalkable(st.parent, st.child, st.sibling, st.name, st.kids, st.nextHandle);
      n := FindInodeWalk(st.child, st.sibling, st.name, st.kids, root, rel);
    }

    /** The two checks on the path's length every path syscall starts with. */
    static method CheckPath(path: string) returns (e: int)
      ensures e == PathError(path)
    {
      if |path| > MAX_PATHNAME_LENGTH {
        return ENAMETOOLONG;
      }
      if |path| == 0 {
        return ENOENT;
      }
      return 0;
    }

    /** chdir(2). */
    method Chdir(path: string) returns (r: int)
      requires Valid()
      modifies this
      ensures Valid() && (r, st) == ChdirSpec(old(st), path)
    {
      var e := CheckPath(path);
      if e != 0 {
        return -e;
      }
      var _, n := FindByPath(path);
      if n == Null {
        return -ENOENT;
      }
      if st.inode[n].kind != Dir {
        return -ENOTDIR;
      }
      SetCwd(n);
      r := 0;
    }

    /** chmod(2). */
    method Chmod(path: string, mode: bv32) returns (r: int)
      requires Valid()
      modifies this
      ensures Valid() && (r, st) == ChmodSpec(old(st), path, mode)
    {
      var e := CheckPath(path);
      if e != 0 {
        return -e;
      }
      var _, n := FindByPath(path);
      if n == Null {
        return -ENOENT;
      }
      if st.inode[n].kind != Dir {
        return -ENOTDIR;
      }
      SetInode(n, st.inode[n].(mode := mode));
      r := 0;
    }

    /** mkdir(2), with find_parent_inode as the source writes it. */
    method Mkdir(path: string, mode: bv32) returns (r: int)
      requires Valid()
      modifies this
      ensures Valid() && (r, st) == MkdirAsSource(old(st), path, mode)
    {
      var e := CheckPath(path);
      if e != 0 {
        return -e;
      }
      var root := StartOf(path);
      var rel := RelPath(path);
      TreeWalkable(st.parent, st.child, st.sibling, st.name, st.kids, st.nextHandle);
      var p := FindParentInodeWalk(st.child, st.sibling, st.name, st.kids, root, rel);
      r := MkdirIn(p, path, mode);
    }

    /** mkdir once the parent lookup gave `p`. */
    method MkdirIn(p: Handle, path: string, mode: bv32) returns (r: int)
      requires Valid() && (p == Null || p in st.parent)
      modifies this
      ensures Valid() && (r, st) == MkdirUnder(old(st), p, path, mode)
    {
      if p == Null {
        return -ENOENT;
      }
      var b := Basename(path);
      TreeWalkable(st.parent, st.child, st.sibling, st.name, st.kids, st.nextHandle);
      var existing := FindInodeWalk(st.child, st.sibling, st.name, st.kids, p, path[b..]);
      if existing != Null {
        return -EEXIST;
      }
      if st.inode[p].mode & ANY_WRITE == 0 {
        return -EACCES;
      }
      var n := CreateInode(Dir, mode, path[b..]);
      LinkInode(n, p);
      r := 0;
    }

    /** rmdir(2). */
    method Rmdir(path: string) returns (r: int)
      requires Valid()
      modifies this
      ensures Valid() && (r, st) == RmdirSpec(old(st), path)
    {
      var e := CheckPath(path);
      if e != 0 {
        return -e;
      }
      if DotLast(path) {
        return -EINVAL;
      }
      if DotDotLast(path) {
        return -ENOTEMPTY;
      }
      r := RmdirNamed(path);
    }

    /** rmdir's lookup of the path and the checks on what it names. */
    method RmdirNamed(path: string) returns (r: int)
      requires Valid()
      modifies this
      ensures Valid() && (r, st) == RmdirLookup(old(st), path)
    {
      var _, n := FindByPath(path);
      if n == Null {
        return -ENOENT;
      }
      r := RmdirFound(n);
    }

    /** rmdir once the path named `n`. */
    method RmdirFound(n: Handle) returns (r: int)
      requires Valid() && n in st.parent
      modifies this
      ensures Valid() && (r, st) == RmdirAt(old(st), n)
    {
      var root := FilesystemRoot();
      if n == root {
        return -EBUSY;
      }
      var cwd := GetCwdNode();
      r := RmdirChecked(n, cwd);
    }

    /** rmdir's checks once neither the root nor the path is missing; `cwd` is the
        working directory. */
    method RmdirChecked(n: Handle, cwd: Handle) returns (r: int)
      requires Valid() && n in st.parent
      modifies this
      ensures Valid() && (r, st) == RmdirChecks(old(st), n, cwd)
    {
      if n == cwd {
        return -EBUSY;
      }
      var p := ParentNode(n);
      if p != Null && st.inode[p].mode & ANY_WRITE == 0 {
        return -EACCES;
      }
      if st.inode[n].kind != Dir {
        return -ENOTDIR;
      }
      if st.child[n] != Null {
        return -ENOTEMPTY;
      }
      ghost var s0 := st;
      assert RmdirChecks(s0, n, cwd) == (0, Unlinked(s0, n));
      UnlinkInode(n);
      r := 0;
    }

    /** unlink(2). */
    method Unlink(path: string) returns (r: int)
      requires Valid()
      modifies this
      ensures Valid() && (r, st) == UnlinkSpec(old(st), path)
    {
      var e := CheckPath(path);
      if e != 0 {
        return -e;
      }
      var _, n := FindByPath(path);
      if n == Null {
        return -ENOENT;
      }
      r := UnlinkFound(n);
    }

    /** unlink once the path named `n`. */
    method UnlinkFound(n: Handle) returns (r: int)
      requires Valid() && n in st.parent
      modifies this
      ensures Valid() && (r, st) == UnlinkAt(old(st), n)
    {
      var p := ParentNode(n);
      if p != Null && st.inode[p].mode & ANY_WRITE == 0 {
        return -EACCES;
      }
      r := UnlinkChecked(n);
    }

    /** unlink's checks on the node, then the removal. */
    method UnlinkChecked(n: Handle) returns (r: int)
      requires Valid() && n in st.parent
      modifies this
      ensures Valid() && (r, st) == UnlinkNode(old(st), n)
    {
      var _ := ParentNode(n);
      if st.inode[n].mode & ANY_WRITE == 0 {
        if st.inode[n].kind == Dir {
          return -EISDIR;
        }
        return -EPERM;
      }
      if st.child[n] != Null {
        return -EISDIR;
      }
      UnlinkInode(n);
      r := 0;
    }

    /** access(2). F_OK is 0, so neither of the source's F_OK tests ever holds and both
        are left out. */
    method Access(path: string, mode: bv32) returns (r: int)
      requires Valid()
      modifies this
      ensures Valid() && (r, st) == AccessSpec(old(st), path, mode)
    {
      var e := CheckPath(path);
      if e != 0 {
        return -e;
      }
      var _, n := FindByPath(path);
      if n == Null {
        return -ENOENT;
      }
      var m := st.inode[n].mode;
      if mode & R_OK != 0 && m & ANY_READ == 0 {
        return -EACCES;
      }
      if mode & W_OK != 0 && m & ANY_WRITE == 0 {
        return -EACCES;
      }
      if mode & X_OK != 0 && m & ANY_EXEC == 0 {
        return -EACCES;
      }
      r := 0;
    }

    /** close(2): the inode releases its fetch and the descriptor is freed. */
    method Close(fd: int) returns (r: int)
      requires Valid()
      modifies this
      ensures Valid() && (r, st) == CloseSpec(old(st), fd)
    {
      if fd !in st.fds {
        return -EBADF;
      }
      var n := st.fds[fd].node;
      if st.inode[n].fetched.Some? {
        SetInode(n, st.inode[n].(fetched := None));
      }
      RemoveFd(fd);
      r := 0;
    }

    /** llseek(2): `result` is what *result receives on success. */
    method LlSeek(fd: int, high: nat, low: nat, whence: nat) returns (r: int, result: int)
      requires Valid() && high < TWO_32 && low < TWO_32
      modifies this
      ensures Valid() && (r, st) == LlSeekSpec(old(st), fd, high, low, whence)
      ensures r == 0 ==> result == st.fds[fd].filePos
    {
      if fd !in st.fds {
        return -EBADF, 0;
      }
      var d := st.fds[fd];
      match Seek(whence, Offset64(high, low), d.filePos, SeekEnd(st.inode[d.node]))
      case Refused(e) =>
        r, result := -e, 0;
      case Moved(newPos) =>
        SetFilePos(fd, newPos);
        r, result := 0, newPos;
    }

    /** readv(2): `out` holds the bytes each buffer receives. */
    method ReadV(fd: int, iov: seq<IoVec>, iovcnt: int) returns (r: int, out: seq<seq<byte>>)
      requires Valid() && WellFormedIov(iov) && (iovcnt >= 0 ==> |iov| == iovcnt)
      modifies this
      ensures Valid() && (r, st, out) == ReadVSpec(old(st), fd, iov, iovcnt)
    {
      if fd !in st.fds {
        return -EBADF, [];
      }
      var d := st.fds[fd];
      var i := st.inode[d.node];
      if i.kind == Dir {
        return -EISDIR, [];
      }
      if i.size > 0 && |i.data| == 0 && i.fetched.None? {
        return 1, [];
      }
      if iovcnt < 0 {
        return -EINVAL, [];
      }
      var ok, _ := CheckIov(iov);
      if !ok {
        return -EINVAL, [];
      }
      var data := if |i.data| > 0 then i.data else if i.fetched.Some? then i.fetched.value else [];
      assert data == Content(i);
      var offset;
      offset, out := Scatter(data, i.size, d.filePos, iov);
      assert Avail(i, d.filePos) == Remaining(data, i.size, d.filePos);
      AdvancedAt(st, fd, offset, Min(|Avail(i, d.filePos)|, TotalLen(iov)));
      SetFilePos(fd, offset);
      r := offset - d.filePos;
      assert r == Min(|Avail(i, d.filePos)|, TotalLen(iov));
    }

    /** writev to descriptor 1 or 2: one print_stream call per entry; the result is
        the sum of the lengths. */
    method WriteConsole(toStdout: bool, iov: seq<IoVec>) returns (written: int)
      requires Valid() && IovOk(iov) && ConsoleFits(st, toStdout, iov, |iov|)
      modifies this
      ensures Valid() && st == PrintedAll(old(st), toStdout, iov, |iov|) && written == TotalLen(iov)
    {
      PrintedAllOk(st, toStdout, iov, |iov|);
      var s;
      s, written := PrintAll(st, toStdout, iov);
      st := s;
    }

    /** writev to a file: the buffer grows when the write passes its capacity, and the
        size moves to the new end only then; the entries are copied in at the position,
        and the position moves past them. */
    method WriteFile(fd: int, iov: seq<IoVec>, total: int)
      requires Valid() && fd in st.fds && IovOk(iov) && total == TotalLen(iov)
      modifies this
      ensures Valid() && st == WrittenAsSource(old(st), fd, iov)
    {
      var d := st.fds[fd];
      var n := d.node;
      var i := st.inode[n];
      var newSize := d.filePos + total;
      var data := i.data;
      var size := i.size;
      if |data| < newSize {
        data := Grown(data, newSize);
        size := newSize;
      }
      data := Gather(data, d.filePos, iov);
      WrittenContentOk(i, d.filePos, Gathered(iov, |iov|));
      WrittenAt(st, fd, iov, data, size, newSize);
      SetInode(n, i.(data := data, size := size));
      SetFilePos(fd, newSize);
    }

    /** writev(2). The console lines must fit the 4096-byte line buffer, which the
        source overruns otherwise. */
    method WriteV(fd: int, iov: seq<IoVec>, iovcnt: int) returns (r: int)
      requires Valid() && WellFormedIov(iov) && (iovcnt >= 0 ==> |iov| == iovcnt)
      requires (fd == 1 || fd == 2) && IovOk(iov) && TotalLen(iov) <= OFF_MAX
        ==> ConsoleFits(st, fd == 1, iov, |iov|)
      modifies this
      ensures Valid() && (r, st) == WriteVSpec(old(st), fd, iov, iovcnt)
    {
      if fd != 1 && fd != 2 && fd !in st.fds {
        return -EBADF;
      }
      if iovcnt < 0 {
        return -EINVAL;
      }
      var ok, total := CheckIov(iov);
      if !ok {
        return -EINVAL;
      }
      if fd == 1 || fd == 2 {
        r := WriteConsole(fd == 1, iov);
      } else {
        WriteFile(fd, iov, total);
        r := total;
      }
    }

    /** write(2): writev of the one buffer. */
    method Write(fd: int, buf: Option<seq<byte>>, count: nat) returns (r: int)
      requires Valid() && count < TWO_32 && (buf.Some? ==> |buf.value| >= count)
      requires (fd == 1 || fd == 2) && IovOk([IoVec(buf, count)]) && count <= OFF_MAX
        ==> ConsoleFits(st, fd == 1, [IoVec(buf, count)], 1)
      modifies this
      ensures Valid() && (r, st) == WriteVSpec(old(st), fd, [IoVec(buf, count)], 1)
    {
      r := WriteV(fd, [IoVec(buf, count)], 1);
    }

    /** getdents64(2) with room for count / sizeof(de) records, the size of a pointer
        as the source computes it: `out` holds the records written. */
    method GetDents64(fd: int, count: nat) returns (r: int, out: seq<Dirent>)
      requires Valid()
      modifies this
      ensures Valid() && (r, st, out) == GetDentsAsSource(old(st), fd, count)
    {
      var cap := count / PTR_SIZE;
      if fd !in st.fds {
        return -EBADF, [];
      }
      var d := st.fds[fd];
      var n := d.node;
      if cap == 0 {
        return -EINVAL, [];
      }
      if st.inode[n].kind != Dir {
        return -ENOTDIR, [];
      }
      var p := ParentNode(n);
      var dotdot := if p != Null then p else n;
      KidsReady(st, n);
      var newPos;
      out, newPos := EmitEntries(st, n, Dirent(n, 0, DIRENT_SIZE, DT_DIR, "."),
                                 Dirent(dotdot, DIRENT_SIZE, DIRENT_SIZE, DT_DIR, ".."), d.filePos, cap);
      assert out == Window(Entries(st, n), d.filePos, cap);
      AdvancedAt(st, fd, newPos, |out| * DIRENT_SIZE);
      SetFilePos(fd, newPos);
      r := newPos - d.filePos;
      assert r == |out| * DIRENT_SIZE;
    }

    /** inode_abspath into a buffer of |buf| characters, for a node of the tree: "/"
        and its terminator for the root, which it recognises by calling
        filesystem_root; otherwise the path written by AbspathWrite. */
    method InodeAbspath(n: Handle, buf: seq<char>) returns (out: seq<char>)
      requires Valid() && n in st.parent && (if n == Root then |buf| >= 2 else |buf| >= 1)
      modifies this
      ensures Valid() && st == RootReset(old(st))
      ensures out == AbspathInto(Abspath(st.parent, st.name, n), n == Root, buf)
    {
      var root := FilesystemRoot();
      if n == root {
        out := "/" + ['\0'] + buf[2..];
      } else {
        AbspathReady(st);
        out := AbspathWrite(st.parent, st.name, n, buf);
      }
    }

    /** getcwd(2): `out` is the buffer's contents afterwards. */
    method GetCwd(buf: Option<seq<char>>, size: nat) returns (r: int, out: seq<char>)
      requires Valid() && (buf.Some? ==> |buf.value| == size) && !GetCwdCrashes(st, buf, size)
      modifies this
      ensures Valid() && (r, st, out) == GetCwdSpec(old(st), buf, size)
    {
      if buf.None? && size > 0 {
        return -EFAULT, [];
      }
      if buf.Some? && size == 0 {
        return -EINVAL, [];
      }
      var cwd := GetCwdNode();
      out := InodeAbspath(cwd, buf.value);
      if StrLen(out) >= size - 1 {
        r := -ERANGE;
      } else {
        r := 0;
      }
    }

    /** create_directory_hierarchy_for_file(root, rel, mode): the walk down the
        existing directories, then the creation of those missing. */
    method CreateDirectoryHierarchy(root: Handle, rel: string, mode: bv32) returns (d: Handle)
      requires Valid() && root in st.parent
      modifies this
      ensures Valid() && (st, d) == Hierarchy(old(st), root, rel, mode)
    {
      TreeWalkable(st.parent, st.child, st.sibling, st.name, st.kids, st.nextHandle);
      var desc := DescendWalk(st.child, st.sibling, st.name, st.kids, root, rel);
      match desc
      case Found(n) =>
        d := n;
      case Stopped(dir, rest) =>
        d := MakeDirs(dir, rest, mode);
    }

    /** The second loop of create_directory_hierarchy_for_file: while the rest of the
        path has not reached its basename, one directory per component, each linked
        under the one before. */
    method MakeDirs(dir: Handle, rest: string, mode: bv32) returns (d: Handle)
      requires Valid() && dir in st.parent
      modifies this
      ensures Valid() && (st, d) == MadeDirs(old(st), dir, DirComponents(rest, |BasenamePart(rest)|), mode)
    {
      var b := Basename(rest);
      ghost var goal := MadeDirs(st, dir, DirComponents(rest, |rest| - b), mode);
      var k := 0;
      d := dir;
      while k < |rest| && k < b
        invariant Valid() && d in st.parent && k <= |rest|
        invariant MadeDirs(st, d, DirComponents(rest[k..], |rest| - b), mode) == goal
        decreases |rest| - k
      {
        ghost var before := MadeDirs(st, d, DirComponents(rest[k..], |rest| - b), mode);
        d, k := MakeDir(d, rest, b, k, mode);
        assert MadeDirs(st, d, DirComponents(rest[k..], |rest| - b), mode) == before;
      }
      assert DirComponents(rest[k..], |rest| - b) == [];
    }

    /** One round of that loop: the component of `rest` at `k` becomes a directory
        under `d`, and the scan moves past it and its '/'. */
    method MakeDir(d: Handle, rest: string, b: nat, k: nat, mode: bv32) returns (n: Handle, next: nat)
      requires Valid() && d in st.parent && k < |rest| && k < b <= |rest| && rest[b..] == BasenamePart(rest)
      modifies this
      ensures Valid() && n in st.parent && k < next <= |rest|
      ensures MadeDirs(st, n, DirComponents(rest[next..], |rest| - b), mode)
        == MadeDirs(old(st), d, DirComponents(rest[k..], |rest| - b), mode)
    {
      SlashBeforeBasename(rest, rest[k..]);
      var nm, len := CopyInodeName(rest[k..]);
      next := k + len + 1;
      DirComponentsFrom(rest, k, next, |rest| - b);
      n := NewDirUnder(d, nm, mode, DirComponents(rest[k..], |rest| - b));
    }

    /** The directory `nm`, the first of `names`, created and linked under `d`. */
    method NewDirUnder(d: Handle, nm: string, mode: bv32, ghost names: seq<string>) returns (n: Handle)
      requires Valid() && d in st.parent && names != [] && names[0] == nm
      requires forall i :: 0 <= i < |names| ==> '/' !in names[i]
      modifies this
      ensures Valid() && n in st.parent
      ensures MadeDirs(st, n, names[1..], mode) == MadeDirs(old(st), d, names, mode)
    {
      n := CreateInode(Dir, mode, nm);
      LinkInode(n, d);
    }

    /** open's new descriptor for `n`, under the next descriptor number. */
    method AddDescriptor(n: Handle, flags: bv32, mode: bv32) returns (fd: int)
      requires Valid() && n in st.inode
      modifies this
      ensures Valid() && (fd, st) == Opened(old(st), n, flags, mode)
    {
      var t := st;
      OpenedOk(t, n, flags, mode);
      var res := Opened(t, n, flags, mode);
      fd, st := res.0, res.1;
    }

    /** open's new entry for a path it did not find: the missing directories, then the
        inode named `nm`, taking over `fetch` if there is one, linked under the last
        directory. */
    method AddEntry(root: Handle, rel: string, nm: string, kind: Kind, mode: bv32, fetch: Option<seq<byte>>)
      returns (n: Handle)
      requires Valid() && root in st.parent && '/' !in nm
      modifies this
      ensures Valid() && (st, n) == NewEntry(old(st), root, rel, nm, kind, mode, fetch)
    {
      var d := CreateDirectoryHierarchy(root, rel, mode);
      var i := if fetch.Some? then WithFetch(FreshInode(kind, mode), fetch.value) else FreshInode(kind, mode);
      n := CreateNode(i, nm);
      LinkInode(n, d);
    }

    /** create_inode, then the caller's settings of the new inode `i` and its name. */
    method CreateNode(i: Inode, nm: string) returns (n: Handle)
      requires Valid() && '/' !in nm && ContentOk(i)
      modifies this
      ensures Valid() && n == old(st.nextHandle) && n in st.parent && st.parent[n] == Null && n != Root
      ensures st == Created(old(st), i, nm)
    {
      var t := st;
      CreatedOk(t, i, nm);
      n := t.nextHandle;
      st := Created(t, i, nm);
    }

    /** open of an existing inode that passed the checks. */
    method OpenExisting(n: Handle, flags: bv32, mode: bv32, remote: Fetch) returns (r: int)
      requires Valid() && n in st.parent && !FoundCrashes(st.inode[n], flags, remote)
      modifies this
      ensures Valid() && (r, st) == OpenFound(old(st), n, flags, mode, remote)
    {
      var i := st.inode[n];
      if Creates(flags) {
        SetInode(n, Truncated(i));
      } else if i.fetched.None? && |i.data| == 0 {
        if FetchAttempted(flags) && !FetchOk(remote) {
          return -ENOENT;
        }
        SetInode(n, WithFetch(i, remote.bytes));
        var _ := FilesystemRoot();
      }
      r := AddDescriptor(n, flags, mode);
    }

    /** open of a path it did not find, from the start directory `root`. */
    method OpenAbsent(root: Handle, path: string, flags: bv32, mode: bv32, remote: Fetch) returns (r: int)
      requires Valid() && root in st.parent
      modifies this
      ensures Valid() && (r, st) == OpenMissing(old(st), root, path, flags, mode, remote)
    {
      var b := Basename(path);
      var nm := path[b..];
      var rel := RelPath(path);
      if Creates(flags) {
        var m := AddEntry(root, rel, nm, NewKind(flags), mode, None);
        r := AddDescriptor(m, flags, mode);
      } else if FetchAttempted(flags) && !FetchOk(remote) {
        r := -ENOENT;
      } else if flags & O_CREAT != 0 || FetchAttempted(flags) {
        var fetch := if FetchAttempted(flags) then Some(remote.bytes) else None;
        var m := AddEntry(root, rel, nm, NewKind(flags), mode, fetch);
        var _ := FilesystemRoot();
        r := AddDescriptor(m, flags, mode);
      } else {
        r := -ENOENT;
      }
    }

    /** open(2): the flag checks, the path checks, the lookup from the start
        directory, the checks of an inode found, then the open proper. */
    method Open(path: string, flags: bv32, mode: bv32, remote: Fetch) returns (r: int)
      requires Valid() && !OpenCrashes(st, path, flags, remote)
      modifies this
      ensures Valid() && (r, st) == OpenSpec(old(st), path, flags, mode, remote)
    {
      var fe := OpenFlagsError(flags);
      if fe != 0 {
        return -fe;
      }
      var e := CheckPath(path);
      if e != 0 {
        return -e;
      }
      var root, n := FindByPath(path);
      if n == Null {
        r := OpenAbsent(root, path, flags, mode, remote);
        return;
      }
      var ee := ExistingError(st.inode[n], flags);
      if ee != 0 {
        return -ee;
      }
      r := OpenExisting(n, flags, mode, remote);
    }
  }
}
