/** The syscalls as functions from the state before to the result and the state after,
    each following its source function branch by branch. */
module FsCalls {
  import opened Wrappers
  import opened Posix
  import opened Paths
  import opened Buffers
  import opened Tree
  import opened Lookup
  import opened FsState
  import opened FsSteps

  // open(2)

  /** The inputs on which open, having found `n` without a buffer or a fetch and not
      creating, dereferences a fetch that is not there: the path was not fetched for
      these flags, or `n` is a directory (which never takes over a fetch). */
  predicate FoundCrashes(i: Inode, flags: bv32, remote: Fetch)
  {
    && !Creates(flags)
    && i.fetched.None? && |i.data| == 0
    && (FetchAttempted(flags) ==> FetchOk(remote))
    && (!FetchAttempted(flags) || i.kind == Dir)
  }

  /** The inputs on which open crashes: the path names an inode that passes the checks
      of an existing inode and `FoundCrashes` holds of it. */
  ghost predicate OpenCrashes(s: State, path: string, flags: bv32, remote: Fetch)
    requires StateOk(s)
  {
    if OpenFlagsError(flags) != 0 || PathError(path) != 0 then false
    else
      StartedOk(s, path);
      var n := FindPath(s, path);
      n != Null && ExistingError(Started(s, path).inode[n], flags) == 0
      && FoundCrashes(Started(s, path).inode[n], flags, remote)
  }

  /** The tail of open that adds an entry for a path it did not find: the missing
      directories, then a new inode named `nm` (taking over `fetch`, if any), linked
      under the last directory. */
  ghost function NewEntry(s: State, root: Handle, rel: string, nm: string, kind: Kind, mode: bv32,
                          fetch: Option<seq<byte>>): (r: (State, Handle))
    requires StateOk(s) && root in s.parent && '/' !in nm
    ensures StateOk(r.0) && r.1 in r.0.parent
  {
    var (s2, d) := Hierarchy(s, root, rel, mode);
    var n := s2.nextHandle;
    var i := if fetch.Some? then WithFetch(FreshInode(kind, mode), fetch.value) else FreshInode(kind, mode);
    CreatedOk(s2, i, nm);
    var s3 := Created(s2, i, nm);
    RootResetOk(s3);
    LinkedOk(RootReset(s3), n, d);
    (Linked(RootReset(s3), n, d), n)
  }

  /** open of an existing inode `n` that passed the checks, from state `s1` after the
      start directory was chosen. */
  function OpenFound(s1: State, n: Handle, flags: bv32, mode: bv32, remote: Fetch): (r: (int, State))
    requires StateOk(s1) && n in s1.parent && !FoundCrashes(s1.inode[n], flags, remote)
  {
    var i := s1.inode[n];
    if Creates(flags) then Opened(s1.(inode := s1.inode[n := Truncated(i)]), n, flags, mode)
    else if i.fetched.None? && |i.data| == 0 then
      if FetchAttempted(flags) && !FetchOk(remote) then (-ENOENT, s1)
      else Opened(RootReset(s1.(inode := s1.inode[n := WithFetch(i, remote.bytes)])), n, flags, mode)
    else Opened(s1, n, flags, mode)
  }

  /** open of a path that does not exist, from state `s1` after the start directory
      `root` was chosen: created, fetched from the server, or ENOENT. */
  ghost function OpenMissing(s1: State, root: Handle, path: string, flags: bv32, mode: bv32, remote: Fetch): (r: (int, State))
    requires StateOk(s1) && root in s1.parent
  {
    var nm := BasenamePart(path);
    if Creates(flags) then
      var (s2, m) := NewEntry(s1, root, RelPath(path), nm, NewKind(flags), mode, None);
      Opened(s2, m, flags, mode)
    else if FetchAttempted(flags) && !FetchOk(remote) then (-ENOENT, s1)
    else if flags & O_CREAT != 0 || FetchAttempted(flags) then
      var fetch := if FetchAttempted(flags) then Some(remote.bytes) else None;
      var (s2, m) := NewEntry(s1, root, RelPath(path), nm, NewKind(flags), mode, fetch);
      RootResetOk(s2);
      Opened(RootReset(s2), m, flags, mode)
    else (-ENOENT, s1)
  }

  /** open(pathname, flags, mode), with `remote` the answer a fetch of the path gets.
      The result is the new descriptor or a negated errno. */
  ghost function OpenSpec(s: State, path: string, flags: bv32, mode: bv32, remote: Fetch): (r: (int, State))
    requires StateOk(s) && !OpenCrashes(s, path, flags, remote)
  {
    if OpenFlagsError(flags) != 0 then (-OpenFlagsError(flags), s)
    else if PathError(path) != 0 then (-PathError(path), s)
    else
      StartedOk(s, path);
      var s1 := Started(s, path);
      var n := FindPath(s, path);
      if n == Null then OpenMissing(s1, StartDir(s, path), path, flags, mode, remote)
      else if ExistingError(s1.inode[n], flags) != 0 then (-ExistingError(s1.inode[n], flags), s1)
      else OpenFound(s1, n, flags, mode, remote)
  }

  // close(2), llseek(2)

  function CloseSpec(s: State, fd: int): (r: (int, State))
    requires StateOk(s)
  {
    if fd !in s.fds then (-EBADF, s) else (0, Closed(s, fd))
  }

  /** llseek: the result and the state; on success the new position is also what
      `*result` receives. */
  function LlSeekSpec(s: State, fd: int, high: nat, low: nat, whence: nat): (r: (int, State))
    requires StateOk(s) && high < TWO_32 && low < TWO_32
  {
    if fd !in s.fds then (-EBADF, s)
    else
      var d := s.fds[fd];
      match Seek(whence, Offset64(high, low), d.filePos, SeekEnd(s.inode[d.node]))
      case Moved(p) => (0, Repositioned(s, fd, p))
      case Refused(e) => (-e, s)
  }

  // readv(2), writev(2)

  /** readv: the result, the state, and the bytes copied into each buffer (nothing on
      an error). */
  function ReadVSpec(s: State, fd: int, iov: seq<IoVec>, iovcnt: int): (r: (int, State, seq<seq<byte>>))
    requires StateOk(s) && WellFormedIov(iov) && (iovcnt >= 0 ==> |iov| == iovcnt)
  {
    if fd !in s.fds then (-EBADF, s, [])
    else
      var d := s.fds[fd];
      var i := s.inode[d.node];
      if i.kind == Dir then (-EISDIR, s, [])
      else if NoBytes(i) then (1, s, [])
      else if iovcnt < 0 then (-EINVAL, s, [])
      else if !(TotalLen(iov) <= OFF_MAX && NoNullBuffers(iov)) then (-EINVAL, s, [])
      else
        var avail := Avail(i, d.filePos);
        var n := Min(|avail|, TotalLen(iov));
        (n, Advanced(s, fd, n), Chunks(avail, iov, |iov|))
  }


  /** writev: descriptors 1 and 2 print to the console, any other writes the file. */
  function WriteVSpec(s: State, fd: int, iov: seq<IoVec>, iovcnt: int): (r: (int, State))
    requires StateOk(s) && WellFormedIov(iov) && (iovcnt >= 0 ==> |iov| == iovcnt)
  {
    if fd != 1 && fd != 2 && fd !in s.fds then (-EBADF, s)
    else if iovcnt < 0 then (-EINVAL, s)
    else if !(TotalLen(iov) <= OFF_MAX && NoNullBuffers(iov)) then (-EINVAL, s)
    else if fd == 1 || fd == 2 then (TotalLen(iov), PrintedAll(s, fd == 1, iov, |iov|))
    else (TotalLen(iov), WrittenAsSource(s, fd, iov))
  }

  // The path syscalls

  /** chdir: the path must name a directory, which becomes the working directory. */
  function ChdirSpec(s: State, path: string): (r: (int, State))
    requires StateOk(s)
  {
    if PathError(path) != 0 then (-PathError(path), s)
    else
      StartedOk(s, path);
      var s1 := Started(s, path);
      var n := FindPath(s, path);
      if n == Null then (-ENOENT, s1)
      else if s1.inode[n].kind != Dir then (-ENOTDIR, s1)
      else (0, s1.(cwd := n))
  }

  /** chmod: only a directory's mode can be set. */
  function ChmodSpec(s: State, path: string, mode: bv32): (r: (int, State))
    requires StateOk(s)
  {
    if PathError(path) != 0 then (-PathError(path), s)
    else
      StartedOk(s, path);
      var s1 := Started(s, path);
      var n := FindPath(s, path);
      if n == Null then (-ENOENT, s1)
      else if s1.inode[n].kind != Dir then (-ENOTDIR, s1)
      else (0, s1.(inode := s1.inode[n := s1.inode[n].(mode := mode)]))
  }

  /** mkdir once the parent `p` is known: null is ENOENT; a basename find_inode finds in
      `p` is EEXIST; a parent without write permission is EACCES; otherwise a new
      directory named by the basename is linked under `p`. */
  function MkdirUnder(s1: State, p: Handle, path: string, mode: bv32): (r: (int, State))
    requires StateOk(s1) && (p == Null || p in s1.parent)
  {
    var b := BasenamePart(path);
    if p == Null then (-ENOENT, s1)
    else if Find(s1, p, b) != Null then (-EEXIST, s1)
    else if !Writable(s1.inode[p].mode) then (-EACCES, s1)
    else
      CreatedOk(s1, FreshInode(Dir, mode), b);
      RootResetOk(Created(s1, FreshInode(Dir, mode), b));
      (0, Linked(RootReset(Created(s1, FreshInode(Dir, mode), b)), s1.nextHandle, p))
  }

  /** mkdir(pathname, mode) with the corrected parent lookup. */
  function MkdirSpec(s: State, path: string, mode: bv32): (r: (int, State))
    requires StateOk(s)
  {
    if PathError(path) != 0 then (-PathError(path), s)
    else
      StartedOk(s, path);
      MkdirUnder(Started(s, path), ParentDir(s, StartDir(s, path), RelPath(path)), path, mode)
  }

  /** mkdir(pathname, mode) with find_parent_inode as the source writes it. */
  function MkdirAsSource(s: State, path: string, mode: bv32): (r: (int, State))
    requires StateOk(s)
  {
    if PathError(path) != 0 then (-PathError(path), s)
    else
      StartedOk(s, path);
      MkdirUnder(Started(s, path), FindParent(s, StartDir(s, path), RelPath(path)), path, mode)
  }

  /** A path whose last component is ".". */
  predicate DotLast(path: string)
  {
    path == "." || (|path| >= 2 && path[|path| - 2..] == "/.")
  }

  /** A path whose last component is "..". */
  predicate DotDotLast(path: string)
  {
    path == ".." || (|path| >= 3 && path[|path| - 3..] == "/..")
  }

  /** rmdir: refuses ".", "..", the root, the working directory, a parent without
      write permission, a file and a directory with children; otherwise unlinks. */
  function RmdirSpec(s: State, path: string): (r: (int, State))
    requires StateOk(s)
  {
    if PathError(path) != 0 then (-PathError(path), s)
    else if DotLast(path) then (-EINVAL, s)
    else if DotDotLast(path) then (-ENOTEMPTY, s)
    else RmdirLookup(s, path)
  }

  /** rmdir once the path passed its checks: find_inode, then the checks on the node. */
  function RmdirLookup(s: State, path: string): (r: (int, State))
    requires StateOk(s)
  {
    StartedOk(s, path);
    var s1 := Started(s, path);
    var n := FindPath(s, path);
    if n == Null then (-ENOENT, s1) else RmdirAt(s1, n)
  }

  /** rmdir of the inode `n` the path names: the root is busy; otherwise get_cwd runs and
      the remaining checks follow. */
  function RmdirAt(s1: State, n: Handle): (r: (int, State))
    requires StateOk(s1) && n in s1.parent
  {
    if n == Root then (-EBUSY, RootReset(s1))
    else
      RootResetOk(s1);
      GetCwdOk(RootReset(s1));
      RmdirChecks(CwdSet(RootReset(s1)), n, Cwd(RootReset(s1)))
  }

  /** rmdir's checks after the root's: `n` is neither the root nor null, and `cwd` is
      the working directory get_cwd returned. */
  function RmdirChecks(s3: State, n: Handle, cwd: Handle): (r: (int, State))
    requires StateOk(s3) && n in s3.parent
  {
    if n == cwd then (-EBUSY, s3)
    else
      AbspathReady(s3);
      var p := s3.parent[n];
      if p != Null && !Writable(s3.inode[p].mode) then (-EACCES, s3)
      else if s3.inode[n].kind != Dir then (-ENOTDIR, s3)
      else if s3.child[n] != Null then (-ENOTEMPTY, s3)
      else (0, Unlinked(s3, n))
  }

  /** unlink: refuses a parent without write permission, a node without write
      permission (EISDIR for a directory, EPERM for a file) and a node with children;
      otherwise unlinks, directories included. */
  function UnlinkSpec(s: State, path: string): (r: (int, State))
    requires StateOk(s)
  {
    if PathError(path) != 0 then (-PathError(path), s)
    else
      StartedOk(s, path);
      var n := FindPath(s, path);
      if n == Null then (-ENOENT, Started(s, path)) else UnlinkAt(Started(s, path), n)
  }

  /** unlink of the inode `n` the path names. */
  function UnlinkAt(s1: State, n: Handle): (r: (int, State))
    requires StateOk(s1) && n in s1.parent
  {
    AbspathReady(s1);
    var p := s1.parent[n];
    if p != Null && !Writable(s1.inode[p].mode) then (-EACCES, s1)
    else UnlinkNode(s1, n)
  }

  /** unlink's checks on the node itself, once its parent allows the removal. */
  function UnlinkNode(s1: State, n: Handle): (r: (int, State))
    requires StateOk(s1) && n in s1.parent
  {
    AbspathReady(s1);
    if !Writable(s1.inode[n].mode) then (if s1.inode[n].kind == Dir then -EISDIR else -EPERM, s1)
    else if s1.child[n] != Null then (-EISDIR, s1)
    else (0, Unlinked(s1, n))
  }

  /** access: each requested permission needs one of its three mode bits. */
  function AccessSpec(s: State, path: string, mode: bv32): (r: (int, State))
    requires StateOk(s)
  {
    if PathError(path) != 0 then (-PathError(path), s)
    else
      StartedOk(s, path);
      var s1 := Started(s, path);
      var n := FindPath(s, path);
      if n == Null then (-ENOENT, s1)
      else
        var m := s1.inode[n].mode;
        if mode & R_OK != 0 && !Readable(m) then (-EACCES, s1)
        else if mode & W_OK != 0 && !Writable(m) then (-EACCES, s1)
        else if mode & X_OK != 0 && !Executable(m) then (-EACCES, s1)
        else (0, s1)
  }

  // getdents64(2), getcwd(2)

  /** getdents64 with room for `cap` records: the records from the descriptor's
      position on, at most `cap` of them, and the position moves past them. */
  function DentsWithRoom(s: State, fd: int, cap: nat): (r: (int, State, seq<Dirent>))
    requires StateOk(s)
  {
    if fd !in s.fds then (-EBADF, s, [])
    else if cap == 0 then (-EINVAL, s, [])
    else
      var d := s.fds[fd];
      if s.inode[d.node].kind != Dir then (-ENOTDIR, s, [])
      else
        var out := Window(Entries(s, d.node), d.filePos, cap);
        (|out| * DIRENT_SIZE, Advanced(s, fd, |out| * DIRENT_SIZE), out)
  }

  /** getdents64(fd, dirp, count): room for count / sizeof(struct dirent) records. */
  function GetDentsSpec(s: State, fd: int, count: nat): (r: (int, State, seq<Dirent>))
    requires StateOk(s)
  {
    DentsWithRoom(s, fd, count / DIRENT_SIZE)
  }

  /** getdents64 as the source computes the room: count / sizeof(de), the size of a
      pointer, not of a record. */
  function GetDentsAsSource(s: State, fd: int, count: nat): (r: (int, State, seq<Dirent>))
    requires StateOk(s)
  {
    DentsWithRoom(s, fd, count / PTR_SIZE)
  }

  /** The inputs on which getcwd writes through a null pointer or past a one-byte
      buffer. */
  ghost predicate GetCwdCrashes(s: State, buf: Option<seq<char>>, size: nat)
  {
    (buf.None? && size == 0) || (buf.Some? && size == 1 && Cwd(s) == Root)
  }

  /** getcwd(buf, size): the result, the state, and the buffer's contents afterwards. */
  function GetCwdSpec(s: State, buf: Option<seq<char>>, size: nat): (r: (int, State, seq<char>))
    requires StateOk(s) && (buf.Some? ==> |buf.value| == size) && !GetCwdCrashes(s, buf, size)
  {
    if buf.None? && size > 0 then (-EFAULT, s, [])
    else if buf.Some? && size == 0 then (-EINVAL, s, [])
    else
      GetCwdOk(s);
      AbspathReady(s);
      var c := Cwd(s);
      var out := AbspathInto(Abspath(s.parent, s.name, c), c == Root, buf.value);
      (if StrLen(out) >= size - 1 then -ERANGE else 0, RootReset(CwdSet(s)), out)
  }
}
