/** What the syscalls promise their callers, stated on the functions that specify them:
    which inputs each refuses and with which errno, that a refusal leaves the state as
    it was, and what a successful call does to the descriptor, the inode or the tree. */
module CallProps {
  import opened Wrappers
  import opened Posix
  import opened Paths
  import opened Buffers
  import opened Tree
  import opened Lookup
  import opened FsState
  import opened FsSteps
  import opened FsCalls
  import opened FsProps

  // llseek(2)

  /** Where llseek means to put the position: the offset itself for SEEK_SET, the
      position plus the offset for SEEK_CUR, the end plus the offset for SEEK_END. */
  function SeekTarget(whence: nat, offset: int, cur: int, end: int): int
  {
    if whence == SEEK_SET then offset else if whence == SEEK_CUR then cur + offset else end + offset
  }

  /** Seek without wrap-around moves to the target exactly when it lies in 0..0x7FFFFFFF. */
  lemma SeekLands(whence: nat, offset: int, cur: int, end: int)
    requires whence <= 2
    requires -TWO_63 <= offset < TWO_63 - TWO_32 && 0 <= cur <= OFF_MAX && 0 <= end < TWO_32
    ensures var t := SeekTarget(whence, offset, cur, end);
      && (0 <= t <= OFF_MAX ==> Seek(whence, offset, cur, end) == Moved(t))
      && (t < 0 ==> Seek(whence, offset, cur, end) == Refused(EINVAL))
      && (t > OFF_MAX ==> Seek(whence, offset, cur, end) == Refused(EOVERFLOW))
  {
    SeekExact(whence, offset, cur, end);
  }

  /** llseek lands where `whence` says: SEEK_SET at the offset, SEEK_CUR that far from
      the position, SEEK_END that far from the end (an owned fetch's length, else the
      size). A target below 0 is EINVAL and one past 0x7FFFFFFF is EOVERFLOW, and both
      leave the state as it was. */
  lemma LlSeekPosition(s: State, fd: int, high: nat, low: nat, whence: nat)
    requires StateOk(s) && high < TWO_32 && low < TWO_32 && fd in s.fds && whence <= 2
    requires Offset64(high, low) < TWO_63 - TWO_32
    requires s.fds[fd].filePos <= OFF_MAX && SeekEnd(s.inode[s.fds[fd].node]) < TWO_32
    ensures var d := s.fds[fd];
      var target := SeekTarget(whence, Offset64(high, low), d.filePos, SeekEnd(s.inode[d.node]));
      var r := LlSeekSpec(s, fd, high, low, whence);
      && (0 <= target <= OFF_MAX ==> r == (0, Repositioned(s, fd, target)))
      && (target < 0 ==> r == (-EINVAL, s))
      && (target > OFF_MAX ==> r == (-EOVERFLOW, s))
  {
    var d := s.fds[fd];
    SeekLands(whence, Offset64(high, low), d.filePos, SeekEnd(s.inode[d.node]));
  }

  /** llseek refuses an unknown descriptor with EBADF and a whence past SEEK_END with
      EINVAL; every refusal is EBADF, EINVAL or EOVERFLOW and leaves the state as it
      was, and a success moves only the descriptor's position, to at most 0x7FFFFFFF. */
  lemma LlSeekRefusals(s: State, fd: int, high: nat, low: nat, whence: nat)
    requires StateOk(s) && high < TWO_32 && low < TWO_32
    ensures var r := LlSeekSpec(s, fd, high, low, whence);
      && (fd !in s.fds ==> r == (-EBADF, s))
      && (fd in s.fds && whence > 2 ==> r == (-EINVAL, s))
      && (r.0 != 0 ==> r.1 == s && r.0 in {-EBADF, -EINVAL, -EOVERFLOW})
      && (r.0 == 0 ==> fd in s.fds && fd in r.1.fds && 0 <= r.1.fds[fd].filePos <= OFF_MAX
                       && r.1 == Repositioned(s, fd, r.1.fds[fd].filePos))
  {
  }

  // readv(2)

  /** readv refuses an unknown descriptor (EBADF), a directory (EISDIR), a negative
      count and a null buffer of positive length (EINVAL), each without changing the
      state or filling a buffer; a size with no bytes behind it gives 1 and changes
      nothing either. */
  lemma ReadVRefusals(s: State, fd: int, iov: seq<IoVec>, iovcnt: int)
    requires StateOk(s) && WellFormedIov(iov) && (iovcnt >= 0 ==> |iov| == iovcnt)
    ensures var r := ReadVSpec(s, fd, iov, iovcnt);
      && (fd !in s.fds ==> r.0 == -EBADF)
      && (fd in s.fds && s.inode[s.fds[fd].node].kind == Dir ==> r.0 == -EISDIR)
      && ((fd in s.fds && s.inode[s.fds[fd].node].kind == File && !NoBytes(s.inode[s.fds[fd].node])
           && (iovcnt < 0 || !NoNullBuffers(iov))) ==> r.0 == -EINVAL)
      && (r.0 < 0 || (fd in s.fds && NoBytes(s.inode[s.fds[fd].node])) ==> r.1 == s && r.2 == [])
  {
  }

  /** A readv that succeeds reads n = min(max(size - position, 0), total length) bytes:
      the buffers, in order, receive the file's bytes from the position on, n of them,
      and the position advances by exactly n. */
  lemma ReadVCopies(s: State, fd: int, iov: seq<IoVec>)
    requires StateOk(s) && fd in s.fds && WellFormedIov(iov) && NoNullBuffers(iov) && TotalLen(iov) <= OFF_MAX
    requires s.inode[s.fds[fd].node].kind == File && !NoBytes(s.inode[s.fds[fd].node])
    ensures var d := s.fds[fd];
      var i := s.inode[d.node];
      var r := ReadVSpec(s, fd, iov, |iov|);
      && r.0 == Min(Max(i.size - d.filePos, 0), TotalLen(iov))
      && r.1 == Advanced(s, fd, r.0)
      && Delivered(i, d.filePos, r.0, r.2)
  {
    var d := s.fds[fd];
    var i := s.inode[d.node];
    var r := ReadVSpec(s, fd, iov, |iov|);
    ReadVReads(s, fd, iov);
    ReadChunks(i, d.filePos, iov, r.0, r.2);
  }

  /** The buffers `out` of a read of `n` bytes at `pos` hold, one after the other, the
      content's bytes from `pos` on, n of them. */
  predicate Delivered(i: Inode, pos: int, n: int, out: seq<seq<byte>>)
  {
    && (n == 0 ==> Flatten(out) == [])
    && (n > 0 ==> 0 <= pos && pos + n <= |Content(i)| && Flatten(out) == Content(i)[pos..pos + n])
  }

  /** What the buffers of a read at `pos` receive, together: the content's bytes from
      `pos` on, as many as the file has left and the buffers hold. */
  lemma ReadChunks(i: Inode, pos: nat, iov: seq<IoVec>, n: int, out: seq<seq<byte>>)
    requires ContentOk(i) && !NoBytes(i)
    requires n == Min(|Avail(i, pos)|, TotalLen(iov)) && out == Chunks(Avail(i, pos), iov, |iov|)
    ensures n == Min(Max(i.size - pos, 0), TotalLen(iov)) && Delivered(i, pos, n, out)
  {
    ReadAvail(i, pos, TotalLen(iov));
    ChunksGather(Avail(i, pos), iov, |iov|);
  }

  /** The first n bytes a read at `pos` can see are the content's bytes from `pos` on. */
  lemma ReadAvail(i: Inode, pos: nat, total: nat)
    requires ContentOk(i) && !NoBytes(i)
    ensures var n := Min(|Avail(i, pos)|, total);
      n > 0 ==> pos + n <= |Content(i)| && Avail(i, pos)[..n] == Content(i)[pos..pos + n]
  {
    var n := Min(|Avail(i, pos)|, total);
    if pos < i.size {
      assert Avail(i, pos) == Content(i)[pos..i.size];
      assert Content(i)[pos..i.size][..n] == Content(i)[pos..pos + n];
    }
  }

  // writev(2), write(2)

  /** writev refuses a descriptor that is neither the console nor open (EBADF), a
      negative count, a null buffer of positive length and a total past 0x7FFFFFFF
      (EINVAL), each leaving the state as it was. */
  lemma WriteVRefusals(s: State, fd: int, iov: seq<IoVec>, iovcnt: int)
    requires StateOk(s) && WellFormedIov(iov) && (iovcnt >= 0 ==> |iov| == iovcnt)
    ensures var r := WriteVSpec(s, fd, iov, iovcnt);
      && (fd != 1 && fd != 2 && fd !in s.fds ==> r.0 == -EBADF)
      && ((fd == 1 || fd == 2 || fd in s.fds) && (iovcnt < 0 || !NoNullBuffers(iov) || TotalLen(iov) > OFF_MAX)
          ==> r.0 == -EINVAL)
      && (r.0 < 0 ==> r.1 == s)
      && (r.0 >= 0 ==> r.0 == TotalLen(iov))
  {
  }

  /** writev on a file returns the total length and advances the position by it; the
      bytes land at the old position, the bytes of the buffer before it stay, the
      capacity changes only when the write passes it, to the larger of the new end and
      1.25 times the old capacity, and the size becomes the new end when the capacity
      changed and stays as it was otherwise. Nothing but that inode and that descriptor
      changes. */
  lemma WriteVFile(s: State, fd: int, iov: seq<IoVec>)
    requires StateOk(s) && fd in s.fds && IovOk(iov) && TotalLen(iov) <= OFF_MAX
    ensures var d := s.fds[fd];
      var i := s.inode[d.node];
      var newPos := d.filePos + TotalLen(iov);
      var r := WriteVSpec(s, fd, iov, |iov|);
      var j := r.1.inode[d.node];
      && r.0 == TotalLen(iov)
      && fd in r.1.fds && r.1.fds[fd] == d.(filePos := newPos)
      && r.1 == s.(inode := s.inode[d.node := j], fds := s.fds[fd := r.1.fds[fd]])
      && |j.data| >= newPos && j.data[d.filePos..newPos] == Gathered(iov, |iov|)
      && j.data[..Min(d.filePos, |i.data|)] == i.data[..Min(d.filePos, |i.data|)]
      && (|i.data| < newPos ==> j.size == newPos) && (|i.data| >= newPos ==> j.size == i.size)
      && |j.data| == (if |i.data| < newPos then Max(newPos, |i.data| + |i.data| / 4) else |i.data|)
      && j.kind == i.kind && j.mode == i.mode && j.fetched == i.fetched
  {
    var d := s.fds[fd];
    assert |Gathered(iov, |iov|)| == TotalLen(iov);
    OverwrittenHolds(s.inode[d.node], d.filePos, Gathered(iov, |iov|));
  }

  // The path syscalls

  /** Every path syscall refuses an empty path with ENOENT and one longer than
      MAX_PATHNAME_LENGTH with ENAMETOOLONG, before it touches anything. */
  lemma PathRefused(s: State, path: string, mode: bv32)
    requires StateOk(s) && PathError(path) != 0
    ensures var e := -PathError(path);
      && (path == [] ==> e == -ENOENT) && (|path| > MAX_PATHNAME_LENGTH ==> e == -ENAMETOOLONG)
      && ChdirSpec(s, path) == (e, s) && ChmodSpec(s, path, mode) == (e, s)
      && MkdirSpec(s, path, mode) == (e, s) && MkdirAsSource(s, path, mode) == (e, s)
      && RmdirSpec(s, path) == (e, s) && UnlinkSpec(s, path) == (e, s) && AccessSpec(s, path, mode) == (e, s)
  {
  }

  /** chdir succeeds exactly when the path names a directory, which becomes the working
      directory; a refusal is ENOENT or ENOTDIR and keeps the working directory. The
      tree and the descriptors never change. */
  lemma ChdirMoves(s: State, path: string)
    requires StateOk(s) && PathError(path) == 0
    ensures var r := ChdirSpec(s, path);
      var n := FindPath(s, path);
      && (r.0 == 0 <==> n != Null && s.inode[n].kind == Dir)
      && (r.0 == 0 ==> r.1.cwd == n)
      && (r.0 != 0 ==> Cwd(r.1) == Cwd(s) && (r.0 == -ENOENT || r.0 == -ENOTDIR))
      && r.1.parent == s.parent && r.1.kids == s.kids && r.1.name == s.name && r.1.fds == s.fds
  {
    StartedOk(s, path);
  }

  /** chmod sets the mode of a directory and refuses a file with ENOTDIR. Apart from
      choosing the start directory (which resets the root's mode to 0777 and may set
      the working directory), a refusal changes nothing and a success changes only the
      mode of the node named. */
  lemma ChmodSetsMode(s: State, path: string, mode: bv32)
    requires StateOk(s) && PathError(path) == 0
    ensures var r := ChmodSpec(s, path, mode);
      var n := FindPath(s, path);
      var s1 := Started(s, path);
      && (r.0 == 0 <==> n != Null && s.inode[n].kind == Dir)
      && (n != Null && s.inode[n].kind == File ==> r.0 == -ENOTDIR)
      && (r.0 == 0 ==> r.1 == s1.(inode := s1.inode[n := s.inode[n].(mode := mode)]))
      && (r.0 != 0 ==> r.1 == s1)
  {
    StartedOk(s, path);
  }

  /** access succeeds exactly when the path names a node that grants every permission
      asked for (one of its three bits each); it changes nothing but what choosing the
      start directory does. */
  lemma AccessChecks(s: State, path: string, mode: bv32)
    requires StateOk(s) && PathError(path) == 0
    ensures var r := AccessSpec(s, path, mode);
      var n := FindPath(s, path);
      var s1 := Started(s, path);
      && r.1 == s1
      && (r.0 == 0 <==> n != Null
                        && (mode & R_OK != 0 ==> Readable(s1.inode[n].mode))
                        && (mode & W_OK != 0 ==> Writable(s1.inode[n].mode))
                        && (mode & X_OK != 0 ==> Executable(s1.inode[n].mode)))
      && (r.0 != 0 ==> r.0 == -ENOENT || r.0 == -EACCES)
  {
    StartedOk(s, path);
  }

  // rmdir(2) and unlink(2)

  /** unlink_inode detaches `n`: it loses its parent, its parent's chain loses it and
      keeps the others in order, and the names, inodes and descriptors stay. */
  lemma UnlinkedDetaches(s: State, n: Handle)
    requires StateOk(s) && n in s.parent
    ensures var t := Unlinked(s, n);
      var p := s.parent[n];
      && t.parent == s.parent[n := Null]
      && (p != Null ==> p in s.kids && n in s.kids[p]
                        && t.kids == s.kids[p := RemoveAt(s.kids[p], IndexOf(s.kids[p], n))])
      && t.name == s.name && t.inode == s.inode && t.fds == s.fds && t.cwd == s.cwd
  {
    var p := s.parent[n];
    if p == Null {
      assert s.parent[n := Null] == s.parent;
    } else {
      UnlinkedChain(s, n);
      if s.child[p] == n {
        assert RemoveAt(s.kids[p], 0) == s.kids[p][1..];
      }
    }
  }

  /** rmdir's checks on a node other than the root, in the state `s3` after get_cwd:
      it removes `n` exactly when `n` is not the working directory, its parent (if any)
      is writable, and it is an empty directory; a refusal changes nothing. */
  lemma RmdirChecksDecide(s3: State, n: Handle, cwd: Handle)
    requires StateOk(s3) && n in s3.parent
    ensures var r := RmdirChecks(s3, n, cwd);
      var p := s3.parent[n];
      && (r.0 == 0 <==> n != cwd && (p == Null || Writable(s3.inode[p].mode))
                        && s3.inode[n].kind == Dir && s3.kids[n] == [])
      && (r.0 != 0 ==> r.1 == s3 && r.0 in {-EBUSY, -EACCES, -ENOTDIR, -ENOTEMPTY})
      && (r.0 == 0 ==> r.1 == Unlinked(s3, n))
  {
    KidsReady(s3, n);
  }

  /** rmdir refuses a path ending in "." with EINVAL and one ending in ".." with
      ENOTEMPTY, before any lookup. */
  lemma RmdirDots(s: State, path: string)
    requires StateOk(s) && PathError(path) == 0
    ensures DotLast(path) ==> RmdirSpec(s, path) == (-EINVAL, s)
    ensures !DotLast(path) && DotDotLast(path) ==> RmdirSpec(s, path) == (-ENOTEMPTY, s)
  {
  }

  /** rmdir refuses a path that names nothing with ENOENT, and the root and the working
      directory with EBUSY. */
  lemma RmdirBusy(s: State, path: string)
    requires StateOk(s) && PathError(path) == 0 && !DotLast(path) && !DotDotLast(path)
    ensures var r := RmdirSpec(s, path);
      var n := FindPath(s, path);
      && (n == Null ==> r == (-ENOENT, Started(s, path)))
      && (n == Root ==> r.0 == -EBUSY)
      && (n != Null && n == Cwd(s) ==> r.0 == -EBUSY)
  {
    StartedOk(s, path);
    var n := FindPath(s, path);
    if n != Null && n != Root {
      RmdirAtDecides(Started(s, path), n);
      assert Cwd(Started(s, path)) == Cwd(s);
    }
  }

  /** rmdir of a path that names a node other than the root removes it exactly when it
      is not the working directory, its parent is writable (the root always is, as
      looking it up resets its mode to 0777) and it is an empty directory. The node
      removed loses its parent and its parent's chain loses it. */
  lemma RmdirRemoves(s: State, path: string)
    requires StateOk(s) && PathError(path) == 0 && !DotLast(path) && !DotDotLast(path)
    requires FindPath(s, path) != Null && FindPath(s, path) != Root
    ensures var r := RmdirSpec(s, path);
      var n := FindPath(s, path);
      var p := s.parent[n];
      && (r.0 == 0 <==> n != Cwd(s) && (p == Null || p == Root || Writable(s.inode[p].mode))
                        && s.inode[n].kind == Dir && s.kids[n] == [])
      && (r.0 == 0 ==> r.1.parent == s.parent[n := Null] && r.1.name == s.name && r.1.fds == s.fds)
  {
    RmdirReaches(s, path);
    StartedOk(s, path);
    var n := FindPath(s, path);
    RmdirAtDecides(Started(s, path), n);
    StartedKeeps(s, path, n);
    var p := s.parent[n];
    if p != Null && p != Root {
      StartedKeeps(s, path, p);
    }
  }

  /** Choosing the start directory changes no inode but the root. */
  lemma StartedKeeps(s: State, path: string, x: Handle)
    requires Root in s.inode && x in s.inode && x != Root
    ensures x in Started(s, path).inode && Started(s, path).inode[x] == s.inode[x]
  {
    StartedInode(s, path);
  }

  /** rmdir of a path that names a node other than the root goes on to that node's
      checks, in the state after the start directory was chosen. */
  lemma RmdirReaches(s: State, path: string)
    requires StateOk(s) && PathError(path) == 0 && !DotLast(path) && !DotDotLast(path)
    requires FindPath(s, path) != Null && FindPath(s, path) != Root
    ensures StateOk(Started(s, path))
    ensures RmdirSpec(s, path) == RmdirAt(Started(s, path), FindPath(s, path))
  {
    StartedOk(s, path);
  }

  /** rmdir of a node `n` other than the root, in the state `s1` after the start
      directory was chosen. */
  lemma RmdirAtDecides(s1: State, n: Handle)
    requires StateOk(s1) && n in s1.parent && n != Root
    ensures var r := RmdirAt(s1, n);
      var p := s1.parent[n];
      && (r.0 == 0 <==> n != Cwd(s1) && (p == Null || p == Root || Writable(s1.inode[p].mode))
                        && s1.inode[n].kind == Dir && s1.kids[n] == [])
      && (r.0 == 0 ==> r.1.parent == s1.parent[n := Null] && r.1.name == s1.name && r.1.fds == s1.fds)
  {
    RootResetOk(s1);
    GetCwdOk(RootReset(s1));
    var s3 := CwdSet(RootReset(s1));
    RmdirChecksDecide(s3, n, Cwd(s1));
    UnlinkedDetaches(s3, n);
  }

  /** unlink of a path that names a node goes on to the node's checks, in the state
      after the start directory was chosen. */
  lemma UnlinkReaches(s: State, path: string)
    requires StateOk(s) && PathError(path) == 0 && FindPath(s, path) != Null
    ensures StateOk(Started(s, path))
    ensures UnlinkSpec(s, path) == UnlinkAt(Started(s, path), FindPath(s, path))
  {
    StartedOk(s, path);
  }

  /** unlink's checks on the node `n`, in the state `s1` after the start directory was
      chosen: a parent without write permission is EACCES; a node without write
      permission is EISDIR for a directory and EPERM for a file; a node with children
      is EISDIR. Otherwise the node is unlinked, an empty directory as well as a file.
      A refusal changes nothing. */
  lemma UnlinkAtDecides(s1: State, n: Handle)
    requires StateOk(s1) && n in s1.parent
    ensures var r := UnlinkAt(s1, n);
      var p := s1.parent[n];
      var parentOk := p == Null || Writable(s1.inode[p].mode);
      && (!parentOk ==> r.0 == -EACCES)
      && (parentOk && !Writable(s1.inode[n].mode) ==> r.0 == (if s1.inode[n].kind == Dir then -EISDIR else -EPERM))
      && (parentOk && Writable(s1.inode[n].mode) && s1.kids[n] != [] ==> r.0 == -EISDIR)
      && (r.0 == 0 <==> parentOk && Writable(s1.inode[n].mode) && s1.kids[n] == [])
      && (r.0 != 0 ==> r.1 == s1)
      && (r.0 == 0 ==> r.1.parent == s1.parent[n := Null] && r.1.inode == s1.inode
                       && r.1.name == s1.name && r.1.fds == s1.fds)
  {
    AbspathReady(s1);
    KidsReady(s1, n);
    UnlinkedDetaches(s1, n);
  }

  /** unlink of a path that names a node other than the root removes it exactly when
      its parent is writable (the root's mode being the one left by choosing the start
      directory), the node itself is writable and it has no children; a
      write-protected directory and a directory with children are refused with EISDIR,
      a write-protected file with EPERM. */
  lemma UnlinkRemoves(s: State, path: string)
    requires StateOk(s) && PathError(path) == 0
    requires FindPath(s, path) != Null && FindPath(s, path) != Root
    ensures var r := UnlinkSpec(s, path);
      var n := FindPath(s, path);
      var p := s.parent[n];
      var parentOk := p == Null || Writable(Started(s, path).inode[p].mode);
      && (parentOk && !Writable(s.inode[n].mode) ==> r.0 == (if s.inode[n].kind == Dir then -EISDIR else -EPERM))
      && (parentOk && Writable(s.inode[n].mode) && s.kids[n] != [] ==> r.0 == -EISDIR)
      && (r.0 == 0 <==> parentOk && Writable(s.inode[n].mode) && s.kids[n] == [])
      && (r.0 == 0 ==> r.1.parent == s.parent[n := Null] && r.1.name == s.name && r.1.fds == s.fds)
  {
    UnlinkReaches(s, path);
    StartedOk(s, path);
    var n := FindPath(s, path);
    UnlinkAtDecides(Started(s, path), n);
    StartedKeeps(s, path, n);
    var p := s.parent[n];
    if p != Null && p != Root {
      StartedKeeps(s, path, p);
    }
  }

  // getdents64(2)

  /** getdents64 on a directory lists its entries (".", "..", then the children in
      chain order) from the record the cursor has reached, as many as fit in room for
      count / sizeof(de) records, and moves the cursor one record per entry; from the
      start with room for all, it lists them all. Whenever more entries remain than
      count / sizeof(struct dirent), it writes past the count bytes the caller gave.
      Without room for one record it is EINVAL. */
  lemma GetDentsLists(s: State, fd: int, count: nat)
    requires StateOk(s) && fd in s.fds && s.inode[s.fds[fd].node].kind == Dir
    ensures var d := s.fds[fd];
      var r := GetDentsAsSource(s, fd, count);
      && (count < PTR_SIZE ==> r == (-EINVAL, s, []))
      && (count >= PTR_SIZE ==> r.2 == Window(Entries(s, d.node), d.filePos, count / PTR_SIZE))
      && (count >= PTR_SIZE ==> r.0 == |r.2| * DIRENT_SIZE && r.1 == Advanced(s, fd, r.0))
      && (d.filePos == 0 && count / PTR_SIZE >= |s.kids[d.node]| + 2 ==> r.2 == Entries(s, d.node))
      && (|r.2| > count / DIRENT_SIZE ==> r.0 > count)
  {
    var r := GetDentsAsSource(s, fd, count);
    if |r.2| > count / DIRENT_SIZE {
      assert |r.2| * DIRENT_SIZE >= (count / DIRENT_SIZE + 1) * DIRENT_SIZE > count;
    }
  }

  /** Corrected: with room for count / sizeof(struct dirent) records, the same listing,
      never past the count bytes; without room for one record, EINVAL. */
  lemma GetDentsListsFixed(s: State, fd: int, count: nat)
    requires StateOk(s) && fd in s.fds && s.inode[s.fds[fd].node].kind == Dir
    ensures var d := s.fds[fd];
      var r := GetDentsSpec(s, fd, count);
      && (count < DIRENT_SIZE ==> r == (-EINVAL, s, []))
      && (count >= DIRENT_SIZE ==> r.2 == Window(Entries(s, d.node), d.filePos, count / DIRENT_SIZE))
      && (count >= DIRENT_SIZE ==> r.0 == |r.2| * DIRENT_SIZE && r.1 == Advanced(s, fd, r.0))
      && r.0 <= count
      && (d.filePos == 0 && count / DIRENT_SIZE >= |s.kids[d.node]| + 2 ==> r.2 == Entries(s, d.node))
  {
    GetDentsWithinCount(s, fd, count);
  }

  /** After a getdents64 call on a directory the descriptor still names it, its
      cursor has moved one record per entry listed, and its entries are unchanged. */
  lemma GetDentsLeaves(s: State, fd: int, c1: nat)
    requires StateOk(s) && fd in s.fds && s.inode[s.fds[fd].node].kind == Dir
    ensures var d := s.fds[fd]; var r1 := GetDentsAsSource(s, fd, c1); var t := r1.1;
      && (c1 >= PTR_SIZE ==> r1.2 == Window(Entries(s, d.node), d.filePos, c1 / PTR_SIZE))
      && StateOk(t) && fd in t.fds && t.fds[fd] == d.(filePos := d.filePos + |r1.2| * DIRENT_SIZE)
      && t.inode == s.inode && Entries(t, d.node) == Entries(s, d.node)
  {
    var d := s.fds[fd];
    GetDentsLists(s, fd, c1);
    if c1 >= PTR_SIZE {
      var t := GetDentsAsSource(s, fd, c1).1;
      var n := GetDentsAsSource(s, fd, c1).0;
      var pos := d.filePos + n;
      AdvancedAt(s, fd, pos, n);
      FdSetOk(s, fd, pos);
      ChildEntriesFrame(s, t, s.kids[d.node], 2);
    } else {
      assert d.(filePos := d.filePos) == d;
    }
  }

  /** The records of a chain depend only on the inodes and the names. */
  lemma {:induction false} ChildEntriesFrame(s: State, t: State, cs: seq<Handle>, k: nat)
    requires forall c :: c in cs ==> c in s.inode && c in s.name
    requires t.inode == s.inode && t.name == s.name
    ensures ChildEntries(t, cs, k) == ChildEntries(s, cs, k)
    decreases |cs|
  {
    if cs != [] {
      ChildEntriesFrame(s, t, cs[1..], k + 1);
    }
  }

  // getcwd(2)

  /** getcwd refuses a null buffer with a size with EFAULT and a buffer of size 0 with
      EINVAL, and changes nothing then. */
  lemma GetCwdRefusals(s: State, buf: Option<seq<char>>, size: nat)
    requires StateOk(s) && (buf.Some? ==> |buf.value| == size) && !GetCwdCrashes(s, buf, size)
    ensures buf.None? ==> GetCwdSpec(s, buf, size) == (-EFAULT, s, [])
    ensures buf.Some? && size == 0 ==> GetCwdSpec(s, buf, size) == (-EINVAL, s, [])
  {
  }

  /** getcwd in the root writes "/" and its terminator, and reports success only when
      the buffer has at least three bytes: the check `strlen(buf) >= size - 1` refuses a
      two-byte buffer that holds the answer. */
  lemma GetCwdAtRoot(s: State, buf: seq<char>)
    requires StateOk(s) && Cwd(s) == Root && |buf| >= 2
    ensures var r := GetCwdSpec(s, Some(buf), |buf|);
      && r.2[..2] == "/" + ['\0'] && |r.2| == |buf|
      && (r.0 == 0 <==> |buf| >= 3) && (r.0 != 0 ==> r.0 == -ERANGE)
  {
    var out := "/" + ['\0'] + buf[2..];
    assert StrLen(out) == 1 by {
      assert out[0] == '/' && out[1] == '\0';
      assert StrLen(out) == 1 + StrLen(out[1..]);
    }
  }

  /** The length of a C string that starts with `w`, free of terminators, and goes on
      with `rest`. */
  lemma {:induction false} StrLenAfter(w: seq<char>, rest: seq<char>)
    requires '\0' !in w
    ensures StrLen(w + rest) == |w| + StrLen(rest)
  {
    if w != [] {
      assert w[0] in w && (w + rest)[0] == w[0] != '\0';
      assert (w + rest)[1..] == w[1..] + rest;
      StrLenAfter(w[1..], rest);
    } else {
      assert w + rest == rest;
    }
  }

  /** getcwd elsewhere writes the absolute path of the working directory, cut to
      size - 1 characters and with no terminator of its own: a path of size - 1
      characters or more is ERANGE; a shorter one is written in full, and the call
      succeeds exactly when the C string it starts, which runs on into the caller's
      buffer, is shorter than size - 1; in particular when the byte after it is already
      a terminator. */
  lemma GetCwdBelowRoot(s: State, buf: seq<char>)
    requires StateOk(s) && Cwd(s) != Root && |buf| >= 1
    ensures ParentClosed(s.parent) && s.parent.Keys <= s.name.Keys && Cwd(s) in s.parent
    ensures var r := GetCwdSpec(s, Some(buf), |buf|);
      var a := Abspath(s.parent, s.name, Cwd(s));
      && ('\0' !in a && |a| >= |buf| - 1 ==> r.0 == -ERANGE)
      && (|a| < |buf| ==> r.2[..|a|] == a)
      && ('\0' !in a && |a| < |buf| - 1 ==> (r.0 == 0 <==> |a| + StrLen(buf[|a|..]) < |buf| - 1))
      && ('\0' !in a && |a| < |buf| - 1 && buf[|a|] == '\0' ==> r.0 == 0 && StrLen(r.2) == |a|)
  {
    AbspathReady(s);
    GetCwdOk(s);
    var a := Abspath(s.parent, s.name, Cwd(s));
    var w := Truncate(a, |buf| - 1);
    var out := w + buf[|w|..];
    assert GetCwdSpec(s, Some(buf), |buf|).2 == out;
    if '\0' !in a {
      assert '\0' !in w;
      StrLenAfter(w, buf[|w|..]);
    }
    if |a| < |buf| {
      assert w == a;
      assert out[..|a|] == a;
    }
  }
}
