/** Properties that relate the syscalls to one another and to the shape of the tree:
    what link_inode and unlink_inode do to the chains, what a path finds after mkdir,
    reading back what writev wrote, the descriptor lifecycle, getdents64's room, and
    the behaviour of the lines the corrected model departs from. */
module FsProps {
  import opened Wrappers
  import opened Posix
  import opened Paths
  import opened Buffers
  import opened Tree
  import opened Lookup
  import opened FsState
  import opened FsSteps
  import opened FsCalls

  // link_inode, unlink_inode

  /** link_inode of an unlinked `n` under `p`: `n` heads `p`'s chain, followed by the
      old chain, its parent is `p`, and every other chain is what it was. */
  lemma LinkedChain(s: State, n: Handle, p: Handle)
    requires StateOk(s) && n in s.parent && p in s.parent && n != Root && s.parent[n] == Null
    ensures var t := Linked(s, n, p);
      && t.parent[n] == p
      && ChainIs(t.sibling, t.child[p], [n] + s.kids[p])
      && (forall q :: q in s.kids && q != p ==> ChainIs(t.sibling, t.child[q], s.kids[q]))
  {
    LinkedOk(s, n, p);
    var t := Linked(s, n, p);
    ChainsAfter(t.child, t.sibling, t.kids, s.kids, p, [n] + s.kids[p]);
  }

  /** After an edit that replaced `p`'s children by `ps`, the chains are the new
      children sequence for `p` and the old ones elsewhere. */
  lemma ChainsAfter(child: map<Handle, Handle>, sibling: map<Handle, Handle>, kids: map<Handle, seq<Handle>>,
                    kids0: map<Handle, seq<Handle>>, p: Handle, ps: seq<Handle>)
    requires Chained(child, sibling, kids) && kids == kids0[p := ps]
    ensures ChainIs(sibling, child[p], ps)
    ensures forall q :: q in kids0 && q != p ==> ChainIs(sibling, child[q], kids0[q])
  {
    assert p in kids;
    forall q | q in kids0 && q != p
      ensures ChainIs(sibling, child[q], kids0[q])
    {
      assert q in kids && kids[q] == kids0[q];
    }
  }

  /** unlink_inode of a node `n` with a parent `p`: `p`'s chain is the old one without
      `n`, in the same order; `n` has neither parent nor sibling; every other chain, the
      names and the inodes' other fields are what they were. */
  lemma UnlinkedChain(s: State, n: Handle)
    requires StateOk(s) && n in s.parent && s.parent[n] != Null
    ensures var p := s.parent[n];
      var t := Unlinked(s, n);
      && p in s.kids && n in s.kids[p]
      && t.parent == s.parent[n := Null] && t.sibling[n] == Null
      && ChainIs(t.sibling, t.child[p], RemoveAt(s.kids[p], IndexOf(s.kids[p], n)))
      && (forall q :: q in s.kids && q != p ==> ChainIs(t.sibling, t.child[q], s.kids[q]))
      && t.name == s.name && t.inode == s.inode && t.fds == s.fds && t.cwd == s.cwd
  {
    if s.child[s.parent[n]] == n {
      UnlinkedHeadChain(s, n);
    } else {
      UnlinkedInnerChain(s, n);
    }
  }

  lemma UnlinkedHeadChain(s: State, n: Handle)
    requires StateOk(s) && n in s.parent && s.parent[n] != Null && s.child[s.parent[n]] == n
    ensures var p := s.parent[n];
      var t := UnlinkedHead(s, n);
      && p in s.kids && n in s.kids[p] && IndexOf(s.kids[p], n) == 0
      && ChainIs(t.sibling, t.child[p], RemoveAt(s.kids[p], 0))
      && (forall q :: q in s.kids && q != p ==> ChainIs(t.sibling, t.child[q], s.kids[q]))
  {
    var p := s.parent[n];
    UnlinkHeadOk(s, n);
    var t := UnlinkedHead(s, n);
    assert RemoveAt(s.kids[p], 0) == s.kids[p][1..];
    ChainsAfter(t.child, t.sibling, t.kids, s.kids, p, RemoveAt(s.kids[p], 0));
  }

  lemma UnlinkedInnerChain(s: State, n: Handle)
    requires StateOk(s) && n in s.parent && s.parent[n] != Null && s.child[s.parent[n]] != n
    ensures var p := s.parent[n];
      var t := UnlinkedInner(s, n, IndexOf(s.kids[p], n));
      && p in s.kids && n in s.kids[p]
      && ChainIs(t.sibling, t.child[p], RemoveAt(s.kids[p], IndexOf(s.kids[p], n)))
      && (forall q :: q in s.kids && q != p ==> ChainIs(t.sibling, t.child[q], s.kids[q]))
  {
    var p := s.parent[n];
    UnlinkInnerOk(s, n);
    var i := IndexOf(s.kids[p], n);
    var t := UnlinkedInner(s, n, i);
    ChainsAfter(t.child, t.sibling, t.kids, s.kids, p, RemoveAt(s.kids[p], i));
  }

  // close(2)

  /** A descriptor closed once is gone: closing it again is EBADF and changes nothing. */
  lemma CloseTwice(s: State, fd: int)
    requires StateOk(s) && fd in s.fds
    ensures var (r1, s1) := CloseSpec(s, fd);
      r1 == 0 && StateOk(s1) && CloseSpec(s1, fd) == (-EBADF, s1)
  {
    ClosedOk(s, fd);
  }

  // open(2)

  /** O_TMPFILE contains the O_DIRECTORY bit, so every open with O_DIRECTORY stops at
      the flag checks: EINVAL without write access, EOPNOTSUPP with it, or an earlier
      flag's errno, and the state is unchanged. */
  lemma OpenDirectoryRefused(s: State, path: string, flags: bv32, mode: bv32, remote: Fetch)
    requires StateOk(s) && flags & O_DIRECTORY != 0
    ensures !OpenCrashes(s, path, flags, remote)
    ensures var (r, t) := OpenSpec(s, path, flags, mode, remote);
      r < 0 && t == s && r == -OpenFlagsError(flags)
    ensures OpenFlagsError(flags) in {ENOTSUP, EINVAL, EOPNOTSUPP}
  {
    assert flags & O_TMPFILE != 0 by {
      assert flags & O_DIRECTORY & O_TMPFILE == O_DIRECTORY;
    }
  }

  // getdents64(2)

  /** Corrected: with room for count / sizeof(struct dirent) records, getdents64 never
      reports more bytes than the caller's count. */
  lemma GetDentsWithinCount(s: State, fd: int, count: nat)
    requires StateOk(s)
    ensures var (r, _, out) := GetDentsSpec(s, fd, count);
      r <= count && (r >= 0 ==> r == |out| * DIRENT_SIZE)
  {
    var cap := count / DIRENT_SIZE;
    var (r, _, out) := DentsWithRoom(s, fd, cap);
    if r >= 0 {
      assert |out| <= cap;
      assert |out| * DIRENT_SIZE <= cap * DIRENT_SIZE <= count;
    }
  }

  /** getdents64 as the source sizes its room: a directory listed from the start with a
      count of one record still receives "." and "..", 560 bytes. */
  lemma GetDentsAsSourceOverruns(s: State, fd: int)
    requires StateOk(s) && fd in s.fds && s.fds[fd].filePos == 0
    requires s.inode[s.fds[fd].node].kind == Dir
    ensures var (r, _, out) := GetDentsAsSource(s, fd, DIRENT_SIZE);
      |out| >= 2 && r >= 2 * DIRENT_SIZE > DIRENT_SIZE
  {
    var n := s.fds[fd].node;
    var es := Entries(s, n);
    assert FirstEntry(0) == 0;
    assert |Window(es, 0, DIRENT_SIZE / PTR_SIZE)| == Min(|es|, 70);
  }

  // writev(2), readv(2)

  /** The buffer writev leaves, with either size rule: it holds `b` at `pos` and is
      unchanged before it, and its capacity grows only when the write passes it, to the
      larger of the new end and 1.25 times the old capacity. */
  lemma SplicedHolds(data: seq<byte>, pos: nat, b: seq<byte>)
    ensures var newSize := pos + |b|;
      var j := Splice(Grown(data, newSize), pos, b);
      && j[pos..newSize] == b
      && j[..Min(pos, |data|)] == data[..Min(pos, |data|)]
      && |j| == (if |data| < newSize then Max(newSize, |data| + |data| / 4) else |data|)
  {
    var newSize := pos + |b|;
    var g := Grown(data, newSize);
    var j := Splice(g, pos, b);
    var m := Min(pos, |data|);
    assert j[..m] == j[..pos][..m] == g[..pos][..m] == g[..|data|][..m];
  }

  /** The inode writev leaves for `i` when `b` is written at `pos`, as the source
      writes it: the buffer holds `b` at `pos` and is unchanged before it, the capacity
      grows only when the write passes it, to the larger of the new end and 1.25 times
      the old capacity, and the size becomes the new end when the buffer grew and stays
      as it was otherwise, never passing the buffer. */
  lemma OverwrittenHolds(i: Inode, pos: nat, b: seq<byte>)
    requires ContentOk(i)
    ensures var newSize := pos + |b|;
      var j := OverwrittenAsSource(i, pos, b);
      && j.data[pos..newSize] == b
      && j.data[..Min(pos, |i.data|)] == i.data[..Min(pos, |i.data|)]
      && (|i.data| < newSize ==> j.size == newSize) && (|i.data| >= newSize ==> j.size == i.size)
      && ContentOk(j)
      && |j.data| == (if |i.data| < newSize then Max(newSize, |i.data| + |i.data| / 4) else |i.data|)
      && j.kind == i.kind && j.mode == i.mode && j.fetched == i.fetched
  {
    SplicedHolds(i.data, pos, b);
  }

  /** Corrected: the same inode with the corrected size, which always covers the write. */
  lemma OverwrittenFixedHolds(i: Inode, pos: nat, b: seq<byte>)
    requires ContentOk(i)
    ensures var newSize := pos + |b|;
      var j := Overwritten(i, pos, b);
      && j.data[pos..newSize] == b
      && j.data[..Min(pos, |i.data|)] == i.data[..Min(pos, |i.data|)]
      && j.size >= newSize && ContentOk(j)
      && |j.data| == (if |i.data| < newSize then Max(newSize, |i.data| + |i.data| / 4) else |i.data|)
      && j.kind == i.kind && j.mode == i.mode && j.fetched == i.fetched
  {
    SplicedHolds(i.data, pos, b);
  }

  /** What a read at `pos` sees of the inode writev left as the source writes it: the
      bytes written, first, when the write grew the buffer or ended within the old
      size. */
  lemma ReadBackInode(i: Inode, pos: nat, b: seq<byte>)
    requires ContentOk(i) && |b| > 0 && (|i.data| < pos + |b| || pos + |b| <= i.size)
    ensures var j := OverwrittenAsSource(i, pos, b);
      && ContentOk(j) && !NoBytes(j)
      && |Avail(j, pos)| >= |b| && Avail(j, pos)[..|b|] == b
  {
    var newSize := pos + |b|;
    OverwrittenHolds(i, pos, b);
    var j := OverwrittenAsSource(i, pos, b);
    assert Content(j) == j.data;
    assert Avail(j, pos) == j.data[pos..j.size];
    assert j.data[pos..j.size][..|b|] == j.data[pos..newSize];
  }

  /** Corrected: with the corrected size every write reads back. */
  lemma ReadBackFixed(i: Inode, pos: nat, b: seq<byte>)
    requires ContentOk(i) && |b| > 0
    ensures var j := Overwritten(i, pos, b);
      && ContentOk(j) && !NoBytes(j)
      && |Avail(j, pos)| >= |b| && Avail(j, pos)[..|b|] == b
  {
    var newSize := pos + |b|;
    OverwrittenFixedHolds(i, pos, b);
    var j := Overwritten(i, pos, b);
    assert Content(j) == j.data;
    assert Avail(j, pos) == j.data[pos..j.size];
    assert j.data[pos..j.size][..|b|] == j.data[pos..newSize];
  }

  /** Reading back a write: `u` is the state after writev on a file and an llseek back
      to where it started; when the write grew the buffer or ended within the old size,
      a readv with room for as many bytes as were written reads exactly those bytes. */
  lemma WriteThenRead(s: State, fd: int, iov: seq<IoVec>, riov: seq<IoVec>, u: State)
    requires StateOk(s) && fd in s.fds && IovOk(iov) && TotalLen(iov) > 0
    requires s.inode[s.fds[fd].node].kind == File
    requires var i := s.inode[s.fds[fd].node]; var newSize := s.fds[fd].filePos + TotalLen(iov);
      |i.data| < newSize || newSize <= i.size
    requires WellFormedIov(riov) && NoNullBuffers(riov) && TotalLen(riov) == TotalLen(iov) <= OFF_MAX
    requires u == Repositioned(WrittenAsSource(s, fd, iov), fd, s.fds[fd].filePos)
    ensures StateOk(u)
    ensures var (r, _, chunks) := ReadVSpec(u, fd, riov, |riov|);
      r == TotalLen(iov) && Flatten(chunks) == Gathered(iov, |iov|)
  {
    var d := s.fds[fd];
    var b := Gathered(iov, |iov|);
    var i := s.inode[d.node];
    var j := OverwrittenAsSource(i, d.filePos, b);
    ReadBackInode(i, d.filePos, b);
    InodeSetOk(s, d.node, j);
    WrittenRewound(s, fd, iov, u, j);
    ReadAfterRewind(u, fd, b, riov);
  }

  /** Corrected: with the corrected size every write reads back after the rewind. */
  lemma WriteThenReadFixed(s: State, fd: int, iov: seq<IoVec>, riov: seq<IoVec>, u: State)
    requires StateOk(s) && fd in s.fds && IovOk(iov) && TotalLen(iov) > 0
    requires s.inode[s.fds[fd].node].kind == File
    requires WellFormedIov(riov) && NoNullBuffers(riov) && TotalLen(riov) == TotalLen(iov) <= OFF_MAX
    requires u == Repositioned(Written(s, fd, iov), fd, s.fds[fd].filePos)
    ensures StateOk(u)
    ensures var (r, _, chunks) := ReadVSpec(u, fd, riov, |riov|);
      r == TotalLen(iov) && Flatten(chunks) == Gathered(iov, |iov|)
  {
    var d := s.fds[fd];
    var b := Gathered(iov, |iov|);
    var i := s.inode[d.node];
    var j := Overwritten(i, d.filePos, b);
    ReadBackFixed(i, d.filePos, b);
    InodeSetOk(s, d.node, j);
    FixedRewound(s, fd, iov, u, j);
    ReadAfterRewind(u, fd, b, riov);
  }

  /** Corrected: writev and an llseek back change only the inode, which becomes `j`. */
  lemma FixedRewound(s: State, fd: int, iov: seq<IoVec>, u: State, j: Inode)
    requires fd in s.fds && s.fds[fd].node in s.inode && s.fds[fd].filePos >= 0 && IovOk(iov)
    requires u == Repositioned(Written(s, fd, iov), fd, s.fds[fd].filePos)
    requires j == Overwritten(s.inode[s.fds[fd].node], s.fds[fd].filePos, Gathered(iov, |iov|))
    ensures u == s.(inode := s.inode[s.fds[fd].node := j])
  {
    var d := s.fds[fd];
    assert s.fds[fd := d.(filePos := d.filePos)] == s.fds;
  }

  /** A readv from a file whose bytes at the position start with `b`, with room for
      exactly |b| bytes, reads `b`. */
  lemma ReadAfterRewind(u: State, fd: int, b: seq<byte>, riov: seq<IoVec>)
    requires StateOk(u) && fd in u.fds
    requires WellFormedIov(riov) && NoNullBuffers(riov) && TotalLen(riov) == |b| <= OFF_MAX
    requires var i := u.inode[u.fds[fd].node];
      && i.kind == File && !NoBytes(i)
      && |Avail(i, u.fds[fd].filePos)| >= |b| && Avail(i, u.fds[fd].filePos)[..|b|] == b
    ensures var (r, _, chunks) := ReadVSpec(u, fd, riov, |riov|);
      r == |b| && Flatten(chunks) == b
  {
    var d := u.fds[fd];
    var avail := Avail(u.inode[d.node], d.filePos);
    ReadVReads(u, fd, riov);
    ChunksPrefix(avail, riov, b);
  }

  /** readv of a file with valid buffers: the count and the chunks of the bytes from
      the position on. */
  lemma ReadVReads(u: State, fd: int, riov: seq<IoVec>)
    requires StateOk(u) && fd in u.fds
    requires WellFormedIov(riov) && NoNullBuffers(riov) && TotalLen(riov) <= OFF_MAX
    requires u.inode[u.fds[fd].node].kind == File && !NoBytes(u.inode[u.fds[fd].node])
    ensures var avail := Avail(u.inode[u.fds[fd].node], u.fds[fd].filePos);
      var r := ReadVSpec(u, fd, riov, |riov|);
      r.0 == Min(|avail|, TotalLen(riov)) && r.1 == Advanced(u, fd, r.0) && r.2 == Chunks(avail, riov, |riov|)
  {
  }

  /** Buffers with room for exactly the |b| bytes `avail` starts with receive `b`. */
  lemma ChunksPrefix(avail: seq<byte>, riov: seq<IoVec>, b: seq<byte>)
    requires TotalLen(riov) == |b| <= |avail| && avail[..|b|] == b
    ensures Min(|avail|, TotalLen(riov)) == |b| && Flatten(Chunks(avail, riov, |riov|)) == b
  {
    ChunksGather(avail, riov, |riov|);
  }

  /** writev followed by an llseek back to where it started changes only the inode,
      which becomes `j`. */
  lemma WrittenRewound(s: State, fd: int, iov: seq<IoVec>, u: State, j: Inode)
    requires fd in s.fds && s.fds[fd].node in s.inode && s.fds[fd].filePos >= 0 && IovOk(iov)
    requires u == Repositioned(WrittenAsSource(s, fd, iov), fd, s.fds[fd].filePos)
    requires j == OverwrittenAsSource(s.inode[s.fds[fd].node], s.fds[fd].filePos, Gathered(iov, |iov|))
    ensures u == s.(inode := s.inode[s.fds[fd].node := j])
  {
    var d := s.fds[fd];
    assert s.fds[fd := d.(filePos := d.filePos)] == s.fds;
  }

  /** One writev of the single buffer `v` as the source writes it: the position moves
      by |v|, the capacity grows as GrowCapacity says, and the size moves only when it
      grows. */
  lemma AsSourceStep(s: State, fd: int, v: seq<byte>)
    requires fd in s.fds && s.fds[fd].node in s.inode && s.fds[fd].filePos >= 0 && |v| < TWO_32
    ensures var n := s.fds[fd].node;
      var i := s.inode[n];
      var newSize := s.fds[fd].filePos + |v|;
      var t := WrittenAsSource(s, fd, [IoVec(Some(v), |v|)]);
      && fd in t.fds && t.fds[fd].node == n && n in t.inode && t.fds[fd].filePos == newSize
      && |t.inode[n].data| == GrowCapacity(|i.data|, newSize)
      && t.inode[n].size == (if |i.data| < newSize then newSize else i.size)
  {
    assert Gathered([IoVec(Some(v), |v|)], 1) == v;
  }

  /** The same writev with the corrected size. */
  lemma WrittenStep(s: State, fd: int, v: seq<byte>)
    requires fd in s.fds && s.fds[fd].node in s.inode && s.fds[fd].filePos >= 0 && |v| < TWO_32
    ensures var n := s.fds[fd].node;
      var i := s.inode[n];
      var newSize := s.fds[fd].filePos + |v|;
      var t := Written(s, fd, [IoVec(Some(v), |v|)]);
      && fd in t.fds && t.fds[fd].node == n && n in t.inode && t.fds[fd].filePos == newSize
      && |t.inode[n].data| == GrowCapacity(|i.data|, newSize)
      && t.inode[n].size == WrittenSize(i, newSize)
  {
    assert Gathered([IoVec(Some(v), |v|)], 1) == v;
  }

  /** writev as the source writes it: 10 bytes into an empty file, then 1, then 1. The
      second write grows the buffer to 12, so the third fits in it and the size stays
      at 11 while the position reaches 12. */
  lemma WrittenAsSourceDropsByte(s: State, fd: int, a: seq<byte>, x: seq<byte>, y: seq<byte>)
    requires fd in s.fds && s.fds[fd].node in s.inode && s.fds[fd].filePos == 0
    requires s.inode[s.fds[fd].node].data == [] && s.inode[s.fds[fd].node].size == 0
    requires |a| == 10 && |x| == 1 && |y| == 1
    ensures var n := s.fds[fd].node;
      var s1 := WrittenAsSource(s, fd, [IoVec(Some(a), 10)]);
      var s2 := WrittenAsSource(s1, fd, [IoVec(Some(x), 1)]);
      var s3 := WrittenAsSource(s2, fd, [IoVec(Some(y), 1)]);
      s3.fds[fd].filePos == 12 && |s3.inode[n].data| == 12 && s3.inode[n].size == 11
  {
    AsSourceStep(s, fd, a);
    var s1 := WrittenAsSource(s, fd, [IoVec(Some(a), 10)]);
    AsSourceStep(s1, fd, x);
    var s2 := WrittenAsSource(s1, fd, [IoVec(Some(x), 1)]);
    AsSourceStep(s2, fd, y);
  }

  /** The same three writes with the corrected size: it reaches 12. */
  lemma WrittenKeepsByte(s: State, fd: int, a: seq<byte>, x: seq<byte>, y: seq<byte>)
    requires fd in s.fds && s.fds[fd].node in s.inode && s.fds[fd].filePos == 0
    requires s.inode[s.fds[fd].node].data == [] && s.inode[s.fds[fd].node].size == 0
    requires |a| == 10 && |x| == 1 && |y| == 1
    ensures var n := s.fds[fd].node;
      var s1 := Written(s, fd, [IoVec(Some(a), 10)]);
      var s2 := Written(s1, fd, [IoVec(Some(x), 1)]);
      var s3 := Written(s2, fd, [IoVec(Some(y), 1)]);
      s3.fds[fd].filePos == 12 && |s3.inode[n].data| == 12 && s3.inode[n].size == 12
  {
    WrittenStep(s, fd, a);
    var s1 := Written(s, fd, [IoVec(Some(a), 10)]);
    WrittenStep(s1, fd, x);
    var s2 := Written(s1, fd, [IoVec(Some(x), 1)]);
    WrittenStep(s2, fd, y);
  }

  /** A one-component name `c` that heads the chain of `p`: find_inode finds that child,
      the source's find_parent_inode returns it as well, and the corrected lookup returns
      `p`. */
  lemma FirstChildFound(u: State, p: Handle, n: Handle, c: string)
    requires StateOk(u) && p in u.parent && p in u.kids && u.kids[p] != [] && u.kids[p][0] == n
    requires n in u.name && u.name[n] == c && '/' !in c && c != []
    ensures Find(u, p, c) == n && FindParent(u, p, c) == n && ParentDir(u, p, c) == p
  {
    TreeWalkable(u.parent, u.child, u.sibling, u.name, u.kids, u.nextHandle);
    FirstComponentIsPrefix(c, c);
    assert c != "/" by { assert c[0] in c; }
    FindInodeResolves(u.child, u.sibling, u.name, u.kids, p, c);
    FindParentSingle(u.child, u.sibling, u.name, u.kids, p, c);
    FindParentFixedResolves(u.child, u.sibling, u.name, u.kids, p, [], c);
  }

  /** Nothing is found in a directory without children. */
  lemma EmptyDirFindsNothing(u: State, n: Handle, c: string)
    requires StateOk(u) && n in u.parent && n in u.kids && u.kids[n] == [] && '/' !in c && c != []
    ensures Find(u, n, c) == Null
  {
    TreeWalkable(u.parent, u.child, u.sibling, u.name, u.kids, u.nextHandle);
    FirstComponentIsPrefix(c, c);
    assert c != "/" by { assert c[0] in c; }
    FindInodeResolves(u.child, u.sibling, u.name, u.kids, n, c);
  }

  /** Looking up the one-component `c` in `p` where it is absent: the source's
      find_parent_inode and the corrected lookup both return `p`. */
  lemma AbsentChild(s: State, p: Handle, c: string)
    requires StateOk(s) && p in s.parent && '/' !in c && c != [] && Find(s, p, c) == Null
    ensures FindParent(s, p, c) == p && ParentDir(s, p, c) == p
  {
    TreeWalkable(s.parent, s.child, s.sibling, s.name, s.kids, s.nextHandle);
    FirstComponentIsPrefix(c, c);
    assert c != "/" by { assert c[0] in c; }
    FindInodeResolves(s.child, s.sibling, s.name, s.kids, p, c);
    FindParentSingle(s.child, s.sibling, s.name, s.kids, p, c);
    FindParentFixedResolves(s.child, s.sibling, s.name, s.kids, p, [], c);
  }

  /** mkdir below a parent `p` without the basename and with write permission links a
      new directory named by the basename under `p`. */
  lemma MkdirUnderMakes(s1: State, p: Handle, path: string, mode: bv32)
    requires StateOk(s1) && p in s1.parent && Find(s1, p, BasenamePart(path)) == Null
    requires Writable(s1.inode[p].mode)
    ensures s1.nextHandle != Root
    ensures MkdirUnder(s1, p, path, mode)
      == (0, Linked(RootReset(Created(s1, FreshInode(Dir, mode), BasenamePart(path))), s1.nextHandle, p))
  {
    CreatedOk(s1, FreshInode(Dir, mode), BasenamePart(path));
  }

  /** The state after a new inode `i` named `nm` is created and linked under `p`: the
      next handle holds `i`, has no children, is named `nm`, and is first in `p`'s chain. */
  lemma NewNodeLinked(s1: State, p: Handle, nm: string, i: Inode, t: State)
    requires StateOk(s1) && p in s1.parent && '/' !in nm && ContentOk(i)
    requires t == Linked(RootReset(Created(s1, i, nm)), s1.nextHandle, p)
    ensures var n := s1.nextHandle;
      && StateOk(t) && n != Root && n in t.parent && n in t.kids && p in t.kids && t.parent[n] == p
      && t.inode[n] == i && t.kids[n] == [] && t.kids[p] != []
      && t.kids[p][0] == n && n in t.name && t.name[n] == nm
  {
    var n := s1.nextHandle;
    CreatedOk(s1, i, nm);
    var c1 := Created(s1, i, nm);
    RootResetOk(c1);
    var c2 := RootReset(c1);
    assert c2.parent[n] == Null && c2.kids[n] == [] && c2.name[n] == nm && c2.inode[n] == i;
    LinkedOk(c2, n, p);
  }

  /** mkdir("/c") where no "c" exists succeeds, with the source's lookup as with the
      corrected one: the next handle becomes an empty directory of the given mode, first
      in the root's chain, and find_inode("/c") now finds it. */
  lemma MkdirCreates(s: State, c: string, mode: bv32)
    requires StateOk(s) && '/' !in c && c != [] && |c| < MAX_PATHNAME_LENGTH
    requires FindPath(s, "/" + c) == Null
    ensures var r := MkdirSpec(s, "/" + c, mode);
      var n := s.nextHandle;
      && r.0 == 0 && MkdirAsSource(s, "/" + c, mode) == r && StateOk(r.1)
      && n in r.1.parent && r.1.parent[n] == Root && r.1.inode[n] == FreshInode(Dir, mode)
      && r.1.kids[n] == [] && r.1.kids[Root][0] == n && r.1.name[n] == c
      && FindPath(r.1, "/" + c) == n
  {
    var path := "/" + c;
    MkdirAtRoot(s, c, mode);
    var s1 := Started(s, path);
    MkdirUnderMakes(s1, Root, path, mode);
    var t := MkdirSpec(s, path, mode).1;
    NewNodeLinked(s1, Root, c, FreshInode(Dir, mode), t);
    FirstChildFound(t, Root, s.nextHandle, c);
  }

  /** The path "/c": absolute, looked up as "c", with basename "c". */
  lemma RootPath(c: string)
    requires '/' !in c
    ensures Absolute("/" + c) && RelPath("/" + c) == c && BasenamePart("/" + c) == c
  {
    assert [] + "/" + c == "/" + c;
    BasenameAfterSlash([], c);
  }

  /** mkdir("/c") where no "c" exists: both parent lookups give the root, so both
      versions of mkdir go on under the root, where "c" is absent and the mode is 0777. */
  lemma MkdirAtRoot(s: State, c: string, mode: bv32)
    requires StateOk(s) && '/' !in c && c != [] && |c| < MAX_PATHNAME_LENGTH
    requires FindPath(s, "/" + c) == Null
    ensures StateOk(Started(s, "/" + c)) && Started(s, "/" + c) == RootReset(s)
    ensures MkdirSpec(s, "/" + c, mode) == MkdirUnder(Started(s, "/" + c), Root, "/" + c, mode)
    ensures MkdirAsSource(s, "/" + c, mode) == MkdirSpec(s, "/" + c, mode)
    ensures Find(Started(s, "/" + c), Root, BasenamePart("/" + c)) == Null
    ensures Writable(Started(s, "/" + c).inode[Root].mode)
  {
    RootPath(c);
    StartedOk(s, "/" + c);
    AbsentChild(s, Root, c);
  }

  /** Corrected: with the corrected lookup a second mkdir("/c") finds the directory the first one
      made and fails with EEXIST, changing nothing but the root's mode. */
  lemma MkdirTwiceFails(s: State, c: string, mode: bv32, mode2: bv32)
    requires StateOk(s) && '/' !in c && c != [] && |c| < MAX_PATHNAME_LENGTH
    requires FindPath(s, "/" + c) == Null
    ensures var t := MkdirSpec(s, "/" + c, mode).1;
      StateOk(t) && MkdirSpec(t, "/" + c, mode2) == (-EEXIST, RootReset(t))
  {
    MkdirCreates(s, c, mode);
    var t := MkdirSpec(s, "/" + c, mode).1;
    RootPath(c);
    StartedOk(t, "/" + c);
    FirstChildFound(t, Root, s.nextHandle, c);
    assert Find(Started(t, "/" + c), Root, c) == s.nextHandle;
  }

  /** With find_parent_inode as the source writes it, a second mkdir("/c") takes the
      directory the first one made for the parent, finds no "c" in it and, when the
      first call's mode lets it be written, succeeds by creating "/c/c". */
  lemma MkdirTwiceAsSourceNests(s: State, c: string, mode: bv32, mode2: bv32)
    requires StateOk(s) && '/' !in c && c != [] && |c| < MAX_PATHNAME_LENGTH
    requires FindPath(s, "/" + c) == Null && Writable(mode)
    ensures StateOk(MkdirAsSource(s, "/" + c, mode).1)
    ensures var t := MkdirAsSource(s, "/" + c, mode).1;
      var r := MkdirAsSource(t, "/" + c, mode2);
      && r.0 == 0 && StateOk(r.1) && t.nextHandle in r.1.parent
      && r.1.parent[t.nextHandle] == s.nextHandle && r.1.name[t.nextHandle] == c
  {
    MkdirCreates(s, c, mode);
    var n := s.nextHandle;
    var t := MkdirAsSource(s, "/" + c, mode).1;
    RootPath(c);
    StartedOk(t, "/" + c);
    FirstChildFound(t, Root, n, c);
    var t1 := Started(t, "/" + c);
    EmptyDirFindsNothing(t1, n, c);
    assert MkdirAsSource(t, "/" + c, mode2) == MkdirUnder(t1, n, "/" + c, mode2);
    MkdirUnderMakes(t1, n, "/" + c, mode2);
    NewNodeLinked(t1, n, c, FreshInode(Dir, mode2), MkdirAsSource(t, "/" + c, mode2).1);
  }

  /** find_inode of a single component is the first child of that name. */
  lemma FindSingle(s: State, p: Handle, c: string)
    requires StateOk(s) && p in s.parent && '/' !in c && c != []
    ensures p in s.kids && (forall x :: x in s.kids[p] ==> x in s.name)
    ensures Find(s, p, c) == FirstNamed(s.name, s.kids[p], c)
  {
    TreeWalkable(s.parent, s.child, s.sibling, s.name, s.kids, s.nextHandle);
    FirstComponentIsPrefix(c, c);
    assert c != "/" by { assert c[0] in c; }
    FindInodeResolves(s.child, s.sibling, s.name, s.kids, p, c);
  }

  /** The path "/a/b/c": absolute, looked up as "a/b/c", with basename "c". */
  lemma DeepPath(a: string, b: string, c: string)
    requires '/' !in c
    ensures var path := "/" + a + "/" + b + "/" + c;
      Absolute(path) && RelPath(path) == a + "/" + b + "/" + c && BasenamePart(path) == c
  {
    var path := "/" + a + "/" + b + "/" + c;
    assert path == ("/" + a + "/" + b) + "/" + c;
    BasenameAfterSlash("/" + a + "/" + b, c);
    assert path[1..] == a + "/" + b + "/" + c;
  }

  /** mkdir("/a/b/c") where "/a" exists and "/a/b" does not: the corrected lookup has no
      parent and mkdir fails with ENOENT; the source's find_parent_inode returns the root,
      so mkdir goes on there and creates "/c" when the root has no "c". */
  lemma MkdirMissingIntermediate(s: State, a: string, b: string, c: string, mode: bv32)
    requires StateOk(s) && '/' !in a && '/' !in b && '/' !in c && a != [] && b != []
    requires |a| + |b| + |c| + 3 <= MAX_PATHNAME_LENGTH
    requires Find(s, Root, a) != Null && Find(s, Find(s, Root, a), b) == Null
    ensures var path := "/" + a + "/" + b + "/" + c;
      && StateOk(Started(s, path))
      && MkdirSpec(s, path, mode) == (-ENOENT, Started(s, path))
      && MkdirAsSource(s, path, mode) == MkdirUnder(Started(s, path), Root, path, mode)
  {
    var path := "/" + a + "/" + b + "/" + c;
    DeepPath(a, b, c);
    StartedOk(s, path);
    FindSingle(s, Root, a);
    var m := Find(s, Root, a);
    FindSingle(s, m, b);
    TreeWalkable(s.parent, s.child, s.sibling, s.name, s.kids, s.nextHandle);
    FindParentMissingIntermediate(s.child, s.sibling, s.name, s.kids, Root, a, b, c);
    ParentFixedMissing(s.child, s.sibling, s.name, s.kids, Root, a, b, c);
  }

  // open(2): what it does to an existing path and to a missing one

  /** Flags open accepts never include O_DIRECTORY, which is part of O_TMPFILE. */
  lemma AcceptedNotDirectory(flags: bv32)
    requires OpenFlagsError(flags) == 0
    ensures flags & O_DIRECTORY == 0 && flags & O_TMPFILE == 0
  {
    assert flags & O_DIRECTORY & O_TMPFILE == flags & O_DIRECTORY;
  }

  /** open of a path that names an inode passing the checks of an existing inode. It
      fails only when the inode holds no bytes, nothing truncates it, and the fetch
      fails: ENOENT, with the start directory chosen and nothing else changed. Otherwise
      the caller gets the next descriptor number, not yet in use, naming that inode at
      position 0, or at the end of the fetch the inode owns under O_APPEND; the tree and
      the console stay as they were. */
  lemma OpenExisting(s: State, path: string, flags: bv32, mode: bv32, remote: Fetch)
    requires StateOk(s) && OpenFlagsError(flags) == 0 && PathError(path) == 0 && FindPath(s, path) != Null
    requires !OpenCrashes(s, path, flags, remote)
    requires ExistingError(Started(s, path).inode[FindPath(s, path)], flags) == 0
    ensures var n := FindPath(s, path);
      var s1 := Started(s, path);
      var i := s1.inode[n];
      var (r, t) := OpenSpec(s, path, flags, mode, remote);
      && (r < 0 <==> !Creates(flags) && i.fetched.None? && |i.data| == 0 && FetchAttempted(flags) && !FetchOk(remote))
      && (r < 0 ==> r == -ENOENT && t == s1)
      && (r >= 0 ==>
          && r == s.nextFd && r !in s.fds && t.nextFd == r + 1 && n in t.inode
          && t.fds == s.fds[r := Descriptor(StartPos(t.inode[n], flags), mode, flags, n)]
          && t.parent == s.parent && t.child == s.child && t.sibling == s.sibling && t.name == s.name
          && t.kids == s.kids && t.nextHandle == s.nextHandle && t.cwd == s1.cwd
          && t.stdoutLine == s.stdoutLine && t.stderrLine == s.stderrLine && t.console == s.console)
  {
    StartedOk(s, path);
    var n := FindPath(s, path);
    var s1 := Started(s, path);
    assert OpenSpec(s, path, flags, mode, remote) == OpenFound(s1, n, flags, mode, remote);
    OpenFoundFails(s1, n, flags, mode, remote);
    OpenFoundOpens(s1, n, flags, mode, remote);
    OpenFoundFrame(s1, n, flags, mode, remote);
  }

  /** The inodes after open of a path that names an inode passing the checks: besides
      the root's mode, which choosing the start directory may reset, only that inode
      changes. It is truncated by O_CREAT, O_TRUNC or O_EXCL, takes over the fetch (the
      root's mode being reset again) when it held no bytes, and is unchanged otherwise. */
  lemma OpenExistingInode(s: State, path: string, flags: bv32, mode: bv32, remote: Fetch)
    requires StateOk(s) && OpenFlagsError(flags) == 0 && PathError(path) == 0 && FindPath(s, path) != Null
    requires !OpenCrashes(s, path, flags, remote)
    requires ExistingError(Started(s, path).inode[FindPath(s, path)], flags) == 0
    ensures var n := FindPath(s, path);
      var s1 := Started(s, path);
      var i := s1.inode[n];
      var (r, t) := OpenSpec(s, path, flags, mode, remote);
      && s1.inode == s.inode[Root := s1.inode[Root]]
      && (r >= 0 ==>
          && (Creates(flags) ==> t.inode == s1.inode[n := Truncated(i)])
          && (!Creates(flags) && i.fetched.None? && |i.data| == 0 ==>
                t.inode == RootReset(s1.(inode := s1.inode[n := WithFetch(i, remote.bytes)])).inode)
          && (!Creates(flags) && (i.fetched.Some? || |i.data| != 0) ==> t.inode == s1.inode))
  {
    StartedOk(s, path);
    var n := FindPath(s, path);
    var s1 := Started(s, path);
    assert OpenSpec(s, path, flags, mode, remote) == OpenFound(s1, n, flags, mode, remote);
    OpenFoundInode(s1, n, flags, mode, remote);
  }

  /** The tail of open for an inode `n` it found, from the state `s1` after the start
      directory was chosen: it fails only when `n` holds no bytes, nothing truncates it,
      and the fetch fails, with ENOENT and `s1` unchanged. */
  lemma OpenFoundFails(s1: State, n: Handle, flags: bv32, mode: bv32, remote: Fetch)
    requires StateOk(s1) && n in s1.parent && !FoundCrashes(s1.inode[n], flags, remote)
    ensures var i := s1.inode[n];
      var (r, t) := OpenFound(s1, n, flags, mode, remote);
      && (r < 0 <==> !Creates(flags) && i.fetched.None? && |i.data| == 0 && FetchAttempted(flags) && !FetchOk(remote))
      && (r < 0 ==> r == -ENOENT && t == s1)
  {
  }

  /** The tail of open for an inode `n` it found, when it succeeds: the result is the
      next descriptor number, which now names `n` at position 0, or at the end of the
      fetch `n` owns under O_APPEND; no other descriptor changes. */
  lemma OpenFoundOpens(s1: State, n: Handle, flags: bv32, mode: bv32, remote: Fetch)
    requires StateOk(s1) && n in s1.parent && !FoundCrashes(s1.inode[n], flags, remote)
    ensures var (r, t) := OpenFound(s1, n, flags, mode, remote);
      (r >= 0 ==>
          && r == s1.nextFd && t.nextFd == r + 1 && n in t.inode
          && t.fds == s1.fds[r := Descriptor(StartPos(t.inode[n], flags), mode, flags, n)])
  {
    var i := s1.inode[n];
    if Creates(flags) {
      var u := s1.(inode := s1.inode[n := Truncated(i)]);
      assert OpenFound(s1, n, flags, mode, remote) == Opened(u, n, flags, mode);
    } else if i.fetched.None? && |i.data| == 0 {
      if !(FetchAttempted(flags) && !FetchOk(remote)) {
        var u := RootReset(s1.(inode := s1.inode[n := WithFetch(i, remote.bytes)]));
        assert OpenFound(s1, n, flags, mode, remote) == Opened(u, n, flags, mode);
      }
    } else {
      assert OpenFound(s1, n, flags, mode, remote) == Opened(s1, n, flags, mode);
    }
  }

  /** The tail of open for an inode `n` it found leaves the tree, the working
      directory and the console as they were. */
  lemma OpenFoundFrame(s1: State, n: Handle, flags: bv32, mode: bv32, remote: Fetch)
    requires StateOk(s1) && n in s1.parent && !FoundCrashes(s1.inode[n], flags, remote)
    ensures var t := OpenFound(s1, n, flags, mode, remote).1;
      && t.parent == s1.parent && t.child == s1.child && t.sibling == s1.sibling
      && t.name == s1.name && t.kids == s1.kids && t.nextHandle == s1.nextHandle && t.cwd == s1.cwd
      && t.stdoutLine == s1.stdoutLine && t.stderrLine == s1.stderrLine && t.console == s1.console
  {
    var i := s1.inode[n];
    if Creates(flags) {
      var u := s1.(inode := s1.inode[n := Truncated(i)]);
      assert OpenFound(s1, n, flags, mode, remote) == Opened(u, n, flags, mode);
    } else if i.fetched.None? && |i.data| == 0 {
      if !(FetchAttempted(flags) && !FetchOk(remote)) {
        var u := RootReset(s1.(inode := s1.inode[n := WithFetch(i, remote.bytes)]));
        assert OpenFound(s1, n, flags, mode, remote) == Opened(u, n, flags, mode);
      }
    } else {
      assert OpenFound(s1, n, flags, mode, remote) == Opened(s1, n, flags, mode);
    }
  }

  /** The inodes after the tail of open for an inode `n` it found succeeds: `n` is
      truncated by O_CREAT, O_TRUNC or O_EXCL, takes over the fetch (and the root's mode
      is reset) when it held no bytes, and nothing changes otherwise; no other inode
      changes. */
  lemma OpenFoundInode(s1: State, n: Handle, flags: bv32, mode: bv32, remote: Fetch)
    requires StateOk(s1) && n in s1.parent && !FoundCrashes(s1.inode[n], flags, remote)
    ensures var i := s1.inode[n];
      var (r, t) := OpenFound(s1, n, flags, mode, remote);
      (r >= 0 ==>
          && (Creates(flags) ==> t.inode == s1.inode[n := Truncated(i)])
          && (!Creates(flags) && i.fetched.None? && |i.data| == 0 ==>
                t.inode == RootReset(s1.(inode := s1.inode[n := WithFetch(i, remote.bytes)])).inode)
          && (!Creates(flags) && (i.fetched.Some? || |i.data| != 0) ==> t.inode == s1.inode))
  {
    var i := s1.inode[n];
    if Creates(flags) {
      var u := s1.(inode := s1.inode[n := Truncated(i)]);
      assert OpenFound(s1, n, flags, mode, remote) == Opened(u, n, flags, mode);
    } else if i.fetched.None? && |i.data| == 0 {
      if !(FetchAttempted(flags) && !FetchOk(remote)) {
        var u := RootReset(s1.(inode := s1.inode[n := WithFetch(i, remote.bytes)]));
        assert OpenFound(s1, n, flags, mode, remote) == Opened(u, n, flags, mode);
      }
    } else {
      assert OpenFound(s1, n, flags, mode, remote) == Opened(s1, n, flags, mode);
    }
  }

  /** O_CREAT|O_EXCL on a path that exists fails with EEXIST, or with EACCES when the
      inode is not readable, having only chosen the start directory. */
  lemma OpenExclExisting(s: State, path: string, flags: bv32, mode: bv32, remote: Fetch)
    requires StateOk(s) && OpenFlagsError(flags) == 0 && PathError(path) == 0 && FindPath(s, path) != Null
    requires flags & O_CREAT != 0 && flags & O_EXCL != 0
    ensures !OpenCrashes(s, path, flags, remote)
    ensures var i := Started(s, path).inode[FindPath(s, path)];
      OpenSpec(s, path, flags, mode, remote) == (if Readable(i.mode) then -EEXIST else -EACCES, Started(s, path))
  {
    StartedOk(s, path);
    AcceptedNotDirectory(flags);
  }

  /** The directories create_directory_hierarchy_for_file makes leave the descriptors,
      the working directory and the console alone and only add inodes. */
  lemma {:induction false} MadeDirsFrame(s: State, d: Handle, names: seq<string>, mode: bv32)
    requires StateOk(s) && d in s.parent
    requires forall i :: 0 <= i < |names| ==> '/' !in names[i]
    ensures var t := MadeDirs(s, d, names, mode).0;
      && t.fds == s.fds && t.nextFd == s.nextFd && t.cwd == s.cwd
      && t.stdoutLine == s.stdoutLine && t.stderrLine == s.stderrLine && t.console == s.console
      && s.inode.Keys <= t.inode.Keys
    decreases |names|
  {
    if names != [] {
      var n := s.nextHandle;
      CreatedOk(s, FreshInode(Dir, mode), names[0]);
      var s1 := Created(s, FreshInode(Dir, mode), names[0]);
      RootResetOk(s1);
      LinkedOk(RootReset(s1), n, d);
      MadeDirsFrame(Linked(RootReset(s1), n, d), n, names[1..], mode);
    }
  }

  /** The entry open adds for a missing path: a new inode of the given kind and mode
      (holding `fetch`, if any), named `nm`, without children, first in the chain of the
      directory create_directory_hierarchy_for_file returned; the descriptors, the
      working directory and the console are untouched and no inode goes away. */
  lemma NewEntryMakes(s: State, root: Handle, rel: string, nm: string, kind: Kind, mode: bv32,
                      fetch: Option<seq<byte>>)
    requires StateOk(s) && root in s.parent && '/' !in nm
    ensures var (t, m) := NewEntry(s, root, rel, nm, kind, mode, fetch);
      && m != Root && m !in s.inode && m in t.parent && m in t.inode && m in t.name && m in t.kids
      && t.inode[m] == (if fetch.Some? then WithFetch(FreshInode(kind, mode), fetch.value) else FreshInode(kind, mode))
      && t.name[m] == nm && t.kids[m] == [] && t.parent[m] == Hierarchy(s, root, rel, mode).1
      && t.parent[m] in t.kids && t.kids[t.parent[m]] != [] && t.kids[t.parent[m]][0] == m
      && t.fds == s.fds && t.nextFd == s.nextFd && t.cwd == s.cwd
      && t.stdoutLine == s.stdoutLine && t.stderrLine == s.stderrLine && t.console == s.console
      && s.inode.Keys <= t.inode.Keys
  {
    HierarchyFrame(s, root, rel, mode);
    var (s2, d) := Hierarchy(s, root, rel, mode);
    var i := if fetch.Some? then WithFetch(FreshInode(kind, mode), fetch.value) else FreshInode(kind, mode);
    CreatedOk(s2, i, nm);
    var t := NewEntry(s, root, rel, nm, kind, mode, fetch).0;
    NewNodeLinked(s2, d, nm, i, t);
    NewNodeFrame(s2, d, nm, i);
  }

  /** create_directory_hierarchy_for_file leaves the descriptors, the working directory
      and the console alone and only adds inodes. */
  lemma HierarchyFrame(s: State, root: Handle, rel: string, mode: bv32)
    requires StateOk(s) && root in s.parent
    ensures var t := Hierarchy(s, root, rel, mode).0;
      && t.fds == s.fds && t.nextFd == s.nextFd && t.cwd == s.cwd
      && t.stdoutLine == s.stdoutLine && t.stderrLine == s.stderrLine && t.console == s.console
      && s.inode.Keys <= t.inode.Keys
  {
    TreeWalkable(s.parent, s.child, s.sibling, s.name, s.kids, s.nextHandle);
    match Descend(s.child, s.sibling, s.name, s.kids, s.child[root], rel, root, s.kids[root])
    case Found(n) =>
    case Stopped(d0, rest) =>
      MadeDirsFrame(s, d0, DirComponents(rest, |BasenamePart(rest)|), mode);
  }

  /** create_inode and link_inode of a new inode leave the descriptors, the working
      directory and the console alone and only add an inode. */
  lemma NewNodeFrame(s1: State, p: Handle, nm: string, i: Inode)
    requires StateOk(s1) && p in s1.parent
    ensures p in Created(s1, i, nm).child && p in Created(s1, i, nm).kids
    ensures var t := Linked(RootReset(Created(s1, i, nm)), s1.nextHandle, p);
      && t.fds == s1.fds && t.nextFd == s1.nextFd && t.cwd == s1.cwd
      && t.stdoutLine == s1.stdoutLine && t.stderrLine == s1.stderrLine && t.console == s1.console
      && s1.inode.Keys <= t.inode.Keys
  {
  }

  /** O_CREAT on a missing path succeeds: the caller gets the next descriptor number,
      not yet in use, at position 0, naming a new empty regular file of the given mode,
      named by the path's basename and first in its directory's chain. */
  lemma OpenCreatesMissing(s: State, path: string, flags: bv32, mode: bv32, remote: Fetch)
    requires StateOk(s) && OpenFlagsError(flags) == 0 && PathError(path) == 0 && FindPath(s, path) == Null
    requires flags & O_CREAT != 0
    ensures !OpenCrashes(s, path, flags, remote)
    ensures var (r, t) := OpenSpec(s, path, flags, mode, remote);
      && r == s.nextFd && r !in s.fds && r in t.fds && t.nextFd == r + 1
      && t.fds == s.fds[r := t.fds[r]]
      && var m := t.fds[r].node;
        && t.fds[r] == Descriptor(0, mode, flags, m)
        && m !in s.inode && m in t.parent && m in t.inode && m in t.name && m in t.kids
        && t.inode[m] == FreshInode(File, mode) && t.name[m] == BasenamePart(path)
        && t.kids[m] == [] && t.parent[m] in t.kids && t.kids[t.parent[m]][0] == m
  {
    AcceptedNotDirectory(flags);
    StartedOk(s, path);
    var s1 := Started(s, path);
    var root := StartDir(s, path);
    assert OpenSpec(s, path, flags, mode, remote) == OpenMissing(s1, root, path, flags, mode, remote);
    NewEntryMakes(s1, root, RelPath(path), BasenamePart(path), File, mode, None);
    var (s2, m) := NewEntry(s1, root, RelPath(path), BasenamePart(path), File, mode, None);
    assert OpenMissing(s1, root, path, flags, mode, remote) == Opened(s2, m, flags, mode);
    assert s2.fds == s.fds && s2.nextFd == s.nextFd;
    OpenedFields(s2, m, flags, mode);
    assert StartPos(s2.inode[m], flags) == 0;
  }

  /** A missing path opened without O_CREAT or O_TRUNC: when the fetch is not attempted
      or fails, ENOENT, having only chosen the start directory; when it succeeds, the
      caller gets the next descriptor number on a new regular file named by the basename
      that owns the fetched bytes, at position 0, or at their end under O_APPEND. */
  lemma OpenMissingNoCreate(s: State, path: string, flags: bv32, mode: bv32, remote: Fetch)
    requires StateOk(s) && OpenFlagsError(flags) == 0 && PathError(path) == 0 && FindPath(s, path) == Null
    requires flags & O_CREAT == 0 && flags & O_TRUNC == 0
    ensures !OpenCrashes(s, path, flags, remote)
    ensures var (r, t) := OpenSpec(s, path, flags, mode, remote);
      && (r < 0 <==> !(FetchAttempted(flags) && FetchOk(remote)))
      && (r < 0 ==> r == -ENOENT && t == Started(s, path))
      && (r >= 0 ==>
          && r == s.nextFd && r !in s.fds && r in t.fds && t.nextFd == r + 1
          && t.fds == s.fds[r := t.fds[r]]
          && var m := t.fds[r].node;
            && m !in s.inode && m in t.inode && m in t.name
            && t.inode[m] == WithFetch(FreshInode(File, mode), remote.bytes) && t.name[m] == BasenamePart(path)
            && t.fds[r] == Descriptor(if flags & O_APPEND != 0 then |remote.bytes| else 0, mode, flags, m))
  {
    AcceptedNotDirectory(flags);
    StartedOk(s, path);
    var s1 := Started(s, path);
    NewEntryMakes(s1, StartDir(s, path), RelPath(path), BasenamePart(path), File, mode, Some(remote.bytes));
  }

  /** create_directory_hierarchy_for_file for a single component that `root` lacks: no
      directory is made and the entry goes straight under `root`. */
  lemma HierarchyAtStart(s: State, root: Handle, c: string, mode: bv32)
    requires StateOk(s) && root in s.parent && '/' !in c && c != [] && Find(s, root, c) == Null
    ensures Hierarchy(s, root, c, mode) == (s, root)
  {
    TreeWalkable(s.parent, s.child, s.sibling, s.name, s.kids, s.nextHandle);
    assert c != "/" by { assert c[0] in c; }
    DescendAbsent(s.child, s.sibling, s.name, s.kids, s.child[root], c, root, s.kids[root]);
    assert DirComponents(c, |BasenamePart(c)|) == [];
  }

  /** create_inode and link_inode of an entry named `c` under `d`, which has no child of
      that name: every lookup that reached `d` still does, and the same lookup followed by
      `c` now reaches the new inode, which has no children. */
  lemma LinkedReach(s: State, d: Handle, c: string, i: Inode, x: Handle, ps: seq<string>)
    requires StateOk(s) && d in s.parent && x in s.parent && '/' !in c && ContentOk(i)
    requires Reach(s, d, [c]) == Null && Reach(s, x, ps) == d
    ensures var t := Linked(RootReset(Created(s, i, c)), s.nextHandle, d);
      && StateOk(t) && x in t.parent && d in t.parent && s.nextHandle in t.parent
      && Reach(t, x, ps) == d && Reach(t, x, ps + [c]) == s.nextHandle
      && t.kids[s.nextHandle] == []
  {
    var n := s.nextHandle;
    var t := Linked(RootReset(Created(s, i, c)), n, d);
    NewNodeLinked(s, d, c, i, t);
    TreeWalkable(s.parent, s.child, s.sibling, s.name, s.kids, s.nextHandle);
    TreeWalkable(t.parent, t.child, t.sibling, t.name, t.kids, t.nextHandle);
    assert n !in s.kids;
    assert t.name == s.name[n := c] && t.kids == s.kids[n := []][d := [n] + s.kids[d]];
    FollowOne(s.name, s.kids, d, c);
    FollowGrow(s.name, s.kids, t.name, t.kids, d, n, c, x, ps);
    FollowAppend(t.name, t.kids, x, ps, [c]);
    FollowOne(t.name, t.kids, d, c);
  }

  /** A childless inode has no entry of any name. */
  lemma ChildlessReach(s: State, n: Handle, c: string)
    requires StateOk(s) && n in s.parent && s.kids[n] == []
    ensures Reach(s, n, [c]) == Null
  {
    TreeWalkable(s.parent, s.child, s.sibling, s.name, s.kids, s.nextHandle);
    FollowOne(s.name, s.kids, n, c);
  }

  /** One round of the second loop: the first directory is made and linked under `d`,
      and the rest are made under it. */
  lemma MadeDirsStep(s: State, d: Handle, names: seq<string>, mode: bv32)
    requires StateOk(s) && d in s.parent && names != [] && PlainComponents(names)
    ensures d in Created(s, FreshInode(Dir, mode), names[0]).child
    ensures d in Created(s, FreshInode(Dir, mode), names[0]).kids
    ensures var s1 := Linked(RootReset(Created(s, FreshInode(Dir, mode), names[0])), s.nextHandle, d);
      && StateOk(s1) && s.nextHandle in s1.parent && PlainComponents(names[1..])
      && MadeDirs(s, d, names, mode) == MadeDirs(s1, s.nextHandle, names[1..], mode)
  {
    CreatedOk(s, FreshInode(Dir, mode), names[0]);
    RootResetOk(Created(s, FreshInode(Dir, mode), names[0]));
    LinkedOk(RootReset(Created(s, FreshInode(Dir, mode), names[0])), s.nextHandle, d);
  }

  /** The second loop of create_directory_hierarchy_for_file, started at a `d` that a
      lookup `ps` from `x` reaches and that has no child named by the first name: the
      lookup `ps` followed by the names reaches the directory it returns, a new childless
      one when it made any. */
  lemma {:induction false} MadeDirsReach(s: State, x: Handle, ps: seq<string>, d: Handle, names: seq<string>, mode: bv32)
    requires StateOk(s) && x in s.parent && d in s.parent && PlainComponents(names)
    requires Reach(s, x, ps) == d
    requires names != [] ==> Reach(s, d, [names[0]]) == Null
    ensures var (t, e) := MadeDirs(s, d, names, mode);
      && x in t.parent && Reach(t, x, ps + names) == e
      && (names == [] ==> t == s && e == d)
      && (names != [] ==> t.kids[e] == [])
    decreases |names|
  {
    if names == [] {
      assert ps + names == ps;
    } else {
      var n := s.nextHandle;
      var s1 := Linked(RootReset(Created(s, FreshInode(Dir, mode), names[0])), n, d);
      LinkedReach(s, d, names[0], FreshInode(Dir, mode), x, ps);
      MadeDirsStep(s, d, names, mode);
      if names[1..] != [] {
        ChildlessReach(s1, n, names[1..][0]);
      }
      MadeDirsReach(s1, x, ps + [names[0]], n, names[1..], mode);
      ShiftComponent(ps, names);
    }
  }

  /** The first loop of create_directory_hierarchy_for_file on a path of plain
      components that does not resolve: it stops at the inode that the longest resolving
      prefix `cs[..j]` reaches, which has no child named `cs[j]`, and the second loop
      then makes the directories named by the components from `j` up to the last. */
  lemma HierarchyDescends(s: State, root: Handle, cs: seq<string>, mode: bv32) returns (j: nat)
    requires StateOk(s) && root in s.parent && PlainComponents(cs) && cs != []
    requires Find(s, root, JoinPath(cs)) == Null
    ensures j < |cs| && Reach(s, root, cs[..j]) != Null
    ensures Reach(s, Reach(s, root, cs[..j]), [cs[j]]) == Null
    ensures Hierarchy(s, root, JoinPath(cs), mode) == MadeDirs(s, Reach(s, root, cs[..j]), cs[j..|cs| - 1], mode)
  {
    TreeWalkable(s.parent, s.child, s.sibling, s.name, s.kids, s.nextHandle);
    FindReach(s, root, cs);
    j := DescendJoin(s.child, s.sibling, s.name, s.kids, root, cs);
    ComponentsSplit(cs, j);
    JoinBasename(cs[j..]);
    JoinDirComponents(cs[j..]);
  }

  /** create_directory_hierarchy_for_file(root, rel) for a path `rel` of plain components
      that does not resolve yet: afterwards the directory part of `rel`, all components
      but the last, resolves to the inode it returns, and that inode has no entry named by
      the last component, so `rel` itself still does not resolve. */
  lemma HierarchyMakesParent(s: State, root: Handle, cs: seq<string>, mode: bv32)
    requires StateOk(s) && root in s.parent && PlainComponents(cs) && cs != []
    requires Find(s, root, JoinPath(cs)) == Null
    ensures var (t, e) := Hierarchy(s, root, JoinPath(cs), mode);
      && root in t.parent
      && Find(t, root, JoinPath(cs[..|cs| - 1])) == e
      && Find(t, e, cs[|cs| - 1]) == Null
      && Find(t, root, JoinPath(cs)) == Null
  {
    var j := HierarchyDescends(s, root, cs, mode);
    ComponentsSplit(cs, j);
    var d := Reach(s, root, cs[..j]);
    var names := cs[j..|cs| - 1];
    MadeDirsReach(s, root, cs[..j], d, names, mode);
    var (t, e) := MadeDirs(s, d, names, mode);
    var last := cs[|cs| - 1];
    FindReach(t, root, cs[..|cs| - 1]);
    FindReach(t, e, [last]);
    FindReach(t, root, cs);
    TreeWalkable(t.parent, t.child, t.sibling, t.name, t.kids, t.nextHandle);
    FollowAppend(t.name, t.kids, root, cs[..|cs| - 1], [last]);
  }

  /** The entry open adds for a missing path of plain components, named by the last
      one: afterwards the path finds it, and the directory part of the path finds the
      directory it was linked under. */
  lemma NewEntryFound(s: State, root: Handle, cs: seq<string>, kind: Kind, mode: bv32, fetch: Option<seq<byte>>)
    requires StateOk(s) && root in s.parent && PlainComponents(cs) && cs != []
    requires Find(s, root, JoinPath(cs)) == Null
    ensures var (t, m) := NewEntry(s, root, JoinPath(cs), cs[|cs| - 1], kind, mode, fetch);
      && root in t.parent && m in t.parent
      && Find(t, root, JoinPath(cs)) == m
      && Find(t, root, JoinPath(cs[..|cs| - 1])) == t.parent[m]
  {
    var last := cs[|cs| - 1];
    var dir := cs[..|cs| - 1];
    ComponentsSplit(cs, 0);
    HierarchyMakesParent(s, root, cs, mode);
    NewEntryMakes(s, root, JoinPath(cs), last, kind, mode, fetch);
    var (th, e) := Hierarchy(s, root, JoinPath(cs), mode);
    var i := if fetch.Some? then WithFetch(FreshInode(kind, mode), fetch.value) else FreshInode(kind, mode);
    FindReach(th, root, dir);
    FindReach(th, e, [last]);
    LinkedReach(th, e, last, i, root, dir);
    var t := Linked(RootReset(Created(th, i, last)), th.nextHandle, e);
    assert NewEntry(s, root, JoinPath(cs), last, kind, mode, fetch) == (t, th.nextHandle);
    FindReach(t, root, cs);
    FindReach(t, root, dir);
  }

  /** The basename of an absolute path of plain components is the last of them. */
  lemma JoinedBasename(cs: seq<string>)
    requires PlainComponents(cs) && cs != []
    ensures BasenamePart("/" + JoinPath(cs)) == cs[|cs| - 1]
  {
    JoinBasename(cs);
    BasenameAfter("/", JoinPath(cs));
  }

  /** An absolute path's relative part is what follows its first '/'. */
  lemma RootRelPath(p: string)
    ensures Absolute("/" + p) && RelPath("/" + p) == p
  {
    assert ("/" + p)[1..] == p;
  }

  /** open(path, O_CREAT) for an absolute path of plain components that does not resolve:
      the call succeeds, making the missing directories on the way; afterwards the path
      finds the new empty regular file, and the path without its last component finds
      the directory that holds it. */
  lemma OpenCreatesNested(s: State, cs: seq<string>, flags: bv32, mode: bv32, remote: Fetch)
    requires StateOk(s) && OpenFlagsError(flags) == 0 && flags & O_CREAT != 0
    requires PlainComponents(cs) && cs != [] && |JoinPath(cs)| < MAX_PATHNAME_LENGTH
    requires FindPath(s, "/" + JoinPath(cs)) == Null
    ensures !OpenCrashes(s, "/" + JoinPath(cs), flags, remote)
    ensures var (r, t) := OpenSpec(s, "/" + JoinPath(cs), flags, mode, remote);
      && r >= 0 && StateOk(t) && r in t.fds && t.fds[r].node in t.inode && t.fds[r].node in t.parent
      && t.inode[t.fds[r].node] == FreshInode(File, mode)
      && FindPath(t, "/" + JoinPath(cs)) == t.fds[r].node
      && FindPath(t, "/" + JoinPath(cs[..|cs| - 1])) == t.parent[t.fds[r].node]
  {
    var path := "/" + JoinPath(cs);
    JoinedBasename(cs);
    RootRelPath(JoinPath(cs));
    RootRelPath(JoinPath(cs[..|cs| - 1]));
    OpenCreatesMissing(s, path, flags, mode, remote);
    AcceptedNotDirectory(flags);
    StartedOk(s, path);
    var s1 := Started(s, path);
    assert FindPath(s, path) == Find(s1, Root, JoinPath(cs));
    NewEntryFound(s1, Root, cs, File, mode, None);
    var (s2, m) := NewEntry(s1, Root, JoinPath(cs), cs[|cs| - 1], File, mode, None);
    assert OpenSpec(s, path, flags, mode, remote) == Opened(s2, m, flags, mode);
    OpenedOk(s2, m, flags, mode);
  }

  /** open("/c", O_CREAT) where the root has no "c": the call succeeds, and afterwards
      the same path finds the new empty regular file, a child of the root. */
  lemma OpenCreatesAtRoot(s: State, c: string, flags: bv32, mode: bv32, remote: Fetch)
    requires StateOk(s) && OpenFlagsError(flags) == 0 && flags & O_CREAT != 0
    requires '/' !in c && c != [] && |c| < MAX_PATHNAME_LENGTH && FindPath(s, "/" + c) == Null
    ensures !OpenCrashes(s, "/" + c, flags, remote)
    ensures var (r, t) := OpenSpec(s, "/" + c, flags, mode, remote);
      && r >= 0 && StateOk(t) && r in t.fds && t.fds[r].node in t.inode && t.fds[r].node in t.parent
      && t.inode[t.fds[r].node] == FreshInode(File, mode) && t.parent[t.fds[r].node] == Root
      && FindPath(t, "/" + c) == t.fds[r].node
  {
    var path := "/" + c;
    RootPath(c);
    OpenCreatesMissing(s, path, flags, mode, remote);
    AcceptedNotDirectory(flags);
    StartedOk(s, path);
    var s1 := Started(s, path);
    assert FindPath(s, path) == Find(s1, Root, c);
    HierarchyAtStart(s1, Root, c, mode);
    NewEntryMakes(s1, Root, c, c, File, mode, None);
    var (s2, m) := NewEntry(s1, Root, c, c, File, mode, None);
    assert OpenSpec(s, path, flags, mode, remote) == Opened(s2, m, flags, mode);
    OpenedOk(s2, m, flags, mode);
    var t := Opened(s2, m, flags, mode).1;
    FirstChildFound(t, Root, m, c);
  }
}
