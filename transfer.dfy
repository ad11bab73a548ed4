/** The copy loops inside the file syscalls, each on local values and proved against
    the function that specifies it: readv's scatter, writev's gather, print_stream's
    line splitting and getdents64's record emission. */
module Transfer {
  import opened Wrappers
  import opened Posix
  import opened Paths
  import opened Buffers
  import opened Tree
  import opened FsState

  /** readv's copy loop: from position `pos` of a file of `size` bytes held in `data`,
      each buffer in turn receives the bytes left, up to its length, and the loop stops
      at the end of the file; buffers it does not reach receive nothing. `offset` is
      where the reading stopped. */
  method Scatter(data: seq<byte>, size: nat, pos: nat, iov: seq<IoVec>) returns (offset: nat, out: seq<seq<byte>>)
    requires size <= |data|
    ensures offset == pos + Min(|Remaining(data, size, pos)|, TotalLen(iov))
    ensures out == Chunks(Remaining(data, size, pos), iov, |iov|)
  {
    ghost var avail := Remaining(data, size, pos);
    offset := pos;
    out := [];
    var i := 0;
    while i < |iov|
      invariant 0 <= i <= |iov|
      invariant offset == pos + Min(|avail|, SumLen(iov, i))
      invariant out == Chunks(avail, iov, i)
    {
      var dataLeft := size - offset;
      if dataLeft <= 0 {
        break;
      }
      var n := if dataLeft < iov[i].len then dataLeft else iov[i].len;
      ScatterStep(data, size, pos, iov, i, offset);
      out := out + [data[offset..offset + n]];
      offset := offset + n;
      i := i + 1;
    }
    SumLenMono(iov, i, |iov|);
    if i < |iov| {
      ChunksPast(avail, iov, i, |iov|);
    }
    out := out + Blank(|iov| - i);
  }

  /** One round of readv's copy loop, before the end of the file: the bytes copied are
      the buffer's chunk, and the offset moves to the next running total. */
  lemma ScatterStep(data: seq<byte>, size: nat, pos: nat, iov: seq<IoVec>, i: nat, offset: int)
    requires size <= |data| && i < |iov| && offset < size
    requires offset == pos + Min(|Remaining(data, size, pos)|, SumLen(iov, i))
    ensures var n := Min(size - offset, iov[i].len);
      data[offset..offset + n] == Chunk(Remaining(data, size, pos), iov, i)
    ensures var n := Min(size - offset, iov[i].len);
      offset + n == pos + Min(|Remaining(data, size, pos)|, SumLen(iov, i + 1))
  {
    var avail := Remaining(data, size, pos);
    assert avail == data[pos..size];
    var t := SumLen(iov, i);
    assert offset == pos + t && t < |avail|;
    assert SumLen(iov, i + 1) == t + iov[i].len;
    var hi := Min(|avail|, t + iov[i].len);
    assert Chunk(avail, iov, i) == avail[t..hi];
    var n := Min(size - offset, iov[i].len);
    assert pos + hi == offset + n && pos + t == offset;
    assert 0 <= t <= hi <= size - pos;
    forall j | 0 <= j < hi - t
      ensures avail[t..hi][j] == data[offset..offset + n][j]
    {
      assert avail[t + j] == data[pos + t + j];
    }
  }

  /** writev's copy loop: the entries' bytes go one after the other into `data` from
      position `pos`. */
  method Gather(data: seq<byte>, pos: nat, iov: seq<IoVec>) returns (d: seq<byte>)
    requires IovOk(iov) && pos + TotalLen(iov) <= |data|
    ensures d == Splice(data, pos, Gathered(iov, |iov|))
  {
    d := data;
    var p := pos;
    var i := 0;
    SumLenMono(iov, 0, |iov|);
    while i < |iov|
      invariant 0 <= i <= |iov|
      invariant SumLen(iov, i) <= TotalLen(iov)
      invariant p == pos + SumLen(iov, i) && |d| == |data|
      invariant d == Splice(data, pos, Gathered(iov, i))
    {
      SumLenMono(iov, i + 1, |iov|);
      GatherStep(data, pos, iov, i);
      d := Splice(d, p, IovBytes(iov[i]));
      p := p + iov[i].len;
      i := i + 1;
    }
  }

  /** One round of writev's copy loop: the next entry's bytes go just past the bytes
      already copied. */
  lemma GatherStep(data: seq<byte>, pos: nat, iov: seq<IoVec>, i: nat)
    requires IovOk(iov) && i < |iov| && pos + SumLen(iov, i + 1) <= |data|
    ensures pos + SumLen(iov, i) + iov[i].len <= |data|
    ensures Splice(Splice(data, pos, Gathered(iov, i)), pos + SumLen(iov, i), IovBytes(iov[i]))
      == Splice(data, pos, Gathered(iov, i + 1))
  {
    SpliceAppend(data, pos, Gathered(iov, i), IovBytes(iov[i]));
  }

  /** print_stream's scan of its line buffer: every '\n' ends a line, handed to the
      console as the C string before it, and what follows the last '\n' is kept. */
  method SplitLines(buffer: seq<byte>) returns (printed: seq<seq<byte>>, rest: seq<byte>)
    ensures printed == CStrings(Lines(buffer).0) && rest == Lines(buffer).1
    ensures NEWLINE !in rest && |rest| <= |buffer|
  {
    printed := [];
    var start := 0;
    var i := 0;
    while i < |buffer|
      invariant 0 <= start <= i <= |buffer|
      invariant Lines(buffer[..i]).1 == buffer[start..i]
      invariant printed == CStrings(Lines(buffer[..i]).0)
    {
      ghost var ls := Lines(buffer[..i]).0;
      assert buffer[..i + 1][..i] == buffer[..i];
      if buffer[i] == NEWLINE {
        assert (ls + [buffer[start..i]])[..|ls|] == ls;
        printed := printed + [CString(buffer[start..i])];
        start := i + 1;
      }
      i := i + 1;
    }
    assert buffer[..|buffer|] == buffer;
    rest := buffer[start..];
    LinesJoin(buffer);
  }

  /** print_stream: `bytes` join the stream's line buffer, and every complete line
      goes to the console. */
  method PrintStream(s: State, toStdout: bool, bytes: seq<byte>) returns (t: State)
    ensures t == Printed(s, toStdout, bytes)
  {
    var line := if toStdout then s.stdoutLine else s.stderrLine;
    var printed, rest := SplitLines(line + bytes);
    if toStdout {
      t := s.(stdoutLine := rest, console := s.console + printed);
    } else {
      t := s.(stderrLine := rest, console := s.console + printed);
    }
  }

  /** One round of the console writev's loop: entry `i` goes through print_stream
      and its length joins the running total. */
  method PrintEntry(ghost s: State, toStdout: bool, iov: seq<IoVec>, i: nat, t0: State, w0: int)
    returns (t: State, written: int)
    requires IovOk(iov) && i < |iov| && t0 == PrintedAll(s, toStdout, iov, i) && w0 == SumLen(iov, i)
    ensures t == PrintedAll(s, toStdout, iov, i + 1) && written == SumLen(iov, i + 1)
  {
    t := PrintStream(t0, toStdout, IovBytes(iov[i]));
    written := w0 + iov[i].len;
  }

  /** The console writev's loop: one print_stream call per entry, adding up the
      lengths. */
  method PrintAll(s: State, toStdout: bool, iov: seq<IoVec>) returns (t: State, written: int)
    requires IovOk(iov)
    ensures t == PrintedAll(s, toStdout, iov, |iov|) && written == TotalLen(iov)
  {
    t := s;
    written := 0;
    var i := 0;
    while i < |iov|
      invariant 0 <= i <= |iov|
      invariant t == PrintedAll(s, toStdout, iov, i) && written == SumLen(iov, i)
    {
      t, written := PrintEntry(s, toStdout, iov, i, t, written);
      i := i + 1;
    }
  }

  /** The record of child `cs[j]` among the entries numbered from `k`. */
  lemma {:induction false} ChildEntriesAt(s: State, cs: seq<Handle>, k: nat, j: nat)
    requires forall c :: c in cs ==> c in s.inode && c in s.name
    requires j < |cs|
    ensures ChildEntries(s, cs, k)[j]
      == Dirent(cs[j], (k + j) * 280, DIRENT_SIZE, if s.inode[cs[j]].kind == Dir then DT_DIR else DT_REG,
                Truncate(s.name[cs[j]], NAME_MAX))
    decreases j
  {
    if j > 0 {
      ChildEntriesAt(s, cs[1..], k + 1, j - 1);
    }
  }

  /** getdents64's emission: ".", "..", then the chain of `n`'s children; an entry is
      written when the cursor has reached it, and the cursor moves one record per
      entry written, until `cap` entries are written or the chain ends. */
  method EmitEntries(s: State, n: Handle, dot: Dirent, dotdot: Dirent, pos: int, cap: nat)
    returns (out: seq<Dirent>, newPos: int)
    requires n in s.child && n in s.kids && ChainIs(s.sibling, s.child[n], s.kids[n])
    requires forall c :: c in s.kids[n] ==> c != Null && c in s.inode && c in s.name
    requires pos >= 0
    ensures out == Window([dot, dotdot] + ChildEntries(s, s.kids[n], 2), pos, cap)
    ensures newPos == pos + |out| * DIRENT_SIZE
  {
    ghost var es := [dot, dotdot] + ChildEntries(s, s.kids[n], 2);
    out := [];
    newPos := pos;
    var k := 0;
    while k < 2 && |out| < cap
      invariant 0 <= k <= 2
      invariant out == Window(es[..k], pos, cap) && newPos == pos + |out| * DIRENT_SIZE
    {
      WindowAdvance(es, k, pos, cap);
      if newPos <= k * DIRENT_SIZE {
        out := out + [if k == 0 then dot else dotdot];
        newPos := newPos + DIRENT_SIZE;
      }
      k := k + 1;
    }
    if |out| == cap {
      WindowFull(es, k, pos, cap);
      return;
    }
    out, newPos := EmitChildren(s, n, es, pos, cap, out, newPos);
  }

  /** getdents64's walk of the chain of `n`'s children, once "." and ".." are behind
      and there is room left: `es` are all the entries, `out0` those emitted so far. */
  method EmitChildren(s: State, n: Handle, ghost es: seq<Dirent>, pos: int, cap: nat, out0: seq<Dirent>, pos0: int)
    returns (out: seq<Dirent>, newPos: int)
    requires n in s.child && n in s.kids && ChainIs(s.sibling, s.child[n], s.kids[n])
    requires forall c :: c in s.kids[n] ==> c != Null && c in s.inode && c in s.name
    requires |es| >= 2 && es[2..] == ChildEntries(s, s.kids[n], 2) && pos >= 0
    requires out0 == Window(es[..2], pos, cap) && |out0| < cap && pos0 == pos + |out0| * DIRENT_SIZE
    ensures out == Window(es, pos, cap) && newPos == pos + |out| * DIRENT_SIZE
  {
    ghost var kids := s.kids[n];
    out, newPos := out0, pos0;
    var k := 2;
    var c := s.child[n];
    while c != Null && |out| < cap
      invariant 2 <= k <= |es|
      invariant c == if k - 2 < |kids| then kids[k - 2] else Null
      invariant out == Window(es[..k], pos, cap) && newPos == pos + |out| * DIRENT_SIZE
      decreases |es| - k
    {
      ChainAt(s.sibling, s.child[n], kids, k - 2);
      ChildEntriesAt(s, kids, 2, k - 2);
      assert es[k] == es[2..][k - 2];
      WindowAdvance(es, k, pos, cap);
      if newPos <= k * DIRENT_SIZE {
        var t := if s.inode[c].kind == Dir then DT_DIR else DT_REG;
        out := out + [Dirent(c, k * DIRENT_SIZE, DIRENT_SIZE, t, Truncate(s.name[c], NAME_MAX))];
        newPos := newPos + DIRENT_SIZE;
      }
      c := s.sibling[c];
      k := k + 1;
    }
    assert |es| == |kids| + 2;
    if k - 2 < |kids| {
      assert kids[k - 2] in kids;
    }
    WindowFull(es, k, pos, cap);
  }
}
