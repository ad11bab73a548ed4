/** Byte-level arithmetic of the file syscalls: I/O vectors, 64-bit seek offsets,
    buffer growth, the console line splitter and the directory-entry cursor. */
module Buffers {
  import opened Wrappers
  import opened Posix

  type byte = bv8

  const NEWLINE: byte := 10
  const TWO_32: int := 0x1_0000_0000
  const TWO_63: int := 0x8000_0000_0000_0000
  const TWO_64: int := 0x1_0000_0000_0000_0000

  /** One entry of an iovec array: a base pointer (`None` is null) and a length. For a
      write the first `len` bytes of the base are the data; for a read the base's content
      is ignored. */
  datatype IoVec = IoVec(base: Option<seq<byte>>, len: nat)

  /** What a C caller can pass: 32-bit lengths, and a buffer at least `len` long behind
      every non-null base. */
  predicate WellFormedIov(iov: seq<IoVec>)
  {
    forall i :: 0 <= i < |iov| ==>
      iov[i].len < TWO_32 && (iov[i].base.Some? ==> |iov[i].base.value| >= iov[i].len)
  }

  /** The sum of the lengths of the first `k` entries of `iov`. */
  function SumLen(iov: seq<IoVec>, k: nat): nat
    requires k <= |iov|
  {
    if k == 0 then 0 else SumLen(iov, k - 1) + iov[k - 1].len
  }

  /** The sum of the lengths of `iov`. */
  function TotalLen(iov: seq<IoVec>): nat
  {
    SumLen(iov, |iov|)
  }

  /** No entry has a null base with a positive length. */
  predicate NoNullBuffers(iov: seq<IoVec>)
  {
    forall i :: 0 <= i < |iov| ==> iov[i].base.None? ==> iov[i].len == 0
  }

  /** Reinterprets a value modulo 2^32 as a signed 32-bit integer. */
  function Signed32(x: int): (r: int)
    ensures -0x8000_0000 <= r <= OFF_MAX && (r - x) % TWO_32 == 0
  {
    var m := x % TWO_32;
    if m <= OFF_MAX then m else m - TWO_32
  }

  /** Reinterprets a value modulo 2^64 as a signed 64-bit integer (int64 wrap-around). */
  function Wrap64(x: int): (r: int)
    ensures -TWO_63 <= r < TWO_63 && (r - x) % TWO_64 == 0
    ensures -TWO_63 <= x < TWO_63 ==> r == x
  {
    var m := x % TWO_64;
    if m < TWO_63 then m else m - TWO_64
  }

  /** The validation loop shared by readv and writev: the running total is an ssize_t
      to which each 32-bit iov_len is added; a total that wraps below its previous
      value, or a null base with a positive length, is EINVAL. */
  method CheckIov(iov: seq<IoVec>) returns (ok: bool, total: int)
    requires WellFormedIov(iov)
    ensures ok <==> TotalLen(iov) <= OFF_MAX && NoNullBuffers(iov)
    ensures ok ==> total == TotalLen(iov)
  {
    total := 0;
    var i := 0;
    while i < |iov|
      invariant 0 <= i <= |iov|
      invariant total == SumLen(iov, i) <= OFF_MAX
      invariant forall j :: 0 <= j < i ==> iov[j].base.None? ==> iov[j].len == 0
    {
      var n := Signed32(total + iov[i].len);
      if n < total {
        SumLenMono(iov, i + 1, |iov|);
        return false, total;
      }
      if iov[i].base.None? && iov[i].len > 0 {
        return false, total;
      }
      total := n;
      i := i + 1;
    }
    return true, total;
  }

  /** Prefix sums grow with the prefix. */
  lemma {:induction false} SumLenMono(iov: seq<IoVec>, j: nat, k: nat)
    requires j <= k <= |iov|
    ensures SumLen(iov, j) <= SumLen(iov, k)
    decreases k
  {
    if j < k {
      SumLenMono(iov, j, k - 1);
    }
  }

  /** The bytes that readv places in buffer `i`: the part of `avail` that falls between
      the running totals before and after buffer `i`. */
  function Chunk(avail: seq<byte>, iov: seq<IoVec>, i: nat): (c: seq<byte>)
    requires i < |iov|
    ensures |c| <= iov[i].len
  {
    avail[Min(|avail|, SumLen(iov, i))..Min(|avail|, SumLen(iov, i + 1))]
  }

  function Min(a: int, b: int): int { if a <= b then a else b }
  function Max(a: int, b: int): int { if a <= b then b else a }

  /** The bytes from `pos` on of a file of `size` bytes held in `data`. */
  function Remaining(data: seq<byte>, size: nat, pos: int): (a: seq<byte>)
    requires size <= |data| && pos >= 0
    ensures |a| == Max(size - pos, 0)
  {
    if pos < size then data[pos..size] else []
  }

  /** The concatenation of a sequence of byte strings. */
  function Flatten(bs: seq<seq<byte>>): seq<byte>
  {
    if bs == [] then [] else Flatten(bs[..|bs| - 1]) + bs[|bs| - 1]
  }

  lemma FlattenSnoc(bs: seq<seq<byte>>, b: seq<byte>)
    ensures Flatten(bs + [b]) == Flatten(bs) + b
  {
    assert (bs + [b])[..|bs|] == bs;
  }

  /** The chunks of the first `k` buffers, in order. */
  function Chunks(avail: seq<byte>, iov: seq<IoVec>, k: nat): (cs: seq<seq<byte>>)
    requires k <= |iov|
    ensures |cs| == k
    ensures forall i :: 0 <= i < k ==> cs[i] == Chunk(avail, iov, i)
  {
    if k == 0 then [] else Chunks(avail, iov, k - 1) + [Chunk(avail, iov, k - 1)]
  }

  /** Gather of a scatter: reading the chunks of the first `k` buffers back in order gives
      the first min(|avail|, total of those buffers) bytes of `avail`. */
  lemma {:induction false} ChunksGather(avail: seq<byte>, iov: seq<IoVec>, k: nat)
    requires k <= |iov|
    ensures Flatten(Chunks(avail, iov, k)) == avail[..Min(|avail|, SumLen(iov, k))]
  {
    if k > 0 {
      ChunksGather(avail, iov, k - 1);
      FlattenSnoc(Chunks(avail, iov, k - 1), Chunk(avail, iov, k - 1));
      PrefixThenSlice(avail, Min(|avail|, SumLen(iov, k - 1)), Min(|avail|, SumLen(iov, k)));
    }
  }

  /** `k` empty byte strings: what the buffers a read does not reach receive. */
  function Blank(k: nat): (bs: seq<seq<byte>>)
    ensures |bs| == k && forall i :: 0 <= i < k ==> bs[i] == []
  {
    seq(k, _ => [])
  }

  /** Once the running total has reached the end of `avail`, every later buffer gets
      nothing. */
  lemma {:induction false} ChunksPast(avail: seq<byte>, iov: seq<IoVec>, i: nat, k: nat)
    requires i <= k <= |iov| && SumLen(iov, i) >= |avail|
    ensures Chunks(avail, iov, k) == Chunks(avail, iov, i) + Blank(k - i)
    decreases k
  {
    if k > i {
      ChunksPast(avail, iov, i, k - 1);
      SumLenMono(iov, i, k - 1);
      SumLenMono(iov, k - 1, k);
      assert Chunk(avail, iov, k - 1) == [];
      assert Blank(k - i) == Blank(k - 1 - i) + [[]];
    }
  }

  lemma PrefixThenSlice(a: seq<byte>, lo: nat, hi: nat)
    requires lo <= hi <= |a|
    ensures a[..lo] + a[lo..hi] == a[..hi]
  {
  }

  /** `d` with `b` written over it from position `pos`. */
  function Splice(d: seq<byte>, pos: nat, b: seq<byte>): (r: seq<byte>)
    requires pos + |b| <= |d|
    ensures |r| == |d| && r[pos..pos + |b|] == b
    ensures r[..pos] == d[..pos] && r[pos + |b|..] == d[pos + |b|..]
  {
    d[..pos] + b + d[pos + |b|..]
  }

  /** Two writes back to back, the second just past the first, are one write of both. */
  lemma SpliceAppend(d: seq<byte>, pos: nat, g: seq<byte>, b: seq<byte>)
    requires pos + |g| + |b| <= |d|
    ensures Splice(Splice(d, pos, g), pos + |g|, b) == Splice(d, pos, g + b)
  {
    var r := Splice(Splice(d, pos, g), pos + |g|, b);
    assert r[..pos] == d[..pos];
    assert r[pos..pos + |g| + |b|] == g + b;
    assert r == r[..pos] + r[pos..pos + |g| + |b|] + r[pos + |g| + |b|..];
  }

  /** Geometric growth of writev: when `needed` exceeds the capacity, the new capacity is
      the larger of `needed` and 1.25 times the old one, truncated. */
  function GrowCapacity(capacity: nat, needed: nat): (c: nat)
    ensures c >= capacity && c >= needed
    ensures capacity >= needed ==> c == capacity
    ensures capacity < needed ==> c == Max(needed, capacity + capacity / 4)
  {
    if capacity < needed then
      (if needed > capacity + capacity / 4 then needed else capacity + capacity / 4)
    else capacity
  }

  /** The 64-bit offset llseek assembles from its high and low 32-bit halves. */
  function Offset64(high: nat, low: nat): (r: int)
    requires high < TWO_32 && low < TWO_32
    ensures -TWO_63 <= r < TWO_63
    ensures high == 0 ==> r == low
    ensures high < 0x8000_0000 ==> r == high * TWO_32 + low
  {
    Wrap64(high * 0x1_0000_0000 + low)
  }

  /** The outcome of llseek's position computation. */
  datatype SeekResult = Moved(pos: int) | Refused(errno: int)

  /** llseek's new position from `whence`: SEEK_SET takes `offset`, SEEK_CUR adds it to the
      current position `cur`, SEEK_END to the file's length `end`, with int64 wrap-around;
      other whence values, negative and too-large results are refused. */
  function Seek(whence: nat, offset: int, cur: int, end: int): (r: SeekResult)
    ensures r.Moved? ==> 0 <= r.pos <= OFF_MAX
    ensures r.Refused? ==> r.errno == EINVAL || r.errno == EOVERFLOW
    ensures whence > 2 ==> r == Refused(EINVAL)
    ensures r.Refused? && r.errno == EOVERFLOW ==> whence <= 2
  {
    var target :=
      if whence == SEEK_SET then Some(offset)
      else if whence == SEEK_CUR then Some(Wrap64(cur + offset))
      else if whence == SEEK_END then Some(Wrap64(end + offset))
      else if whence == 3 then None      // SEEK_DATA: no sparse files
      else if whence == 4 then None      // SEEK_HOLE: no sparse files
      else None;
    if target.None? then Refused(EINVAL)
    else if target.value < 0 then Refused(EINVAL)
    else if target.value > OFF_MAX then Refused(EOVERFLOW)
    else Moved(target.value)
  }

  /** With an offset that cannot make the sum wrap, each whence value lands exactly where POSIX says,
      and fails exactly when that position is negative (EINVAL) or past OFF_MAX (EOVERFLOW). */
  lemma SeekExact(whence: nat, offset: int, cur: int, end: int)
    requires whence <= 2
    requires -TWO_63 <= offset < TWO_63 - TWO_32 && 0 <= cur <= OFF_MAX && 0 <= end < TWO_32
    ensures var target := if whence == SEEK_SET then offset else if whence == SEEK_CUR then cur + offset else end + offset;
      && (Seek(whence, offset, cur, end).Moved? <==> 0 <= target <= OFF_MAX)
      && (Seek(whence, offset, cur, end).Moved? ==> Seek(whence, offset, cur, end).pos == target)
      && (target < 0 ==> Seek(whence, offset, cur, end) == Refused(EINVAL))
      && (target > OFF_MAX ==> Seek(whence, offset, cur, end) == Refused(EOVERFLOW))
  {
  }

  /** Console splitting: the complete '\n'-terminated lines of `s` (without their '\n')
      and the trailing partial line. */
  function Lines(s: seq<byte>): (seq<seq<byte>>, seq<byte>)
  {
    if s == [] then ([], [])
    else
      var (ls, cur) := Lines(s[..|s| - 1]);
      if s[|s| - 1] == NEWLINE then (ls + [cur], []) else (ls, cur + [s[|s| - 1]])
  }

  /** Lines joined back with a '\n' after each. */
  function JoinLines(ls: seq<seq<byte>>): seq<byte>
  {
    if ls == [] then [] else JoinLines(ls[..|ls| - 1]) + ls[|ls| - 1] + [NEWLINE]
  }

  /** Splitting loses nothing and adds nothing: the lines, each followed by '\n', then the
      partial line, give back the input; no piece holds a '\n'. */
  lemma {:induction false} LinesJoin(s: seq<byte>)
    ensures JoinLines(Lines(s).0) + Lines(s).1 == s
    ensures NEWLINE !in Lines(s).1
    ensures forall i :: 0 <= i < |Lines(s).0| ==> NEWLINE !in Lines(s).0[i]
  {
    if s != [] {
      var s' := s[..|s| - 1];
      LinesJoin(s');
      var (ls, cur) := Lines(s');
      if s[|s| - 1] == NEWLINE {
        assert (ls + [cur])[..|ls|] == ls;
        assert s == s' + [NEWLINE];
      } else {
        assert s == s' + [s[|s| - 1]];
      }
    }
  }

  /** The C string a buffer holds: its bytes before the first zero byte. */
  function CString(b: seq<byte>): (r: seq<byte>)
    ensures r <= b && 0 !in r
    ensures |r| < |b| ==> b[|r|] == 0
  {
    if b == [] || b[0] == 0 then [] else [b[0]] + CString(b[1..])
  }

  /** The index of the first entry a directory cursor at byte position `pos` selects:
      the smallest k with k * DIRENT_SIZE >= pos (records are 280 bytes long). */
  function FirstEntry(pos: int): (k: nat)
  {
    if pos <= 0 then 0 else (pos + 279) / 280
  }

  lemma FirstEntryLeast(pos: int)
    ensures FirstEntry(pos) * DIRENT_SIZE >= pos
    ensures FirstEntry(pos) > 0 ==> (FirstEntry(pos) - 1) * DIRENT_SIZE < pos
  {
  }

  /** The entries getdents64 emits for cursor `pos` and room for `cap` entries. */
  function Window<T>(entries: seq<T>, pos: int, cap: nat): (w: seq<T>)
    ensures |w| <= cap
  {
    var lo := Min(|entries|, FirstEntry(pos));
    var hi := Min(|entries|, FirstEntry(pos) + cap);
    entries[lo..hi]
  }

  /** Advancing the cursor by one record per emitted entry makes the next call continue
      exactly where the previous one stopped: two successive calls emit what one call with
      the combined room would. */
  lemma WindowsChain<T>(entries: seq<T>, pos: int, cap1: nat, cap2: nat)
    requires pos >= 0
    ensures var w1 := Window(entries, pos, cap1);
      w1 + Window(entries, pos + |w1| * 280, cap2) == Window(entries, pos, cap1 + cap2)
  {
    var w1 := Window(entries, pos, cap1);
    FirstEntryShift(pos, |w1|);
    var k := FirstEntry(pos);
    var lo := Min(|entries|, k);
    var hi := Min(|entries|, k + cap1);
    var top := Min(|entries|, k + cap1 + cap2);
    assert w1 == entries[lo..hi];
    assert Window(entries, pos, cap1 + cap2) == entries[lo..top];
    if |w1| > 0 {
      assert lo == k && hi == k + |w1|;
      assert Window(entries, pos + |w1| * 280, cap2) == entries[hi..top];
      assert entries[lo..hi] + entries[hi..top] == entries[lo..top];
    } else {
      assert Window(entries, pos + |w1| * 280, cap2) == Window(entries, pos, cap1 + cap2);
    }
  }

  /** Moving the cursor by `m` whole records moves the first selected entry by `m`. */
  lemma FirstEntryShift(pos: int, m: nat)
    requires pos >= 0
    ensures FirstEntry(pos + m * 280) == FirstEntry(pos) + m
  {
    assert FirstEntry(pos) == (pos + 279) / 280;
    assert FirstEntry(pos + m * 280) == (pos + 279 + m * 280) / 280;
  }

  /** One more entry past a window that has room left: it joins the window exactly when
      the cursor has reached it. */
  lemma WindowStep<T>(entries: seq<T>, k: nat, pos: int, cap: nat)
    requires k < |entries| && |Window(entries[..k], pos, cap)| < cap
    ensures Window(entries[..k + 1], pos, cap)
      == Window(entries[..k], pos, cap) + (if FirstEntry(pos) <= k then [entries[k]] else [])
  {
    var f := FirstEntry(pos);
    if f <= k {
      assert entries[..k + 1][f..k + 1] == entries[..k][f..k] + [entries[k]];
    }
  }

  /** A window of a prefix is the window of the whole once it is full or the prefix is
      everything. */
  lemma WindowFull<T>(entries: seq<T>, k: nat, pos: int, cap: nat)
    requires k <= |entries| && (k == |entries| || |Window(entries[..k], pos, cap)| == cap)
    ensures Window(entries[..k], pos, cap) == Window(entries, pos, cap)
  {
    assert entries[..|entries|] == entries;
  }

  /** getdents64's test for the entry at record index `k`: with `m` records already
      emitted from a cursor at `pos`, the moved cursor lies at or before the entry
      exactly when the entry is at or after the first one the cursor selects. */
  lemma CursorTest(pos: int, k: nat, m: nat)
    requires pos >= 0
    requires m == if FirstEntry(pos) <= k then k - FirstEntry(pos) else 0
    ensures pos + m * DIRENT_SIZE <= k * DIRENT_SIZE <==> FirstEntry(pos) <= k
  {
    FirstEntryLeast(pos);
  }

  /** The window after one more entry, as getdents64 decides it: the entry is emitted
      when the cursor, moved one record per entry already emitted, has not passed it. */
  lemma WindowAdvance<T>(entries: seq<T>, k: nat, pos: int, cap: nat)
    requires pos >= 0 && k < |entries| && |Window(entries[..k], pos, cap)| < cap
    ensures var w := Window(entries[..k], pos, cap);
      Window(entries[..k + 1], pos, cap)
        == if pos + |w| * DIRENT_SIZE <= k * DIRENT_SIZE then w + [entries[k]] else w
  {
    WindowStep(entries, k, pos, cap);
    CursorTest(pos, k, |Window(entries[..k], pos, cap)|);
  }
}
