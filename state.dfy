/** The state of the filesystem as one value: the inode arena with its tree links, the
    working directory, the descriptor table and the two console line buffers; the
    invariant that every syscall keeps; and the pure transitions the tree edits, path
    starts and inode updates make. */
module FsState {
  import opened Wrappers
  import opened Posix
  import opened Paths
  import opened Buffers
  import opened Tree
  import opened Lookup

  datatype Kind = File | Dir

  /** What a remote fetch of a path answers: an HTTP status and the bytes delivered
      (the fetch's totalBytes and numBytes are both the length of `bytes`). */
  datatype Fetch = Fetch(status: int, bytes: seq<byte>)

  /** The fields of an inode other than its name and its links. `data` is the heap
      buffer: its length is the capacity, and the empty buffer is the null pointer.
      `fetched` holds the bytes of the completed fetch the inode still owns. */
  datatype Inode = Inode(kind: Kind, mode: bv32, size: int, data: seq<byte>, fetched: Option<seq<byte>>)

  /** An open file description; its integer key in the descriptor table is the fd. */
  datatype Descriptor = Descriptor(filePos: int, mode: bv32, flags: bv32, node: Handle)

  /** One record getdents64 writes: inode handle, virtual offset, record length, type, name. */
  datatype Dirent = Dirent(ino: Handle, off: int, reclen: int, dtype: int, name: string)

  /** The process-wide state of the filesystem. The link fields and the name of every
      inode are maps from its handle; `kids` lists each inode's children in chain order;
      `cwd` is null until get_cwd first runs; `stdoutLine` and `stderrLine` are the
      contents of stdout_buffer and stderr_buffer up to their end indices, and `console`
      the lines print_stream hands to Module.print, oldest first. */
  datatype State = State(
    parent: map<Handle, Handle>, child: map<Handle, Handle>, sibling: map<Handle, Handle>,
    name: map<Handle, string>, kids: map<Handle, seq<Handle>>,
    inode: map<Handle, Inode>, nextHandle: Handle,
    cwd: Handle,
    fds: map<int, Descriptor>, nextFd: int,
    stdoutLine: seq<byte>, stderrLine: seq<byte>, console: seq<seq<byte>>)

  /** create_inode followed by the caller's mode assignment: zero size, no buffer, no fetch. */
  function FreshInode(kind: Kind, mode: bv32): Inode
  {
    Inode(kind, mode, 0, [], None)
  }

  /** The bytes a read can see: the buffer, or else the owned fetch's bytes. */
  predicate ContentOk(i: Inode)
  {
    && i.size >= 0
    && (|i.data| > 0 ==> i.size <= |i.data|)
    && (|i.data| == 0 && i.fetched.Some? ==> i.size == |i.fetched.value|)
  }

  /** Every inode of the tree has its other fields, every one of them is consistent, and
      the root is a directory. */
  ghost predicate StoreOk(inode: map<Handle, Inode>, parent: map<Handle, Handle>)
  {
    && inode.Keys == parent.Keys && Root in inode && inode[Root].kind == Dir
    && forall n :: n in inode ==> ContentOk(inode[n])
  }

  /** The working directory, once set, is a directory inode (perhaps no longer linked). */
  ghost predicate CwdOk(cwd: Handle, inode: map<Handle, Inode>)
  {
    cwd == Null || (cwd in inode && inode[cwd].kind == Dir)
  }

  /** Descriptors are numbered from 3, below the next one to hand out, and each refers
      to an inode at a non-negative position. */
  ghost predicate DescsOk(fds: map<int, Descriptor>, nextFd: int, inode: map<Handle, Inode>)
  {
    && 3 <= nextFd
    && forall fd :: fd in fds ==> 3 <= fd < nextFd && fds[fd].node in inode && fds[fd].filePos >= 0
  }

  /** Each line buffer holds a partial line that fits the 4096-byte array. */
  ghost predicate LinesOk(out: seq<byte>, err: seq<byte>)
  {
    && |out| <= CONSOLE_BUFFER_SIZE && NEWLINE !in out
    && |err| <= CONSOLE_BUFFER_SIZE && NEWLINE !in err
  }

  ghost predicate StateOk(s: State)
  {
    && TreeOk(s.parent, s.child, s.sibling, s.name, s.kids, s.nextHandle)
    && StoreOk(s.inode, s.parent)
    && CwdOk(s.cwd, s.inode)
    && DescsOk(s.fds, s.nextFd, s.inode)
    && LinesOk(s.stdoutLine, s.stderrLine)
  }

  /** What every call of filesystem_root() does besides returning the root: it stores
      0777 into the root's mode. */
  function RootReset(s: State): State
    requires Root in s.inode
  {
    s.(inode := s.inode[Root := s.inode[Root].(mode := ROOT_MODE)])
  }

  /** The state after create_inode hands out the next handle for an unlinked inode
      named `nm` with fields `i`. */
  function Created(t: State, i: Inode, nm: string): State
  {
    var n := t.nextHandle;
    t.(parent := t.parent[n := Null], child := t.child[n := Null], sibling := t.sibling[n := Null],
       name := t.name[n := nm], kids := t.kids[n := []], inode := t.inode[n := i],
       nextHandle := n + 1)
  }

  /** The state after link_inode pushes the unlinked `n` in front of `p`'s children. */
  function Linked(t: State, n: Handle, p: Handle): State
    requires p in t.child && p in t.kids
  {
    t.(parent := t.parent[n := p], child := t.child[p := n], sibling := t.sibling[n := t.child[p]],
       kids := t.kids[p := [n] + t.kids[p]])
  }

  /** `s` without its element at index `i`. */
  function RemoveAt(s: seq<Handle>, i: nat): (r: seq<Handle>)
    requires i < |s|
    ensures |r| == |s| - 1
    ensures forall j :: 0 <= j < i ==> r[j] == s[j]
    ensures forall j :: i <= j < |r| ==> r[j] == s[j + 1]
  {
    s[..i] + s[i + 1..]
  }

  /** The state after unlink_inode splices `n`, which heads its parent's chain, out. */
  function UnlinkedHead(t: State, n: Handle): State
    requires n in t.parent && t.parent[n] in t.child && t.parent[n] in t.kids && n in t.sibling && t.kids[t.parent[n]] != []
  {
    var p := t.parent[n];
    t.(parent := t.parent[n := Null], child := t.child[p := t.sibling[n]], sibling := t.sibling[n := Null],
       kids := t.kids[p := t.kids[p][1..]])
  }

  /** The state after unlink_inode splices `n`, the `i`-th member of its parent's chain
      for some `i > 0`, out: its predecessor takes over its sibling. */
  function UnlinkedInner(t: State, n: Handle, i: nat): State
    requires n in t.parent && t.parent[n] in t.kids && n in t.sibling && 0 < i < |t.kids[t.parent[n]]|
  {
    var p := t.parent[n];
    var s := t.kids[p];
    t.(parent := t.parent[n := Null], sibling := t.sibling[s[i - 1] := t.sibling[n]][n := Null],
       kids := t.kids[p := RemoveAt(s, i)])
  }

  /** A path that starts at the root rather than at the working directory. */
  predicate Absolute(path: string)
  {
    path != [] && path[0] == '/'
  }

  /** The path the lookup walks: an absolute path without its leading '/'. */
  function RelPath(path: string): (rel: string)
    ensures |rel| <= |path| && rel == path[|path| - |rel|..]
  {
    if Absolute(path) then path[1..] else path
  }

  /** What get_cwd returns: the working directory, or the root when none is set yet. */
  function Cwd(s: State): Handle
  {
    if s.cwd == Null then Root else s.cwd
  }

  /** The state after get_cwd: a first call resets the root's mode through
      filesystem_root and makes the root the working directory. */
  function CwdSet(s: State): State
    requires Root in s.inode
  {
    if s.cwd == Null then RootReset(s).(cwd := Root) else s
  }

  /** The directory a path lookup starts in: the root for an absolute path, else the
      working directory. */
  function StartDir(s: State, path: string): Handle
  {
    if Absolute(path) then Root else Cwd(s)
  }

  /** The state after choosing the start directory through filesystem_root or get_cwd. */
  function Started(s: State, path: string): State
    requires Root in s.inode
  {
    if Absolute(path) then RootReset(s) else CwdSet(s)
  }

  /** find_inode(dir, rel) on the tree of `s`. */
  function Find(s: State, dir: Handle, rel: string): (r: Handle)
    requires StateOk(s) && dir in s.parent
    ensures r == Null || r in s.parent
  {
    TreeWalkable(s.parent, s.child, s.sibling, s.name, s.kids, s.nextHandle);
    FindInode(s.child, s.sibling, s.name, s.kids, dir, rel)
  }

  /** find_inode(path): the lookup from the start directory. */
  function FindPath(s: State, path: string): (r: Handle)
    requires StateOk(s)
    ensures r == Null || r in s.parent
  {
    Find(s, StartDir(s, path), RelPath(path))
  }

  /** The reference lookup by components on the tree of `s`. */
  ghost function Reach(s: State, dir: Handle, cs: seq<string>): (r: Handle)
    requires StateOk(s) && dir in s.parent
    ensures r == Null || r in s.parent
  {
    TreeWalkable(s.parent, s.child, s.sibling, s.name, s.kids, s.nextHandle);
    Follow(s.name, s.kids, dir, cs)
  }

  /** find_inode of a path of plain components is the lookup by its components. */
  lemma FindReach(s: State, dir: Handle, cs: seq<string>)
    requires StateOk(s) && dir in s.parent && PlainComponents(cs)
    ensures Find(s, dir, JoinPath(cs)) == Reach(s, dir, cs)
  {
    TreeWalkable(s.parent, s.child, s.sibling, s.name, s.kids, s.nextHandle);
    FindInodeFollows(s.child, s.sibling, s.name, s.kids, dir, cs);
  }

  /** find_parent_inode(dir, rel) on the tree of `s`. */
  function FindParent(s: State, dir: Handle, rel: string): (r: Handle)
    requires StateOk(s) && dir in s.parent
    ensures r != Null && r in s.parent
  {
    TreeWalkable(s.parent, s.child, s.sibling, s.name, s.kids, s.nextHandle);
    FindParentInode(s.child, s.sibling, s.name, s.kids, dir, rel)
  }

  /** The corrected find_parent_inode(dir, rel) on the tree of `s`: the directory the
      components before the basename lead to, or null when one of them is missing. */
  function ParentDir(s: State, dir: Handle, rel: string): (r: Handle)
    requires StateOk(s) && dir in s.parent
    ensures r == Null || r in s.parent
  {
    TreeWalkable(s.parent, s.child, s.sibling, s.name, s.kids, s.nextHandle);
    FindParentFixed(s.child, s.sibling, s.name, s.kids, dir, rel)
  }

  /** The two checks on a path's length every path syscall starts with: the errno, or 0. */
  function PathError(path: string): (e: int)
    ensures e == 0 <==> 0 < |path| <= MAX_PATHNAME_LENGTH
  {
    if |path| > MAX_PATHNAME_LENGTH then ENAMETOOLONG
    else if path == [] then ENOENT
    else 0
  }

  predicate Readable(mode: bv32) { mode & ANY_READ != 0 }
  predicate Writable(mode: bv32) { mode & ANY_WRITE != 0 }
  predicate Executable(mode: bv32) { mode & ANY_EXEC != 0 }

  // open(2)

  function AccessMode(flags: bv32): bv32
  {
    flags & O_ACCMODE
  }

  /** open's checks of the flags alone, in the source's order: the errno, or 0. */
  function OpenFlagsError(flags: bv32): int
  {
    if flags & O_ASYNC != 0 then ENOTSUP
    else if flags & O_DIRECT != 0 then ENOTSUP
    else if flags & O_DSYNC != 0 then ENOTSUP
    else if flags & O_EXCL != 0 && flags & O_CREAT == 0 then EINVAL
    else if flags & (O_NONBLOCK | O_NDELAY) != 0 then ENOTSUP
    else if flags & O_PATH != 0 then ENOTSUP
    else if flags & O_SYNC != 0 then ENOTSUP
    else if flags & O_TMPFILE != 0 then
      (if AccessMode(flags) != O_WRONLY && AccessMode(flags) != O_RDWR then EINVAL else EOPNOTSUPP)
    else 0
  }

  /** open's checks of an existing inode, in the source's order: the errno, or 0. */
  function ExistingError(i: Inode, flags: bv32): int
  {
    if flags & O_DIRECTORY != 0 && i.kind != Dir then ENOTDIR
    else if !Readable(i.mode) then EACCES
    else if flags & O_CREAT != 0 && flags & O_EXCL != 0 then EEXIST
    else if i.kind == Dir && AccessMode(flags) != O_RDONLY then EISDIR
    else 0
  }

  /** The flags that make open create or truncate. */
  predicate Creates(flags: bv32)
  {
    flags & O_CREAT != 0 || flags & O_TRUNC != 0 || flags & O_EXCL != 0
  }

  /** Whether open asks the remote server for the path. */
  predicate FetchAttempted(flags: bv32)
  {
    flags & O_DIRECTORY == 0 && AccessMode(flags) != O_WRONLY
  }

  /** A fetch that open accepts: status 200 and a non-empty body. */
  predicate FetchOk(f: Fetch)
  {
    f.status == HTTP_OK && |f.bytes| != 0
  }

  function NewKind(flags: bv32): Kind
  {
    if flags & O_DIRECTORY != 0 then Dir else File
  }

  /** O_CREAT, O_TRUNC or O_EXCL on an existing inode: the fetch is released and the
      size drops to zero; the buffer stays. */
  function Truncated(i: Inode): Inode
  {
    i.(fetched := None, size := 0)
  }

  /** An inode that takes over a completed fetch: its size becomes the fetch's length. */
  function WithFetch(i: Inode, bytes: seq<byte>): Inode
  {
    i.(fetched := Some(bytes), size := |bytes|)
  }

  /** Where a descriptor open initialises for `i` starts: O_APPEND starts at the end
      of an owned fetch, anything else at 0. */
  function StartPos(i: Inode, flags: bv32): nat
  {
    if flags & O_APPEND != 0 && i.fetched.Some? then |i.fetched.value| else 0
  }

  /** The descriptor open initialises for `n`, under the next descriptor number. */
  function Opened(s: State, n: Handle, flags: bv32, mode: bv32): (r: (int, State))
    requires n in s.inode
  {
    (s.nextFd, s.(fds := s.fds[s.nextFd := Descriptor(StartPos(s.inode[n], flags), mode, flags, n)],
                  nextFd := s.nextFd + 1))
  }

  // close(2), llseek(2)

  /** close: the inode releases its fetch, if any, and the descriptor goes away. */
  function Closed(s: State, fd: int): State
    requires fd in s.fds && s.fds[fd].node in s.inode
  {
    var n := s.fds[fd].node;
    var i := s.inode[n];
    s.(inode := if i.fetched.Some? then s.inode[n := i.(fetched := None)] else s.inode, fds := s.fds - {fd})
  }

  /** The length SEEK_END counts from: an owned fetch's length, else the size. */
  function SeekEnd(i: Inode): int
  {
    if i.fetched.Some? then |i.fetched.value| else i.size
  }

  /** `s` with descriptor `fd` moved to position `pos`. */
  function Repositioned(s: State, fd: int, pos: int): State
    requires fd in s.fds
  {
    s.(fds := s.fds[fd := s.fds[fd].(filePos := pos)])
  }

  /** The position of descriptor `fd` moved `n` bytes on, as reading and listing do. */
  function Advanced(s: State, fd: int, n: int): State
    requires fd in s.fds
  {
    Repositioned(s, fd, s.fds[fd].filePos + n)
  }

  /** Setting the position to where `n` bytes on lands is advancing by `n`. */
  lemma AdvancedAt(s: State, fd: int, pos: int, n: int)
    requires fd in s.fds && pos == s.fds[fd].filePos + n
    ensures Repositioned(s, fd, pos) == Advanced(s, fd, n)
  {
  }

  // readv(2)

  /** What a read sees: the buffer when there is one, else the owned fetch's bytes. */
  function Content(i: Inode): seq<byte>
  {
    if |i.data| > 0 then i.data else if i.fetched.Some? then i.fetched.value else []
  }

  /** readv's internal error: a positive size with no bytes behind it. */
  predicate NoBytes(i: Inode)
  {
    i.size > 0 && |i.data| == 0 && i.fetched.None?
  }

  /** The bytes a read at `pos` can deliver: those from `pos` up to the size. */
  function Avail(i: Inode, pos: int): (a: seq<byte>)
    requires ContentOk(i) && !NoBytes(i) && pos >= 0
    ensures |a| == Max(i.size - pos, 0)
  {
    Remaining(Content(i), i.size, pos)
  }

  // writev(2)

  /** The bytes an iovec entry contributes to a write. */
  function IovBytes(v: IoVec): (b: seq<byte>)
    requires v.base.Some? ==> |v.base.value| >= v.len
    requires v.base.None? ==> v.len == 0
    ensures |b| == v.len
  {
    if v.base.Some? then v.base.value[..v.len] else []
  }

  predicate IovOk(iov: seq<IoVec>)
  {
    WellFormedIov(iov) && NoNullBuffers(iov)
  }

  /** The bytes of the first `k` entries, in order. */
  function Gathered(iov: seq<IoVec>, k: nat): (g: seq<byte>)
    requires IovOk(iov) && k <= |iov|
    ensures |g| == SumLen(iov, k)
  {
    if k == 0 then [] else Gathered(iov, k - 1) + IovBytes(iov[k - 1])
  }

  /** The buffer after writev's growth step: when the capacity is below `newSize`, the
      buffer is reallocated to the grown capacity, the old bytes first. The bytes after
      them are zeros here; the reallocated memory holds no particular value. */
  function Grown(data: seq<byte>, newSize: nat): (d: seq<byte>)
    ensures |d| == GrowCapacity(|data|, newSize) && d[..|data|] == data
  {
    if |data| < newSize then data + seq(GrowCapacity(|data|, newSize) - |data|, _ => 0) else data
  }

  /** The size writev should leave: the new end when the buffer was reallocated, and
      otherwise the larger of the old size and the new end. */
  function WrittenSize(i: Inode, newSize: int): int
  {
    if |i.data| < newSize then newSize else Max(i.size, newSize)
  }

  /** The inode writev should leave after `b` is written into `i` at `pos`: the buffer
      grows when needed, `b` lands at `pos`, and the size covers it. */
  function Overwritten(i: Inode, pos: nat, b: seq<byte>): Inode
  {
    i.(data := Splice(Grown(i.data, pos + |b|), pos, b), size := WrittenSize(i, pos + |b|))
  }

  /** writev on descriptor `fd` of a file with the size corrected: the inode's buffer
      grows when needed, the gathered bytes are written at the position, the size covers
      them, and the position advances past them. */
  function Written(s: State, fd: int, iov: seq<IoVec>): State
    requires fd in s.fds && s.fds[fd].node in s.inode && s.fds[fd].filePos >= 0 && IovOk(iov)
  {
    var d := s.fds[fd];
    var b := Gathered(iov, |iov|);
    s.(inode := s.inode[d.node := Overwritten(s.inode[d.node], d.filePos, b)],
       fds := s.fds[fd := d.(filePos := d.filePos + |b|)])
  }

  /** The size writev leaves, as the source computes it: the new end when the buffer
      was reallocated, and the old size otherwise, even when the write ends past it. */
  function SourceSize(i: Inode, newSize: int): int
  {
    if |i.data| < newSize then newSize else i.size
  }

  /** The inode writev leaves as the source writes it: the buffer grows when needed and
      `b` lands at `pos`, but the size moves only with the buffer. */
  function OverwrittenAsSource(i: Inode, pos: nat, b: seq<byte>): Inode
  {
    i.(data := Splice(Grown(i.data, pos + |b|), pos, b), size := SourceSize(i, pos + |b|))
  }

  /** writev's update of a file as the source writes it: the size moves only when the
      buffer is reallocated, so bytes written into spare capacity past the size stay
      beyond it. */
  function WrittenAsSource(s: State, fd: int, iov: seq<IoVec>): State
    requires fd in s.fds && s.fds[fd].node in s.inode && s.fds[fd].filePos >= 0 && IovOk(iov)
  {
    var d := s.fds[fd];
    var b := Gathered(iov, |iov|);
    s.(inode := s.inode[d.node := OverwrittenAsSource(s.inode[d.node], d.filePos, b)],
       fds := s.fds[fd := d.(filePos := d.filePos + |b|)])
  }

  /** writev's update of a file, put together as the copy loop leaves it: the new
      buffer and size in the inode, then the new position. */
  lemma WrittenAt(s: State, fd: int, iov: seq<IoVec>, data: seq<byte>, size: int, newSize: int)
    requires fd in s.fds && s.fds[fd].node in s.inode && s.fds[fd].filePos >= 0 && IovOk(iov)
    requires newSize == s.fds[fd].filePos + |Gathered(iov, |iov|)|
    requires data == Splice(Grown(s.inode[s.fds[fd].node].data, newSize), s.fds[fd].filePos, Gathered(iov, |iov|))
    requires size == SourceSize(s.inode[s.fds[fd].node], newSize)
    ensures var n := s.fds[fd].node;
      WrittenAsSource(s, fd, iov) == Repositioned(s.(inode := s.inode[n := s.inode[n].(data := data, size := size)]), fd, newSize)
  {
  }

  // print_stream

  /** Each console line as Module.print receives it: the C string of the piece. */
  function CStrings(ls: seq<seq<byte>>): (r: seq<seq<byte>>)
    ensures |r| == |ls|
  {
    if ls == [] then [] else CStrings(ls[..|ls| - 1]) + [CString(ls[|ls| - 1])]
  }

  function LineOf(s: State, toStdout: bool): seq<byte>
  {
    if toStdout then s.stdoutLine else s.stderrLine
  }

  /** print_stream: the bytes join the stream's partial line; every complete line goes
      to the console and the rest stays buffered. */
  function Printed(s: State, toStdout: bool, bytes: seq<byte>): State
  {
    var (ls, rest) := Lines(LineOf(s, toStdout) + bytes);
    if toStdout then s.(stdoutLine := rest, console := s.console + CStrings(ls))
    else s.(stderrLine := rest, console := s.console + CStrings(ls))
  }

  /** The stream after printing the first `k` entries of `iov`, one call per entry. */
  function PrintedAll(s: State, toStdout: bool, iov: seq<IoVec>, k: nat): State
    requires IovOk(iov) && k <= |iov|
  {
    if k == 0 then s else Printed(PrintedAll(s, toStdout, iov, k - 1), toStdout, IovBytes(iov[k - 1]))
  }

  /** Every print_stream call of a console writev fits the 4096-byte line buffer. */
  predicate ConsoleFits(s: State, toStdout: bool, iov: seq<IoVec>, k: nat)
    requires IovOk(iov) && k <= |iov|
  {
    k == 0 ||
    (ConsoleFits(s, toStdout, iov, k - 1) &&
     |LineOf(PrintedAll(s, toStdout, iov, k - 1), toStdout)| + iov[k - 1].len <= CONSOLE_BUFFER_SIZE)
  }

  // getdents64(2)

  /** The records for `cs`, the children of a directory from the `k`-th entry on. */
  function ChildEntries(s: State, cs: seq<Handle>, k: nat): (es: seq<Dirent>)
    requires forall c :: c in cs ==> c in s.inode && c in s.name
    ensures |es| == |cs|
  {
    if cs == [] then []
    else
      var c := cs[0];
      [Dirent(c, k * 280, DIRENT_SIZE, if s.inode[c].kind == Dir then DT_DIR else DT_REG, Truncate(s.name[c], NAME_MAX))]
        + ChildEntries(s, cs[1..], k + 1)
  }

  /** The entries of directory `n` in getdents64's order: ".", "..", which is `n` itself
      when it has no parent, then the children in chain order. */
  function Entries(s: State, n: Handle): (es: seq<Dirent>)
    requires StateOk(s) && n in s.parent
    ensures |es| == |s.kids[n]| + 2
  {
    var dotdot := if s.parent[n] != Null then s.parent[n] else n;
    [Dirent(n, 0, DIRENT_SIZE, DT_DIR, "."), Dirent(dotdot, DIRENT_SIZE, DIRENT_SIZE, DT_DIR, "..")]
      + ChildEntries(s, s.kids[n], 2)
  }

  // getcwd(2)

  /** The length of the C string in `b`: the characters before the first '\0', or all of
      them (the terminator inode_abspath stores just past the buffer). */
  function StrLen(b: seq<char>): (n: nat)
    ensures n <= |b| && '\0' !in b[..n]
    ensures n < |b| ==> b[n] == '\0'
  {
    if b == [] || b[0] == '\0' then 0 else 1 + StrLen(b[1..])
  }

  /** The buffer after inode_abspath writes path `a` into `buf`: "/" and its terminator
      for the root; otherwise the first |buf| - 1 characters of `a` at most, with no
      terminator, and the rest of `buf` untouched. */
  function AbspathInto(a: string, atRoot: bool, buf: seq<char>): (out: seq<char>)
    requires if atRoot then |buf| >= 2 else |buf| >= 1
    ensures |out| == |buf|
  {
    if atRoot then "/" + ['\0'] + buf[2..]
    else
      var w := Truncate(a, |buf| - 1);
      w + buf[|w|..]
  }
}
