# ASMFS — a verified model of emscripten's in-memory file system

ASMFS is emscripten's in-memory file system, written in C++ as
`system/lib/fetch/asmfs.cpp`. It implements the POSIX file syscalls of a compiled
program:

- open, close, llseek, readv, writev and write;
- chdir, chmod, mkdir, rmdir, unlink and access;
- getdents64 and getcwd.

All of these work on a tree of inodes held in memory. A file that open does not find in
the tree is downloaded with emscripten's fetch API and added to the tree.

This project models that core in Dafny and proves properties of the model.

## How the model is laid out

- `Wrappers` and `Posix` hold the Option type, the Linux/musl errno numbers, the
  `open` flag bits, the permission masks, `MAX_PATHNAME_LENGTH` (2000),
  `MAX_DIRECTORY_DEPTH` (512) and `sizeof(struct dirent)` (280).
- `Paths` covers the string helpers: path_cmp, strcpy_inodename and basename_part.
  Each is a specification function plus a loop method proved equal to it.
- `Buffers` holds the arithmetic of the syscalls:
  - the iovec checks;
  - the 64-bit offset of llseek and its targets;
  - the buffer growth of writev;
  - the line splitting of print_stream;
  - the record window of getdents64.
- `Tree` and `FsState` are the inode arena.
  - A pointer becomes an integer handle: 0 is the null pointer and 1 is the root.
  - The `parent`, `child`, `sibling` and `name` fields of every inode are maps.
  - The other inode fields form the `Inode` datatype.
  - A ghost map `kids` gives each directory's children in chain order, tied to the
    `child`/`sibling` links by `ChainIs`.
  - `StateOk` is the tree invariant.
  - `Unlinked`, `Linked` and `Created` state link_inode, unlink_inode and create_inode.
- `Lookup` covers find_inode, find_parent_inode, create_directory_hierarchy_for_file
  and inode_abspath.
  - Each is a function that walks the real `child`/`sibling` or `parent` pointers.
  - find_inode (`FindInode`) is proved equal to the name-based `Resolve` by
    `FindInodeResolves`.
  - find_parent_inode as written (`FindParentInode`, over `ParentScan`) is not equal to
    the name-based `ParentOf`; see "## Findings". It is described by `ParentScanFirst`,
    `FindParentSingle`, `FindParentMissingIntermediate` and `MkdirTwiceNests`. The
    corrected walk `ParentWalk` is proved equal to `ParentOf` by `ParentWalkResolves`.
  - The first loop of create_directory_hierarchy_for_file (`Descend`) has no reference
    definition of its own. `DescendFinds` proves that it finds exactly what find_inode
    finds, and `DescendJoin` says where it stops on a path that does not resolve.
  - inode_abspath's path is `Abspath`, the walk up the `parent` links, with
    `AbspathChild` stating it by names: the parent's path, "/", then the name.
  - Each has a loop method (`FindInodeWalk`, `AncestorStack` and so on) proved equal to
    the function.
- `FsCalls` holds one specification function per syscall. It returns the result code
  together with the new state.
- `Asmfs.FileSystem` is the file system as a class.
  - Its one field `st` holds the state.
  - Each syscall is a method that updates `st`.
  - Each method ensures `Valid()` and that its result and new state are the ones the
    syscall's specification function gives.
- `Transfer` holds the copy loops: readv's scatter, writev's gather, the console output
  and getdents64's emission. Each is proved against its specification function.
- `FsProps` and `CallProps` hold the lemmas about the specification functions.

### Inputs and outputs of the model

- **Network:** the network answer open waits for becomes a parameter, `remote: Fetch`,
  which carries the HTTP status and the downloaded bytes.
- **File descriptors:** the source returns a pointer to a `FileDescriptor` and checks a
  magic number in it. The model uses a map from descriptor numbers to `Descriptor`
  values instead; new numbers are taken from `nextFd`, which starts at 3.
- **Console:** what the program prints becomes a sequence of lines in the state.

## Model

| member | source | states |
|---|---|---|
| Asmfs.FileSystem.constructor | system/lib/fetch/asmfs.cpp:67-75 | the file system starts with the root directory alone, mode 0777, and no current directory |
| Asmfs.FileSystem.FilesystemRoot | system/lib/fetch/asmfs.cpp:70-75 | returns the root and resets its mode to 0777, nothing else changes |
| Asmfs.FileSystem.GetCwdNode | system/lib/fetch/asmfs.cpp:77-81 | returns the current directory, making it the root when none is set |
| Asmfs.FileSystem.SetCwd | system/lib/fetch/asmfs.cpp:83-86 | the current directory becomes the given directory and nothing else changes |
| Asmfs.FileSystem.CreateInode | system/lib/fetch/asmfs.cpp:57-65 | a fresh detached inode of the given type, with no data, at a handle not in use before |
| Asmfs.FileSystem.CreateNode | system/lib/fetch/asmfs.cpp:57-65 | a fresh detached inode holding the given fields, the tree invariant kept |
| Asmfs.FileSystem.LinkInode | system/lib/fetch/asmfs.cpp:129-152 | the node becomes the first child of the parent, the tree invariant kept |
| Asmfs.FileSystem.FindPredecessorSibling | system/lib/fetch/asmfs.cpp:155-164 | returns the sibling just before the node in its parent's chain, or null when the node is the first child |
| Asmfs.FileSystem.UnlinkInode | system/lib/fetch/asmfs.cpp:166-185 | the node leaves its parent's chain, the others keep their order, the tree invariant kept |
| Asmfs.FileSystem.ParentNode | system/lib/fetch/asmfs.cpp:928 | returns the node's parent pointer |
| Asmfs.FileSystem.SetInode | system/lib/fetch/asmfs.cpp:835 | only the one inode changes, the tree invariant kept |
| Asmfs.FileSystem.SetFilePos | system/lib/fetch/asmfs.cpp:612-614 | only the descriptor's position changes |
| Asmfs.FileSystem.RemoveFd | system/lib/fetch/asmfs.cpp:566-567 | only the descriptor is gone |
| Asmfs.FileSystem.StartOf | system/lib/fetch/asmfs.cpp:338-344 | an absolute path starts at the root and a relative one at the current directory, which is always a directory |
| Asmfs.FileSystem.FindByPath | system/lib/fetch/asmfs.cpp:338-344 | returns the inode the path names, by the name-based lookup, with the side effects on the root and the current directory |
| Asmfs.FileSystem.Open | system/lib/fetch/asmfs.cpp:405-546 | result and new state are those of `FsCalls.OpenSpec` |
| Asmfs.FileSystem.OpenExisting | system/lib/fetch/asmfs.cpp:452-531 | result and new state are those of open on a node found in the tree |
| Asmfs.FileSystem.OpenAbsent | system/lib/fetch/asmfs.cpp:462-531 | result and new state are those of open on a path not in the tree: create, fetch or ENOENT |
| Asmfs.FileSystem.AddEntry | system/lib/fetch/asmfs.cpp:473-477 | the missing directories, then the new entry under them, the tree invariant kept |
| Asmfs.FileSystem.AddDescriptor | system/lib/fetch/asmfs.cpp:533-545 | a new descriptor on the node, position at the fetched size under O_APPEND and 0 otherwise |
| Asmfs.FileSystem.Close | system/lib/fetch/asmfs.cpp:549-569 | result and new state are those of `FsCalls.CloseSpec` |
| Asmfs.FileSystem.LlSeek | system/lib/fetch/asmfs.cpp:580-616 | result and new state are those of `FsCalls.LlSeekSpec`, and the stored result is the new position |
| Asmfs.FileSystem.ReadV | system/lib/fetch/asmfs.cpp:619-667 | result, new state and bytes delivered are those of `FsCalls.ReadVSpec` |
| Asmfs.FileSystem.WriteConsole | system/lib/fetch/asmfs.cpp:724-733 | each entry goes through print_stream in turn, and the result is the sum of the lengths |
| Asmfs.FileSystem.WriteFile | system/lib/fetch/asmfs.cpp:735-760 | as written: the file state after the write is `FsState.WrittenAsSource`, where the size moves only when the buffer grows (see Findings) |
| Asmfs.FileSystem.WriteV | system/lib/fetch/asmfs.cpp:697-762 | result and new state are those of `FsCalls.WriteVSpec` |
| Asmfs.FileSystem.Write | system/lib/fetch/asmfs.cpp:765-777 | behaves as writev with the one buffer |
| Asmfs.FileSystem.Chdir | system/lib/fetch/asmfs.cpp:780-805 | result and new state are those of `FsCalls.ChdirSpec` |
| Asmfs.FileSystem.Chmod | system/lib/fetch/asmfs.cpp:808-837 | result and new state are those of `FsCalls.ChmodSpec` |
| Asmfs.FileSystem.Mkdir | system/lib/fetch/asmfs.cpp:840-874 | as written: result and new state are those of `FsCalls.MkdirAsSource`, which looks the parent up with find_parent_inode as the source has it (see Findings) |
| Asmfs.FileSystem.MkdirIn | system/lib/fetch/asmfs.cpp:857-873 | once the parent is known: ENOENT, EEXIST or EACCES, or a new directory linked under the parent |
| Asmfs.FileSystem.Rmdir | system/lib/fetch/asmfs.cpp:877-910 | result and new state are those of `FsCalls.RmdirSpec` |
| Asmfs.FileSystem.RmdirNamed | system/lib/fetch/asmfs.cpp:892-909 | from the lookup on: the same as `FsCalls.RmdirLookup` |
| Asmfs.FileSystem.RmdirFound | system/lib/fetch/asmfs.cpp:893-909 | on the found node: the same as `FsCalls.RmdirAt` |
| Asmfs.FileSystem.RmdirChecked | system/lib/fetch/asmfs.cpp:899-909 | the EBUSY, EACCES, ENOTDIR and ENOTEMPTY checks in order, then unlink_inode |
| Asmfs.FileSystem.Unlink | system/lib/fetch/asmfs.cpp:913-952 | result and new state are those of `FsCalls.UnlinkSpec` |
| Asmfs.FileSystem.UnlinkFound | system/lib/fetch/asmfs.cpp:926-951 | on the found node: the same as `FsCalls.UnlinkAt` |
| Asmfs.FileSystem.UnlinkChecked | system/lib/fetch/asmfs.cpp:941-951 | the EISDIR/EPERM and non-empty checks, then unlink_inode |
| Asmfs.FileSystem.Access | system/lib/fetch/asmfs.cpp:955-988 | result and new state are those of `FsCalls.AccessSpec` |
| Asmfs.FileSystem.GetDents64 | system/lib/fetch/asmfs.cpp:991-1061 | as written: result, new state and records are those of `FsCalls.GetDentsAsSource`, with room for count / sizeof(de) records, 4 bytes each (see Findings) |
| Asmfs.FileSystem.InodeAbspath | system/lib/fetch/asmfs.cpp:88-121 | the buffer receives the absolute path of the node, cut to fit, then the bytes the routine does not touch |
| Asmfs.FileSystem.GetCwd | system/lib/fetch/asmfs.cpp:1106-1126 | result, new state and buffer are those of `FsCalls.GetCwdSpec` |
| Asmfs.FileSystem.CreateDirectoryHierarchy | system/lib/fetch/asmfs.cpp:226-264 | the state and directory are those of `FsSteps.Hierarchy`, so for a missing path the directory part resolves to the returned directory afterwards (`FsProps.HierarchyMakesParent`) |
| Asmfs.FileSystem.MakeDirs | system/lib/fetch/asmfs.cpp:251-263 | the creation loop makes one directory per component before the basename, each under the previous one |
| Asmfs.FileSystem.MakeDir | system/lib/fetch/asmfs.cpp:254-261 | one round of the creation loop: one component consumed, the rest still to be made |
| Asmfs.FileSystem.NewDirUnder | system/lib/fetch/asmfs.cpp:255-258 | one directory created and linked, what remains to make unchanged |
| Paths.FirstComponent | system/lib/fetch/asmfs.cpp:205-212 | the longest slash-free prefix of the path, ending at a slash or at the end |
| Paths.AfterFirstComponent | system/lib/fetch/asmfs.cpp:189-201 | what follows the first component and its slash, strictly shorter than a non-empty path |
| Paths.PathCmp | system/lib/fetch/asmfs.cpp:189-201 | a match returns a suffix of `s1`; against a plain name, it matches exactly when the first component equals the name, and the suffix is what follows it |
| Paths.ComparePath | system/lib/fetch/asmfs.cpp:189-201 | the character loop returns exactly `PathCmp` |
| Paths.PathCmpDecided | system/lib/fetch/asmfs.cpp:191-200 | once the loop stops at index `i`, `PathCmp` is decided by the characters at `i` |
| Paths.CopyInodeName | system/lib/fetch/asmfs.cpp:205-212 | copies the first component and returns its length |
| Paths.FirstComponentIsPrefix | system/lib/fetch/asmfs.cpp:205-212 | a slash-free prefix that ends at a slash or at the end is the first component |
| Paths.BasenamePart | system/lib/fetch/asmfs.cpp:215-224 | the slash-free suffix of the path that starts after its last slash |
| Paths.Basename | system/lib/fetch/asmfs.cpp:215-224 | the scanning loop returns the position of `BasenamePart` |
| Paths.BasenameAt | system/lib/fetch/asmfs.cpp:218-222 | a slash-free suffix that starts after a slash, or at the start, is the basename |
| Paths.SplitWithTrailingSlash | system/lib/fetch/asmfs.cpp:240-241 | a trailing slash does not change the first component, and it stays on the rest |
| Paths.DirComponents | system/lib/fetch/asmfs.cpp:253-262 | the components before the basename are slash-free names |
| Paths.DirComponentsFrom | system/lib/fetch/asmfs.cpp:253-262 | each round of the creation loop consumes exactly the next component |
| Paths.SlashBeforeBasename | system/lib/fetch/asmfs.cpp:253 | while the loop is before the basename, a slash is still ahead |
| Paths.Truncate | system/lib/fetch/asmfs.cpp:117-118 | a prefix of at most `m` characters, the whole string when it fits |
| Paths.JoinFirst | system/lib/fetch/asmfs.cpp:178-190 | a path joined from plain components has the first of them as its first component and the join of the rest after it, and is neither "" nor "/" |
| Paths.BasenameAfter | system/lib/fetch/asmfs.cpp:210-220 | the basename after a '/' does not depend on what comes before it |
| Paths.JoinBasename | system/lib/fetch/asmfs.cpp:210-220 | the basename of a joined path is its last component |
| Paths.JoinDirComponents | system/lib/fetch/asmfs.cpp:253-262 | the directories the creation loop makes for a joined path are named by all its components but the last |
| Buffers.Signed32 | system/lib/fetch/asmfs.cpp:648-719 | the running total of readv (lines 648-649) and of writev (lines 718-719) as a 32-bit ssize_t: in range and congruent to the true sum modulo 2^32 |
| Buffers.Wrap64 | system/lib/fetch/asmfs.cpp:598 | the 64-bit two's-complement value, unchanged when it is in range |
| Buffers.CheckIov | system/lib/fetch/asmfs.cpp:646-652 | accepts exactly when no base is null and the total fits in `ssize_t` |
| Buffers.SumLenMono | system/lib/fetch/asmfs.cpp:646-652 | the running total of the lengths never decreases |
| Buffers.Chunk | system/lib/fetch/asmfs.cpp:654-666 | the bytes one buffer receives, at most its length |
| Buffers.Remaining | system/lib/fetch/asmfs.cpp:657 | the bytes left after the position, as many as the size allows |
| Buffers.Chunks | system/lib/fetch/asmfs.cpp:654-666 | one chunk per buffer, in order |
| Buffers.ChunksGather | system/lib/fetch/asmfs.cpp:654-666 | the chunks, end to end, are the bytes after the position, as many as the buffers hold |
| Buffers.ChunksPast | system/lib/fetch/asmfs.cpp:658 | once the file is exhausted, later buffers receive nothing |
| Buffers.Splice | system/lib/fetch/asmfs.cpp:755-759 | the bytes land at the position and the rest of the buffer is unchanged |
| Buffers.SpliceAppend | system/lib/fetch/asmfs.cpp:755-759 | copying two blocks one after the other equals copying them joined |
| Buffers.GrowCapacity | system/lib/fetch/asmfs.cpp:737-741 | the buffer grows only when it is too small, to the larger of the need and 1.25 times the old capacity |
| Buffers.Offset64 | system/lib/fetch/asmfs.cpp:598 | the 64-bit offset from its two 32-bit halves |
| Buffers.Seek | system/lib/fetch/asmfs.cpp:600-614 | an unknown whence is EINVAL, a negative target EINVAL, one past `OFF_MAX` EOVERFLOW, otherwise the target |
| Buffers.SeekExact | system/lib/fetch/asmfs.cpp:600-614 | the seek moves exactly when the target is in range, and then to the target |
| Buffers.LinesJoin | system/lib/fetch/asmfs.cpp:674-694 | the complete lines and the kept remainder join back to the input, and none holds a newline |
| Buffers.CString | system/lib/fetch/asmfs.cpp:683-688 | a line handed to the console stops at its first zero byte |
| Buffers.FirstEntryLeast | system/lib/fetch/asmfs.cpp:1016-1058 | the first entry emitted is the first whose offset reaches the cursor |
| Buffers.Window | system/lib/fetch/asmfs.cpp:1016-1058 | at most `cap` entries from the cursor on |
| Buffers.WindowsChain | system/lib/fetch/asmfs.cpp:1016-1060 | a window of `cap1` entries, then one from where it stopped, make the window of `cap1 + cap2` |
| Buffers.FirstEntryShift | system/lib/fetch/asmfs.cpp:1060 | moving the cursor by `m` records moves the first entry by `m` |
| Buffers.WindowStep | system/lib/fetch/asmfs.cpp:1016-1058 | one more entry joins the window exactly when the cursor has reached it |
| Buffers.WindowFull | system/lib/fetch/asmfs.cpp:1042-1058 | stopping when the window is full or the entries end loses nothing |
| Buffers.CursorTest | system/lib/fetch/asmfs.cpp:1018 | the source's cursor test `offset <= k * 280` is the window's membership test |
| Buffers.WindowAdvance | system/lib/fetch/asmfs.cpp:1016-1058 | the emission's step, stated with the running cursor |
| Tree.IndexOf | system/lib/fetch/asmfs.cpp:155-164 | the first position of the handle in the chain |
| Tree.ChainAt | system/lib/fetch/asmfs.cpp:25-44 | the sibling link of each child points to the next child or is null after the last |
| Tree.ChainTail | system/lib/fetch/asmfs.cpp:25-44 | a non-null chain head is the first child, and the rest of the chain follows its sibling |
| Tree.ChainFrame | system/lib/fetch/asmfs.cpp:129-185 | a chain is untouched by changes to links outside it |
| Tree.ChainPush | system/lib/fetch/asmfs.cpp:139-141 | putting a node at the head keeps the chain well formed |
| Tree.ChainRemove | system/lib/fetch/asmfs.cpp:178-181 | bypassing an inner node leaves the chain without it |
| Tree.ChainRemoveHead | system/lib/fetch/asmfs.cpp:174-176 | removing the head makes its sibling the new head |
| Tree.TreeAdd | system/lib/fetch/asmfs.cpp:57-65 | a new detached node keeps the tree invariant |
| Tree.TreeLink | system/lib/fetch/asmfs.cpp:129-152 | linking a detached node as first child keeps the tree invariant |
| Tree.TreeUnlinkHead | system/lib/fetch/asmfs.cpp:166-185 | unlinking a first child keeps the tree invariant |
| Tree.TreeUnlinkInner | system/lib/fetch/asmfs.cpp:166-185 | unlinking a later child keeps the tree invariant, its predecessor taking its sibling |
| Lookup.TreeWalkable | system/lib/fetch/asmfs.cpp:304-335 | a well-formed tree can be walked by its pointers |
| Lookup.FirstNamed | system/lib/fetch/asmfs.cpp:316-332 | the first child in chain order with the given name |
| Lookup.Scan | system/lib/fetch/asmfs.cpp:316-334 | the walk of find_inode returns null or an inode of the tree |
| Lookup.FindInode | system/lib/fetch/asmfs.cpp:304-335 | a null root gives null, an empty path or "/" gives the root |
| Lookup.ScanFirst | system/lib/fetch/asmfs.cpp:316-332 | one level of the walk: the first child with the component's name, then the rest of the path |
| Lookup.FindInodeResolves | system/lib/fetch/asmfs.cpp:304-335 | the pointer walk equals the name-based lookup `Resolve` |
| Lookup.ResolveTrailingSlash | system/lib/fetch/asmfs.cpp:325 | a trailing slash names the same inode |
| Lookup.FindInodeTrailingSlash | system/lib/fetch/asmfs.cpp:325 | find_inode ignores one trailing slash |
| Lookup.FindInodeMissing | system/lib/fetch/asmfs.cpp:334 | no child with the first component's name gives null |
| Lookup.FirstNamedAbsent | system/lib/fetch/asmfs.cpp:316-333 | with no child of that name, the search finds nothing |
| Lookup.Descend | system/lib/fetch/asmfs.cpp:231-249 | the walk of the directory-creation routine ends at an inode or at the deepest directory reached |
| Lookup.DescendFinds | system/lib/fetch/asmfs.cpp:231-249 | that walk finds a node exactly when find_inode does, and the same node |
| Lookup.DescendAbsent | system/lib/fetch/asmfs.cpp:231-249 | a single component no child matches leaves that walk at the start directory with the whole component left |
| Lookup.FollowAppend | system/lib/fetch/asmfs.cpp:192-206 | looking up `qs` then `rs` is looking up `rs` from where `qs` leads |
| Lookup.FollowGrow | system/lib/fetch/asmfs.cpp:143-152 | linking a new leaf under a directory with no child of its name keeps every lookup that succeeded |
| Lookup.ResolveFollows | system/lib/fetch/asmfs.cpp:192-206 | resolving a joined path takes, component by component, the first child of that name |
| Lookup.FindInodeFollows | system/lib/fetch/asmfs.cpp:192-206 | find_inode of a joined path is the lookup by its components, the root for none |
| Lookup.DescendFirst | system/lib/fetch/asmfs.cpp:231-249 | one level of the first loop: the first child named like the component ends or continues the walk, and without one the walk stops |
| Lookup.DescendJoin | system/lib/fetch/asmfs.cpp:231-249 | for a joined path that does not resolve, the first loop stops at the inode its longest resolving prefix names, which lacks the next component, with the remaining components left |
| Lookup.ParentScan | system/lib/fetch/asmfs.cpp:280-298 | find_parent_inode's walk always returns an inode |
| Lookup.FindParentInode | system/lib/fetch/asmfs.cpp:275-299 | null exactly when the root is null |
| Lookup.ParentScanFirst | system/lib/fetch/asmfs.cpp:282-297 | one level of the walk: a match at the basename returns the match, a miss returns the root |
| Lookup.BasenameOfPlain | system/lib/fetch/asmfs.cpp:215-224 | a name without a slash is its own basename |
| Lookup.FindParentSingle | system/lib/fetch/asmfs.cpp:289 | for a one-component path the parent is the matching child, or the root when there is none |
| Lookup.BasenameAfterSlash | system/lib/fetch/asmfs.cpp:215-224 | the basename of a path ending in `/c` is `c` |
| Lookup.FindParentMissingIntermediate | system/lib/fetch/asmfs.cpp:298 | as written: a missing middle component of `a/b/c` yields the root as parent |
| Lookup.MkdirTwiceNests | system/lib/fetch/asmfs.cpp:289 | as written: for an existing `x`, the parent of `x` is `x` itself, where `x` is absent |
| Lookup.ParentWalk | system/lib/fetch/asmfs.cpp:280-298 | the corrected parent walk returns null or an inode |
| Lookup.FindParentFixed | system/lib/fetch/asmfs.cpp:275-299 | the corrected find_parent_inode returns null or an inode |
| Lookup.ParentWalkFirst | system/lib/fetch/asmfs.cpp:282-297 | one level of the corrected walk: a missing component gives null |
| Lookup.ParentWalkResolves | system/lib/fetch/asmfs.cpp:275-299 | the corrected walk equals the name-based `ParentOf` |
| Lookup.ParentOfDirPart | system/lib/fetch/asmfs.cpp:275-299 | the parent of `prefix/c` is the inode `prefix` names |
| Lookup.FindParentFixedResolves | system/lib/fetch/asmfs.cpp:275-299 | corrected: a one-component path's parent is the root, and the parent of `prefix/c` is find_inode of `prefix` |
| Lookup.MkdirTwiceExists | system/lib/fetch/asmfs.cpp:855-862 | corrected: an existing `x` is found under the parent |
| Lookup.ParentFixedMissing | system/lib/fetch/asmfs.cpp:857 | corrected: a missing middle component gives no parent |
| Lookup.FindParentFixedWalk | system/lib/fetch/asmfs.cpp:275-299 | corrected: the loop with the intended parent lookup returns `FindParentFixed` |
| Lookup.AncestorPath | system/lib/fetch/asmfs.cpp:102-109 | at most 512 ancestors, all inodes |
| Lookup.AncestorPathFuel | system/lib/fetch/asmfs.cpp:105 | a chain shorter than the depth bound is the whole chain |
| Lookup.AbspathChild | system/lib/fetch/asmfs.cpp:105-120 | the path of a node is its parent's path, then "/", then its name |
| Lookup.ScanWalk | system/lib/fetch/asmfs.cpp:316-334 | the pointer loop returns `Scan` |
| Lookup.FindInodeWalk | system/lib/fetch/asmfs.cpp:304-335 | the whole routine returns `FindInode` |
| Lookup.ParentScanWalk | system/lib/fetch/asmfs.cpp:281-298 | the pointer loop returns `ParentScan` |
| Lookup.FindParentInodeWalk | system/lib/fetch/asmfs.cpp:275-299 | the whole routine returns `FindParentInode` |
| Lookup.DescendWalk | system/lib/fetch/asmfs.cpp:231-249 | the loop returns `Descend` |
| Lookup.JoinNamesPrefix | system/lib/fetch/asmfs.cpp:112-120 | the names of an upper part of the stack are a prefix of all the names |
| Lookup.AncestorStack | system/lib/fetch/asmfs.cpp:103-109 | the stack loop collects `AncestorPath` |
| Lookup.WriteNames | system/lib/fetch/asmfs.cpp:110-120 | the copy loop writes the joined names, cut to the room left |
| Lookup.AbspathWrite | system/lib/fetch/asmfs.cpp:102-120 | the buffer receives the absolute path cut to one less than its length, and keeps its other bytes |
| FsState.RemoveAt | system/lib/fetch/asmfs.cpp:166-185 | the sequence without position `i`, order kept |
| FsState.RelPath | system/lib/fetch/asmfs.cpp:341 | the path without its leading slash, a suffix of it |
| FsState.Find | system/lib/fetch/asmfs.cpp:304-335 | find_inode on the state, null or an inode |
| FsState.FindPath | system/lib/fetch/asmfs.cpp:338-344 | find_inode of a whole path, null or an inode |
| FsState.FindReach | system/lib/fetch/asmfs.cpp:192-206 | find_inode on the state of a path of plain components is the lookup by its components |
| FsState.FindParent | system/lib/fetch/asmfs.cpp:275-299 | find_parent_inode as written, never null from a real directory |
| FsState.ParentDir | system/lib/fetch/asmfs.cpp:275-299 | the corrected parent lookup, null or an inode |
| FsState.PathError | system/lib/fetch/asmfs.cpp:443-445 | no error exactly when the path is non-empty and at most 2000 characters |
| FsState.AdvancedAt | system/lib/fetch/asmfs.cpp:612-614 | setting the position to `pos + n` is advancing by `n` |
| FsState.Avail | system/lib/fetch/asmfs.cpp:657 | the inode's bytes after the position, as many as its size allows |
| FsState.IovBytes | system/lib/fetch/asmfs.cpp:756 | the bytes one entry contributes, as many as its length |
| FsState.Gathered | system/lib/fetch/asmfs.cpp:755-759 | the entries' bytes end to end, as many as their total length |
| FsState.Grown | system/lib/fetch/asmfs.cpp:737-753 | the grown buffer keeps the old bytes at the front |
| FsState.WrittenAt | system/lib/fetch/asmfs.cpp:735-761 | as written: the grown buffer, the size set only on growth, then the new position, give `WrittenAsSource` |
| FsState.CStrings | system/lib/fetch/asmfs.cpp:683-688 | one console line per complete line |
| FsState.ChildEntries | system/lib/fetch/asmfs.cpp:1042-1058 | one record per child |
| FsState.Entries | system/lib/fetch/asmfs.cpp:1016-1058 | ".", "..", then one record per child |
| FsState.StrLen | system/lib/fetch/asmfs.cpp:1123 | the position of the first zero character, or the length when there is none |
| FsState.AbspathInto | system/lib/fetch/asmfs.cpp:88-121 | inode_abspath's writes keep the buffer's length |
| FsSteps.RootResetOk | system/lib/fetch/asmfs.cpp:70-75 | resetting the root's mode keeps the invariant |
| FsSteps.StartedOk | system/lib/fetch/asmfs.cpp:338-344 | choosing the start directory keeps the invariant, changes nothing but the root's mode and the current directory, and starts at a directory |
| FsSteps.CreatedOk | system/lib/fetch/asmfs.cpp:57-65 | creating an inode keeps the invariant and uses a fresh handle |
| FsSteps.LinkedOk | system/lib/fetch/asmfs.cpp:129-152 | link_inode keeps the invariant |
| FsSteps.UnlinkHeadOk | system/lib/fetch/asmfs.cpp:172-176 | unlinking a first child keeps the invariant |
| FsSteps.UnlinkInnerOk | system/lib/fetch/asmfs.cpp:177-182 | unlinking a later child keeps the invariant |
| FsSteps.InodeSetOk | system/lib/fetch/asmfs.cpp:835 | changing one inode's fields, not its type, keeps the invariant |
| FsSteps.CwdSetOk | system/lib/fetch/asmfs.cpp:83-86 | setting a directory as current keeps the invariant |
| FsSteps.FdAddOk | system/lib/fetch/asmfs.cpp:533-538 | adding a descriptor keeps the invariant |
| FsSteps.FdSetOk | system/lib/fetch/asmfs.cpp:612-614 | moving a descriptor keeps the invariant |
| FsSteps.FdRemoveOk | system/lib/fetch/asmfs.cpp:566-567 | removing a descriptor keeps the invariant |
| FsSteps.LinesSetOk | system/lib/fetch/asmfs.cpp:674-694 | new console lines keep the invariant |
| FsSteps.MadeDirs | system/lib/fetch/asmfs.cpp:253-262 | the directories created, one per name, keep the invariant |
| FsSteps.Hierarchy | system/lib/fetch/asmfs.cpp:226-264 | create_directory_hierarchy_for_file keeps the invariant and returns an inode; what it returns is stated by `FsProps.HierarchyMakesParent` |
| FsSteps.ClosedOk | system/lib/fetch/asmfs.cpp:549-569 | close keeps the invariant |
| FsSteps.WrittenContentOk | system/lib/fetch/asmfs.cpp:737-759 | a file write keeps the size within the buffer, as written and corrected |
| FsSteps.PrintedLines | system/lib/fetch/asmfs.cpp:674-694 | the console loop changes only the line buffers and the console |
| FsSteps.OpenedOk | system/lib/fetch/asmfs.cpp:533-538 | opening keeps the invariant |
| FsSteps.GetCwdOk | system/lib/fetch/asmfs.cpp:77-81 | get_cwd keeps the invariant and the tree, and returns a directory |
| FsSteps.AbspathReady | system/lib/fetch/asmfs.cpp:105-109 | in a well-formed state the parent links stay among the inodes |
| FsSteps.PrintedAllOk | system/lib/fetch/asmfs.cpp:724-733 | the console loop keeps the invariant |
| FsSteps.ConsoleFitsAt | system/lib/fetch/asmfs.cpp:683-684 | each entry fits in the 4096-byte line buffer at its turn |
| FsSteps.KidsReady | system/lib/fetch/asmfs.cpp:1042-1058 | a directory's children are a proper chain of inodes |
| FsCalls.NewEntry | system/lib/fetch/asmfs.cpp:473-477 | the new entry keeps the invariant and is an inode |
| Transfer.Scatter | system/lib/fetch/asmfs.cpp:654-666 | readv's copy loop delivers `Chunks` and stops at the end of the file |
| Transfer.ScatterStep | system/lib/fetch/asmfs.cpp:656-664 | one round copies the buffer's chunk and moves the offset to the next running total |
| Transfer.Gather | system/lib/fetch/asmfs.cpp:755-759 | writev's copy loop puts the gathered bytes at the position |
| Transfer.SplitLines | system/lib/fetch/asmfs.cpp:674-694 | the complete lines go to the console, the remainder holds no newline |
| Transfer.PrintStream | system/lib/fetch/asmfs.cpp:674-694 | print_stream's state is `Printed` |
| Transfer.PrintEntry | system/lib/fetch/asmfs.cpp:726-731 | one round of the console loop |
| Transfer.PrintAll | system/lib/fetch/asmfs.cpp:724-733 | the console loop prints every entry and adds up the lengths |
| Transfer.ChildEntriesAt | system/lib/fetch/asmfs.cpp:1042-1058 | the record of the `j`-th child has its handle, offset, type and truncated name |
| Transfer.EmitEntries | system/lib/fetch/asmfs.cpp:1011-1058 | getdents64's emission is the window of ".", "..", then the children |
| Transfer.EmitChildren | system/lib/fetch/asmfs.cpp:1042-1058 | the chain walk completes that window |
| FsProps.LinkedChain | system/lib/fetch/asmfs.cpp:129-152 | after linking, the parent's chain is the node then the old children, and other chains are unchanged |
| FsProps.ChainsAfter | system/lib/fetch/asmfs.cpp:129-185 | chains of other directories survive a change to one parent's links |
| FsProps.UnlinkedChain | system/lib/fetch/asmfs.cpp:166-185 | after unlinking, the parent's chain is the old one without the node, and nothing else changes |
| FsProps.UnlinkedHeadChain | system/lib/fetch/asmfs.cpp:172-176 | the same for a first child |
| FsProps.UnlinkedInnerChain | system/lib/fetch/asmfs.cpp:177-182 | the same for a later child |
| FsProps.CloseTwice | system/lib/fetch/asmfs.cpp:549-569 | closing an open descriptor succeeds, and closing it again is EBADF |
| FsProps.OpenDirectoryRefused | system/lib/fetch/asmfs.cpp:435-439 | every open with O_DIRECTORY is refused and changes nothing, because O_TMPFILE holds the O_DIRECTORY bit |
| FsProps.GetDentsWithinCount | system/lib/fetch/asmfs.cpp:991-1061 | corrected: getdents64 never writes more than `count` bytes, and returns 280 per record |
| FsProps.GetDentsAsSourceOverruns | system/lib/fetch/asmfs.cpp:999 | as written: with room for one record it writes two |
| FsProps.OverwrittenHolds | system/lib/fetch/asmfs.cpp:737-759 | as written: the bytes land at the position, those before it stay, the capacity follows the growth rule, and the size becomes the new end only when the buffer grew, else stays |
| FsProps.OverwrittenFixedHolds | system/lib/fetch/asmfs.cpp:737-759 | corrected: the same, with a size that covers the write |
| FsProps.ReadBackInode | system/lib/fetch/asmfs.cpp:654-666 | as written: the bytes just written are readable at their position whenever the write grew the buffer or ended within the old size |
| FsProps.ReadBackFixed | system/lib/fetch/asmfs.cpp:654-666 | corrected: the bytes just written are always readable at their position |
| FsProps.WriteThenRead | system/lib/fetch/asmfs.cpp:697-762 | as written: writev, a seek back, then readv with as much room returns the bytes written, whenever the write grew the buffer or ended within the old size |
| FsProps.WriteThenReadFixed | system/lib/fetch/asmfs.cpp:697-762 | corrected: the same read returns the bytes written for every write |
| FsProps.ReadAfterRewind | system/lib/fetch/asmfs.cpp:619-667 | readv from where `b` lies returns `b` |
| FsProps.ReadVReads | system/lib/fetch/asmfs.cpp:619-667 | readv on a file returns the smaller of what is left and what fits, advances by it, and delivers `Chunks` |
| FsProps.ChunksPrefix | system/lib/fetch/asmfs.cpp:654-666 | the chunks of bytes starting with `b`, with room for exactly `b`, are `b` |
| FsProps.WrittenRewound | system/lib/fetch/asmfs.cpp:612-614 | as written: a write followed by a seek back changes only the inode, which becomes `OverwrittenAsSource` of it |
| FsProps.WrittenAsSourceDropsByte | system/lib/fetch/asmfs.cpp:739-753 | as written: 10 bytes, then 1, then 1 leave a size of 11 after 12 bytes written |
| FsProps.WrittenKeepsByte | system/lib/fetch/asmfs.cpp:739-753 | corrected: the same writes leave a size of 12 |
| FsProps.FirstChildFound | system/lib/fetch/asmfs.cpp:316-324 | a first child is found by its name |
| FsProps.EmptyDirFindsNothing | system/lib/fetch/asmfs.cpp:316-334 | nothing is found in an empty directory |
| FsProps.AbsentChild | system/lib/fetch/asmfs.cpp:289-298 | with no child of that name, the parent of a one-component path is the directory |
| FsProps.MkdirUnderMakes | system/lib/fetch/asmfs.cpp:869-873 | mkdir's success creates, names and links the directory |
| FsProps.NewNodeLinked | system/lib/fetch/asmfs.cpp:869-873 | the new inode has the given fields and name, no children, and is its parent's first child |
| FsProps.MkdirCreates | system/lib/fetch/asmfs.cpp:840-874 | mkdir of a new name under the root succeeds, as written and corrected alike, and find_inode then finds the new directory |
| FsProps.RootPath | system/lib/fetch/asmfs.cpp:853-854 | "/c" is absolute, its relative path and basename are `c` |
| FsProps.MkdirAtRoot | system/lib/fetch/asmfs.cpp:853-863 | mkdir of a new name under the root passes every check |
| FsProps.MkdirTwiceFails | system/lib/fetch/asmfs.cpp:861-862 | corrected: a second mkdir of the same path is EEXIST |
| FsProps.MkdirTwiceAsSourceNests | system/lib/fetch/asmfs.cpp:289 | as written: a second mkdir of "/c" succeeds and makes `c` inside `c` |
| FsProps.FindSingle | system/lib/fetch/asmfs.cpp:316-332 | find_inode of one name is the first child with it |
| FsProps.DeepPath | system/lib/fetch/asmfs.cpp:853-854 | "/a/b/c" is absolute with relative path "a/b/c" and basename `c` |
| FsProps.MkdirMissingIntermediate | system/lib/fetch/asmfs.cpp:298 | corrected mkdir of "/a/b/c" with `b` missing is ENOENT; as written, it creates under the root |
| FsProps.AcceptedNotDirectory | system/lib/fetch/asmfs.cpp:435-439 | flags open accepts hold neither O_TMPFILE nor O_DIRECTORY |
| FsProps.OpenExisting | system/lib/fetch/asmfs.cpp:452-538 | open of a path found in the tree fails exactly when the inode holds no bytes, nothing truncates it and the fetch fails (ENOENT, only the start directory chosen); otherwise the caller gets the next, unused descriptor at position 0, or at the fetched length under O_APPEND, and the tree and console stay |
| FsProps.OpenExistingInode | system/lib/fetch/asmfs.cpp:462-531 | on success the found inode is truncated under O_CREAT/O_TRUNC, takes the fetched bytes when it held none, and is otherwise unchanged; no other inode changes but the root's mode |
| FsProps.OpenFoundFails | system/lib/fetch/asmfs.cpp:480-501 | the found-node tail of open fails only when the inode is empty, nothing truncates it and the fetch fails, with ENOENT and nothing changed |
| FsProps.OpenFoundOpens | system/lib/fetch/asmfs.cpp:533-538 | on success the found-node tail returns the next, unused descriptor number, naming the node at its start position |
| FsProps.OpenFoundFrame | system/lib/fetch/asmfs.cpp:462-538 | the found-node tail leaves the tree, the working directory and the console alone |
| FsProps.OpenFoundInode | system/lib/fetch/asmfs.cpp:462-531 | the found-node tail truncates, takes the fetch, or leaves the inode map as it was |
| FsProps.OpenExclExisting | system/lib/fetch/asmfs.cpp:455-456 | O_CREAT with O_EXCL on an existing path is EEXIST, or EACCES when unreadable, with only the start directory chosen |
| FsProps.MadeDirsFrame | system/lib/fetch/asmfs.cpp:253-262 | the directories made for a missing path leave the descriptors, working directory and console alone and only add inodes |
| FsProps.HierarchyFrame | system/lib/fetch/asmfs.cpp:226-264 | create_directory_hierarchy_for_file leaves the descriptors, working directory and console alone and only adds inodes |
| FsProps.NewNodeFrame | system/lib/fetch/asmfs.cpp:473-477 | creating and linking the new entry leaves the descriptors, working directory and console alone and only adds an inode |
| FsProps.NewEntryMakes | system/lib/fetch/asmfs.cpp:473-477 | open's new entry is a fresh inode of the kind and mode, holding the fetch if any, named as given, childless, first under the directory create_directory_hierarchy_for_file returned; descriptors and console untouched |
| FsProps.OpenCreatesMissing | system/lib/fetch/asmfs.cpp:462-478 | O_CREAT on a missing path succeeds: the next, unused descriptor at position 0 on a new empty regular file named by the basename, first in its directory |
| FsProps.OpenMissingNoCreate | system/lib/fetch/asmfs.cpp:480-527 | a missing path without O_CREAT or O_TRUNC is ENOENT unless the fetch is attempted and succeeds; then a new regular file named by the basename holds the fetched bytes, at position 0 or their end under O_APPEND |
| FsProps.HierarchyAtStart | system/lib/fetch/asmfs.cpp:231-263 | for a single component the start directory lacks, no directory is made and the start directory is returned |
| FsProps.OpenCreatesAtRoot | system/lib/fetch/asmfs.cpp:462-478 | open("/c", O_CREAT) with no "c" under the root succeeds, and find_inode("/c") then finds the new empty file, a child of the root |
| FsProps.LinkedReach | system/lib/fetch/asmfs.cpp:255-258 | creating and linking an entry under a directory without one of its name keeps the lookups that reached the directory, and the same lookup plus the name reaches the new childless entry |
| FsProps.MadeDirsReach | system/lib/fetch/asmfs.cpp:253-262 | the creation loop, started where a lookup leads, makes that lookup followed by the names reach the directory it returns, a new childless one when it made any |
| FsProps.HierarchyDescends | system/lib/fetch/asmfs.cpp:226-264 | for a missing path the first loop stops after its longest resolving prefix, and the second creates one directory per remaining component but the last |
| FsProps.HierarchyMakesParent | system/lib/fetch/asmfs.cpp:226-264 | for a missing path of plain components, afterwards the path without its last component resolves to the returned directory, which has no entry of the last name, so the path still does not resolve |
| FsProps.NewEntryFound | system/lib/fetch/asmfs.cpp:473-477 | after open's new entry for a missing path, find_inode of the path finds it, and of the directory part finds its parent |
| FsProps.OpenCreatesNested | system/lib/fetch/asmfs.cpp:462-478 | open(path, O_CREAT) on a missing absolute path of any depth succeeds; afterwards the path finds the new empty file and its directory part finds the file's parent |
| CallProps.SeekLands | system/lib/fetch/asmfs.cpp:600-614 | the seek lands on the target in range, EINVAL below 0, EOVERFLOW above `OFF_MAX` |
| CallProps.LlSeekPosition | system/lib/fetch/asmfs.cpp:580-616 | llseek moves the descriptor exactly to the target, or refuses and changes nothing |
| CallProps.LlSeekRefusals | system/lib/fetch/asmfs.cpp:590-610 | a bad descriptor is EBADF, a bad whence EINVAL, any refusal changes nothing, and a success only moves the descriptor |
| CallProps.ReadVRefusals | system/lib/fetch/asmfs.cpp:630-652 | EBADF, EISDIR and EINVAL in the source's order, with no change and no bytes |
| CallProps.ReadVCopies | system/lib/fetch/asmfs.cpp:654-666 | readv returns the smaller of what is left and what fits, advances by it, and delivers the file's bytes from the position |
| CallProps.ReadChunks | system/lib/fetch/asmfs.cpp:654-666 | the chunks delivered are the file's bytes from the position |
| CallProps.ReadAvail | system/lib/fetch/asmfs.cpp:657 | the bytes available are the file's content from the position |
| CallProps.WriteVRefusals | system/lib/fetch/asmfs.cpp:703-722 | EBADF and EINVAL refuse without change; a success returns the total length |
| CallProps.WriteVFile | system/lib/fetch/asmfs.cpp:735-761 | as written: writev on a file returns the byte count, puts the bytes at the position, keeps the bytes before, grows the buffer by the rule, moves the size to the new end only when the buffer grew, and advances the position; nothing else changes |
| CallProps.PathRefused | system/lib/fetch/asmfs.cpp:788-790 | an empty path is ENOENT, a long one ENAMETOOLONG, and every path syscall refuses them without change |
| CallProps.ChdirMoves | system/lib/fetch/asmfs.cpp:780-805 | chdir succeeds exactly on a directory and moves there; otherwise ENOENT or ENOTDIR |
| CallProps.ChmodSetsMode | system/lib/fetch/asmfs.cpp:808-837 | chmod succeeds exactly on a directory and sets only its mode; a file is ENOTDIR |
| CallProps.AccessChecks | system/lib/fetch/asmfs.cpp:955-988 | access succeeds exactly when the node exists and grants each permission asked; otherwise ENOENT or EACCES |
| CallProps.UnlinkedDetaches | system/lib/fetch/asmfs.cpp:166-185 | unlink_inode detaches the node and removes it from its parent's children only |
| CallProps.RmdirChecksDecide | system/lib/fetch/asmfs.cpp:899-907 | rmdir removes exactly an empty directory, not the current one, in a writable parent |
| CallProps.RmdirDots | system/lib/fetch/asmfs.cpp:889-890 | a last component "." is EINVAL and ".." ENOTEMPTY |
| CallProps.RmdirBusy | system/lib/fetch/asmfs.cpp:892-899 | a missing path is ENOENT; the root and the current directory are EBUSY |
| CallProps.RmdirRemoves | system/lib/fetch/asmfs.cpp:877-910 | rmdir of a found directory succeeds exactly under the source's conditions and then only detaches it |
| CallProps.StartedKeeps | system/lib/fetch/asmfs.cpp:338-344 | the start-directory choice leaves every inode other than the root as it was |
| CallProps.RmdirReaches | system/lib/fetch/asmfs.cpp:885-893 | rmdir past its path checks is rmdir of the inode found |
| CallProps.RmdirAtDecides | system/lib/fetch/asmfs.cpp:893-909 | rmdir of a found node succeeds exactly under the source's conditions |
| CallProps.UnlinkReaches | system/lib/fetch/asmfs.cpp:921-926 | unlink past its path checks is unlink of the inode found |
| CallProps.UnlinkAtDecides | system/lib/fetch/asmfs.cpp:926-951 | EACCES, then EISDIR or EPERM, then EISDIR when non-empty; success exactly otherwise, detaching the node |
| CallProps.UnlinkRemoves | system/lib/fetch/asmfs.cpp:913-952 | unlink of a found path follows the same decision |
| CallProps.GetDentsLists | system/lib/fetch/asmfs.cpp:991-1061 | as written: EINVAL without room for one pointer; otherwise the window of entries from the position, count / 4 of them at most, 280 bytes each, the cursor advanced by them; from 0 with room it lists every entry; more than count / 280 entries go past the count bytes |
| CallProps.GetDentsListsFixed | system/lib/fetch/asmfs.cpp:991-1061 | corrected: EINVAL without room for one record; otherwise the window of at most count / 280 entries, never more than count bytes |
| CallProps.GetDentsLeaves | system/lib/fetch/asmfs.cpp:1060 | as written: after getdents64 only the position has moved, by one record per entry listed, so a next call sees the same entries |
| CallProps.ChildEntriesFrame | system/lib/fetch/asmfs.cpp:1042-1058 | the records depend only on the children's inodes and names |
| CallProps.GetCwdRefusals | system/lib/fetch/asmfs.cpp:1115-1116 | a null buffer is EFAULT and a zero size EINVAL |
| CallProps.GetCwdAtRoot | system/lib/fetch/asmfs.cpp:1106-1126 | at the root the buffer holds "/" and the call succeeds exactly when the size is at least 3 |
| CallProps.StrLenAfter | system/lib/fetch/asmfs.cpp:1123 | the length of a zero-free prefix then more is the sum |
| CallProps.GetCwdBelowRoot | system/lib/fetch/asmfs.cpp:1122-1125 | below the root the buffer starts with the path, and ERANGE exactly when it does not fit |

## Left out

- The fetch API becomes the `remote: Fetch` parameter of open (lines 460, 467, 482-505, 560-565). Waiting, closing a fetch and the asynchronous mode are not modelled.
- Logging is not modelled: the EM_ASM calls, the message half of RETURN_ERRNO and the debug dumps (lines 347-397).
- The atomics at the end of link_inode (lines 150-151) are not modelled; the model is single-threaded.
- sysctl, fsync and dup are not part of this model. They only log and return.
- Variadic argument unpacking is not modelled: each syscall takes its arguments directly.
- Descriptors are a map from numbers to `Descriptor`, not pointers with a magic number. A freed or forged pointer is not modelled.
- Timestamps set by create_inode (line 61) are not modelled.
- writev's growth (lines 737-753) uses integer `cap + cap / 4` for the float product, and the malloc fallback (lines 742-749) is not modelled.
- `Asmfs.FileSystem.WriteFile`, `FsState.Written`, `FsState.WrittenAsSource`, `FsState.DescsOk` and `FsProps.WriteThenRead` treat the file position as an unbounded integer. In the source it is a 32-bit `ssize_t` (line 50). llseek keeps it at most 0x7FFFFFFF (line 610), but writev adds the write's length to it unchecked (lines 737 and 758). A write that crosses 0x7FFFFFFF makes it negative, and a later readv then converts it to a huge `size_t` offset (line 654). The model neither wraps the position nor flags the overflow.
- `FsState.Grown` fills the bytes that growth adds with zeros, while the source leaves the reallocated memory uninitialised (lines 742-747). No lemma reads those bytes before they are written.
- inode_abspath's terminator store at `dst[dstLen]` (line 111) is one past the buffer. The model writes only inside the buffer.
- `Asmfs.FileSystem.InodeAbspath` requires an inode handle. `Lookup.Abspath` gives "(null)" for null, as lines 90-95 do, but no caller in the model passes null.
- The path-based overload of create_directory_hierarchy_for_file (lines 266-272) is not modelled; nothing calls it.
- `FsCalls.NewEntry` and `Asmfs.FileSystem.AddEntry` keep the new entry's name whole at any length. In the source the name field holds 255 bytes (NAME_MAX) and a terminator (line 27), and open copies the basename into it unchecked (line 476). A longer basename overruns into the inode's pointers; that memory corruption is not modelled.
- `FsCalls.MkdirUnder` and `Asmfs.FileSystem.MkdirIn` keep a basename longer than 255 bytes whole, where mkdir's unchecked copy (line 869) overruns the name field.
- `FsSteps.MadeDirs` and `Asmfs.FileSystem.NewDirUnder` keep an intermediate component longer than 255 bytes whole, where strcpy_inodename (line 257) overruns the name field.
- `FsCalls.OpenSpec` requires `!OpenCrashes`: on a fetch-less inode (line 529) the source dereferences a null fetch.
- `FsCalls.GetCwdSpec` requires `!GetCwdCrashes`. Those are the inputs on which getcwd passes a null buffer to inode_abspath, or fails inode_abspath's assertion at the root with a one-byte buffer (line 98).
- getcwd's internal-error branch for a missing current directory (line 1118) is not modelled: get_cwd never returns null.
- `Asmfs.FileSystem.WriteV` requires that console output fits print_stream's 4096-byte line buffer.
- readv's internal error returns `RETURN_ERRNO(-1, ..)`, which is +1. It is kept as written.
- access's `F_OK` is 0, so its `mode & F_OK` tests are dead. They are kept as written.
- `FsCalls.UnlinkSpec` returns 0 and changes nothing for unlink("/") on a root without children. In the source, unlink_inode's log message reads the root's null parent there (line 168), which is not modelled.
- `CallProps.UnlinkRemoves` covers found nodes other than the root only, for the same reason. The other cases are in `CallProps.UnlinkReaches`.
- `CallProps.RmdirRemoves` covers found directories other than the root. The root is EBUSY in `CallProps.RmdirBusy`.
- `CallProps.LlSeekPosition` requires the target computation not to wrap 64 bits. `Buffers.Wrap64` states the wrap.
- `Asmfs.FileSystem.GetDents64` follows the source's room of count / 4 records. When more than count / 280 entries remain, it hands back records past the `count` bytes the caller gave; the model returns them as a sequence and has no caller buffer to overrun.
- `CallProps.GetDentsLeaves` states what one getdents64 call leaves behind. It does not chain two calls; that step is `Buffers.WindowsChain`.
- `CallProps.GetCwdAtRoot` keeps the source's check `strlen >= size - 1` as written, so a 2-byte buffer that holds "/" still gives ERANGE.
- `Lookup.AncestorPath` stops at 512 ancestors, as the source's stack does.

## Findings

In all four cases `Asmfs.FileSystem` and `FsCalls` follow the code as written:
`FsState.WrittenAsSource`, `FsCalls.GetDentsAsSource` and `FsCalls.MkdirAsSource`, the
last through `FsState.FindParent`. The corrected definitions stand beside them:
`FsState.Written`, `FsCalls.GetDentsSpec`, and `FsCalls.MkdirSpec` through
`FsState.ParentDir` and `Lookup.FindParentFixed`. The rows marked "corrected:" in the
table above state the intended properties of those.

| source | as written | input that shows it | evidently intended | confidence | as-written member | corrected member |
|---|---|---|---|---|---|---|
| system/lib/fetch/asmfs.cpp:739-753 | writev sets the size only when the buffer grows | a write of 10 bytes, then 1, then 1: the third fits in the grown buffer, so the size stays 11 after 12 bytes | the size covers every byte written | not executed | FsProps.WrittenAsSourceDropsByte | FsProps.WrittenKeepsByte |
| system/lib/fetch/asmfs.cpp:999 | getdents64 counts its room with `sizeof(de)`, the size of a pointer | count 280, room for one record: it writes "." and ".." | at most `count / 280` records | not executed | FsProps.GetDentsAsSourceOverruns | FsProps.GetDentsWithinCount |
| system/lib/fetch/asmfs.cpp:289 | find_parent_inode returns the match once the basename is reached, even when the match is the basename itself | mkdir("/x") twice: the second call looks for `x` inside `x` and creates it there | the second call is EEXIST | not executed | FsProps.MkdirTwiceAsSourceNests | FsProps.MkdirTwiceFails |
| system/lib/fetch/asmfs.cpp:298 | find_parent_inode returns the root when a middle component is missing | mkdir("/a/b/c") with `/a` present and `/a/b` absent creates `/c` under the root | ENOENT | not executed | Lookup.FindParentMissingIntermediate | Lookup.ParentFixedMissing |
