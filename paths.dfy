/** The string helpers of path resolution. A C string is a `string` holding the
    characters before its terminator; the end of the sequence stands for '\0'. */
module Paths {
  import opened Wrappers

  /** The first '/'-delimited component of `s`: everything up to the first '/',
      or all of `s` when it holds none. */
  function FirstComponent(s: string): (c: string)
    ensures c <= s && '/' !in c
    ensures |c| == |s| || s[|c|] == '/'
  {
    if s == [] || s[0] == '/' then [] else [s[0]] + FirstComponent(s[1..])
  }

  /** What follows the first component and the '/' that ends it ("" when `s` has no '/'). */
  function AfterFirstComponent(s: string): (rest: string)
    ensures |rest| < |s| || (s == [] && rest == [])
    ensures |FirstComponent(s)| < |s| ==> s == FirstComponent(s) + "/" + rest
    ensures |FirstComponent(s)| == |s| ==> rest == []
  {
    var c := FirstComponent(s);
    if |c| < |s| then s[|c| + 1..] else []
  }

  /** path_cmp: compares `s1` with the inode name `s2` up to the end of `s1`'s first
      component. On a match it yields the rest of `s1` past that component and its
      '/'; `None` is the null pointer. */
  function PathCmp(s1: string, s2: string): (r: Option<string>)
    ensures r.Some? ==> |r.value| <= |s1| && r.value == s1[|s1| - |r.value|..]
    ensures r.Some? && r.value != [] ==> |r.value| < |s1|
    ensures '/' !in s2 ==> (r.Some? <==> FirstComponent(s1) == s2)
    ensures '/' !in s2 && r.Some? ==> r.value == AfterFirstComponent(s1)
  {
    if s1 != [] && s2 != [] && s1[0] == s2[0] then
      if s1[0] == '/' then Some(s1[1..])
      else
        assert FirstComponent(s1) == [s1[0]] + FirstComponent(s1[1..]) && s2 == [s2[0]] + s2[1..];
        PathCmp(s1[1..], s2[1..])
    else if s1 == [] && s2 == [] then Some(s1)
    else if s1 != [] && s1[0] == '/' && s2 == [] then Some(s1[1..])
    else if s1 == [] && s2 != [] && s2[0] == '/' then Some(s1)
    else None
  }

  /** path_cmp's loop: walks both strings while they agree; a shared '/' or the shared
      end decides the match, as does the end of one against a '/' in the other. */
  method ComparePath(s1: string, s2: string) returns (r: Option<string>)
    ensures r == PathCmp(s1, s2)
  {
    var i := 0;
    while i < |s1| && i < |s2| && s1[i] == s2[i]
      invariant 0 <= i <= |s1| && i <= |s2|
      invariant s1[..i] == s2[..i] && '/' !in s1[..i]
    {
      if s1[i] == '/' {
        PathCmpDecided(s1, s2, i);
        return Some(s1[i + 1..]);
      }
      assert s1[..i + 1] == s1[..i] + [s1[i]] && s2[..i + 1] == s2[..i] + [s2[i]];
      i := i + 1;
    }
    PathCmpDecided(s1, s2, i);
    if i == |s1| && i == |s2| {
      r := Some([]);
    } else if i < |s1| && s1[i] == '/' && i == |s2| {
      r := Some(s1[i + 1..]);
    } else if i == |s1| && i < |s2| && s2[i] == '/' {
      r := Some([]);
    } else {
      r := None;
    }
  }

  /** Past a shared prefix without '/', the comparison is decided at `i`: a shared '/'
      matches, and otherwise the ends and a '/' against an end decide. */
  lemma {:induction false} PathCmpDecided(s1: string, s2: string, i: nat)
    requires i <= |s1| && i <= |s2| && s1[..i] == s2[..i] && '/' !in s1[..i]
    requires !(i < |s1| && i < |s2| && s1[i] == s2[i] && s1[i] != '/')
    ensures PathCmp(s1, s2)
      == if i < |s1| && i < |s2| && s1[i] == s2[i] then Some(s1[i + 1..])
         else if i == |s1| && i == |s2| then Some([])
         else if i < |s1| && s1[i] == '/' && i == |s2| then Some(s1[i + 1..])
         else if i == |s1| && i < |s2| && s2[i] == '/' then Some([])
         else None
    decreases i
  {
    if i > 0 {
      assert s1[0] == s1[..i][0] && s2[0] == s2[..i][0];
      assert s1[1..][..i - 1] == s1[..i][1..] && s2[1..][..i - 1] == s2[..i][1..];
      assert i < |s1| ==> s1[1..][i..] == s1[i + 1..];
      PathCmpDecided(s1[1..], s2[1..], i - 1);
    } else if i < |s1| {
      assert s1[1..] == s1[i + 1..];
    }
  }

  /** strcpy_inodename: copies `path` up to its first '/' and returns the copy and its length. */
  method CopyInodeName(path: string) returns (dst: string, n: int)
    ensures dst == FirstComponent(path) && n == |dst|
  {
    dst := [];
    var i := 0;
    while i < |path| && path[i] != '/'
      invariant 0 <= i <= |path|
      invariant dst == path[..i] && '/' !in dst
    {
      dst := dst + [path[i]];
      i := i + 1;
    }
    FirstComponentIsPrefix(path, dst);
    n := |dst|;
  }

  /** A prefix free of '/' that ends at a '/' or at the end is the first component. */
  lemma {:induction false} FirstComponentIsPrefix(s: string, c: string)
    requires c <= s && '/' !in c
    requires |c| == |s| || s[|c|] == '/'
    ensures FirstComponent(s) == c
  {
    if c != [] {
      assert s[0] == c[0];
      FirstComponentIsPrefix(s[1..], c[1..]);
    }
  }

  /** basename_part: the part of `path` after its last '/'. */
  function BasenamePart(path: string): (b: string)
    ensures |b| <= |path| && b == path[|path| - |b|..]
    ensures '/' !in b
    ensures |b| < |path| ==> path[|path| - |b| - 1] == '/'
  {
    if path == [] || path[|path| - 1] == '/' then []
    else BasenamePart(path[..|path| - 1]) + [path[|path| - 1]]
  }

  /** basename_part's loop: remembers the position just past the latest '/'. The
      result is that position, so the basename is the path from there on. */
  method Basename(path: string) returns (pos: nat)
    ensures pos <= |path| && path[pos..] == BasenamePart(path)
  {
    pos := 0;
    var i := 0;
    while i < |path|
      invariant pos <= i <= |path|
      invariant '/' !in path[pos..i] && (pos == 0 || path[pos - 1] == '/')
    {
      assert path[pos..i + 1] == path[pos..i] + [path[i]];
      if path[i] == '/' {
        pos := i + 1;
      }
      i := i + 1;
    }
    BasenameAt(path, pos);
  }

  /** The basename starts just past a '/' (or at the start) and holds no '/'. */
  lemma {:induction false} BasenameAt(path: string, pos: nat)
    requires pos <= |path| && '/' !in path[pos..] && (pos == 0 || path[pos - 1] == '/')
    ensures path[pos..] == BasenamePart(path)
    decreases |path|
  {
    if pos < |path| {
      var init := path[..|path| - 1];
      assert path[|path| - 1] == path[pos..][|path| - 1 - pos];
      assert path[pos..] == init[pos..] + [path[|path| - 1]];
      BasenameAt(init, pos);
    }
  }

  /** A path whose final character is not '/': the shape on which a trailing '/' is
      equivalent to its absence. */
  predicate NoTrailingSlash(p: string)
  {
    p != [] && p[|p| - 1] != '/'
  }

  /** Appending '/' to a path leaves its first component alone and appends '/' to the
      rest, or, for a single component, leaves nothing after it. */
  lemma {:induction false} SplitWithTrailingSlash(p: string)
    requires NoTrailingSlash(p)
    ensures FirstComponent(p + "/") == FirstComponent(p)
    ensures |FirstComponent(p)| < |p| ==>
      AfterFirstComponent(p + "/") == AfterFirstComponent(p) + "/" && NoTrailingSlash(AfterFirstComponent(p))
    ensures |FirstComponent(p)| == |p| ==> AfterFirstComponent(p + "/") == []
  {
    var c := FirstComponent(p);
    FirstComponentIsPrefix(p + "/", c);
  }

  /** The names create_directory_hierarchy_for_file gives the directories it creates for
      `rest`: its components while more than its last `bl` characters remain. */
  function DirComponents(rest: string, bl: nat): (cs: seq<string>)
    ensures forall i :: 0 <= i < |cs| ==> '/' !in cs[i]
    decreases |rest|
  {
    if rest == [] || |rest| <= bl then []
    else
      var c := FirstComponent(rest);
      if |c| < |rest| then [c] + DirComponents(rest[|c| + 1..], bl) else []
  }

  /** One step of DirComponents on the suffix of `rest` from `k`: the component there,
      then the components from `next`, just past its '/'. */
  lemma DirComponentsFrom(rest: string, k: nat, next: nat, bl: nat)
    requires k <= |rest| && |rest| - k > bl && |FirstComponent(rest[k..])| < |rest| - k
    requires next == k + |FirstComponent(rest[k..])| + 1
    ensures DirComponents(rest[k..], bl) == [FirstComponent(rest[k..])] + DirComponents(rest[next..], bl)
    ensures DirComponents(rest[k..], bl)[1..] == DirComponents(rest[next..], bl)
  {
    var c := FirstComponent(rest[k..]);
    assert rest[k..][|c| + 1..] == rest[next..];
  }

  /** Any suffix of `path` longer than its basename still holds a '/', so its first
      component ends before it does. */
  lemma SlashBeforeBasename(path: string, rest: string)
    requires |rest| <= |path| && rest == path[|path| - |rest|..]
    requires |rest| > |BasenamePart(path)|
    ensures |FirstComponent(rest)| < |rest|
  {
    var b := BasenamePart(path);
    assert path[|path| - |b| - 1] == '/';
    assert rest[|rest| - |b| - 1] == '/';
  }

  /** Path components as a lookup consumes them: each non-empty and free of '/'. */
  predicate PlainComponents(cs: seq<string>)
  {
    forall i :: 0 <= i < |cs| ==> cs[i] != [] && '/' !in cs[i]
  }

  /** The relative path that names `cs` one after the other, "" for no components. */
  function JoinPath(cs: seq<string>): (p: string)
    ensures cs != [] ==> cs[0] <= p
  {
    if cs == [] then [] else if |cs| == 1 then cs[0] else cs[0] + "/" + JoinPath(cs[1..])
  }

  /** A joined path splits back into its first component and the join of the others,
      and is neither "" nor "/". */
  lemma JoinFirst(cs: seq<string>)
    requires PlainComponents(cs) && cs != []
    ensures FirstComponent(JoinPath(cs)) == cs[0]
    ensures AfterFirstComponent(JoinPath(cs)) == JoinPath(cs[1..])
    ensures JoinPath(cs) != [] && JoinPath(cs) != "/"
  {
    var p := JoinPath(cs);
    assert p[0] == cs[0][0] && cs[0][0] in cs[0];
    if |cs| > 1 {
      assert p[|cs[0]|] == '/';
      FirstComponentIsPrefix(p, cs[0]);
      assert p[|cs[0]| + 1..] == JoinPath(cs[1..]);
    } else {
      FirstComponentIsPrefix(p, cs[0]);
    }
  }

  /** Cutting a sequence of components at `j` and before its last one. */
  lemma ComponentsSplit(cs: seq<string>, j: nat)
    requires PlainComponents(cs) && j < |cs|
    ensures PlainComponents(cs[j..]) && PlainComponents(cs[j..|cs| - 1])
    ensures PlainComponents(cs[..|cs| - 1]) && PlainComponents([cs[|cs| - 1]])
    ensures cs[j..][|cs| - j - 1] == cs[|cs| - 1] && cs[j..][..|cs| - j - 1] == cs[j..|cs| - 1]
    ensures cs[..j] + cs[j..|cs| - 1] == cs[..|cs| - 1] && cs[..|cs| - 1] + [cs[|cs| - 1]] == cs
    ensures j < |cs| - 1 ==> cs[j..|cs| - 1][0] == cs[j]
  {
  }

  /** Moving the first of `names` over to the end of `ps`. */
  lemma ShiftComponent(ps: seq<string>, names: seq<string>)
    requires names != []
    ensures ps + [names[0]] + names[1..] == ps + names
  {
    assert names == [names[0]] + names[1..];
  }

  /** Whatever ends in a '/' before `q` does not change the basename, which `q` decides. */
  lemma {:induction false} BasenameAfter(a: string, q: string)
    requires a != [] && a[|a| - 1] == '/'
    ensures BasenamePart(a + q) == BasenamePart(q)
  {
    var p := a + q;
    if q != [] && q[|q| - 1] != '/' {
      var q' := q[..|q| - 1];
      assert p[|p| - 1] == q[|q| - 1];
      assert p[..|p| - 1] == a + q';
      BasenameAfter(a, q');
    } else {
      assert p[|p| - 1] == '/';
    }
  }

  /** The last component of a joined path is its basename. */
  lemma {:induction false} JoinBasename(cs: seq<string>)
    requires PlainComponents(cs) && cs != []
    ensures BasenamePart(JoinPath(cs)) == cs[|cs| - 1]
  {
    if |cs| > 1 {
      assert PlainComponents(cs[1..]);
      JoinBasename(cs[1..]);
      BasenameAfter(cs[0] + "/", JoinPath(cs[1..]));
    }
  }

  /** All components but the last: the first, then all of the tail's but its last. */
  lemma DropLastFirst(cs: seq<string>)
    requires |cs| > 1
    ensures cs[..|cs| - 1] == [cs[0]] + cs[1..][..|cs| - 2]
  {
  }

  /** The components before the basename of a joined path are the directories
      create_directory_hierarchy_for_file walks through. */
  lemma {:induction false} JoinDirComponents(cs: seq<string>)
    requires PlainComponents(cs) && cs != []
    ensures DirComponents(JoinPath(cs), |cs[|cs| - 1]|) == cs[..|cs| - 1]
  {
    var b := |cs[|cs| - 1]|;
    if |cs| > 1 {
      var q := JoinPath(cs[1..]);
      assert PlainComponents(cs[1..]);
      JoinDirComponents(cs[1..]);
      JoinFirst(cs);
      assert |q| >= b by {
        if |cs| == 2 { assert q == cs[1]; } else { JoinBasename(cs[1..]); }
      }
      assert DirComponents(JoinPath(cs), b) == [cs[0]] + DirComponents(q, b);
      DropLastFirst(cs);
    }
  }

  /** The first `m` characters of `s`, or all of it when it is shorter. */
  function Truncate(s: string, m: nat): (r: string)
    ensures r <= s && |r| <= m
    ensures |r| == m || r == s
  {
    if |s| <= m then s else s[..m]
  }
}
