/** The shape of the inode tree. Inodes are arena handles; each link field of the C
    inode (parent, first child, next sibling) and its name is a map from handle to value.
    The ghost map `kids` lists the children of every inode in chain order, and `TreeOk`
    ties it to the pointers. The lemmas show that adding, linking and unlinking a node
    keep that shape. */
module Tree {

  /** An inode pointer: an arena handle, 0 being the null pointer. */
  type Handle = int

  const Null: Handle := 0
  const Root: Handle := 1

  /** Following `sib` from `h` visits exactly the handles of `s`, in order, and then null. */
  ghost predicate ChainIs(sib: map<Handle, Handle>, h: Handle, s: seq<Handle>)
  {
    && (if s == [] then h == Null else h == s[0])
    && forall j :: 0 <= j < |s| ==>
         s[j] in sib && sib[s[j]] == (if j + 1 < |s| then s[j + 1] else Null)
  }

  ghost predicate NoDup(s: seq<Handle>)
  {
    forall i, j :: 0 <= i < j < |s| ==> s[i] != s[j]
  }

  /** The position of `x` in `s`. */
  function IndexOf(s: seq<Handle>, x: Handle): (i: nat)
    requires x in s
    ensures i < |s| && s[i] == x
    ensures forall j :: 0 <= j < i ==> s[j] != x
  {
    if s[0] == x then 0 else 1 + IndexOf(s[1..], x)
  }

  /** The link of the `j`-th member of a chain. */
  lemma ChainAt(sib: map<Handle, Handle>, h: Handle, s: seq<Handle>, j: nat)
    requires ChainIs(sib, h, s) && j < |s|
    ensures s[j] in sib && sib[s[j]] == (if j + 1 < |s| then s[j + 1] else Null)
  {
  }

  /** Past its head, a chain continues with the head's sibling. */
  lemma ChainTail(sib: map<Handle, Handle>, h: Handle, s: seq<Handle>)
    requires ChainIs(sib, h, s) && h != Null
    ensures s != [] && h == s[0] && h in sib && ChainIs(sib, sib[h], s[1..])
  {
    assert s != [];
    ChainAt(sib, h, s, 0);
    forall j | 0 <= j < |s[1..]|
      ensures s[1..][j] in sib && sib[s[1..][j]] == (if j + 1 < |s[1..]| then s[1..][j + 1] else Null)
    {
      ChainAt(sib, h, s, j + 1);
    }
  }

  /** A chain survives any change to the sibling map that spares its members. */
  lemma ChainFrame(sib: map<Handle, Handle>, sib': map<Handle, Handle>, h: Handle, s: seq<Handle>)
    requires ChainIs(sib, h, s)
    requires forall x :: x in s ==> x in sib' && sib'[x] == sib[x]
    ensures ChainIs(sib', h, s)
  {
    forall j | 0 <= j < |s|
      ensures s[j] in sib' && sib'[s[j]] == (if j + 1 < |s| then s[j + 1] else Null)
    {
      assert s[j] in s;
      ChainAt(sib, h, s, j);
    }
  }

  /** Pushing `n` in front of a chain. */
  lemma ChainPush(sib: map<Handle, Handle>, h: Handle, s: seq<Handle>, n: Handle)
    requires ChainIs(sib, h, s) && n !in s
    ensures ChainIs(sib[n := h], n, [n] + s)
  {
    var sib' := sib[n := h];
    var s' := [n] + s;
    forall j | 0 <= j < |s'|
      ensures s'[j] in sib' && sib'[s'[j]] == (if j + 1 < |s'| then s'[j + 1] else Null)
    {
      if j > 0 {
        ChainAt(sib, h, s, j - 1);
        assert s'[j] == s[j - 1] && s[j - 1] in s;
      } else if s != [] {
        assert s'[1] == s[0];
      }
    }
    assert ChainIs(sib', n, s');
  }

  /** Splicing out the element at `i > 0` by pointing its predecessor past it. */
  lemma ChainRemove(sib: map<Handle, Handle>, h: Handle, s: seq<Handle>, i: nat)
    requires ChainIs(sib, h, s) && NoDup(s) && 0 < i < |s|
    ensures ChainIs(sib[s[i - 1] := sib[s[i]]][s[i] := Null], h, s[..i] + s[i + 1..])
  {
    var sib' := sib[s[i - 1] := sib[s[i]]][s[i] := Null];
    var s' := s[..i] + s[i + 1..];
    assert s'[0] == s[0];
    forall j | 0 <= j < |s'|
      ensures s'[j] in sib' && sib'[s'[j]] == (if j + 1 < |s'| then s'[j + 1] else Null)
    {
      if j < i - 1 {
        ChainAt(sib, h, s, j);
        assert s'[j] == s[j] && s'[j + 1] == s[j + 1];
        assert s[j] != s[i - 1] && s[j] != s[i];
      } else if j == i - 1 {
        ChainAt(sib, h, s, i);
        assert s'[j] == s[i - 1];
        if j + 1 < |s'| { assert s'[j + 1] == s[i + 1]; }
      } else {
        ChainAt(sib, h, s, j + 1);
        assert s'[j] == s[j + 1];
        assert s[j + 1] != s[i - 1] && s[j + 1] != s[i];
        if j + 1 < |s'| { assert s'[j + 1] == s[j + 2]; }
      }
    }
    assert ChainIs(sib', h, s');
  }

  /** Removing the head: the chain now starts at the old head's sibling. */
  lemma ChainRemoveHead(sib: map<Handle, Handle>, h: Handle, s: seq<Handle>)
    requires ChainIs(sib, h, s) && NoDup(s) && 0 < |s|
    ensures ChainIs(sib[s[0] := Null], sib[s[0]], s[1..])
  {
    var sib' := sib[s[0] := Null];
    var s' := s[1..];
    ChainAt(sib, h, s, 0);
    if 1 < |s| {
      assert s'[0] == s[1];
    }
    forall j | 0 <= j < |s'|
      ensures s'[j] in sib' && sib'[s'[j]] == (if j + 1 < |s'| then s'[j + 1] else Null)
    {
      ChainAt(sib, h, s, j + 1);
      assert s'[j] == s[j + 1] && s[j + 1] != s[0];
    }
    assert ChainIs(sib', sib[s[0]], s');
  }

  /** Every link map, the name map and the children map describe the same inodes. */
  ghost predicate SameKeys(parent: map<Handle, Handle>, child: map<Handle, Handle>, sibling: map<Handle, Handle>,
                           name: map<Handle, string>, kids: map<Handle, seq<Handle>>)
  {
    && parent.Keys == child.Keys && child.Keys == sibling.Keys
    && sibling.Keys == name.Keys && name.Keys == kids.Keys
  }

  /** Handles are positive, below the allocator's next handle, and the root has no parent. */
  ghost predicate Allocated(parent: map<Handle, Handle>, next: Handle)
  {
    && Null !in parent && Root in parent && parent[Root] == Null && Root < next
    && forall n :: n in parent ==> Null < n < next
  }

  /** Every chain is the recorded children sequence, without repetitions. */
  ghost predicate Chained(child: map<Handle, Handle>, sibling: map<Handle, Handle>, kids: map<Handle, seq<Handle>>)
  {
    forall n :: n in kids ==> n in child && ChainIs(sibling, child[n], kids[n]) && NoDup(kids[n])
  }

  /** Every child points back to the inode whose chain holds it. */
  ghost predicate ChildrenKnowParent(parent: map<Handle, Handle>, kids: map<Handle, seq<Handle>>)
  {
    forall n, c :: n in kids && c in kids[n] ==> c in parent && parent[c] == n
  }

  /** Every inode with a parent is in that parent's chain. */
  ghost predicate ParentsKnowChild(parent: map<Handle, Handle>, kids: map<Handle, seq<Handle>>)
  {
    forall n :: n in parent && parent[n] != Null ==> parent[n] in kids && n in kids[parent[n]]
  }

  /** An inode outside the tree has no sibling. */
  ghost predicate OrphansAlone(parent: map<Handle, Handle>, sibling: map<Handle, Handle>)
  {
    forall n :: n in parent && parent[n] == Null ==> n in sibling && sibling[n] == Null
  }

  /** No name holds a '/'. */
  ghost predicate PlainNames(name: map<Handle, string>)
  {
    forall n :: n in name ==> '/' !in name[n]
  }

  ghost predicate TreeOk(parent: map<Handle, Handle>, child: map<Handle, Handle>, sibling: map<Handle, Handle>,
                         name: map<Handle, string>, kids: map<Handle, seq<Handle>>, next: Handle)
  {
    && SameKeys(parent, child, sibling, name, kids)
    && Allocated(parent, next)
    && Chained(child, sibling, kids)
    && ChildrenKnowParent(parent, kids)
    && ParentsKnowChild(parent, kids)
    && OrphansAlone(parent, sibling)
    && PlainNames(name)
  }

  /** A handle at or past the allocator's next one is in no chain. */
  lemma FreshInNoChain(parent: map<Handle, Handle>, kids: map<Handle, seq<Handle>>, next: Handle)
    requires ChildrenKnowParent(parent, kids) && Allocated(parent, next)
    ensures forall m :: m in kids ==> next !in kids[m]
  {
    forall m | m in kids
      ensures next !in kids[m]
    {
      assert next !in parent;
    }
  }

  lemma AddChained(child: map<Handle, Handle>, sibling: map<Handle, Handle>, kids: map<Handle, seq<Handle>>, next: Handle)
    requires Chained(child, sibling, kids)
    requires forall m :: m in kids ==> next !in kids[m]
    ensures Chained(child[next := Null], sibling[next := Null], kids[next := []])
  {
    var child', sibling', kids' := child[next := Null], sibling[next := Null], kids[next := []];
    forall n | n in kids'
      ensures n in child' && ChainIs(sibling', child'[n], kids'[n]) && NoDup(kids'[n])
    {
      if n != next {
        ChainFrame(sibling, sibling', child[n], kids[n]);
      }
    }
  }

  /** create_inode: a fresh handle with no links keeps the shape. */
  lemma TreeAdd(parent: map<Handle, Handle>, child: map<Handle, Handle>, sibling: map<Handle, Handle>,
                name: map<Handle, string>, kids: map<Handle, seq<Handle>>, next: Handle, nm: string)
    requires TreeOk(parent, child, sibling, name, kids, next) && '/' !in nm
    ensures TreeOk(parent[next := Null], child[next := Null], sibling[next := Null],
                   name[next := nm], kids[next := []], next + 1)
  {
    var parent', kids' := parent[next := Null], kids[next := []];
    FreshInNoChain(parent, kids, next);
    AddChained(child, sibling, kids, next);
    assert ChildrenKnowParent(parent', kids') by {
      forall m, c | m in kids' && c in kids'[m]
        ensures c in parent' && parent'[c] == m
      {
        assert m != next && c in kids[m] && c != next;
      }
    }
  }

  /** A node without a parent is in no chain. */
  lemma OrphanInNoChain(parent: map<Handle, Handle>, kids: map<Handle, seq<Handle>>, n: Handle)
    requires ChildrenKnowParent(parent, kids) && Null !in kids
    requires n in parent && parent[n] == Null
    ensures forall m :: m in kids ==> n !in kids[m]
  {
    forall m | m in kids
      ensures n !in kids[m]
    {
      assert parent[n] == Null && m != Null;
    }
  }

  /** Pushing `n`, which is in no chain, at the head of `p`'s chain keeps every chain linked. */
  lemma LinkChained(child: map<Handle, Handle>, sibling: map<Handle, Handle>, kids: map<Handle, seq<Handle>>, n: Handle, p: Handle)
    requires Chained(child, sibling, kids) && p in kids
    requires forall m :: m in kids ==> n !in kids[m]
    ensures Chained(child[p := n], sibling[n := child[p]], kids[p := [n] + kids[p]])
  {
    var child', sibling', kids' := child[p := n], sibling[n := child[p]], kids[p := [n] + kids[p]];
    forall m | m in kids'
      ensures m in child' && ChainIs(sibling', child'[m], kids'[m]) && NoDup(kids'[m])
    {
      if m != p {
        ChainFrame(sibling, sibling', child[m], kids[m]);
      } else {
        ChainPush(sibling, child[p], kids[p], n);
        forall a, b | 0 <= a < b < |kids'[p]| ensures kids'[p][a] != kids'[p][b] {
          assert kids'[p][b] == kids[p][b - 1];
          if a > 0 { assert kids'[p][a] == kids[p][a - 1]; } else { assert kids[p][b - 1] in kids[p]; }
        }
      }
    }
  }

  lemma LinkChildrenKnowParent(parent: map<Handle, Handle>, kids: map<Handle, seq<Handle>>, n: Handle, p: Handle)
    requires ChildrenKnowParent(parent, kids) && p in kids
    requires forall m :: m in kids ==> n !in kids[m]
    ensures ChildrenKnowParent(parent[n := p], kids[p := [n] + kids[p]])
  {
    var parent', kids' := parent[n := p], kids[p := [n] + kids[p]];
    forall m, c | m in kids' && c in kids'[m]
      ensures c in parent' && parent'[c] == m
    {
      if !(m == p && c == n) {
        assert c in kids[m];
      }
    }
  }

  /** link_inode: pushing an unlinked `n` at the head of `p`'s chain keeps the shape. */
  lemma TreeLink(parent: map<Handle, Handle>, child: map<Handle, Handle>, sibling: map<Handle, Handle>,
                 name: map<Handle, string>, kids: map<Handle, seq<Handle>>, next: Handle, n: Handle, p: Handle)
    requires TreeOk(parent, child, sibling, name, kids, next)
    requires n in parent && p in parent && n != Root && parent[n] == Null
    ensures TreeOk(parent[n := p], child[p := n], sibling[n := child[p]], name, kids[p := [n] + kids[p]], next)
  {
    OrphanInNoChain(parent, kids, n);
    LinkChained(child, sibling, kids, n, p);
    LinkChildrenKnowParent(parent, kids, n, p);
    var parent', kids' := parent[n := p], kids[p := [n] + kids[p]];
    assert ParentsKnowChild(parent', kids') by {
      forall x | x in parent' && parent'[x] != Null
        ensures parent'[x] in kids' && x in kids'[parent'[x]]
      {
        if x != n && parent[x] == p { assert x in kids[p]; }
      }
    }
  }

  lemma UnlinkHeadChained(child: map<Handle, Handle>, sibling: map<Handle, Handle>, kids: map<Handle, seq<Handle>>, n: Handle, p: Handle)
    requires Chained(child, sibling, kids) && p in kids && kids[p] != [] && kids[p][0] == n
    requires forall m :: m in kids && m != p ==> n !in kids[m]
    ensures Chained(child[p := sibling[n]], sibling[n := Null], kids[p := kids[p][1..]])
  {
    var child', sibling', kids' := child[p := sibling[n]], sibling[n := Null], kids[p := kids[p][1..]];
    ChainRemoveHead(sibling, child[p], kids[p]);
    forall m | m in kids'
      ensures m in child' && ChainIs(sibling', child'[m], kids'[m]) && NoDup(kids'[m])
    {
      if m != p {
        ChainFrame(sibling, sibling', child[m], kids[m]);
      }
    }
  }

  /** A node is in no chain other than its parent's. */
  lemma OnlyParentChain(parent: map<Handle, Handle>, kids: map<Handle, seq<Handle>>, n: Handle)
    requires ChildrenKnowParent(parent, kids) && n in parent
    ensures forall m :: m in kids && m != parent[n] ==> n !in kids[m]
  {
    forall m | m in kids && m != parent[n]
      ensures n !in kids[m]
    {
    }
  }

  /** Dropping `n` from `p`'s chain and clearing its parent keeps the back links both ways. */
  lemma UnlinkBackLinks(parent: map<Handle, Handle>, kids: map<Handle, seq<Handle>>, n: Handle, p: Handle, i: nat, rest: seq<Handle>)
    requires ChildrenKnowParent(parent, kids) && ParentsKnowChild(parent, kids)
    requires n in parent && parent[n] == p && p != Null && NoDup(kids[p])
    requires i < |kids[p]| && kids[p][i] == n && rest == kids[p][..i] + kids[p][i + 1..]
    ensures ChildrenKnowParent(parent[n := Null], kids[p := rest])
    ensures ParentsKnowChild(parent[n := Null], kids[p := rest])
  {
    var s := kids[p];
    var parent', kids' := parent[n := Null], kids[p := rest];
    forall m, c | m in kids' && c in kids'[m]
      ensures c in parent' && parent'[c] == m
    {
      if m == p {
        var k :| 0 <= k < |kids'[p]| && kids'[p][k] == c;
        if k < i { assert c == s[k]; } else { assert c == s[k + 1]; }
        assert c != n;
      }
      assert c in kids[m];
    }
    forall x | x in parent' && parent'[x] != Null
      ensures parent'[x] in kids' && x in kids'[parent'[x]]
    {
      if parent[x] == p {
        var k :| 0 <= k < |s| && s[k] == x;
        assert k != i;
        if k < i { assert kids'[p][k] == x; } else { assert kids'[p][k - 1] == x; }
      }
    }
  }

  /** unlink_inode when `n` is its parent's first child. */
  lemma TreeUnlinkHead(parent: map<Handle, Handle>, child: map<Handle, Handle>, sibling: map<Handle, Handle>,
                       name: map<Handle, string>, kids: map<Handle, seq<Handle>>, next: Handle, n: Handle)
    requires TreeOk(parent, child, sibling, name, kids, next)
    requires n in parent && parent[n] != Null && child[parent[n]] == n
    ensures var p := parent[n];
      && kids[p] != [] && kids[p][0] == n && IndexOf(kids[p], n) == 0
      && TreeOk(parent[n := Null], child[p := sibling[n]], sibling[n := Null], name, kids[p := kids[p][1..]], next)
  {
    var p := parent[n];
    var s := kids[p];
    assert n in s;
    OnlyParentChain(parent, kids, n);
    UnlinkHeadChained(child, sibling, kids, n, p);
    assert s[..0] + s[1..] == s[1..];
    UnlinkBackLinks(parent, kids, n, p, 0, s[1..]);
    UnlinkPlain(parent, child, sibling, name, kids, next, n, p, sibling[n], Null, s[1..]);
  }

  /** The conjuncts of the shape that unlinking keeps without looking at chains: `n` loses
      its parent and sibling, `p` gets a new first child `c`, and at most one other
      in-tree node `q` gets a new sibling. */
  lemma UnlinkPlain(parent: map<Handle, Handle>, child: map<Handle, Handle>, sibling: map<Handle, Handle>,
                    name: map<Handle, string>, kids: map<Handle, seq<Handle>>, next: Handle,
                    n: Handle, p: Handle, c: Handle, q: Handle, s: seq<Handle>)
    requires SameKeys(parent, child, sibling, name, kids) && Allocated(parent, next) && OrphansAlone(parent, sibling)
    requires n in parent && p in parent && n != Root
    requires q == Null || (q in parent && parent[q] != Null && q != n)
    ensures var sibling' := if q == Null then sibling[n := Null] else sibling[q := sibling[n]][n := Null];
      var child' := if q == Null then child[p := c] else child;
      && SameKeys(parent[n := Null], child', sibling', name, kids[p := s])
      && Allocated(parent[n := Null], next)
      && OrphansAlone(parent[n := Null], sibling')
  {
  }

  lemma UnlinkInnerChained(child: map<Handle, Handle>, sibling: map<Handle, Handle>, kids: map<Handle, seq<Handle>>,
                            p: Handle, i: nat, n: Handle, pred: Handle, rest: seq<Handle>)
    requires Chained(child, sibling, kids) && p in kids && 0 < i < |kids[p]|
    requires kids[p][i] == n && kids[p][i - 1] == pred && rest == kids[p][..i] + kids[p][i + 1..]
    requires forall m :: m in kids && m != p ==> n !in kids[m] && pred !in kids[m]
    ensures Chained(child, sibling[pred := sibling[n]][n := Null], kids[p := rest])
  {
    var s := kids[p];
    var sibling', kids' := sibling[pred := sibling[n]][n := Null], kids[p := rest];
    ChainRemove(sibling, child[p], s, i);
    forall m | m in kids'
      ensures m in child && ChainIs(sibling', child[m], kids'[m]) && NoDup(kids'[m])
    {
      if m != p {
        ChainFrame(sibling, sibling', child[m], kids[m]);
      } else {
        forall a, b | 0 <= a < b < |kids'[m]| ensures kids'[m][a] != kids'[m][b] {
          var a' := if a < i then a else a + 1;
          var b' := if b < i then b else b + 1;
          assert kids'[m][a] == s[a'] && kids'[m][b] == s[b'];
        }
      }
    }
  }

  /** unlink_inode when `n` has a predecessor in its parent's chain. */
  lemma TreeUnlinkInner(parent: map<Handle, Handle>, child: map<Handle, Handle>, sibling: map<Handle, Handle>,
                        name: map<Handle, string>, kids: map<Handle, seq<Handle>>, next: Handle, n: Handle)
    requires TreeOk(parent, child, sibling, name, kids, next)
    requires n in parent && parent[n] != Null && child[parent[n]] != n
    ensures var p := parent[n];
      var s := kids[p];
      var i := IndexOf(s, n);
      && i > 0
      && TreeOk(parent[n := Null], child, sibling[s[i - 1] := sibling[n]][n := Null], name, kids[p := s[..i] + s[i + 1..]], next)
  {
    var p := parent[n];
    var s := kids[p];
    var i := IndexOf(s, n);
    assert i > 0;
    OnlyParentChain(parent, kids, n);
    var pred := s[i - 1];
    assert pred in s;
    OnlyParentChain(parent, kids, pred);
    UnlinkInnerChained(child, sibling, kids, p, i, n, pred, s[..i] + s[i + 1..]);
    UnlinkBackLinks(parent, kids, n, p, i, s[..i] + s[i + 1..]);
    assert pred != n && parent[pred] == p;
    UnlinkPlain(parent, child, sibling, name, kids, next, n, p, Null, pred, s[..i] + s[i + 1..]);
  }
}
