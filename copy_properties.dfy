/** What a successful copyFiles achieves: the source is emptied of files, and every file
    of the source is found, unchanged, at the corresponding place under the target. */
module CopyProperties {
  import opened Paths
  import opened FileTree
  import opened Platform
  import opened ReturnCodes
  import opened CopyOps

  /** Every File.mkdirs in the log created its directory. */
  predicate AllMkdirsSucceeded(calls: seq<Syscall>)
  {
    forall i | 0 <= i < |calls| :: calls[i].MkdirsCall? ==> calls[i].created
  }

  /** A log splits into its two parts. */
  lemma MkdirsSplit(a: seq<Syscall>, b: seq<Syscall>)
    requires AllMkdirsSucceeded(a + b)
    ensures AllMkdirsSucceeded(a) && AllMkdirsSucceeded(b)
  {
    forall i | 0 <= i < |a| ensures a[i] == (a + b)[i] { }
    forall i | 0 <= i < |b| ensures b[i] == (a + b)[|a| + i] { }
  }

  /** Only directories remain at or below src. */
  ghost predicate NoFilesBelow(m: Tree, src: Path)
  {
    forall q | q in m && src <= q :: m[q].Dir?
  }

  /** A subtree disjoint from tgt is disjoint from every child of tgt. */
  lemma DisjointFromChild(src: Path, tgt: Path, k: Name)
    requires Disjoint(src, tgt)
    ensures Disjoint(src, tgt + [k])
  {
    if src <= tgt + [k] {
      PrefixOfChild(src, tgt, k);
    }
    assert tgt <= tgt + [k];
  }

  /** A copy that ends normally after creating every directory it needed leaves no file
      at or below the source, unless a file is copied onto itself. */
  lemma {:induction false} CopyFilesEmptiesSource(m: Tree, env: Oracle, src: Path, dest: Path, contentsOnly: bool)
    requires WellFormed(m) && CopyAllowed(m, src, dest, contentsOnly)
    requires IsFile(m, src) ==> src != dest
    ensures var r := CopyFiles(m, env, src, dest, contentsOnly);
      r.out.Normal? && AllMkdirsSucceeded(r.calls) ==> NoFilesBelow(r.fs, src)
    decreases Under(m, src), 2
  {
    if src !in m {
      NothingBelowAbsent(m, src);
    } else {
      if m[src].File? {
        FileCopyEmptiesSource(m, env, src, dest);
      } else {
        DirectoryCopyEmptiesSource(m, env, src, dest, contentsOnly);
      }
    }
  }

  /** The file case: a successful rename or move takes the file away, and nothing else
      lies below a file. */
  lemma FileCopyEmptiesSource(m: Tree, env: Oracle, src: Path, dest: Path)
    requires WellFormed(m) && IsFile(m, src) && src != dest
    ensures var r := CopyFile(m, env, src, dest);
      r.out.Normal? ==> NoFilesBelow(r.fs, src)
  {
    var r := CopyFile(m, env, src, dest);
    if r.out.Normal? {
      NothingBelowLeaf(m, src);
      assert dest == Parent(dest) + [Last(dest)];
      PrefixOfChild(src, Parent(dest), Last(dest));
      assert NoFilesBelow(r.fs, src);
    }
  }

  lemma {:induction false} DirectoryCopyEmptiesSource(m: Tree, env: Oracle, src: Path, dest: Path, contentsOnly: bool)
    requires WellFormed(m) && IsDir(m, src) && Disjoint(src, CopyTarget(src, dest, contentsOnly))
    ensures var r := CopyDirectory(m, env, src, dest, contentsOnly);
      r.out.Normal? && AllMkdirsSucceeded(r.calls) ==> NoFilesBelow(r.fs, src)
    decreases Under(m, src), 1
  {
    var tgt := CopyTarget(src, dest, contentsOnly);
    var mk := if tgt in m then Run(Normal(true), m, []) else Mkdirs(m, env, tgt);
    var r := CopyDirectory(m, env, src, dest, contentsOnly);
    if mk.out.value {
      NoAdditionsUnder(m, mk.fs, src, tgt);
      assert Under(mk.fs, src) == Under(m, src);
      var kids := mk.fs[src].children;
      var cc := CopyChildren(mk.fs, env, src, tgt, kids);
      assert r.fs == cc.fs && r.calls == mk.calls + cc.calls && r.out.Normal? == cc.out.Normal?;
      if r.out.Normal? && AllMkdirsSucceeded(r.calls) {
        MkdirsSplit(mk.calls, cc.calls);
        ChildrenCopyEmptiesSource(mk.fs, env, src, tgt, kids);
        ChildrenCoverSubtree(mk.fs, cc.fs, src, tgt);
      }
    } else {
      assert r.calls == [MkdirsCall(tgt, false)];
      assert !AllMkdirsSucceeded(r.calls) by {
        assert r.calls[0].MkdirsCall? && !r.calls[0].created;
      }
    }
  }

  /** Every entry strictly below a directory lies below one of its listed children, and a
      copy towards a disjoint target adds nothing there. */
  lemma ChildrenCoverSubtree(m: Tree, m': Tree, src: Path, tgt: Path)
    requires WellFormed(m) && IsDir(m, src) && IsDir(m', src) && Disjoint(src, tgt)
    requires NoFilesBelowChildren(m', src, m[src].children)
    requires AddsOnlyAround(m, m', tgt)
    ensures NoFilesBelow(m', src)
  {
    NoAdditionsUnder(m, m', src, tgt);
    forall q | q in m' && src <= q && q != src
      ensures m'[q].Dir?
    {
      AncestorOf(m, src, q);
      assert src + [q[|src|]] <= q by {
        assert q[..|src| + 1] == src + [q[|src|]];
      }
    }
  }

  /** Only directories remain below the listed children of src. */
  ghost predicate NoFilesBelowChildren(m: Tree, src: Path, kids: seq<Name>)
  {
    forall k, q | k in kids && q in m && src + [k] <= q :: m[q].Dir?
  }

  lemma {:induction false} ChildrenCopyEmptiesSource(m: Tree, env: Oracle, src: Path, tgt: Path, kids: seq<Name>)
    requires WellFormed(m) && IsDir(m, src) && Disjoint(src, tgt)
    ensures var r := CopyChildren(m, env, src, tgt, kids);
      r.out.Normal? && AllMkdirsSucceeded(r.calls) ==> NoFilesBelowChildren(r.fs, src, kids)
    decreases Under(m, src), 0, |kids|
  {
    if kids != [] {
      var n := |kids| - 1;
      var prev := CopyChildren(m, env, src, tgt, kids[..n]);
      var r := CopyChildren(m, env, src, tgt, kids);
      if prev.out.Normal? && r.out.Normal? && AllMkdirsSucceeded(r.calls) {
        var k := kids[n];
        CopyChildrenStep(m, env, src, tgt, kids, n, []);
        assert kids[..n + 1] == kids;
        ChildShrinks(m, prev.fs, src, tgt, k);
        var c := CopyFiles(prev.fs, env, src + [k], tgt + [k], true);
        assert r.calls == prev.calls + c.calls by {
          assert [] + r.calls == r.calls && [] + prev.calls == prev.calls;
        }
        assert Target(prev.fs, src + [k], tgt + [k], true) == tgt + [k];
        MkdirsSplit(prev.calls, c.calls);
        ChildrenCopyEmptiesSource(m, env, src, tgt, kids[..n]);
        CopyFilesEmptiesSource(prev.fs, env, src + [k], tgt + [k], true);
        OneMoreChildEmptied(prev.fs, c.fs, src, tgt, kids);
      }
    }
  }

  /** The tree step of the fold: the last child's copy empties its own subtree and, being
      disjoint from the others, keeps theirs empty. */
  lemma OneMoreChildEmptied(m: Tree, m': Tree, src: Path, tgt: Path, kids: seq<Name>)
    requires kids != [] && Disjoint(src, tgt)
    requires NoFilesBelowChildren(m, src, kids[..|kids| - 1])
    requires NoFilesBelow(m', src + [kids[|kids| - 1]])
    requires CopyFrame(m, m', src + [kids[|kids| - 1]], tgt + [kids[|kids| - 1]])
    ensures NoFilesBelowChildren(m', src, kids)
  {
    var n := |kids| - 1;
    var k := kids[n];
    DisjointFromChild(src, tgt, k);
    NoAdditionsUnder(m, m', src, tgt + [k]);
    forall k', q | k' in kids && q in m' && src + [k'] <= q
      ensures m'[q].Dir?
    {
      assert src <= src + [k'];
      if k' != k {
        assert k' in kids[..n];
      }
    }
  }

  // ---------------------------------------------------------------------
  // Every file of the source arrives under the target

  /** Every file at src + s in m is found, unchanged, at tgt + s in m'. */
  ghost predicate Mirrored(m: Tree, m': Tree, src: Path, tgt: Path)
  {
    forall s | IsFile(m, src + s) :: tgt + s in m' && m'[tgt + s] == m[src + s]
  }

  /** The same, for the subtrees of the listed children. */
  ghost predicate MirroredChildren(m: Tree, m': Tree, src: Path, tgt: Path, kids: seq<Name>)
  {
    forall k, s | k in kids && IsFile(m, src + [k] + s) ::
      tgt + [k] + s in m' && m'[tgt + [k] + s] == m[src + [k] + s]
  }

  /** Every entry that disappears lies below one of the listed children. */
  ghost predicate RemovesOnlyBelowChildren(m: Tree, m': Tree, src: Path, kids: seq<Name>)
  {
    forall q | q in m && q !in m' :: src < q && q[|src|] in kids
  }

  /** A copy that ends normally after creating every directory it needed puts every file
      of the source, unchanged, at the corresponding path under its target. */
  lemma {:induction false} CopyFilesMirrors(m: Tree, env: Oracle, src: Path, dest: Path, contentsOnly: bool)
    requires WellFormed(m) && CopyAllowed(m, src, dest, contentsOnly)
    ensures var r := CopyFiles(m, env, src, dest, contentsOnly);
      r.out.Normal? && AllMkdirsSucceeded(r.calls) ==>
        && Mirrored(m, r.fs, src, Target(m, src, dest, contentsOnly))
        && DirsMirrored(m, r.fs, src, Target(m, src, dest, contentsOnly))
    decreases Under(m, src), 2
  {
    CopyFilesRecreatesDirs(m, env, src, dest, contentsOnly);
    if src !in m {
      forall s ensures src + s !in m {
        NothingBelowAbsent(m, src);
        assert src <= src + s;
      }
    } else if m[src].File? {
      var r := CopyFile(m, env, src, dest);
      if r.out.Normal? {
        NothingBelowLeaf(m, src);
        forall s | IsFile(m, src + s)
          ensures s == []
        {
          assert src + s in Under(m, src);
        }
        assert src + [] == src && dest + [] == dest;
      }
    } else {
      DirectoryCopyMirrors(m, env, src, dest, contentsOnly);
    }
  }

  lemma {:induction false} DirectoryCopyMirrors(m: Tree, env: Oracle, src: Path, dest: Path, contentsOnly: bool)
    requires WellFormed(m) && IsDir(m, src) && Disjoint(src, CopyTarget(src, dest, contentsOnly))
    ensures var r := CopyDirectory(m, env, src, dest, contentsOnly);
      r.out.Normal? && AllMkdirsSucceeded(r.calls) ==> Mirrored(m, r.fs, src, CopyTarget(src, dest, contentsOnly))
    decreases Under(m, src), 1
  {
    var tgt := CopyTarget(src, dest, contentsOnly);
    var mk := if tgt in m then Run(Normal(true), m, []) else Mkdirs(m, env, tgt);
    var r := CopyDirectory(m, env, src, dest, contentsOnly);
    if mk.out.value {
      NoAdditionsUnder(m, mk.fs, src, tgt);
      assert Under(mk.fs, src) == Under(m, src);
      var kids := mk.fs[src].children;
      var cc := CopyChildren(mk.fs, env, src, tgt, kids);
      assert r.fs == cc.fs && r.calls == mk.calls + cc.calls && r.out.Normal? == cc.out.Normal?;
      if r.out.Normal? && AllMkdirsSucceeded(r.calls) {
        MkdirsSplit(mk.calls, cc.calls);
        assert ChildrenExist(mk.fs, src);
        ChildrenCopyMirrors(mk.fs, env, src, tgt, kids);
        ChildrenCoverFiles(m, mk.fs, cc.fs, src, tgt);
      }
    } else {
      assert r.calls == [MkdirsCall(tgt, false)];
      assert !AllMkdirsSucceeded(r.calls) by {
        assert r.calls[0].MkdirsCall? && !r.calls[0].created;
      }
    }
  }

  /** Every file strictly below a directory lies below one of its listed children. */
  lemma ChildrenCoverFiles(m: Tree, m1: Tree, m2: Tree, src: Path, tgt: Path)
    requires WellFormed(m1) && IsDir(m, src) && m.Keys <= m1.Keys && KindsKept(m, m1)
    requires MirroredChildren(m1, m2, src, tgt, m1[src].children)
    ensures Mirrored(m, m2, src, tgt)
  {
    forall s | IsFile(m, src + s)
      ensures tgt + s in m2 && m2[tgt + s] == m[src + s]
    {
      var q := src + s;
      assert src + [] == src;
      AncestorOf(m1, src, q);
      assert q[|src|] == s[0];
      assert q == src + [s[0]] + s[1..] && tgt + s == tgt + [s[0]] + s[1..];
    }
  }

  lemma {:induction false} ChildrenCopyMirrors(m: Tree, env: Oracle, src: Path, tgt: Path, kids: seq<Name>)
    requires WellFormed(m) && IsDir(m, src) && Disjoint(src, tgt) && NoDup(kids)
    ensures var r := CopyChildren(m, env, src, tgt, kids);
      && RemovesOnlyBelowChildren(m, r.fs, src, kids)
      && (r.out.Normal? && AllMkdirsSucceeded(r.calls) ==> MirroredChildren(m, r.fs, src, tgt, kids))
    decreases Under(m, src), 0, |kids|
  {
    if kids != [] {
      var n := |kids| - 1;
      var prev := CopyChildren(m, env, src, tgt, kids[..n]);
      var r := CopyChildren(m, env, src, tgt, kids);
      assert NoDup(kids[..n]);
      ChildrenCopyMirrors(m, env, src, tgt, kids[..n]);
      if prev.out.Thrown? {
        WidenRemoved(m, r.fs, src, kids);
      } else {
        var k := kids[n];
        CopyChildrenStep(m, env, src, tgt, kids, n, []);
        assert kids[..n + 1] == kids;
        ChildShrinks(m, prev.fs, src, tgt, k);
        var c := CopyFiles(prev.fs, env, src + [k], tgt + [k], true);
        assert r.calls == prev.calls + c.calls by {
          assert [] + r.calls == r.calls && [] + prev.calls == prev.calls;
        }
        assert Target(prev.fs, src + [k], tgt + [k], true) == tgt + [k];
        OneMoreChildRemoves(m, prev.fs, c.fs, src, kids);
        if r.out.Normal? && AllMkdirsSucceeded(r.calls) {
          MkdirsSplit(prev.calls, c.calls);
          CopyFilesMirrors(prev.fs, env, src + [k], tgt + [k], true);
          OneMoreChildMirrored(m, prev.fs, c.fs, src, tgt, kids);
        }
      }
    }
  }

  /** Removals below the first children are removals below all of them. */
  lemma WidenRemoved(m: Tree, m': Tree, src: Path, kids: seq<Name>)
    requires kids != [] && RemovesOnlyBelowChildren(m, m', src, kids[..|kids| - 1])
    ensures RemovesOnlyBelowChildren(m, m', src, kids)
  {
    assert forall j | j in kids[..|kids| - 1] :: j in kids;
  }

  /** The frame step of the fold: the last child's copy removes only files below it. */
  lemma OneMoreChildRemoves(m: Tree, m1: Tree, m2: Tree, src: Path, kids: seq<Name>)
    requires kids != []
    requires RemovesOnlyBelowChildren(m, m1, src, kids[..|kids| - 1])
    requires RemovesOnlyFilesBelow(m1, m2, src + [kids[|kids| - 1]])
    ensures RemovesOnlyBelowChildren(m, m2, src, kids)
  {
    var n := |kids| - 1;
    assert forall j | j in kids[..n] :: j in kids;
    forall q | q in m && q !in m2
      ensures src < q && q[|src|] in kids
    {
      if q in m1 {
        assert (src + [kids[n]])[|src|] == kids[n];
        assert q[..|src| + 1] == src + [kids[n]];
        assert src <= src + [kids[n]];
      }
    }
  }

  /** The mirror step of the fold: the last child's files arrive, and the files already
      mirrored stay, the copies being towards disjoint places. */
  lemma OneMoreChildMirrored(m: Tree, m1: Tree, m2: Tree, src: Path, tgt: Path, kids: seq<Name>)
    requires kids != [] && NoDup(kids) && Disjoint(src, tgt)
    requires RemovesOnlyBelowChildren(m, m1, src, kids[..|kids| - 1]) && KindsKept(m, m1)
    requires MirroredChildren(m, m1, src, tgt, kids[..|kids| - 1])
    requires Mirrored(m1, m2, src + [kids[|kids| - 1]], tgt + [kids[|kids| - 1]])
    requires CopyFrame(m1, m2, src + [kids[|kids| - 1]], tgt + [kids[|kids| - 1]])
    ensures MirroredChildren(m, m2, src, tgt, kids)
  {
    var n := |kids| - 1;
    var k := kids[n];
    forall k', s | k' in kids && IsFile(m, src + [k'] + s)
      ensures tgt + [k'] + s in m2 && m2[tgt + [k'] + s] == m[src + [k'] + s]
    {
      var q := src + [k'] + s;
      assert src <= src + [k'] <= q;
      if k' == k {
        assert k !in kids[..n] by {
          forall j | 0 <= j < n ensures kids[..n][j] != k {
            assert kids[..n][j] == kids[j];
          }
        }
        assert q[|src|] == k;
        assert q in m1;
        assert src + [k] + s == (src + [k]) + s;
      } else {
        assert k' in kids[..n];
        var t := tgt + [k'] + s;
        assert tgt <= t;
      }
    }
  }

  // ---------------------------------------------------------------------
  // Every directory of the source is recreated under the target

  /** Every directory at src + s in m has an entry at tgt + s in m'. */
  ghost predicate DirsMirrored(m: Tree, m': Tree, src: Path, tgt: Path)
  {
    forall s | IsDir(m, src + s) :: tgt + s in m'
  }

  /** The same, for the subtrees of the listed children. */
  ghost predicate DirsMirroredChildren(m: Tree, m': Tree, src: Path, tgt: Path, kids: seq<Name>)
  {
    forall k, s | k in kids && IsDir(m, src + [k] + s) :: tgt + [k] + s in m'
  }

  /** A copy that ends normally after creating every directory it needed leaves an entry
      under its target for every directory of the source, empty ones included. */
  lemma {:induction false} CopyFilesRecreatesDirs(m: Tree, env: Oracle, src: Path, dest: Path, contentsOnly: bool)
    requires WellFormed(m) && CopyAllowed(m, src, dest, contentsOnly)
    ensures var r := CopyFiles(m, env, src, dest, contentsOnly);
      r.out.Normal? && AllMkdirsSucceeded(r.calls) ==> DirsMirrored(m, r.fs, src, Target(m, src, dest, contentsOnly))
    decreases Under(m, src), 2
  {
    if src !in m {
      forall s ensures src + s !in m {
        NothingBelowAbsent(m, src);
        assert src <= src + s;
      }
    } else if m[src].File? {
      NothingBelowLeaf(m, src);
      forall s ensures !IsDir(m, src + s) {
        if src + s in m {
          assert src + s in Under(m, src);
        }
      }
    } else {
      DirectoryCopyRecreatesDirs(m, env, src, dest, contentsOnly);
    }
  }

  lemma {:induction false} DirectoryCopyRecreatesDirs(m: Tree, env: Oracle, src: Path, dest: Path, contentsOnly: bool)
    requires WellFormed(m) && IsDir(m, src) && Disjoint(src, CopyTarget(src, dest, contentsOnly))
    ensures var r := CopyDirectory(m, env, src, dest, contentsOnly);
      r.out.Normal? && AllMkdirsSucceeded(r.calls) ==> DirsMirrored(m, r.fs, src, CopyTarget(src, dest, contentsOnly))
    decreases Under(m, src), 1
  {
    var tgt := CopyTarget(src, dest, contentsOnly);
    var mk := if tgt in m then Run(Normal(true), m, []) else Mkdirs(m, env, tgt);
    var r := CopyDirectory(m, env, src, dest, contentsOnly);
    if mk.out.value {
      NoAdditionsUnder(m, mk.fs, src, tgt);
      assert Under(mk.fs, src) == Under(m, src);
      var kids := mk.fs[src].children;
      var cc := CopyChildren(mk.fs, env, src, tgt, kids);
      assert r.fs == cc.fs && r.calls == mk.calls + cc.calls && r.out.Normal? == cc.out.Normal?;
      if r.out.Normal? && AllMkdirsSucceeded(r.calls) {
        MkdirsSplit(mk.calls, cc.calls);
        ChildrenCopyRecreatesDirs(mk.fs, env, src, tgt, kids);
        assert tgt in cc.fs;
        ChildrenCoverDirs(m, mk.fs, cc.fs, src, tgt);
      }
    } else {
      assert r.calls == [MkdirsCall(tgt, false)];
      assert !AllMkdirsSucceeded(r.calls) by {
        assert r.calls[0].MkdirsCall? && !r.calls[0].created;
      }
    }
  }

  /** The target itself, and every directory strictly below the source, which lies below
      one of its listed children. */
  lemma ChildrenCoverDirs(m: Tree, m1: Tree, m2: Tree, src: Path, tgt: Path)
    requires WellFormed(m1) && IsDir(m, src) && m.Keys <= m1.Keys && KindsKept(m, m1)
    requires DirsMirroredChildren(m1, m2, src, tgt, m1[src].children) && tgt in m2
    ensures DirsMirrored(m, m2, src, tgt)
  {
    forall s | IsDir(m, src + s)
      ensures tgt + s in m2
    {
      if s == [] {
        assert tgt + s == tgt;
      } else {
        var q := src + s;
        AncestorOf(m1, src, q);
        assert q[|src|] == s[0];
        assert q == src + [s[0]] + s[1..] && tgt + s == tgt + [s[0]] + s[1..];
      }
    }
  }

  lemma {:induction false} ChildrenCopyRecreatesDirs(m: Tree, env: Oracle, src: Path, tgt: Path, kids: seq<Name>)
    requires WellFormed(m) && IsDir(m, src) && Disjoint(src, tgt)
    ensures var r := CopyChildren(m, env, src, tgt, kids);
      r.out.Normal? && AllMkdirsSucceeded(r.calls) ==> DirsMirroredChildren(m, r.fs, src, tgt, kids)
    decreases Under(m, src), 0, |kids|
  {
    if kids != [] {
      var n := |kids| - 1;
      var prev := CopyChildren(m, env, src, tgt, kids[..n]);
      var r := CopyChildren(m, env, src, tgt, kids);
      if prev.out.Normal? {
        var k := kids[n];
        CopyChildrenStep(m, env, src, tgt, kids, n, []);
        assert kids[..n + 1] == kids;
        ChildShrinks(m, prev.fs, src, tgt, k);
        var c := CopyFiles(prev.fs, env, src + [k], tgt + [k], true);
        assert r.calls == prev.calls + c.calls by {
          assert [] + r.calls == r.calls && [] + prev.calls == prev.calls;
        }
        if r.out.Normal? && AllMkdirsSucceeded(r.calls) {
          MkdirsSplit(prev.calls, c.calls);
          ChildrenCopyRecreatesDirs(m, env, src, tgt, kids[..n]);
          CopyFilesRecreatesDirs(prev.fs, env, src + [k], tgt + [k], true);
          assert Target(prev.fs, src + [k], tgt + [k], true) == tgt + [k];
          OneMoreChildDirs(m, prev.fs, c.fs, src, tgt, kids);
        }
      }
    }
  }

  /** The directory step of the fold: the last child's directories arrive, and the ones
      already recreated stay, a copy removing only files below its own source. */
  lemma OneMoreChildDirs(m: Tree, m1: Tree, m2: Tree, src: Path, tgt: Path, kids: seq<Name>)
    requires kids != [] && Disjoint(src, tgt) && CopyFrame(m, m1, src, tgt)
    requires DirsMirroredChildren(m, m1, src, tgt, kids[..|kids| - 1])
    requires DirsMirrored(m1, m2, src + [kids[|kids| - 1]], tgt + [kids[|kids| - 1]])
    requires CopyFrame(m1, m2, src + [kids[|kids| - 1]], tgt + [kids[|kids| - 1]])
    ensures DirsMirroredChildren(m, m2, src, tgt, kids)
  {
    var n := |kids| - 1;
    var k := kids[n];
    forall k', s | k' in kids && IsDir(m, src + [k'] + s)
      ensures tgt + [k'] + s in m2
    {
      if k' == k {
        assert src + [k] + s in m1;
        assert src + [k] + s == (src + [k]) + s && tgt + [k] + s == (tgt + [k]) + s;
      } else {
        assert k' in kids[..n];
        var t := tgt + [k'] + s;
        assert tgt <= t && src <= src + [k];
        if src + [k] <= t {
          PrefixesComparable(src, tgt, t);
        }
      }
    }
  }
}
