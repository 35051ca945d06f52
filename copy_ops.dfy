/** copyFiles and moveFileWithoutCopy as functions over the tree: what they return, the
    tree they leave and the platform calls they make. */
module CopyOps {
  import opened Paths
  import opened FileTree
  import opened Platform
  import opened ReturnCodes

  /** moveFileWithoutCopy: a single rename, reported as SUCCESS or FILE_MOVE_ERROR. */
  function MoveFileWithoutCopy(m: Tree, env: Oracle, s: Path, d: Path): (r: Run<ReturnCode>)
    requires WellFormed(m)
    ensures WellFormed(r.fs) && r.calls == [RenameCall(s, d, r.out == Normal(Success))]
    ensures r.out == Normal(Success) || r.out == Normal(FileMoveError)
    ensures r.out == Normal(Success) <==> env.renameOk(s, d) && CanRelocate(m, s, d)
    ensures r.out == Normal(Success) ==> r.fs.Keys == m.Keys - {s} + {d} && r.fs[d] == m[s]
    ensures r.out == Normal(FileMoveError) ==> r.fs == m
    ensures KindsKept(m, r.fs)
  {
    var rn := RenameTo(m, env, s, d);
    Run(Normal(if rn.out.value then Success else FileMoveError), rn.fs, rn.calls)
  }

  /** Where copyFiles puts the entries of a source directory: the destination itself when
      only the contents are copied, otherwise the destination's child named after the
      source (the root's name is empty, which leaves the destination as it is). */
  function CopyTarget(src: Path, dest: Path, contentsOnly: bool): (t: Path)
    ensures dest <= t && |t| <= |dest| + 1
    ensures contentsOnly || src == [] ==> t == dest
    ensures !contentsOnly && src != [] ==> t != [] && Parent(t) == dest && Last(t) == Last(src)
  {
    if contentsOnly || src == [] then dest else dest + [Last(src)]
  }

  /** The path copyFiles writes to: the copy target for a directory, dest for anything else. */
  function Target(m: Tree, src: Path, dest: Path, contentsOnly: bool): Path
  {
    if IsDir(m, src) then CopyTarget(src, dest, contentsOnly) else dest
  }

  /** The documented demand on callers: a directory is never copied into itself, into one
      of its descendants or into one of its ancestors. */
  predicate CopyAllowed(m: Tree, src: Path, dest: Path, contentsOnly: bool)
  {
    IsDir(m, src) ==> Disjoint(src, CopyTarget(src, dest, contentsOnly))
  }

  /** What a copy may do to the tree: entries appear only on the way to tgt or below it,
      only files at or below src disappear, and nothing else changes kind or content. */
  ghost predicate CopyFrame(m: Tree, m': Tree, src: Path, tgt: Path)
  {
    AddsOnlyAround(m, m', tgt) && RemovesOnlyFilesBelow(m, m', src) && KindsKept(m, m')
  }

  /** copyFiles(srcFile, destFile, contentsOnly). A missing source is reported; a file is
      handled by CopyFile and a directory by CopyDirectory. */
  function CopyFiles(m: Tree, env: Oracle, src: Path, dest: Path, contentsOnly: bool): (r: Run<ReturnCode>)
    requires WellFormed(m) && CopyAllowed(m, src, dest, contentsOnly)
    ensures WellFormed(r.fs)
    ensures CopyFrame(m, r.fs, src, Target(m, src, dest, contentsOnly))
    ensures r.out == Normal(FileDoesNotExist) <==> src !in m
    ensures src !in m ==> r.fs == m && r.calls == []
    ensures r.out == Normal(DirectoryCreationError) ==>
      && IsDir(m, src) && r.fs == m
      && r.calls == [MkdirsCall(CopyTarget(src, dest, contentsOnly), false)]
    ensures r.out.Normal? ==> r.out.value in {Success, FileDoesNotExist, DirectoryCreationError}
    ensures r.out.Thrown? ==> r.out.fault == IOFault
    ensures IsFile(m, src) ==>
      || r.calls == [RenameCall(src, dest, true)]
      || (|r.calls| == 2 && r.calls[0] == RenameCall(src, dest, false) && r.calls[1].MoveCall?)
    ensures IsFile(m, src) && r.out == Normal(Success) ==>
      && dest in r.fs && r.fs[dest] == m[src]
      && (src != dest ==> r.fs.Keys == m.Keys - {src} + {dest})
    ensures IsDir(m, src) && r.out == Normal(Success) ==> CopyTarget(src, dest, contentsOnly) in r.fs
    ensures var t := CopyTarget(src, dest, contentsOnly);
      r.out == Normal(DirectoryCreationError) <==> IsDir(m, src) && t !in m && !Mkdirs(m, env, t).out.value
    decreases Under(m, src), 2
  {
    if src !in m then
      Run(Normal(FileDoesNotExist), m, [])
    else if m[src].File? then
      CopyFile(m, env, src, dest)
    else
      CopyDirectory(m, env, src, dest, contentsOnly)
  }

  /** The file branch of copyFiles: a rename, and Files.move when the rename fails; an
      IOException from Files.move escapes. */
  function CopyFile(m: Tree, env: Oracle, src: Path, dest: Path): (r: Run<ReturnCode>)
    requires WellFormed(m) && IsFile(m, src)
    ensures WellFormed(r.fs) && CopyFrame(m, r.fs, src, dest)
    ensures r.out == Normal(Success) || r.out == Thrown(IOFault)
    ensures || r.calls == [RenameCall(src, dest, true)]
            || (|r.calls| == 2 && r.calls[0] == RenameCall(src, dest, false) && r.calls[1] == MoveCall(src, dest, r.out.Normal?))
    ensures r.out.Normal? ==>
      && dest in r.fs && r.fs[dest] == m[src]
      && (src != dest ==> r.fs.Keys == m.Keys - {src} + {dest})
    ensures r.out.Normal? && src != dest ==> CanRelocate(m, src, dest)
    ensures r.out.Thrown? ==> r.fs == m
  {
    var mv := MoveFileWithoutCopy(m, env, src, dest);
    if mv.out == Normal(FileMoveError) then
      var fm := FilesMove(mv.fs, env, src, dest);
      Run(if fm.out.Thrown? then Thrown(fm.out.fault) else Normal(Success), fm.fs, mv.calls + fm.calls)
    else
      Run(Normal(Success), mv.fs, mv.calls)
  }

  /** The directory branch of copyFiles: the target is created when missing (a failure is
      DIRECTORY_CREATION_ERROR), then every listed child is copied into it. */
  function CopyDirectory(m: Tree, env: Oracle, src: Path, dest: Path, contentsOnly: bool): (r: Run<ReturnCode>)
    requires WellFormed(m) && IsDir(m, src) && Disjoint(src, CopyTarget(src, dest, contentsOnly))
    ensures WellFormed(r.fs) && CopyFrame(m, r.fs, src, CopyTarget(src, dest, contentsOnly))
    ensures r.out == Normal(Success) || r.out == Normal(DirectoryCreationError) || r.out == Thrown(IOFault)
    ensures r.out == Normal(DirectoryCreationError) ==>
      r.fs == m && r.calls == [MkdirsCall(CopyTarget(src, dest, contentsOnly), false)]
    ensures r.out == Normal(Success) ==> CopyTarget(src, dest, contentsOnly) in r.fs
    ensures var t := CopyTarget(src, dest, contentsOnly);
      r.out == Normal(DirectoryCreationError) <==> t !in m && !Mkdirs(m, env, t).out.value
    decreases Under(m, src), 1
  {
    var tgt := CopyTarget(src, dest, contentsOnly);
    var mk := if tgt in m then Run(Normal(true), m, []) else Mkdirs(m, env, tgt);
    if !mk.out.value then
      Run(Normal(DirectoryCreationError), mk.fs, mk.calls)
    else
      NoAdditionsUnder(m, mk.fs, src, tgt);
      assert Under(mk.fs, src) == Under(m, src);
      var cc := CopyChildren(mk.fs, env, src, tgt, mk.fs[src].children);
      CopyFrameTrans(m, mk.fs, cc.fs, src, tgt);
      assert tgt in cc.fs by {
        assert tgt in mk.fs && !(src <= tgt);
      }
      Run(if cc.out.Thrown? then Thrown(cc.out.fault) else Normal(Success), cc.fs, mk.calls + cc.calls)
  }

  /** The loop of copyFiles over a directory listing, as a left fold: kids[i] is copied
      (contents only) from src + [kids[i]] to tgt + [kids[i]] after kids[..i]. */
  function CopyChildren(m: Tree, env: Oracle, src: Path, tgt: Path, kids: seq<Name>): (r: Run<()>)
    requires WellFormed(m) && IsDir(m, src) && Disjoint(src, tgt)
    ensures WellFormed(r.fs) && IsDir(r.fs, src)
    ensures CopyFrame(m, r.fs, src, tgt)
    ensures r.out.Thrown? ==> r.out.fault == IOFault
    decreases Under(m, src), 0, |kids|
  {
    if kids == [] then
      Run(Normal(()), m, [])
    else
      var prev := CopyChildren(m, env, src, tgt, kids[..|kids| - 1]);
      if prev.out.Thrown? then
        prev
      else
        var k := kids[|kids| - 1];
        ChildShrinks(m, prev.fs, src, tgt, k);
        DisjointChildren(src, tgt, k, k);
        var c := CopyFiles(prev.fs, env, src + [k], tgt + [k], true);
        CopyFrameWiden(prev.fs, c.fs, src, tgt, k);
        CopyFrameTrans(m, prev.fs, c.fs, src, tgt);
        Run(if c.out.Thrown? then Thrown(c.out.fault) else Normal(()), c.fs, prev.calls + c.calls)
  }

  /** One more child: the fold over kids[..i + 1] continues the fold over kids[..i]; the
      log of a caller that had made the calls in before grows by the child's calls. */
  lemma CopyChildrenStep(m: Tree, env: Oracle, src: Path, tgt: Path, kids: seq<Name>, i: nat, before: seq<Syscall>)
    requires WellFormed(m) && IsDir(m, src) && Disjoint(src, tgt) && i < |kids|
    ensures Disjoint(src + [kids[i]], tgt + [kids[i]])
    ensures var prev := CopyChildren(m, env, src, tgt, kids[..i]);
      prev.out.Normal? ==>
        var c := CopyFiles(prev.fs, env, src + [kids[i]], tgt + [kids[i]], true);
        var next := CopyChildren(m, env, src, tgt, kids[..i + 1]);
        && next.out == (if c.out.Thrown? then Thrown(c.out.fault) else Normal(()))
        && next.fs == c.fs
        && before + next.calls == before + prev.calls + c.calls
  {
    DisjointChildren(src, tgt, kids[i], kids[i]);
    assert kids[..i + 1][..i] == kids[..i];
    var prev := CopyChildren(m, env, src, tgt, kids[..i]);
    if prev.out.Normal? {
      var c := CopyFiles(prev.fs, env, src + [kids[i]], tgt + [kids[i]], true);
      assert CopyChildren(m, env, src, tgt, kids[..i + 1]).calls == prev.calls + c.calls;
    }
  }

  /** Once a child's copy has thrown, the remaining children are not copied. */
  lemma {:induction false} CopyChildrenStops(m: Tree, env: Oracle, src: Path, tgt: Path, kids: seq<Name>, n: nat)
    requires WellFormed(m) && IsDir(m, src) && Disjoint(src, tgt) && n <= |kids|
    requires CopyChildren(m, env, src, tgt, kids[..n]).out.Thrown?
    ensures CopyChildren(m, env, src, tgt, kids) == CopyChildren(m, env, src, tgt, kids[..n])
    decreases |kids| - n
  {
    if n < |kids| {
      assert kids[..n + 1][..n] == kids[..n];
      CopyChildrenStops(m, env, src, tgt, kids, n + 1);
    } else {
      assert kids[..n] == kids;
    }
  }

  // ---------------------------------------------------------------------
  // Frame lemmas

  /** A copy towards tgt adds nothing inside a subtree disjoint from tgt. */
  lemma NoAdditionsUnder(m: Tree, m': Tree, src: Path, tgt: Path)
    requires Disjoint(src, tgt) && AddsOnlyAround(m, m', tgt)
    ensures forall q | q in m' && src <= q :: q in m
  {
    forall q | q in m' && src <= q
      ensures q in m
    {
      if q !in m {
        if tgt <= q {
          PrefixesComparable(src, tgt, q);
        }
        assert false;
      }
    }
  }

  /** The subtree of a child of src, after a copy towards tgt, is strictly inside the
      subtree of src before it. */
  lemma ChildShrinks(m: Tree, m': Tree, src: Path, tgt: Path, k: Name)
    requires src in m && Disjoint(src, tgt) && AddsOnlyAround(m, m', tgt)
    ensures Under(m', src + [k]) < Under(m, src)
  {
    NoAdditionsUnder(m, m', src, tgt);
    forall q | q in Under(m', src + [k])
      ensures q in Under(m, src)
    {
      assert src <= src + [k];
    }
    assert src in Under(m, src) && src !in Under(m', src + [k]);
  }

  /** A frame for a child pair is a frame for the parent pair. */
  lemma CopyFrameWiden(m: Tree, m': Tree, src: Path, tgt: Path, k: Name)
    requires CopyFrame(m, m', src + [k], tgt + [k])
    ensures CopyFrame(m, m', src, tgt)
  {
    forall q | q in m' && q !in m
      ensures q <= tgt || tgt <= q
    {
      if q <= tgt + [k] {
        PrefixOfChild(q, tgt, k);
      }
      assert tgt <= tgt + [k];
    }
    forall q | q in m && q !in m'
      ensures src <= q
    {
      assert src <= src + [k];
    }
  }

  /** Two copy steps towards the same disjoint target compose. */
  lemma CopyFrameTrans(m1: Tree, m2: Tree, m3: Tree, src: Path, tgt: Path)
    requires Disjoint(src, tgt)
    requires CopyFrame(m1, m2, src, tgt) && CopyFrame(m2, m3, src, tgt)
    ensures CopyFrame(m1, m3, src, tgt)
  {
    forall q | q in m1 && q in m3
      ensures (m1[q].File? ==> m3[q] == m1[q]) && (m1[q].Dir? ==> m3[q].Dir?)
    {
      if q !in m2 {
        if tgt <= q {
          PrefixesComparable(src, tgt, q);
        }
        assert false;
      }
    }
  }
}
