/** deleteDirectory, deleteFilesFromDirectory and deleteFilesWithExtension as functions
    over the tree. */
module DeleteOps {
  import opened Paths
  import opened FileTree
  import opened Platform
  import opened ListFilters
  import opened Listing

  /** What a delete may do to the tree: remove entries at or below p, and nothing else
      (surviving files are untouched, surviving directories stay directories). */
  ghost predicate DeleteFrame(m: Tree, m': Tree, p: Path)
  {
    m'.Keys <= m.Keys && RemovesOnlyBelow(m, m', p) && KindsKept(m, m')
  }

  /** Every entry that disappeared is the target of a File.delete in the log that
      returned true. */
  ghost predicate RemovedByDeletes(m: Tree, m': Tree, calls: seq<Syscall>)
  {
    forall q | q in m && q !in m' :: DeleteCall(q, Deleted) in calls
  }

  /** Every call is a File.delete of p or of an entry below it. */
  predicate DeletesBelow(calls: seq<Syscall>, p: Path)
  {
    forall i | 0 <= i < |calls| :: calls[i].DeleteCall? && p <= calls[i].target
  }

  /** Every call but the last removed its entry. */
  predicate AllButLastDeleted(calls: seq<Syscall>)
    requires forall i | 0 <= i < |calls| :: calls[i].DeleteCall?
  {
    forall i | 0 <= i < |calls| - 1 :: calls[i].result == Deleted
  }

  /** deleteDirectory(dir): a directory's listed children are deleted recursively in
      listing order, stopping at the first that is not deleted; then the entry itself is
      deleted. A SecurityException from File.delete escapes. */
  function DeleteDirectory(m: Tree, env: Oracle, p: Path): (r: Run<bool>)
    requires WellFormed(m)
    ensures WellFormed(r.fs) && DeleteFrame(m, r.fs, p) && RemovedByDeletes(m, r.fs, r.calls)
    ensures |r.calls| > 0 && DeletesBelow(r.calls, p) && AllButLastDeleted(r.calls)
    ensures r.calls[|r.calls| - 1].target == p || r.out != Normal(true)
    ensures r.out == Normal(true) <==> r.calls[|r.calls| - 1].result == Deleted
    ensures r.out == Thrown(SecurityFault) <==> r.calls[|r.calls| - 1].result == Denied
    ensures r.out.Thrown? ==> r.out.fault == SecurityFault
    ensures r.out == Normal(true) ==> p !in r.fs
    ensures r.out != Normal(true) && p in m ==> p in r.fs
    decreases Under(m, p), 1, 0
  {
    if IsDir(m, p) then
      var kids := DeleteChildren(m, env, p, m[p].children);
      if kids.out != Normal(true) then
        kids
      else
        var d := Delete(kids.fs, env, p);
        DeleteFrameSelf(m, kids.fs, d.fs, p);
        DirLogAppend(kids.calls, d.calls, p);
        DeleteRemovedByCall(kids.fs, env, p);
        RemovedByDeletesTrans(m, kids.fs, d.fs, kids.calls, d.calls);
        Run(d.out, d.fs, kids.calls + d.calls)
    else
      DeleteRemovedByCall(m, env, p);
      Delete(m, env, p)
  }

  /** The loop of deleteDirectory over a listing, as a left fold: kids[i] is deleted after
      kids[..i] only if all of those were deleted. */
  function DeleteChildren(m: Tree, env: Oracle, p: Path, kids: seq<Name>): (r: Run<bool>)
    requires WellFormed(m) && IsDir(m, p)
    ensures ChildrenDeleted(m, p, r)
    decreases Under(m, p), 0, |kids|
  {
    if kids == [] then
      Run(Normal(true), m, [])
    else
      var prev := DeleteChildren(m, env, p, kids[..|kids| - 1]);
      if prev.out != Normal(true) then
        prev
      else
        var k := kids[|kids| - 1];
        DeleteChildShrinks(m, prev.fs, p, k);
        var c := DeleteDirectory(prev.fs, env, p + [k]);
        ChildDeletedStep(m, prev, c, p, k);
        Run(c.out, c.fs, prev.calls + c.calls)
  }

  /** What deleting a directory's children does: only entries strictly below p are
      removed, every call deletes below p, and either all calls succeeded or the last
      one failed and ends the loop, a SecurityException escaping. */
  ghost predicate ChildrenDeleted(m: Tree, p: Path, r: Run<bool>)
  {
    && WellFormed(r.fs) && DeleteFrame(m, r.fs, p) && p in r.fs && RemovedByDeletes(m, r.fs, r.calls)
    && DeletesBelow(r.calls, p) && (forall i | 0 <= i < |r.calls| :: r.calls[i].target != p)
    && (r.out == Normal(true) ==> forall i | 0 <= i < |r.calls| :: r.calls[i].result == Deleted)
    && (r.out != Normal(true) ==>
      |r.calls| > 0 && AllButLastDeleted(r.calls) && r.calls[|r.calls| - 1].result != Deleted)
    && (r.out == Thrown(SecurityFault) <==> |r.calls| > 0 && r.calls[|r.calls| - 1].result == Denied)
    && (r.out.Thrown? ==> r.out.fault == SecurityFault)
  }

  /** Deleting one more child after the earlier ones were all deleted. */
  lemma ChildDeletedStep(m: Tree, prev: Run<bool>, c: Run<bool>, p: Path, k: Name)
    requires ChildrenDeleted(m, p, prev) && prev.out == Normal(true)
    requires WellFormed(c.fs) && DeleteFrame(prev.fs, c.fs, p + [k]) && RemovedByDeletes(prev.fs, c.fs, c.calls)
    requires |c.calls| > 0 && DeletesBelow(c.calls, p + [k]) && AllButLastDeleted(c.calls)
    requires c.out == Normal(true) <==> c.calls[|c.calls| - 1].result == Deleted
    requires c.out == Thrown(SecurityFault) <==> c.calls[|c.calls| - 1].result == Denied
    requires c.out.Thrown? ==> c.out.fault == SecurityFault
    ensures ChildrenDeleted(m, p, Run(c.out, c.fs, prev.calls + c.calls))
  {
    DeleteFrameTrans(m, prev.fs, c.fs, p, k);
    ChildLogAppend(prev.calls, c.calls, p, k);
    RemovedByDeletesTrans(m, prev.fs, c.fs, prev.calls, c.calls);
    assert p in c.fs by {
      assert !(p + [k] <= p);
    }
  }

  /** The number of calls in the log that returned false. */
  function NotDeletedCount(calls: seq<Syscall>): (n: nat)
    ensures n <= |calls|
  {
    if calls == [] then 0
    else
      var last := calls[|calls| - 1];
      NotDeletedCount(calls[..|calls| - 1]) + (if last.DeleteCall? && last.result == NotDeleted then 1 else 0)
  }

  /** The best-effort loop of the two flat deletes, as a left fold: every listed entry is
      deleted in turn, a false result is counted and a SecurityException is caught and
      not counted. */
  function DeleteEach(m: Tree, env: Oracle, files: seq<Path>): (r: Run<nat>)
    requires WellFormed(m)
    ensures WellFormed(r.fs) && r.out.Normal? && |r.calls| == |files|
    decreases |files|
  {
    if files == [] then
      Run(Normal(0), m, [])
    else
      var prev := DeleteEach(m, env, files[..|files| - 1]);
      var d := Delete(prev.fs, env, files[|files| - 1]);
      var failed := if d.out == Normal(false) then 1 else 0;
      Run(Normal(prev.out.value + failed), d.fs, prev.calls + d.calls)
  }

  /** deleteFilesFromDirectory(directory): deletes every file directly in the directory
      and returns how many could not be deleted. A path that is not a directory makes
      listFiles return null, and reading its length throws. */
  function DeleteFilesFromDirectory(m: Tree, env: Oracle, dir: Path): (r: Run<nat>)
    requires WellFormed(m)
    ensures WellFormed(r.fs) && r.fs.Keys <= m.Keys && KindsKept(m, r.fs)
    ensures r.out == Thrown(NullPointerFault) <==> !IsDir(m, dir)
    ensures r.out.Thrown? ==> r.fs == m && r.calls == []
    ensures r.out.Normal? ==> r.out.value == NotDeletedCount(r.calls)
    ensures forall q | q in m && q !in r.fs :: IsFile(m, q) && Parent(q) == dir
    ensures forall i | 0 <= i < |r.calls| :: r.calls[i].DeleteCall? && IsFile(m, r.calls[i].target)
    ensures IsDir(m, dir) ==>
      var list := ListFiles(m, dir, FileOnly).value;
      |r.calls| == |list| && forall i | 0 <= i < |list| :: r.calls[i].target == list[i]
  {
    match ListFiles(m, dir, FileOnly)
    case None => Run(Thrown(NullPointerFault), m, [])
    case Some(list) =>
      ListFilesMembers(m, dir, FileOnly);
      if |list| == 0 then Run(Normal(0), m, [])
      else
        DeleteEachCalls(m, env, list);
        DeleteEachCount(m, env, list);
        DeleteEachFrame(m, env, list);
        DeleteEach(m, env, list)
  }

  /** deleteFilesWithExtension(dirFile, extension): deletes every entry directly in the
      directory whose upper-cased name ends with the normalised extension (directories
      included) and returns how many could not be deleted; 0 when the path is not a
      directory. */
  function DeleteFilesWithExtension(m: Tree, env: Oracle, dir: Path, ext: string): (r: Run<nat>)
    requires WellFormed(m)
    ensures WellFormed(r.fs) && r.fs.Keys <= m.Keys && KindsKept(m, r.fs)
    ensures r.out.Normal? && r.out.value == NotDeletedCount(r.calls)
    ensures !IsDir(m, dir) ==> r.out == Normal(0) && r.fs == m && r.calls == []
    ensures forall q | q in m && q !in r.fs ::
      q != [] && Parent(q) == dir && EndsWith(Upper(Last(q)), ExtensionFilter(ext).suffix)
    ensures forall i | 0 <= i < |r.calls| :: r.calls[i].DeleteCall? && r.calls[i].target in m
    ensures IsDir(m, dir) ==>
      var list := ListFiles(m, dir, ExtensionFilter(ext)).value;
      |r.calls| == |list| && forall i | 0 <= i < |list| :: r.calls[i].target == list[i]
  {
    match ListFiles(m, dir, ExtensionFilter(ext))
    case None => Run(Normal(0), m, [])
    case Some(list) =>
      ExtensionListing(m, dir, ext);
      DeleteEachCalls(m, env, list);
      DeleteEachCount(m, env, list);
      DeleteEachFrame(m, env, list);
      DeleteEach(m, env, list)
  }

  /** A delete below a child of p, after a delete below p, is a delete below p. */
  lemma DeleteFrameTrans(m: Tree, m1: Tree, m2: Tree, p: Path, k: Name)
    requires DeleteFrame(m, m1, p) && DeleteFrame(m1, m2, p + [k])
    ensures DeleteFrame(m, m2, p)
  {
    assert p <= p + [k];
  }

  /** Deleting p itself after deleting below p is a delete below p. */
  lemma DeleteFrameSelf(m: Tree, m1: Tree, m2: Tree, p: Path)
    requires DeleteFrame(m, m1, p)
    requires m2.Keys <= m1.Keys && KindsKept(m1, m2) && RemovesOnlyBelow(m1, m2, p)
    ensures DeleteFrame(m, m2, p)
  {
  }

  /** A single File.delete removes its entry only when it returns true. */
  lemma DeleteRemovedByCall(m: Tree, env: Oracle, p: Path)
    requires WellFormed(m)
    ensures var d := Delete(m, env, p); RemovedByDeletes(m, d.fs, d.calls)
  {
    var d := Delete(m, env, p);
    if d.out == Normal(true) {
      assert d.calls[0] == DeleteCall(p, Deleted);
    }
  }

  /** Removals accounted for by two logs are accounted for by their concatenation. */
  lemma RemovedByDeletesTrans(m1: Tree, m2: Tree, m3: Tree, a: seq<Syscall>, b: seq<Syscall>)
    requires RemovedByDeletes(m1, m2, a) && RemovedByDeletes(m2, m3, b)
    ensures RemovedByDeletes(m1, m3, a + b)
  {
    forall q | q in m1 && q !in m3
      ensures DeleteCall(q, Deleted) in a + b
    {
      if q in m2 {
        assert DeleteCall(q, Deleted) in b;
      }
    }
  }

  /** The log of a directory's own delete, after its children were all deleted. */
  lemma DirLogAppend(a: seq<Syscall>, b: seq<Syscall>, p: Path)
    requires DeletesBelow(a, p) && forall i | 0 <= i < |a| :: a[i].result == Deleted
    requires |b| == 1 && b[0].DeleteCall? && b[0].target == p
    ensures |a + b| > 0 && DeletesBelow(a + b, p) && AllButLastDeleted(a + b)
    ensures (a + b)[|a + b| - 1] == b[0]
  {
  }

  /** The log of a child's deletion, after a log of successful deletes strictly below p. */
  lemma ChildLogAppend(a: seq<Syscall>, b: seq<Syscall>, p: Path, k: Name)
    requires DeletesBelow(a, p) && forall i | 0 <= i < |a| :: a[i].target != p && a[i].result == Deleted
    requires |b| > 0 && DeletesBelow(b, p + [k]) && AllButLastDeleted(b)
    ensures DeletesBelow(a + b, p) && forall i | 0 <= i < |a + b| :: (a + b)[i].target != p
    ensures AllButLastDeleted(a + b) && (a + b)[|a + b| - 1] == b[|b| - 1]
  {
    forall i | 0 <= i < |b|
      ensures p <= b[i].target && b[i].target != p
    {
      assert p <= p + [k] <= b[i].target;
    }
  }

  /** After deletions, the subtree of a child of p is strictly inside the subtree of p before. */
  lemma DeleteChildShrinks(m: Tree, m': Tree, p: Path, k: Name)
    requires p in m && m'.Keys <= m.Keys
    ensures Under(m', p + [k]) < Under(m, p)
  {
    UnderChild(m, p, k);
  }

  /** One more child: the fold over kids[..i + 1] continues the fold over kids[..i]; the
      log of a caller that had made the calls in before grows by the child's calls. */
  lemma DeleteChildrenStep(m: Tree, env: Oracle, p: Path, kids: seq<Name>, i: nat, before: seq<Syscall>)
    requires WellFormed(m) && IsDir(m, p) && i < |kids|
    ensures var prev := DeleteChildren(m, env, p, kids[..i]);
      prev.out == Normal(true) ==>
        var c := DeleteDirectory(prev.fs, env, p + [kids[i]]);
        var next := DeleteChildren(m, env, p, kids[..i + 1]);
        && next.out == c.out && next.fs == c.fs
        && before + next.calls == before + prev.calls + c.calls
  {
    var ks := kids[..i + 1];
    assert ks[..|ks| - 1] == kids[..i] && ks[|ks| - 1] == kids[i];
    var prev := DeleteChildren(m, env, p, kids[..i]);
    if prev.out == Normal(true) {
      var c := DeleteDirectory(prev.fs, env, p + [kids[i]]);
      assert DeleteChildren(m, env, p, ks).calls == prev.calls + c.calls;
    }
  }

  /** Once a child is not deleted, the remaining children are not attempted. */
  lemma {:induction false} DeleteChildrenStops(m: Tree, env: Oracle, p: Path, kids: seq<Name>, n: nat)
    requires WellFormed(m) && IsDir(m, p) && n <= |kids|
    requires DeleteChildren(m, env, p, kids[..n]).out != Normal(true)
    ensures DeleteChildren(m, env, p, kids) == DeleteChildren(m, env, p, kids[..n])
    decreases |kids| - n
  {
    if n < |kids| {
      assert kids[..n + 1][..n] == kids[..n];
      DeleteChildrenStops(m, env, p, kids, n + 1);
    } else {
      assert kids[..n] == kids;
    }
  }

  /** One more entry for the best-effort loop. */
  lemma DeleteEachStep(m: Tree, env: Oracle, files: seq<Path>, i: nat, before: seq<Syscall>)
    requires WellFormed(m) && i < |files|
    ensures var prev := DeleteEach(m, env, files[..i]);
      var d := Delete(prev.fs, env, files[i]);
      var r := DeleteEach(m, env, files[..i + 1]);
      && r.out.value == prev.out.value + (if d.out.Normal? && !d.out.value then 1 else 0)
      && r.fs == d.fs && before + r.calls == before + prev.calls + d.calls
  {
    assert files[..i + 1][..i] == files[..i];
  }

  /** The i-th call of the loop deletes the i-th listed entry. */
  lemma {:induction false} DeleteEachCalls(m: Tree, env: Oracle, files: seq<Path>)
    requires WellFormed(m)
    ensures var r := DeleteEach(m, env, files);
      forall i | 0 <= i < |files| :: r.calls[i].DeleteCall? && r.calls[i].target == files[i]
    decreases |files|
  {
    if files != [] {
      var n := |files| - 1;
      DeleteEachCalls(m, env, files[..n]);
      var prev := DeleteEach(m, env, files[..n]);
      var d := Delete(prev.fs, env, files[n]);
      var r := DeleteEach(m, env, files);
      assert r.calls == prev.calls + d.calls;
      forall i | 0 <= i < |files|
        ensures r.calls[i].DeleteCall? && r.calls[i].target == files[i]
      {
        if i < n {
          assert r.calls[i] == prev.calls[i] && files[..n][i] == files[i];
        }
      }
    }
  }

  /** The count returned is the number of calls that returned false: a denied delete is
      not counted, and the count never exceeds the number of entries. */
  lemma {:induction false} DeleteEachCount(m: Tree, env: Oracle, files: seq<Path>)
    requires WellFormed(m)
    ensures var r := DeleteEach(m, env, files);
      r.out.value == NotDeletedCount(r.calls) && r.out.value <= |files|
    decreases |files|
  {
    if files != [] {
      var n := |files| - 1;
      DeleteEachCount(m, env, files[..n]);
      var prev := DeleteEach(m, env, files[..n]);
      var d := Delete(prev.fs, env, files[n]);
      var r := DeleteEach(m, env, files);
      assert r.calls[..n] == prev.calls && r.calls[n] == d.calls[0];
    }
  }

  /** Only listed entries disappear; surviving files are untouched and surviving
      directories stay directories. */
  lemma {:induction false} DeleteEachFrame(m: Tree, env: Oracle, files: seq<Path>)
    requires WellFormed(m)
    ensures var r := DeleteEach(m, env, files);
      && r.fs.Keys <= m.Keys && KindsKept(m, r.fs)
      && (forall q | q in m && q !in r.fs :: q in files)
    decreases |files|
  {
    if files != [] {
      var n := |files| - 1;
      DeleteEachFrame(m, env, files[..n]);
      var prev := DeleteEach(m, env, files[..n]);
      var r := DeleteEach(m, env, files);
      assert r.fs == Delete(prev.fs, env, files[n]).fs;
      forall q | q in m && q !in r.fs
        ensures q in files
      {
        if q in prev.fs {
          assert q == files[n];
        } else {
          assert q in files[..n];
        }
      }
    }
  }

  /** An entry whose delete reported success is gone at the end: later deletes never
      bring it back. */
  lemma {:induction false} DeleteEachRemoves(m: Tree, env: Oracle, files: seq<Path>)
    requires WellFormed(m)
    ensures var r := DeleteEach(m, env, files);
      forall i | 0 <= i < |files| && r.calls[i] == DeleteCall(files[i], Deleted) :: files[i] !in r.fs
    decreases |files|
  {
    if files != [] {
      var n := |files| - 1;
      DeleteEachRemoves(m, env, files[..n]);
      DeleteEachCalls(m, env, files);
      var prev := DeleteEach(m, env, files[..n]);
      var d := Delete(prev.fs, env, files[n]);
      var r := DeleteEach(m, env, files);
      assert r.calls == prev.calls + d.calls && r.fs == d.fs && d.fs.Keys <= prev.fs.Keys;
      forall i | 0 <= i < |files| && r.calls[i] == DeleteCall(files[i], Deleted)
        ensures files[i] !in r.fs
      {
        if i < n {
          assert r.calls[i] == prev.calls[i] && files[..n][i] == files[i];
        }
      }
    }
  }
}
