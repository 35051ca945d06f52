/** What deleteDirectory and the flat deletes achieve, and the order of deleteDirectory's
    calls. */
module DeleteProperties {
  import opened Paths
  import opened FileTree
  import opened Platform
  import opened ListFilters
  import opened Listing
  import opened DeleteOps

  /** deleteDirectory returns true only when the whole subtree is gone. */
  lemma DeleteDirectoryRemovesSubtree(m: Tree, env: Oracle, p: Path)
    requires WellFormed(m)
    ensures var r := DeleteDirectory(m, env, p);
      r.out == Normal(true) ==> Under(r.fs, p) == {}
  {
    var r := DeleteDirectory(m, env, p);
    if r.out == Normal(true) {
      NothingBelowAbsent(r.fs, p);
    }
  }

  /** No call deletes an entry below one deleted earlier: every entry's descendants are
      deleted before it. */
  predicate PostOrder(calls: seq<Syscall>)
  {
    forall i, j | 0 <= i < j < |calls| && calls[i].DeleteCall? && calls[j].DeleteCall? ::
      !(calls[i].target < calls[j].target)
  }

  /** Every call deletes an entry strictly below p, below one of the listed names. */
  predicate BelowChildren(calls: seq<Syscall>, p: Path, kids: seq<Name>)
  {
    forall i | 0 <= i < |calls| ::
      calls[i].DeleteCall? && p < calls[i].target && calls[i].target[|p|] in kids
  }

  lemma {:induction false} DeleteDirectoryPostOrder(m: Tree, env: Oracle, p: Path)
    requires WellFormed(m)
    ensures PostOrder(DeleteDirectory(m, env, p).calls)
    decreases Under(m, p), 1, 0, 0
  {
    if IsDir(m, p) {
      var kids := DeleteChildren(m, env, p, m[p].children);
      assert ChildrenExist(m, p);
      DeleteChildrenPostOrder(m, env, p, m[p].children);
      if kids.out == Normal(true) {
        var d := Delete(kids.fs, env, p);
        ParentLast(kids.calls, d.calls, p);
      }
    }
  }

  /** Appending the delete of p to deletes strictly below p keeps the order. */
  lemma ParentLast(a: seq<Syscall>, b: seq<Syscall>, p: Path)
    requires PostOrder(a) && forall i | 0 <= i < |a| :: a[i].DeleteCall? && p <= a[i].target && a[i].target != p
    requires |b| == 1 && b[0].DeleteCall? && b[0].target == p
    ensures PostOrder(a + b)
  {
    forall i, j | 0 <= i < j < |a + b| && (a + b)[i].DeleteCall? && (a + b)[j].DeleteCall?
      ensures !((a + b)[i].target < (a + b)[j].target)
    {
      if j < |a| {
        assert (a + b)[i] == a[i] && (a + b)[j] == a[j];
      } else {
        assert (a + b)[i] == a[i] && (a + b)[j] == b[0];
      }
    }
  }

  lemma {:induction false} DeleteChildrenPostOrder(m: Tree, env: Oracle, p: Path, kids: seq<Name>)
    requires WellFormed(m) && IsDir(m, p) && NoDup(kids)
    ensures var r := DeleteChildren(m, env, p, kids);
      PostOrder(r.calls) && BelowChildren(r.calls, p, kids)
    decreases Under(m, p), 0, |kids|, 1
  {
    if kids != [] {
      var n := |kids| - 1;
      var prev := DeleteChildren(m, env, p, kids[..n]);
      assert NoDup(kids[..n]);
      DeleteChildrenPostOrder(m, env, p, kids[..n]);
      if prev.out == Normal(true) {
        NextChildPostOrder(m, env, p, kids);
      } else {
        assert forall j | j in kids[..n] :: j in kids;
      }
    }
  }

  /** The step of DeleteChildrenPostOrder when every earlier child was deleted. */
  lemma {:induction false} NextChildPostOrder(m: Tree, env: Oracle, p: Path, kids: seq<Name>)
    requires WellFormed(m) && IsDir(m, p) && NoDup(kids) && kids != []
    requires var prev := DeleteChildren(m, env, p, kids[..|kids| - 1]);
      prev.out == Normal(true) && PostOrder(prev.calls) && BelowChildren(prev.calls, p, kids[..|kids| - 1])
    ensures var r := DeleteChildren(m, env, p, kids);
      PostOrder(r.calls) && BelowChildren(r.calls, p, kids)
    decreases Under(m, p), 0, |kids|, 0
  {
    var n := |kids| - 1;
    var k := kids[n];
    var prev := DeleteChildren(m, env, p, kids[..n]);
    DeleteChildShrinks(m, prev.fs, p, k);
    var c := DeleteDirectory(prev.fs, env, p + [k]);
    DeleteDirectoryPostOrder(prev.fs, env, p + [k]);
    DeleteChildrenStep(m, env, p, kids, n, []);
    assert kids[..n + 1] == kids;
    var r := DeleteChildren(m, env, p, kids);
    assert r.calls == prev.calls + c.calls by {
      assert [] + r.calls == r.calls && [] + prev.calls == prev.calls;
    }
    SiblingsAppend(prev.calls, c.calls, p, kids);
  }

  /** The calls for the last child come after the calls for the earlier, distinct ones;
      their subtrees are apart, so the order is kept. */
  lemma SiblingsAppend(a: seq<Syscall>, b: seq<Syscall>, p: Path, kids: seq<Name>)
    requires kids != [] && NoDup(kids)
    requires PostOrder(a) && BelowChildren(a, p, kids[..|kids| - 1])
    requires PostOrder(b) && DeletesBelow(b, p + [kids[|kids| - 1]])
    ensures PostOrder(a + b) && BelowChildren(a + b, p, kids)
  {
    var n := |kids| - 1;
    var k := kids[n];
    assert k !in kids[..n] by {
      forall j | 0 <= j < n ensures kids[..n][j] != k {
        assert kids[..n][j] == kids[j];
      }
    }
    assert forall j | j in kids[..n] :: j in kids;
    forall i | 0 <= i < |b|
      ensures p < b[i].target && b[i].target[|p|] == k
    {
      assert (p + [k])[|p|] == k && b[i].target[..|p| + 1] == p + [k];
      assert p <= p + [k];
    }
    forall i, j | 0 <= i < j < |a + b| && (a + b)[i].DeleteCall? && (a + b)[j].DeleteCall?
      ensures !((a + b)[i].target < (a + b)[j].target)
    {
      if j < |a| {
        assert (a + b)[i] == a[i] && (a + b)[j] == a[j];
      } else if i >= |a| {
        assert (a + b)[i] == b[i - |a|] && (a + b)[j] == b[j - |a|];
      } else {
        assert (a + b)[i] == a[i] && (a + b)[j] == b[j - |a|];
      }
    }
    forall i | 0 <= i < |a + b|
      ensures (a + b)[i].DeleteCall? && p < (a + b)[i].target && (a + b)[i].target[|p|] in kids
    {
      if i < |a| {
        assert (a + b)[i] == a[i];
      } else {
        assert (a + b)[i] == b[i - |a|];
      }
    }
  }

  /** Once a child is not deleted, nothing at or below a later sibling is touched:
      deleteDirectory stops at its first failure. */
  lemma LaterSiblingsRemain(m: Tree, env: Oracle, p: Path, kids: seq<Name>, n: nat)
    requires WellFormed(m) && IsDir(m, p) && NoDup(kids) && n < |kids|
    requires DeleteChildren(m, env, p, kids[..n + 1]).out != Normal(true)
    ensures var r := DeleteChildren(m, env, p, kids);
      forall j, q | n < j < |kids| && q in m && p + [kids[j]] <= q :: q in r.fs
  {
    var ks := kids[..n + 1];
    DeleteChildrenStops(m, env, p, kids, n + 1);
    DeleteChildrenPostOrder(m, env, p, ks);
    var r := DeleteChildren(m, env, p, ks);
    forall j, q | n < j < |kids| && q in m && p + [kids[j]] <= q
      ensures q in r.fs
    {
      NotInPrefix(kids, n + 1, j);
      CallsMissOtherChildren(r.calls, p, ks, kids[j], q);
    }
  }

  /** A name later in a listing without repetitions is not among the earlier ones. */
  lemma NotInPrefix(kids: seq<Name>, n: nat, j: nat)
    requires NoDup(kids) && n <= j < |kids|
    ensures kids[j] !in kids[..n]
  {
    assert forall i | 0 <= i < n :: kids[..n][i] == kids[i];
  }

  /** A log of deletes below the children kids never deletes below another child. */
  lemma CallsMissOtherChildren(calls: seq<Syscall>, p: Path, kids: seq<Name>, k: Name, q: Path)
    requires BelowChildren(calls, p, kids) && k !in kids && p + [k] <= q
    ensures DeleteCall(q, Deleted) !in calls
  {
    forall i | 0 <= i < |calls|
      ensures calls[i] != DeleteCall(q, Deleted)
    {
      assert q[|p|] == (p + [k])[|p|] == k;
    }
  }

  /** Every File.delete at or below p would return true. */
  ghost predicate DeletesAllowedBelow(env: Oracle, p: Path)
  {
    forall q | p <= q :: env.deleteResult(q) == Deleted
  }

  /** When every delete is allowed, deleteDirectory(p) of an existing entry other than the
      root returns true and removes the whole subtree. */
  lemma {:induction false} AllowedDirectoryDeleted(m: Tree, env: Oracle, p: Path)
    requires WellFormed(m) && p in m && p != [] && DeletesAllowedBelow(env, p)
    ensures var r := DeleteDirectory(m, env, p);
      r.out == Normal(true) && Under(r.fs, p) == {}
    decreases Under(m, p), 1
  {
    DeleteDirectoryRemovesSubtree(m, env, p);
    if IsDir(m, p) {
      var kids := m[p].children;
      assert ChildrenExist(m, p);
      AllowedChildrenDeleted(m, env, p, kids);
      var k := DeleteChildren(m, env, p, kids);
      ListingWithinKids(m, k.fs, p);
      var ch := k.fs[p].children;
      FirstListed(ch);
      assert ch == [];
    }
  }

  /** ... and deleting the children of a directory one after the other deletes each. */
  lemma {:induction false} AllowedChildrenDeleted(m: Tree, env: Oracle, p: Path, kids: seq<Name>)
    requires WellFormed(m) && IsDir(m, p) && NoDup(kids) && DeletesAllowedBelow(env, p)
    requires forall c | c in kids :: p + [c] in m
    ensures var r := DeleteChildren(m, env, p, kids);
      r.out == Normal(true) && forall c | c in kids :: p + [c] !in r.fs
    decreases Under(m, p), 0, |kids|
  {
    if kids != [] {
      var n := |kids| - 1;
      var k, front := kids[n], kids[..n];
      AllowedChildrenDeleted(m, env, p, front);
      DeleteChildrenPostOrder(m, env, p, front);
      var prev := DeleteChildren(m, env, p, front);
      NotInPrefix(kids, n, n);
      CallsMissOtherChildren(prev.calls, p, front, k, p + [k]);
      DeleteChildShrinks(m, prev.fs, p, k);
      forall q | p + [k] <= q
        ensures env.deleteResult(q) == Deleted
      {
        assert p <= q;
      }
      AllowedDirectoryDeleted(prev.fs, env, p + [k]);
      DeleteChildrenStep(m, env, p, kids, n, []);
      assert kids[..n + 1] == kids;
    }
  }

  /** Proof helper, with no counterpart in the Java code: a listing that is not empty
      lists its first name. */
  lemma FirstListed(ch: seq<Name>)
    ensures |ch| > 0 ==> ch[0] in ch
  {
  }

  /** After deletions below p, p's listing names only children it named before, each of
      which still exists. */
  lemma ListingWithinKids(m: Tree, m': Tree, p: Path)
    requires WellFormed(m) && WellFormed(m') && IsDir(m, p) && IsDir(m', p) && m'.Keys <= m.Keys
    ensures forall c | c in m'[p].children :: c in m[p].children && p + [c] in m'
  {
    forall c | c in m'[p].children
      ensures c in m[p].children && p + [c] in m'
    {
      assert ChildrenExist(m', p);
      ParentOfChild(p, c);
      assert Listed(m, p + [c]);
    }
  }

  /** deleteFilesFromDirectory passes every file directly in the directory to delete,
      whatever the earlier deletes returned. */
  lemma EveryFileAttempted(m: Tree, env: Oracle, dir: Path)
    requires WellFormed(m)
    ensures var r := DeleteFilesFromDirectory(m, env, dir);
      forall q | IsFile(m, q) && q != [] && Parent(q) == dir ::
        exists i :: 0 <= i < |r.calls| && r.calls[i].target == q
  {
    var r := DeleteFilesFromDirectory(m, env, dir);
    forall q | IsFile(m, q) && q != [] && Parent(q) == dir
      ensures exists i :: 0 <= i < |r.calls| && r.calls[i].target == q
    {
      assert Listed(m, q);
      ListFilesMembers(m, dir, FileOnly);
      var list := ListFiles(m, dir, FileOnly).value;
      var i :| 0 <= i < |list| && list[i] == q;
      assert r.calls[i].target == q;
    }
  }

  /** deleteFilesWithExtension passes every entry directly in the directory whose name
      matches the extension to delete, whatever the earlier deletes returned. */
  lemma EveryMatchAttempted(m: Tree, env: Oracle, dir: Path, ext: string)
    requires WellFormed(m)
    ensures var r := DeleteFilesWithExtension(m, env, dir, ext);
      forall q | q in m && q != [] && Parent(q) == dir && EndsWith(Upper(Last(q)), ExtensionFilter(ext).suffix) ::
        exists i :: 0 <= i < |r.calls| && r.calls[i].target == q
  {
    var r := DeleteFilesWithExtension(m, env, dir, ext);
    forall q | q in m && q != [] && Parent(q) == dir && EndsWith(Upper(Last(q)), ExtensionFilter(ext).suffix)
      ensures exists i :: 0 <= i < |r.calls| && r.calls[i].target == q
    {
      assert Listed(m, q);
      ListFilesMembers(m, dir, ExtensionFilter(ext));
      var list := ListFiles(m, dir, ExtensionFilter(ext)).value;
      var i :| 0 <= i < |list| && list[i] == q;
      assert r.calls[i].target == q;
    }
  }

  /** deleteFilesWithExtension also tries to delete a directory whose name carries the
      extension. */
  lemma ExtensionDeleteAttemptsDirectories(m: Tree, env: Oracle, dir: Path, ext: string, name: Name)
    requires WellFormed(m) && IsDir(m, dir + [name])
    requires EndsWith(Upper(name), ExtensionFilter(ext).suffix)
    ensures var r := DeleteFilesWithExtension(m, env, dir, ext);
      exists i | 0 <= i < |r.calls| :: r.calls[i] == DeleteCall(dir + [name], r.calls[i].result)
  {
    var q := dir + [name];
    ParentOfChild(dir, name);
    assert Listed(m, q);
    var list := ListFiles(m, dir, ExtensionFilter(ext)).value;
    ListFilesMembers(m, dir, ExtensionFilter(ext));
    assert q in list;
    var i :| 0 <= i < |list| && list[i] == q;
    DeleteEachCalls(m, env, list);
    var r := DeleteFilesWithExtension(m, env, dir, ext);
    assert r.calls[i] == DeleteCall(q, r.calls[i].result);
  }
}
