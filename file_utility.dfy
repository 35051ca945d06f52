/** The static methods of the file utility class, acting on a FileSystem object. Each is
    proved to end as its functional model in CopyOps, MoveOps, DeleteOps or Listing says. */
module FileUtility {
  import opened Paths
  import opened FileTree
  import opened Platform
  import opened ReturnCodes
  import opened ListFilters
  import opened Listing
  import opened CopyOps
  import MoveOps
  import DeleteOps
  import opened FileSystemModel

  method MoveFileWithoutCopy(fs: FileSystem, src: Path, dest: Path) returns (code: ReturnCode)
    requires fs.Valid()
    modifies fs
    ensures fs.Valid()
    ensures var r := CopyOps.MoveFileWithoutCopy(old(fs.nodes), fs.env, src, dest);
      Normal(code) == r.out && fs.nodes == r.fs && fs.calls == old(fs.calls) + r.calls
  {
    var succeeded := fs.RenameTo(src, dest);
    if !succeeded {
      return FileMoveError;
    }
    return Success;
  }

  /** copyFiles(srcFile, destFile, contentsOnly) */
  method CopyFiles(fs: FileSystem, src: Path, dest: Path, contentsOnly: bool) returns (out: Completion<ReturnCode>)
    requires fs.Valid() && CopyAllowed(fs.nodes, src, dest, contentsOnly)
    modifies fs
    ensures fs.Valid()
    ensures var r := CopyOps.CopyFiles(old(fs.nodes), fs.env, src, dest, contentsOnly);
      out == r.out && fs.nodes == r.fs && fs.calls == old(fs.calls) + r.calls
    decreases Under(fs.nodes, src), 2
  {
    if !fs.Exists(src) {
      return Normal(FileDoesNotExist);
    }
    if fs.IsDirectory(src) {
      out := CopyDirectory(fs, src, dest, contentsOnly);
    } else {
      out := CopyFile(fs, src, dest);
    }
  }

  /** The file branch of copyFiles. */
  method CopyFile(fs: FileSystem, src: Path, dest: Path) returns (out: Completion<ReturnCode>)
    requires fs.Valid() && IsFile(fs.nodes, src)
    modifies fs
    ensures fs.Valid()
    ensures var r := CopyOps.CopyFile(old(fs.nodes), fs.env, src, dest);
      out == r.out && fs.nodes == r.fs && fs.calls == old(fs.calls) + r.calls
  {
    ghost var m, calls0 := fs.nodes, fs.calls;
    ghost var mv := CopyOps.MoveFileWithoutCopy(m, fs.env, src, dest);
    var code := MoveFileWithoutCopy(fs, src, dest);
    if code == FileMoveError {
      ghost var fm := FilesMove(mv.fs, fs.env, src, dest);
      var moved := fs.Move(src, dest);
      AppendAssoc(calls0, mv.calls, fm.calls);
      if moved.Thrown? {
        return Thrown(moved.fault);
      }
    }
    return Normal(Success);
  }

  /** The directory branch of copyFiles. */
  method CopyDirectory(fs: FileSystem, src: Path, dest: Path, contentsOnly: bool) returns (out: Completion<ReturnCode>)
    requires fs.Valid() && IsDir(fs.nodes, src) && Disjoint(src, CopyTarget(src, dest, contentsOnly))
    modifies fs
    ensures fs.Valid()
    ensures var r := CopyOps.CopyDirectory(old(fs.nodes), fs.env, src, dest, contentsOnly);
      out == r.out && fs.nodes == r.fs && fs.calls == old(fs.calls) + r.calls
    decreases Under(fs.nodes, src), 1
  {
    ghost var m, calls0 := fs.nodes, fs.calls;
    var target := CopyTarget(src, dest, contentsOnly);
    ghost var mk := if target in m then Run(Normal(true), m, []) else Platform.Mkdirs(m, fs.env, target);
    if !fs.Exists(target) {
      var created := fs.Mkdirs(target);
      if !created {
        return Normal(DirectoryCreationError);
      }
    }
    assert fs.nodes == mk.fs && fs.calls == calls0 + mk.calls;
    NoAdditionsUnder(m, mk.fs, src, target);
    assert Under(mk.fs, src) == Under(m, src);
    var copied := CopyEntries(fs, src, target);
    ghost var cc := CopyChildren(mk.fs, fs.env, src, target, mk.fs[src].children);
    AppendAssoc(calls0, mk.calls, cc.calls);
    if copied.Thrown? {
      return Thrown(copied.fault);
    }
    return Normal(Success);
  }

  /** The loop of copyFiles over the listing of a source directory: each entry is copied,
      contents only, into the entry of the same name under target. */
  method CopyEntries(fs: FileSystem, src: Path, target: Path) returns (out: Completion<()>)
    requires fs.Valid() && IsDir(fs.nodes, src) && Disjoint(src, target)
    modifies fs
    ensures fs.Valid()
    ensures var r := CopyChildren(old(fs.nodes), fs.env, src, target, old(fs.nodes)[src].children);
      out == r.out && fs.nodes == r.fs && fs.calls == old(fs.calls) + r.calls
    decreases Under(fs.nodes, src), 0
  {
    ghost var m0, calls0 := fs.nodes, fs.calls;
    var files := fs.List(src);
    var i := 0;
    while i < |files|
      invariant 0 <= i <= |files|
      invariant fs.Valid()
      invariant var r := CopyChildren(m0, fs.env, src, target, files[..i]);
        r.out == Normal(()) && fs.nodes == r.fs && fs.calls == calls0 + r.calls
    {
      var k := files[i];
      CopyChildrenStep(m0, fs.env, src, target, files, i, calls0);
      ChildShrinks(m0, fs.nodes, src, target, k);
      var child := CopyFiles(fs, src + [k], target + [k], true);
      if child.Thrown? {
        CopyChildrenStops(m0, fs.env, src, target, files, i + 1);
        return Thrown(child.fault);
      }
      i := i + 1;
    }
    assert files[..i] == files;
    return Normal(());
  }

  /** copyFiles(srcFilename, destFilename) and copyFiles(srcFile, destFile): the whole
      source, not only its contents. */
  method CopyFilesDefault(fs: FileSystem, src: Path, dest: Path) returns (out: Completion<ReturnCode>)
    requires fs.Valid() && CopyAllowed(fs.nodes, src, dest, false)
    modifies fs
    ensures fs.Valid()
    ensures var r := CopyOps.CopyFiles(old(fs.nodes), fs.env, src, dest, false);
      out == r.out && fs.nodes == r.fs && fs.calls == old(fs.calls) + r.calls
  {
    out := CopyFiles(fs, src, dest, false);
  }

  /** moveFiles(srcFile, destDir, destFilename), with the corrected location check. */
  method MoveFiles(fs: FileSystem, src: Path, destDir: Path, newName: Option<Name>) returns (out: Completion<ReturnCode>)
    requires fs.Valid()
    modifies fs
    ensures fs.Valid()
    ensures var r := MoveOps.MoveFiles(old(fs.nodes), fs.env, src, destDir, newName);
      out == r.out && fs.nodes == r.fs && fs.calls == old(fs.calls) + r.calls
  {
    ghost var m, calls0 := fs.nodes, fs.calls;
    var isDir := fs.IsDirectory(src);
    ghost var mk := MoveOps.PrepareDest(m, fs.env, src, destDir);
    if isDir && !fs.Exists(destDir) {
      var created := fs.Mkdirs(destDir);
      if !created {
        return Normal(DirectoryCreationError);
      }
    }
    assert fs.nodes == mk.fs && fs.calls == calls0 + mk.calls;
    if !fs.IsDirectory(destDir) || (fs.IsDirectory(src) && Contains(Canonical(destDir), Canonical(src))) {
      return Normal(InvalidCopyLocation);
    }
    match MoveOps.MoveDest(isDir, src, destDir, newName)
    case None =>
      return Thrown(NullPointerFault);
    case Some(dest) =>
      if MoveOps.GuardCorrected(fs.nodes, src, dest) {
        return Normal(InvalidCopyLocation);
      }
      ghost var c := CopyOps.CopyFiles(mk.fs, fs.env, src, dest, false);
      out := CopyFiles(fs, src, dest, false);
      AppendAssoc(calls0, mk.calls, c.calls);
  }

  /** moveFiles(srcFile, destDir): no new name. */
  method MoveFilesDefault(fs: FileSystem, src: Path, destDir: Path) returns (out: Completion<ReturnCode>)
    requires fs.Valid()
    modifies fs
    ensures fs.Valid()
    ensures var r := MoveOps.MoveFiles(old(fs.nodes), fs.env, src, destDir, None);
      out == r.out && fs.nodes == r.fs && fs.calls == old(fs.calls) + r.calls
  {
    out := MoveFiles(fs, src, destDir, None);
  }

  /** deleteDirectory(dir) */
  method DeleteDirectory(fs: FileSystem, p: Path) returns (out: Completion<bool>)
    requires fs.Valid()
    modifies fs
    ensures fs.Valid()
    ensures var r := DeleteOps.DeleteDirectory(old(fs.nodes), fs.env, p);
      out == r.out && fs.nodes == r.fs && fs.calls == old(fs.calls) + r.calls
    decreases Under(fs.nodes, p), 1
  {
    ghost var m, calls0 := fs.nodes, fs.calls;
    if fs.IsDirectory(p) {
      ghost var kids := DeleteOps.DeleteChildren(m, fs.env, p, m[p].children);
      var children := DeleteEntries(fs, p);
      if children != Normal(true) {
        return children;
      }
      ghost var d := Platform.Delete(kids.fs, fs.env, p);
      out := fs.Delete(p);
      AppendAssoc(calls0, kids.calls, d.calls);
    } else {
      out := fs.Delete(p);
    }
  }

  /** The loop of deleteDirectory over a directory's listing, stopping at the first entry
      that is not deleted. */
  method DeleteEntries(fs: FileSystem, p: Path) returns (out: Completion<bool>)
    requires fs.Valid() && IsDir(fs.nodes, p)
    modifies fs
    ensures fs.Valid()
    ensures var r := DeleteOps.DeleteChildren(old(fs.nodes), fs.env, p, old(fs.nodes)[p].children);
      out == r.out && fs.nodes == r.fs && fs.calls == old(fs.calls) + r.calls
    decreases Under(fs.nodes, p), 0
  {
    ghost var m0, calls0 := fs.nodes, fs.calls;
    var children := fs.List(p);
    var i := 0;
    while i < |children|
      invariant 0 <= i <= |children|
      invariant fs.Valid()
      invariant var r := DeleteOps.DeleteChildren(m0, fs.env, p, children[..i]);
        r.out == Normal(true) && fs.nodes == r.fs && fs.calls == calls0 + r.calls
    {
      DeleteOps.DeleteChildrenStep(m0, fs.env, p, children, i, calls0);
      DeleteOps.DeleteChildShrinks(m0, fs.nodes, p, children[i]);
      var deleted := DeleteDirectory(fs, p + [children[i]]);
      if deleted != Normal(true) {
        DeleteOps.DeleteChildrenStops(m0, fs.env, p, children, i + 1);
        return deleted;
      }
      i := i + 1;
    }
    assert children[..i] == children;
    return Normal(true);
  }

  /** The loop shared by deleteFilesFromDirectory and deleteFilesWithExtension: delete
      every listed entry, count the deletes that return false, and catch (without
      counting) a SecurityException. */
  method DeleteListed(fs: FileSystem, files: seq<Path>) returns (filesNotDeleted: nat)
    requires fs.Valid()
    modifies fs
    ensures fs.Valid()
    ensures var r := DeleteOps.DeleteEach(old(fs.nodes), fs.env, files);
      filesNotDeleted == r.out.value && fs.nodes == r.fs && fs.calls == old(fs.calls) + r.calls
  {
    ghost var m0, calls0 := fs.nodes, fs.calls;
    filesNotDeleted := 0;
    var i := 0;
    while i < |files|
      invariant 0 <= i <= |files|
      invariant fs.Valid()
      invariant var r := DeleteOps.DeleteEach(m0, fs.env, files[..i]);
        r.out.value == filesNotDeleted && fs.nodes == r.fs && fs.calls == calls0 + r.calls
    {
      DeleteOps.DeleteEachStep(m0, fs.env, files, i, calls0);
      var result := fs.Delete(files[i]);
      // a SecurityException is caught and not counted
      if result.Normal? && !result.value {
        filesNotDeleted := filesNotDeleted + 1;
      }
      i := i + 1;
    }
    assert files[..i] == files;
  }

  /** deleteFilesFromDirectory(directory) */
  method DeleteFilesFromDirectory(fs: FileSystem, directory: Path) returns (out: Completion<nat>)
    requires fs.Valid()
    modifies fs
    ensures fs.Valid()
    ensures var r := DeleteOps.DeleteFilesFromDirectory(old(fs.nodes), fs.env, directory);
      out == r.out && fs.nodes == r.fs && fs.calls == old(fs.calls) + r.calls
  {
    var list := ListFiles(fs.nodes, directory, FileOnly);
    if list.None? {
      return Thrown(NullPointerFault);
    }
    if |list.value| == 0 {
      return Normal(0);
    }
    var filesNotDeleted := DeleteListed(fs, list.value);
    return Normal(filesNotDeleted);
  }

  /** deleteFilesWithExtension(dirFile, extension) */
  method DeleteFilesWithExtension(fs: FileSystem, dirFile: Path, extension: string) returns (filesNotDeleted: nat)
    requires fs.Valid()
    modifies fs
    ensures fs.Valid()
    ensures var r := DeleteOps.DeleteFilesWithExtension(old(fs.nodes), fs.env, dirFile, extension);
      filesNotDeleted == r.out.value && fs.nodes == r.fs && fs.calls == old(fs.calls) + r.calls
  {
    var filter := ExtensionFilter(extension);
    var list := ListFiles(fs.nodes, dirFile, filter);
    filesNotDeleted := 0;
    if list.Some? {
      filesNotDeleted := DeleteListed(fs, list.value);
    }
  }

  /** findNewestFileInDirectory(dirPath): among the files of the searched directory, the
      first in listing order with the greatest lastModified; None (null) when it has no
      files. listFiles returns null when the searched directory is missing, and reading
      its length then throws. */
  method FindNewestFileInDirectory(fs: FileSystem, p: Path) returns (out: Completion<Option<Path>>)
    requires fs.Valid()
    ensures out.Thrown? <==> !IsDir(fs.nodes, SearchDir(fs.nodes, p))
    ensures out.Thrown? ==> out.fault == NullPointerFault
    ensures out.Normal? ==>
      var files := ListFiles(fs.nodes, SearchDir(fs.nodes, p), FileOnly).value;
      && (out.value.None? <==> files == [])
      && (out.value.Some? ==> exists i | 0 <= i < |files| :: files[i] == out.value.value && FirstNewest(fs.nodes, files, i))
  {
    var dir := if fs.IsDirectory(p) then p else Parent(p);
    var fileList := ListFiles(fs.nodes, dir, FileOnly);
    if fileList.None? {
      return Thrown(NullPointerFault);
    }
    var files := fileList.value;
    if |files| == 0 {
      return Normal(None);
    }
    var newest := Newest(fs, files);
    return Normal(Some(newest));
  }

  /** The loop of findNewestFileInDirectory: the first of the newest files, keeping the
      current candidate unless a later file is strictly newer. */
  method Newest(fs: FileSystem, files: seq<Path>) returns (newest: Path)
    requires files != []
    ensures exists i | 0 <= i < |files| :: files[i] == newest && FirstNewest(fs.nodes, files, i)
  {
    newest := files[0];
    ghost var n := 0;
    var i := 1;
    while i < |files|
      invariant 1 <= i <= |files| && 0 <= n < i && files[n] == newest
      invariant forall j | 0 <= j < i :: LastModified(fs.nodes, files[j]) <= LastModified(fs.nodes, newest)
      invariant forall j | 0 <= j < n :: LastModified(fs.nodes, files[j]) < LastModified(fs.nodes, newest)
    {
      var next := files[i];
      if fs.LastModifiedOf(next) > fs.LastModifiedOf(newest) {
        newest, n := next, i;
      }
      i := i + 1;
    }
    assert FirstNewest(fs.nodes, files, n);
  }

  /** Proof helper, with no counterpart in the Java code: appending to a log is
      associative. Stated once so the loops' proofs stay cheap. */
  lemma AppendAssoc<T>(a: seq<T>, b: seq<T>, c: seq<T>)
    ensures a + (b + c) == a + b + c
  {
  }
}
