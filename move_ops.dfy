/** moveFiles as a function over the tree. */
module MoveOps {
  import opened Paths
  import opened FileTree
  import opened Platform
  import opened ReturnCodes
  import opened CopyOps

  /** The location check of moveFiles as the source writes it: the destination is not a
      directory, or the source is a directory whose canonical path string occurs anywhere
      inside the destination's canonical path string. */
  predicate GuardAsWritten(m: Tree, src: Path, destDir: Path)
  {
    !IsDir(m, destDir) || (IsDir(m, src) && Contains(Canonical(destDir), Canonical(src)))
  }

  /** The check the guard is meant to perform: additionally, a directory source must not
      end up copied into itself, a descendant or an ancestor. */
  predicate GuardCorrected(m: Tree, src: Path, dest: Path)
  {
    IsDir(m, src) && !CopyAllowed(m, src, dest, false)
  }

  /** new File(parent + "/" + name): the sibling of p called name. An empty name
      leaves the parent itself. */
  function Renamed(p: Path, name: Name): (q: Path)
    requires p != []
    ensures name != "" ==> q != [] && Parent(q) == Parent(p) && Last(q) == name
    ensures name == "" ==> q == Parent(p)
  {
    if name == "" then Parent(p) else Parent(p) + [name]
  }

  /** The destination copyFiles is called with: destDir for a directory, destDir's child
      named after a file source otherwise, then renamed when a new name is given. None
      when a new name is given for a directory moved to the root, whose getParent() is
      null. */
  function MoveDest(isDir: bool, src: Path, destDir: Path, newName: Option<Name>): Option<Path>
  {
    var d := if isDir then destDir else destDir + [BaseName(src)];
    match newName
    case None => Some(d)
    case Some(n) => if d == [] then None else Some(Renamed(d, n))
  }

  /** The first step of moveFiles: a directory source whose destination does not exist
      has the destination created first. */
  function PrepareDest(m: Tree, env: Oracle, src: Path, destDir: Path): Run<bool>
    requires WellFormed(m)
  {
    if IsDir(m, src) && destDir !in m then Mkdirs(m, env, destDir) else Run(Normal(true), m, [])
  }

  /** moveFiles(srcFile, destDir, destFilename), with the location check corrected (see
      GuardCorrected); everything else follows the source. */
  function MoveFiles(m: Tree, env: Oracle, src: Path, destDir: Path, newName: Option<Name>): (r: Run<ReturnCode>)
    requires WellFormed(m)
    ensures WellFormed(r.fs)
    ensures r.out == Normal(InvalidCopyLocation) ==>
      && m.Keys <= r.fs.Keys && KindsKept(m, r.fs)
      && (r.calls == [] || r.calls == [MkdirsCall(destDir, true)])
    ensures r.out == Thrown(NullPointerFault) <==>
      && IsDir(m, src) && destDir == [] && newName.Some?
      && !GuardAsWritten(r.fs, src, destDir)
    ensures r.out.Thrown? ==> r.out.fault in {IOFault, NullPointerFault}
    ensures r.out == Normal(DirectoryCreationError) ==>
      IsDir(m, src) && |r.calls| > 0 && r.calls[|r.calls| - 1].MkdirsCall? && !r.calls[|r.calls| - 1].created
    ensures var mk := PrepareDest(m, env, src, destDir);
      !mk.out.value ==> r.out == Normal(DirectoryCreationError) && r.fs == mk.fs && r.calls == mk.calls
    ensures var mk := PrepareDest(m, env, src, destDir);
      var dest := MoveDest(IsDir(m, src), src, destDir, newName);
      mk.out.value ==>
        (r.out == Normal(InvalidCopyLocation) <==>
          GuardAsWritten(mk.fs, src, destDir) || (dest.Some? && GuardCorrected(mk.fs, src, dest.value)))
    ensures var mk := PrepareDest(m, env, src, destDir);
      var dest := MoveDest(IsDir(m, src), src, destDir, newName);
      mk.out.value && !GuardAsWritten(mk.fs, src, destDir) && dest.Some? && !GuardCorrected(mk.fs, src, dest.value) ==>
        var c := CopyFiles(mk.fs, env, src, dest.value, false);
        r.out == c.out && r.fs == c.fs && r.calls == mk.calls + c.calls
  {
    var isDir := IsDir(m, src);
    var mk := PrepareDest(m, env, src, destDir);
    if !mk.out.value then
      Run(Normal(DirectoryCreationError), mk.fs, mk.calls)
    else if GuardAsWritten(mk.fs, src, destDir) then
      Run(Normal(InvalidCopyLocation), mk.fs, mk.calls)
    else
      match MoveDest(isDir, src, destDir, newName)
      case None => Run(Thrown(NullPointerFault), mk.fs, mk.calls)
      case Some(dest) =>
        if GuardCorrected(mk.fs, src, dest) then
          Run(Normal(InvalidCopyLocation), mk.fs, mk.calls)
        else
          var c := CopyFiles(mk.fs, env, src, dest, false);
          assert c.out != Normal(InvalidCopyLocation) && c.out != Thrown(NullPointerFault);
          Run(c.out, c.fs, mk.calls + c.calls)
  }
}
