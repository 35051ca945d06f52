/** The platform calls the file utilities rely on (File.renameTo, File.mkdirs, File.delete,
    Files.move), as functions over the tree. Whether the operating system lets a call
    succeed is decided by an Oracle; what a successful call does to the tree, and the
    structural reasons a call fails (missing source, occupied target, non-empty
    directory), are modelled. Every call is recorded in a log with its outcome. */
module Platform {
  import opened Paths
  import opened FileTree

  datatype Option<T> = None | Some(value: T)

  /** An exception escaping to the caller instead of a return value. */
  datatype Fault = IOFault | SecurityFault | NullPointerFault

  /** How a Java call ends: with a value or with an exception. */
  datatype Completion<T> = Normal(value: T) | Thrown(fault: Fault)

  /** File.delete: removed, returned false, or threw SecurityException. */
  datatype DeleteResult = Deleted | NotDeleted | Denied

  /** The operating system's verdict on each call it is asked to perform. */
  datatype Oracle = Oracle(
    renameOk: (Path, Path) -> bool,
    mkdirsOk: Path -> bool,
    deleteResult: Path -> DeleteResult,
    moveOk: (Path, Path) -> bool)

  /** One platform call and how it ended. */
  datatype Syscall =
    | RenameCall(src: Path, dst: Path, renamed: bool)
    | MkdirsCall(dir: Path, created: bool)
    | DeleteCall(target: Path, result: DeleteResult)
    | MoveCall(src: Path, dst: Path, moved: bool)

  /** The result of running an operation: how it ended, the new tree, the calls made. */
  datatype Run<T> = Run(out: Completion<T>, fs: Tree, calls: seq<Syscall>)

  /** A rename of s to d can take effect: s is a file or an empty directory, d is free
      and its parent is a directory other than s. */
  predicate CanRelocate(m: Tree, s: Path, d: Path)
  {
    s != [] && IsLeaf(m, s) && d != [] && d !in m && IsDir(m, Parent(d)) && Parent(d) != s
  }

  /** File.renameTo. */
  function RenameTo(m: Tree, env: Oracle, s: Path, d: Path): (r: Run<bool>)
    requires WellFormed(m)
    ensures WellFormed(r.fs) && r.out.Normal?
    ensures r.calls == [RenameCall(s, d, r.out.value)]
    ensures r.out.value <==> env.renameOk(s, d) && CanRelocate(m, s, d)
    ensures r.out.value ==> r.fs.Keys == m.Keys - {s} + {d} && r.fs[d] == m[s]
    ensures !r.out.value ==> r.fs == m
    ensures KindsKept(m, r.fs) && AddsOnlyAround(m, r.fs, d) && RemovesOnlyBelow(m, r.fs, s)
  {
    var ok := env.renameOk(s, d) && CanRelocate(m, s, d);
    Run(Normal(ok), if ok then Relocate(m, s, d) else m, [RenameCall(s, d, ok)])
  }

  /** File.mkdirs, called on a path that does not exist. A failure leaves the tree as it was. */
  function Mkdirs(m: Tree, env: Oracle, p: Path): (r: Run<bool>)
    requires WellFormed(m)
    ensures WellFormed(r.fs) && r.out.Normal?
    ensures r.calls == [MkdirsCall(p, r.out.value)]
    ensures r.out.value <==> env.mkdirsOk(p) && p !in m && NoFileOnPath(m, p)
    ensures r.out.value ==> IsDir(r.fs, p)
    ensures !r.out.value ==> r.fs == m
    ensures m.Keys <= r.fs.Keys && KindsKept(m, r.fs)
    ensures forall q | q in r.fs && q !in m :: q <= p
  {
    var ok := env.mkdirsOk(p) && p !in m && NoFileOnPath(m, p);
    Run(Normal(ok), if ok then MakeDirs(m, p) else m, [MkdirsCall(p, ok)])
  }

  /** File.delete: removes a file or an empty directory; otherwise returns false. */
  function Delete(m: Tree, env: Oracle, p: Path): (r: Run<bool>)
    requires WellFormed(m)
    ensures WellFormed(r.fs)
    ensures |r.calls| == 1 && r.calls[0].DeleteCall? && r.calls[0].target == p
    ensures r.out == Thrown(SecurityFault) <==> env.deleteResult(p) == Denied
    ensures r.out == Normal(true) <==> r.calls[0].result == Deleted
    ensures r.out == Normal(true) <==> env.deleteResult(p) == Deleted && p != [] && IsLeaf(m, p)
    ensures r.out == Normal(true) ==> r.fs.Keys == m.Keys - {p}
    ensures r.out != Normal(true) ==> r.fs == m
    ensures r.fs.Keys <= m.Keys && KindsKept(m, r.fs) && RemovesOnlyBelow(m, r.fs, p)
  {
    match env.deleteResult(p)
    case Denied => Run(Thrown(SecurityFault), m, [DeleteCall(p, Denied)])
    case NotDeleted => Run(Normal(false), m, [DeleteCall(p, NotDeleted)])
    case Deleted =>
      if p != [] && IsLeaf(m, p) then
        RemoveEntryWellFormed(m, p);
        Run(Normal(true), RemoveEntry(m, p), [DeleteCall(p, Deleted)])
      else
        Run(Normal(false), m, [DeleteCall(p, NotDeleted)])
  }

  /** Files.move without options: moving an entry onto itself has no effect; an occupied
      or unreachable target, or a refusal by the platform, throws an IOException. */
  function FilesMove(m: Tree, env: Oracle, s: Path, d: Path): (r: Run<()>)
    requires WellFormed(m)
    ensures WellFormed(r.fs)
    ensures |r.calls| == 1 && r.calls[0].MoveCall? && r.calls[0].src == s && r.calls[0].dst == d
    ensures r.out.Normal? <==> (s == d && s in m) || (env.moveOk(s, d) && CanRelocate(m, s, d))
    ensures r.out.Normal? && s != d ==> r.fs.Keys == m.Keys - {s} + {d} && r.fs[d] == m[s]
    ensures r.out.Normal? && s == d ==> r.fs == m
    ensures r.out.Thrown? ==> r.out.fault == IOFault && r.fs == m
    ensures KindsKept(m, r.fs) && AddsOnlyAround(m, r.fs, d) && RemovesOnlyBelow(m, r.fs, s)
  {
    if s == d && s in m then
      Run(Normal(()), m, [MoveCall(s, d, true)])
    else if env.moveOk(s, d) && CanRelocate(m, s, d) then
      Run(Normal(()), Relocate(m, s, d), [MoveCall(s, d, true)])
    else
      Run(Thrown(IOFault), m, [MoveCall(s, d, false)])
  }
}
