/** The disk the file utilities act on, as a mutable object: its entries, the operating
    system's verdicts, and a ghost log of the platform calls made so far. */
module FileSystemModel {
  import opened Paths
  import opened FileTree
  import opened Platform

  class FileSystem {
    var nodes: Tree
    ghost var calls: seq<Syscall>
    const env: Oracle

    ghost predicate Valid()
      reads this
    {
      WellFormed(nodes)
    }

    constructor (m: Tree, env: Oracle)
      requires WellFormed(m)
      ensures Valid() && nodes == m && calls == [] && this.env == env
    {
      nodes := m;
      calls := [];
      this.env := env;
    }

    /** File.exists() */
    function Exists(p: Path): (b: bool)
      reads this
      ensures b <==> p in nodes
    {
      p in nodes
    }

    /** File.isDirectory() */
    function IsDirectory(p: Path): (b: bool)
      reads this
      ensures b <==> IsDir(nodes, p)
    {
      p in nodes && nodes[p].Dir?
    }

    /** File.list() on a directory: the names of its entries in listing order. */
    function List(p: Path): (names: seq<Name>)
      reads this
      requires Valid() && IsDir(nodes, p)
      ensures NoDup(names) && forall n | n in names :: p + [n] in nodes
    {
      assert ChildrenExist(nodes, p);
      nodes[p].children
    }

    /** File.lastModified(): 0 for a path that is not a file. */
    function LastModifiedOf(p: Path): (t: int)
      reads this
      ensures t == LastModified(nodes, p)
    {
      if p in nodes && nodes[p].File? then nodes[p].lastModified else 0
    }

    /** File.renameTo(dest) */
    method RenameTo(s: Path, d: Path) returns (ok: bool)
      requires Valid()
      modifies this
      ensures Valid()
      ensures var r := Platform.RenameTo(old(nodes), env, s, d);
        ok == r.out.value && nodes == r.fs && calls == old(calls) + r.calls
    {
      var r := Platform.RenameTo(nodes, env, s, d);
      nodes := r.fs;
      calls := calls + r.calls;
      ok := r.out.value;
    }

    /** File.mkdirs() */
    method Mkdirs(p: Path) returns (ok: bool)
      requires Valid()
      modifies this
      ensures Valid()
      ensures var r := Platform.Mkdirs(old(nodes), env, p);
        ok == r.out.value && nodes == r.fs && calls == old(calls) + r.calls
    {
      var r := Platform.Mkdirs(nodes, env, p);
      nodes := r.fs;
      calls := calls + r.calls;
      ok := r.out.value;
    }

    /** File.delete(), which may throw a SecurityException. */
    method Delete(p: Path) returns (out: Completion<bool>)
      requires Valid()
      modifies this
      ensures Valid()
      ensures var r := Platform.Delete(old(nodes), env, p);
        out == r.out && nodes == r.fs && calls == old(calls) + r.calls
    {
      var r := Platform.Delete(nodes, env, p);
      nodes := r.fs;
      calls := calls + r.calls;
      out := r.out;
    }

    /** Files.move(source, target), which may throw an IOException. */
    method Move(s: Path, d: Path) returns (out: Completion<()>)
      requires Valid()
      modifies this
      ensures Valid()
      ensures var r := Platform.FilesMove(old(nodes), env, s, d);
        out == r.out && nodes == r.fs && calls == old(calls) + r.calls
    {
      var r := Platform.FilesMove(nodes, env, s, d);
      nodes := r.fs;
      calls := calls + r.calls;
      out := r.out;
    }
  }
}
