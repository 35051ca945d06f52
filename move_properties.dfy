/** Where moveFiles puts what it moves, and what its location check accepts and refuses. */
module MoveProperties {
  import opened Paths
  import opened FileTree
  import opened Platform
  import opened ReturnCodes
  import opened CopyOps
  import opened CopyProperties
  import opened MoveOps

  /** A file keeps its name, or takes the new one, inside destDir; an empty new name puts
      it at destDir itself. */
  lemma MoveFileLands(m: Tree, env: Oracle, src: Path, destDir: Path, newName: Option<Name>)
    requires WellFormed(m) && IsFile(m, src)
    ensures var r := MoveFiles(m, env, src, destDir, newName);
      var d := if newName == Some("") then destDir
        else destDir + [if newName.Some? then newName.value else Last(src)];
      r.out == Normal(Success) ==>
        && d in r.fs && r.fs[d] == m[src]
        && (src != d ==> r.fs.Keys == m.Keys - {src} + {d})
  {
    var d := if newName == Some("") then destDir
      else destDir + [if newName.Some? then newName.value else Last(src)];
    ParentOfChild(destDir, Last(src));
    assert MoveDest(false, src, destDir, newName) == Some(d);
    var r := MoveFiles(m, env, src, destDir, newName);
    if !GuardAsWritten(m, src, destDir) {
      var c := CopyFiles(m, env, src, d, false);
      assert r.out == c.out && r.fs == c.fs;
    }
  }

  /** A directory arrives under its own name inside destDir. With a new name it arrives,
      still under its own name, inside the sibling of destDir that the new name
      designates: the new name does not rename the directory. */
  lemma MoveDirectoryLands(m: Tree, env: Oracle, src: Path, destDir: Path, newName: Option<Name>)
    requires WellFormed(m) && IsDir(m, src)
    ensures var r := MoveFiles(m, env, src, destDir, newName);
      r.out == Normal(Success) ==>
        && src != [] && (newName.Some? ==> destDir != [])
        && (if newName.None? then destDir else Renamed(destDir, newName.value)) + [Last(src)] in r.fs
  {
    var r := MoveFiles(m, env, src, destDir, newName);
    var mk := PrepareDest(m, env, src, destDir);
    if r.out == Normal(Success) {
      assert mk.out.value && IsDir(mk.fs, src);
      if src == [] {
        GuardRejectsDescendants(mk.fs, src, destDir);
      }
      var dest := MoveDest(true, src, destDir, newName).value;
      var c := CopyFiles(mk.fs, env, src, dest, false);
      assert r.out == c.out && r.fs == c.fs;
    }
  }

  /** A missing source touches nothing: it is reported as FILE_DOES_NOT_EXIST when destDir
      is a directory, and refused as INVALID_COPY_LOCATION otherwise. */
  lemma MoveMissingSource(m: Tree, env: Oracle, src: Path, destDir: Path, newName: Option<Name>)
    requires WellFormed(m) && src !in m
    ensures var r := MoveFiles(m, env, src, destDir, newName);
      && r.fs == m && r.calls == []
      && (r.out == Normal(FileDoesNotExist) <==> IsDir(m, destDir))
      && (r.out == Normal(InvalidCopyLocation) <==> !IsDir(m, destDir))
  {
    var d := destDir + [BaseName(src)];
    assert d != [];
    if IsDir(m, destDir) {
      var dest := MoveDest(false, src, destDir, newName).value;
      assert CopyFiles(m, env, src, dest, false) == Run(Normal(FileDoesNotExist), m, []);
    }
  }

  /** A directory move that succeeds after creating every directory it needed puts every
      file of the source, unchanged, at the matching path under the directory's new
      place, recreates every directory there, and leaves no file at or below the source. */
  lemma MoveDirectoryMirrors(m: Tree, env: Oracle, src: Path, destDir: Path, newName: Option<Name>)
    requires WellFormed(m) && IsDir(m, src)
    ensures var r := MoveFiles(m, env, src, destDir, newName);
      r.out == Normal(Success) && AllMkdirsSucceeded(r.calls) ==>
        && src != [] && (newName.Some? ==> destDir != [])
        && var tgt := (if newName.None? then destDir else Renamed(destDir, newName.value)) + [Last(src)];
        && Mirrored(m, r.fs, src, tgt) && DirsMirrored(m, r.fs, src, tgt)
        && NoFilesBelow(r.fs, src)
  {
    var r := MoveFiles(m, env, src, destDir, newName);
    var mk := PrepareDest(m, env, src, destDir);
    if r.out == Normal(Success) && AllMkdirsSucceeded(r.calls) {
      MoveDirectoryLands(m, env, src, destDir, newName);
      assert mk.out.value && IsDir(mk.fs, src);
      var dest := MoveDest(true, src, destDir, newName).value;
      var c := CopyFiles(mk.fs, env, src, dest, false);
      assert r.out == c.out && r.fs == c.fs && r.calls == mk.calls + c.calls;
      MkdirsSplit(mk.calls, c.calls);
      CopyFilesMirrors(mk.fs, env, src, dest, false);
      CopyFilesEmptiesSource(mk.fs, env, src, dest, false);
      var tgt := Target(mk.fs, src, dest, false);
      assert tgt == dest + [Last(src)];
      assert m.Keys <= mk.fs.Keys && KindsKept(m, mk.fs);
      forall s | IsFile(m, src + s) ensures tgt + s in r.fs && r.fs[tgt + s] == m[src + s] {
        assert IsFile(mk.fs, src + s);
      }
      forall s | IsDir(m, src + s) ensures tgt + s in r.fs {
        assert IsDir(mk.fs, src + s);
      }
    }
  }

  /** A destination that exists but is not a directory, or that does not exist when a file
      is moved, is refused as INVALID_COPY_LOCATION before anything is touched. */
  lemma MoveRefusesNonDirectory(m: Tree, env: Oracle, src: Path, destDir: Path, newName: Option<Name>)
    requires WellFormed(m) && !IsDir(m, destDir) && (destDir in m || !IsDir(m, src))
    ensures MoveFiles(m, env, src, destDir, newName) == Run(Normal(InvalidCopyLocation), m, [])
  {
    assert PrepareDest(m, env, src, destDir) == Run(Normal(true), m, []);
  }

  /** The part of the location check that works: a directory is never moved into itself
      or below itself. */
  lemma GuardRejectsDescendants(m: Tree, src: Path, destDir: Path)
    requires IsDir(m, src) && src <= destDir
    ensures GuardAsWritten(m, src, destDir)
  {
    CanonicalOfDescendant(src, destDir);
  }

  /** The root directory can never be moved: its canonical path "/" occurs in every
      canonical path. */
  lemma RootIsNeverMoved(m: Tree, env: Oracle, destDir: Path, newName: Option<Name>)
    requires WellFormed(m)
    ensures var r := MoveFiles(m, env, [], destDir, newName);
      && (r.out == Normal(InvalidCopyLocation) || r.out == Normal(DirectoryCreationError))
      && m.Keys <= r.fs.Keys && KindsKept(m, r.fs)
  {
    var mk := PrepareDest(m, env, [], destDir);
    if mk.out.value {
      GuardRejectsDescendants(mk.fs, [], destDir);
    }
  }

  /** The check compares path strings, not paths: "/a/b" occurs in "/a/bc", so a
      directory is refused a sibling whose name extends its own, although the two
      subtrees are apart and the copy would be allowed. */
  lemma GuardRefusesPrefixSibling(m: Tree)
    requires IsDir(m, ["a", "b"]) && IsDir(m, ["a", "bc"])
    ensures GuardAsWritten(m, ["a", "b"], ["a", "bc"])
    ensures CopyAllowed(m, ["a", "b"], ["a", "bc"], false)
  {
    assert Canonical(["a", "bc"]) == "/a/bc";
    assert Canonical(["a", "b"]) == "/a/b";
    assert OccursAt("/a/bc", "/a/b", 0);
    var t := CopyTarget(["a", "b"], ["a", "bc"], false);
    assert t == ["a", "bc", "b"];
    assert t[1] != ["a", "b"][1];
  }

  /** The location check as written lets a directory be moved into itself: moving /a/x
      to /a/y under the new name "x" copies /a/x into /a/x/x, a target the check never
      looks at. */
  lemma GuardAdmitsNestedTarget(m: Tree)
    requires IsDir(m, ["a", "x"]) && IsDir(m, ["a", "y"])
    ensures !GuardAsWritten(m, ["a", "x"], ["a", "y"])
    ensures MoveDest(true, ["a", "x"], ["a", "y"], Some("x")) == Some(["a", "x"])
    ensures ["a", "x"] < CopyTarget(["a", "x"], ["a", "x"], false)
    ensures !CopyAllowed(m, ["a", "x"], ["a", "x"], false)
  {
    var s, t := Canonical(["a", "y"]), Canonical(["a", "x"]);
    assert s == "/a/y" && t == "/a/x";
    assert !OccursAt(s, t, 0) by {
      assert s[3] != t[3];
    }
    assert Parent(["a", "y"]) == ["a"];
    assert Renamed(["a", "y"], "x") == ["a"] + ["x"] == ["a", "x"];
    assert CopyTarget(["a", "x"], ["a", "x"], false) == ["a", "x", "x"];
  }

  /** With the corrected check, a move whose copy target would lie inside the source is
      refused before anything is copied: at most the destination directory is created. */
  lemma MoveRefusesNestedTargets(m: Tree, env: Oracle, src: Path, destDir: Path, newName: Option<Name>)
    requires WellFormed(m) && IsDir(m, src)
    requires MoveDest(true, src, destDir, newName).Some?
    requires src <= CopyTarget(src, MoveDest(true, src, destDir, newName).value, false)
    ensures var r := MoveFiles(m, env, src, destDir, newName);
      && (r.out == Normal(InvalidCopyLocation) || r.out == Normal(DirectoryCreationError))
      && |r.calls| <= 1 && m.Keys <= r.fs.Keys && KindsKept(m, r.fs)
  {
    var mk := PrepareDest(m, env, src, destDir);
    if mk.out.value {
      assert IsDir(mk.fs, src);
    }
  }

  /** The example of GuardAdmitsNestedTarget is refused, with no call made. */
  lemma NestedMoveRefused(m: Tree, env: Oracle)
    requires WellFormed(m) && IsDir(m, ["a", "x"]) && IsDir(m, ["a", "y"])
    ensures var r := MoveFiles(m, env, ["a", "x"], ["a", "y"], Some("x"));
      r.out == Normal(InvalidCopyLocation) && r.fs == m && r.calls == []
  {
    GuardAdmitsNestedTarget(m);
  }
}
