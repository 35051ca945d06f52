/** Directory listings through a filter, and the directory the lookup helpers search. */
module Listing {
  import opened Paths
  import opened FileTree
  import opened Platform
  import opened ListFilters

  /** The children of p, in listing order, whose name and kind the filter accepts. */
  function Accepted(m: Tree, p: Path, f: ListFilter, kids: seq<Name>): (r: seq<Path>)
    ensures forall q | q in r :: q != [] && q == p + [Last(q)] && Last(q) in kids
    ensures forall k | k in kids :: (p + [k] in r <==> Accept(f, k, IsDir(m, p + [k])))
    ensures |r| <= |kids|
  {
    if kids == [] then []
    else
      var n := |kids| - 1;
      var rest := Accepted(m, p, f, kids[..n]);
      AcceptedStep(m, p, f, kids, rest);
      if Accept(f, kids[n], IsDir(m, p + [kids[n]])) then rest + [p + [kids[n]]] else rest
  }

  /** The inductive step of Accepted: one more name at the end of the listing. */
  lemma AcceptedStep(m: Tree, p: Path, f: ListFilter, kids: seq<Name>, rest: seq<Path>)
    requires kids != []
    requires forall q | q in rest :: q != [] && q == p + [Last(q)] && Last(q) in kids[..|kids| - 1]
    requires forall k | k in kids[..|kids| - 1] :: (p + [k] in rest <==> Accept(f, k, IsDir(m, p + [k])))
    ensures var k := kids[|kids| - 1];
      var r := if Accept(f, k, IsDir(m, p + [k])) then rest + [p + [k]] else rest;
      && (forall q | q in r :: q != [] && q == p + [Last(q)] && Last(q) in kids)
      && (forall j | j in kids :: (p + [j] in r <==> Accept(f, j, IsDir(m, p + [j]))))
  {
    var n := |kids| - 1;
    var k := kids[n];
    ParentOfChild(p, k);
    assert forall j | j in kids[..n] :: j in kids;
    forall j | j in kids
      ensures j == k || j in kids[..n]
    {
      var i :| 0 <= i < |kids| && kids[i] == j;
      if i < n {
        assert kids[..n][i] == j;
      }
    }
    forall j | j in kids && j != k
      ensures p + [j] != p + [k]
    {
      assert (p + [j])[|p|] == j;
    }
  }

  /** File.listFiles(filter): null (None) when p is not a directory. */
  function ListFiles(m: Tree, p: Path, f: ListFilter): (r: Option<seq<Path>>)
    ensures r.None? <==> !IsDir(m, p)
  {
    if !IsDir(m, p) then None else Some(Accepted(m, p, f, m[p].children))
  }

  /** The listing holds exactly the entries directly inside p that the filter accepts. */
  lemma ListFilesMembers(m: Tree, p: Path, f: ListFilter)
    requires WellFormed(m) && IsDir(m, p)
    ensures forall q :: q in ListFiles(m, p, f).value <==>
      (q in m && q != [] && Parent(q) == p && Accept(f, Last(q), IsDir(m, q)))
  {
    var r := ListFiles(m, p, f).value;
    assert ChildrenExist(m, p);
    forall q | q in r
      ensures q in m && q != [] && Parent(q) == p && Accept(f, Last(q), IsDir(m, q))
    {
      ParentOfChild(p, Last(q));
    }
    forall q | q in m && q != [] && Parent(q) == p && Accept(f, Last(q), IsDir(m, q))
      ensures q in r
    {
      assert Listed(m, q);
      assert q == p + [Last(q)];
    }
  }

  /** An extension listing holds entries directly inside p whose upper-cased name ends
      with the filter's suffix. */
  lemma ExtensionListing(m: Tree, p: Path, ext: string)
    requires WellFormed(m) && IsDir(m, p)
    ensures forall q | q in ListFiles(m, p, ExtensionFilter(ext)).value ::
      q in m && q != [] && Parent(q) == p && EndsWith(Upper(Last(q)), ExtensionFilter(ext).suffix)
  {
    ListFilesMembers(m, p, ExtensionFilter(ext));
  }

  /** The directory getListOfFilesInDirectory and findNewestFileInDirectory search: the
      path itself when it is a directory, otherwise its parent. */
  function SearchDir(m: Tree, p: Path): (d: Path)
    requires WellFormed(m)
    ensures IsDir(m, p) ==> d == p
    ensures !IsDir(m, p) ==> p != [] && d == Parent(p)
  {
    if IsDir(m, p) then p else Parent(p)
  }

  /** getListOfFilesInDirectory(dirPath, filenameStartsWith): the files of the searched
      directory, restricted to names with the given prefix when one is given; None (null)
      when the searched directory does not exist or is not a directory. */
  function ListOfFilesInDirectory(m: Tree, p: Path, startsWith: Option<string>): (r: Option<seq<Path>>)
    requires WellFormed(m)
    ensures r.None? <==> !IsDir(m, SearchDir(m, p))
    ensures r.Some? ==> forall q :: q in r.value <==>
      && IsFile(m, q) && Parent(q) == SearchDir(m, p)
      && (startsWith.Some? ==> startsWith.value <= Last(q))
  {
    var f := if startsWith.Some? then StartsWith(startsWith.value) else FileOnly;
    if IsDir(m, SearchDir(m, p)) then ListFilesMembers(m, SearchDir(m, p), f); ListFiles(m, SearchDir(m, p), f)
    else ListFiles(m, SearchDir(m, p), f)
  }

  /** files[i] is the newest of files, and strictly newer than every file before it: the
      first, in listing order, of the newest files. */
  predicate FirstNewest(m: Tree, files: seq<Path>, i: int)
  {
    && 0 <= i < |files|
    && (forall j | 0 <= j < |files| :: LastModified(m, files[j]) <= LastModified(m, files[i]))
    && (forall j | 0 <= j < i :: LastModified(m, files[j]) < LastModified(m, files[i]))
  }
}
