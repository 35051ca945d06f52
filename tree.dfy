/** The abstract in-memory filesystem: a map from canonical path to node.
    A directory node carries its listing, in the order the platform lists it. */
module FileTree {
  import opened Paths

  datatype Node = File(lastModified: int) | Dir(children: seq<Name>)

  type Tree = map<Path, Node>

  predicate IsDir(m: Tree, p: Path)
  {
    p in m && m[p].Dir?
  }

  predicate IsFile(m: Tree, p: Path)
  {
    p in m && m[p].File?
  }

  predicate NoDup(s: seq<Name>)
  {
    forall i, j | 0 <= i < j < |s| :: s[i] != s[j]
  }

  /** p's parent is a directory whose listing names p. */
  ghost predicate Listed(m: Tree, p: Path)
    requires p != []
  {
    IsDir(m, Parent(p)) && Last(p) in m[Parent(p)].children
  }

  /** A directory's listing has no repeated name and every listed child exists. */
  ghost predicate ChildrenExist(m: Tree, p: Path)
    requires IsDir(m, p)
  {
    NoDup(m[p].children) && forall c | c in m[p].children :: p + [c] in m
  }

  /** The tree invariant: the root is a directory and listings agree with the map. */
  ghost predicate WellFormed(m: Tree)
  {
    && IsDir(m, [])
    && (forall p {:trigger Listed(m, p)} | p in m && p != [] :: Listed(m, p))
    && (forall p {:trigger ChildrenExist(m, p)} | IsDir(m, p) :: ChildrenExist(m, p))
  }

  /** The entries at or below p. */
  function Under(m: Tree, p: Path): set<Path>
  {
    set q | q in m && p <= q
  }

  /** A leaf: a plain file or an empty directory, which File.delete can remove. */
  predicate IsLeaf(m: Tree, p: Path)
  {
    p in m && (m[p].File? || m[p].children == [])
  }

  /** File.lastModified(): the stamp of a file, 0 for a path that is not a file. */
  function LastModified(m: Tree, q: Path): int
  {
    if IsFile(m, q) then m[q].lastModified else 0
  }

  /** Every proper ancestor of an entry is a directory listing the next name on the way. */
  lemma {:induction false} AncestorListed(m: Tree, q: Path, k: nat)
    requires WellFormed(m) && q in m && k < |q|
    ensures IsDir(m, q[..k]) && q[k] in m[q[..k]].children
  {
    assert Listed(m, q);
    if k < |q| - 1 {
      var pq := Parent(q);
      AncestorListed(m, pq, k);
      assert pq[..k] == q[..k];
    } else {
      assert Parent(q) == q[..k];
    }
  }

  /** The same, phrased for an ancestor p of q. */
  lemma AncestorOf(m: Tree, p: Path, q: Path)
    requires WellFormed(m) && q in m && p < q
    ensures IsDir(m, p) && q[|p|] in m[p].children
  {
    AncestorListed(m, q, |p|);
    assert q[..|p|] == p;
  }

  /** Nothing lies below an absent path. */
  lemma NothingBelowAbsent(m: Tree, p: Path)
    requires WellFormed(m) && p !in m
    ensures forall q | q in m :: !(p <= q)
  {
    forall q | q in m && p <= q
      ensures false
    {
      if q != p {
        AncestorOf(m, p, q);
      }
    }
  }

  /** Nothing lies strictly below a leaf. */
  lemma NothingBelowLeaf(m: Tree, p: Path)
    requires WellFormed(m) && IsLeaf(m, p)
    ensures Under(m, p) == {p}
  {
    forall q | q in m && p <= q && q != p
      ensures false
    {
      AncestorOf(m, p, q);
    }
  }

  /** An entry's listed child lies strictly inside its subtree. */
  lemma UnderChild(m: Tree, p: Path, c: Name)
    requires p in m
    ensures Under(m, p + [c]) < Under(m, p)
  {
    assert p in Under(m, p) && p !in Under(m, p + [c]);
  }

  // ---------------------------------------------------------------------
  // Single-entry updates

  function AddEntry(m: Tree, p: Path, n: Node): (r: Tree)
    requires p != [] && IsDir(m, Parent(p)) && p !in m
    ensures r.Keys == m.Keys + {p} && r[p] == n
    ensures forall q | q in m && q != Parent(p) :: r[q] == m[q]
    ensures r[Parent(p)] == Dir(m[Parent(p)].children + [Last(p)])
  {
    m[Parent(p) := Dir(m[Parent(p)].children + [Last(p)])][p := n]
  }

  /** The listing without the name x. */
  function Without(s: seq<Name>, x: Name): (r: seq<Name>)
    ensures forall y :: y in r <==> y in s && y != x
    ensures NoDup(s) ==> NoDup(r)
  {
    if s == [] then []
    else
      var rest := Without(s[1..], x);
      assert forall y :: y in s[1..] ==> y in s;
      assert NoDup(s) ==> NoDup(s[1..]) && s[0] !in s[1..] by {
        if NoDup(s) {
          forall i | 0 <= i < |s| - 1 ensures s[1..][i] != s[0] {
            assert s[1..][i] == s[i + 1];
          }
        }
      }
      if s[0] == x then rest else [s[0]] + rest
  }

  function RemoveEntry(m: Tree, p: Path): (r: Tree)
    requires p != [] && p in m && IsDir(m, Parent(p))
    ensures r.Keys == m.Keys - {p}
    ensures forall q | q in r && q != Parent(p) :: r[q] == m[q]
    ensures r[Parent(p)] == Dir(Without(m[Parent(p)].children, Last(p)))
  {
    (m - {p})[Parent(p) := Dir(Without(m[Parent(p)].children, Last(p)))]
  }

  lemma AddEntryWellFormed(m: Tree, p: Path, n: Node)
    requires WellFormed(m) && p != [] && IsDir(m, Parent(p)) && p !in m
    requires n.File? || n.children == []
    ensures WellFormed(AddEntry(m, p, n))
  {
    var r := AddEntry(m, p, n);
    var par := Parent(p);
    assert Last(p) !in m[par].children by {
      assert ChildrenExist(m, par);
      assert par + [Last(p)] == p;
    }
    forall q | q in r && q != []
      ensures Listed(r, q)
    {
      if q != p {
        assert Listed(m, q);
      }
    }
    forall q | IsDir(r, q)
      ensures ChildrenExist(r, q)
    {
      if q == par {
        assert ChildrenExist(m, q);
        assert p == par + [Last(p)];
      } else if q != p {
        assert ChildrenExist(m, q);
      }
    }
  }

  lemma RemoveEntryWellFormed(m: Tree, p: Path)
    requires WellFormed(m) && p != [] && IsLeaf(m, p)
    ensures IsDir(m, Parent(p))
    ensures WellFormed(RemoveEntry(m, p))
  {
    assert Listed(m, p);
    var r := RemoveEntry(m, p);
    var par := Parent(p);
    forall q | q in r && q != []
      ensures Listed(r, q)
    {
      assert Listed(m, q);
      if Parent(q) == par {
        assert q == par + [Last(q)] && p == par + [Last(p)];
      }
    }
    forall q | IsDir(r, q)
      ensures ChildrenExist(r, q)
    {
      assert ChildrenExist(m, q);
      forall c | c in r[q].children
        ensures q + [c] in r
      {
        if q + [c] == p {
          ParentOfChild(q, c);
        }
      }
    }
  }

  /** The entry at p is deleted and the entry at d (whose parent is a directory) takes
      its place: a rename of a file or of an empty directory. */
  function Relocate(m: Tree, s: Path, d: Path): (r: Tree)
    requires WellFormed(m) && s != [] && IsLeaf(m, s)
    requires d != [] && d !in m && IsDir(m, Parent(d)) && Parent(d) != s
    ensures WellFormed(r)
    ensures r.Keys == m.Keys - {s} + {d} && r[d] == m[s]
    ensures forall q | q in r && q != d && q != Parent(s) && q != Parent(d) :: r[q] == m[q]
    ensures forall q | q in m && q in r :: r[q].Dir? == m[q].Dir?
  {
    RemoveEntryWellFormed(m, s);
    var m1 := RemoveEntry(m, s);
    assert d != s && Parent(d) in m1;
    AddEntryWellFormed(m1, d, m[s]);
    AddEntry(m1, d, m[s])
  }

  // ---------------------------------------------------------------------
  // mkdirs

  /** No entry on the way to p (p included) is a plain file. */
  predicate NoFileOnPath(m: Tree, p: Path)
  {
    forall k | 0 <= k <= |p| :: p[..k] in m ==> m[p[..k]].Dir?
  }

  /** The effect of a successful File.mkdirs: every missing directory on the way to p. */
  function MakeDirs(m: Tree, p: Path): (r: Tree)
    requires WellFormed(m) && NoFileOnPath(m, p)
    ensures WellFormed(r) && IsDir(r, p)
    ensures m.Keys <= r.Keys
    ensures forall q | q in r && q !in m :: q <= p && r[q].Dir?
    ensures forall q | q in m :: r[q].Dir? == m[q].Dir? && (m[q].File? ==> r[q] == m[q])
    decreases |p|
  {
    assert p[..|p|] == p;
    if p == [] || p in m then m
    else
      var par := Parent(p);
      assert NoFileOnPath(m, par) by {
        forall k | 0 <= k <= |par| ensures par[..k] == p[..k] { }
      }
      var m1 := MakeDirs(m, par);
      AddEntryWellFormed(m1, p, Dir([]));
      AddEntry(m1, p, Dir([]))
  }

  // ---------------------------------------------------------------------
  // Frames: what an operation may add, remove or change

  /** Every entry that appears lies on the way to t or below it. */
  ghost predicate AddsOnlyAround(m: Tree, m': Tree, t: Path)
  {
    forall q | q in m' && q !in m :: q <= t || t <= q
  }

  /** Every entry that disappears is a plain file at or below s. */
  ghost predicate RemovesOnlyFilesBelow(m: Tree, m': Tree, s: Path)
  {
    forall q | q in m && q !in m' :: s <= q && m[q].File?
  }

  /** Every entry that disappears lies at or below p. */
  ghost predicate RemovesOnlyBelow(m: Tree, m': Tree, p: Path)
  {
    forall q | q in m && q !in m' :: p <= q
  }

  /** Surviving files are untouched and surviving directories stay directories. */
  ghost predicate KindsKept(m: Tree, m': Tree)
  {
    forall q | q in m && q in m' :: (m[q].File? ==> m'[q] == m[q]) && (m[q].Dir? ==> m'[q].Dir?)
  }
}
