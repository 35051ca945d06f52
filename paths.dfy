/** Abstract canonical paths: a path is the sequence of names from the root.
    The root directory is the empty path. */
module Paths {

  type Name = string
  type Path = seq<Name>

  /** The platform file separator, fixed to "/" in this model. */
  const Separator: char := '/'

  function Parent(p: Path): (q: Path)
    requires p != []
    ensures q < p && |q| == |p| - 1
  {
    p[..|p| - 1]
  }

  function Last(p: Path): Name
    requires p != []
  {
    p[|p| - 1]
  }

  /** File.getName(): the last name of the path, "" for the root. */
  function BaseName(p: Path): Name
  {
    if p == [] then "" else Last(p)
  }

  /** Neither path is a prefix of (or equal to) the other: the two subtrees do not overlap. */
  predicate Disjoint(a: Path, b: Path)
  {
    !(a <= b) && !(b <= a)
  }

  lemma ParentOfChild(p: Path, n: Name)
    ensures p + [n] != [] && Parent(p + [n]) == p && Last(p + [n]) == n
  {
    assert (p + [n])[..|p|] == p;
  }

  /** Going one level down on both sides keeps two subtrees apart. */
  lemma DisjointChildren(a: Path, b: Path, n: Name, k: Name)
    requires Disjoint(a, b)
    ensures Disjoint(a + [n], b + [k])
  {
    if a + [n] <= b + [k] {
      ChildPrefix(a, b, n, k);
      assert false;
    }
    if b + [k] <= a + [n] {
      ChildPrefix(b, a, k, n);
      assert false;
    }
  }

  lemma ChildPrefix(a: Path, b: Path, n: Name, k: Name)
    requires a + [n] <= b + [k]
    ensures a <= b
  {
    assert (a + [n])[..|a|] == a;
    assert (b + [k])[..|a|] == b[..|a|];
  }

  /** A prefix of p + [n] is a prefix of p or the whole of p + [n]. */
  lemma PrefixOfChild(q: Path, p: Path, n: Name)
    ensures q <= p + [n] ==> q <= p || q == p + [n]
  {
    if q <= p + [n] && |q| <= |p| {
      assert (p + [n])[..|q|] == p[..|q|];
    }
  }

  /** Two prefixes of the same path are comparable. */
  lemma PrefixesComparable(a: Path, b: Path, q: Path)
    requires a <= q && b <= q
    ensures a <= b || b <= a
  {
    if |a| <= |b| {
      assert b[..|a|] == q[..|a|];
    } else {
      assert a[..|b|] == q[..|b|];
    }
  }

  /** The canonical path string: "/" for the root, "/n0/n1/..." otherwise. */
  function Canonical(p: Path): string
  {
    if p == [] then [Separator] else Joined(p)
  }

  function Joined(p: Path): (s: string)
    ensures p != [] ==> |s| > 0 && s[0] == Separator
  {
    if p == [] then "" else [Separator] + p[0] + Joined(p[1..])
  }

  /** String.contains: t occurs in s as a contiguous substring. */
  predicate Contains(s: string, t: string)
  {
    exists i | 0 <= i <= |s| - |t| :: OccursAt(s, t, i)
  }

  predicate OccursAt(s: string, t: string, i: int)
    requires 0 <= i <= |s| - |t|
  {
    s[i..i + |t|] == t
  }

  lemma {:induction false} JoinedAppend(a: Path, b: Path)
    ensures Joined(a + b) == Joined(a) + Joined(b)
  {
    if a == [] {
      assert a + b == b;
    } else {
      assert (a + b)[0] == a[0];
      assert (a + b)[1..] == a[1..] + b;
      JoinedAppend(a[1..], b);
    }
  }

  /** If a is an ancestor of (or equal to) b, b's canonical string contains a's. */
  lemma CanonicalOfDescendant(a: Path, b: Path)
    requires a <= b
    ensures Contains(Canonical(b), Canonical(a))
  {
    if a == [] {
      assert OccursAt(Canonical(b), Canonical(a), 0);
    } else {
      assert b == a + b[|a|..];
      JoinedAppend(a, b[|a|..]);
      assert OccursAt(Canonical(b), Canonical(a), 0);
    }
  }
}
