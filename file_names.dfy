/** The string helpers of the file utilities: splitting a file name at its last period
    and sanitising a string for use as a file name. */
module FileNames {
  import opened Paths

  const Period: char := '.'
  const Replacement: char := '_'

  /** String.lastIndexOf(c): the index of the last occurrence of c, or -1. */
  function LastIndexOf(s: string, c: char): (i: int)
    ensures -1 <= i < |s|
    ensures i == -1 <==> c !in s
    ensures i >= 0 ==> s[i] == c && c !in s[i + 1..]
  {
    if s == [] then -1
    else if s[|s| - 1] == c then |s| - 1
    else
      var i := LastIndexOf(s[..|s| - 1], c);
      assert s == s[..|s| - 1] + [s[|s| - 1]];
      assert i >= 0 ==> s[i + 1..] == s[..|s| - 1][i + 1..] + [s[|s| - 1]];
      i
  }

  /** getFilename(file, includeExtension): the entry's name, without the part from its
      last period on when includeExtension is false. */
  function GetFilename(p: Path, includeExtension: bool): (r: string)
    ensures r <= BaseName(p)
  {
    var name := BaseName(p);
    var dot := LastIndexOf(name, Period);
    if !includeExtension && dot != -1 then name[..dot] else name
  }

  /** getFileExtension(file, includePeriod): the part of the entry's name after its last
      period (from the period on when includePeriod is true); "" without a period. */
  function GetFileExtension(p: Path, includePeriod: bool): (r: string)
    ensures EndsWithSeq(BaseName(p), r)
  {
    var name := BaseName(p);
    var dot := LastIndexOf(name, Period);
    if dot != -1 then
      var start := if includePeriod then dot else dot + 1;
      name[start..]
    else ""
  }

  predicate EndsWithSeq(s: string, t: string)
  {
    |t| <= |s| && s[|s| - |t|..] == t
  }

  /** The characters sanitizeStringForFilename keeps: ASCII letters and digits, '-', '_'
      and '.'. */
  predicate Allowed(c: char)
  {
    ('a' <= c <= 'z') || ('A' <= c <= 'Z') || ('0' <= c <= '9') || c == '-' || c == '_' || c == '.'
  }

  /** sanitizeStringForFilename: every character that is not allowed becomes '_'. */
  function Sanitize(s: string): (r: string)
    ensures |r| == |s|
    ensures forall i | 0 <= i < |s| :: r[i] == (if Allowed(s[i]) then s[i] else Replacement)
  {
    if s == [] then [] else [if Allowed(s[0]) then s[0] else Replacement] + Sanitize(s[1..])
  }

  // ---------------------------------------------------------------------
  // Properties

  /** The name without its extension, followed by the extension with its period, is the
      whole name. */
  lemma SplitRoundTrip(p: Path)
    ensures GetFilename(p, false) + GetFileExtension(p, true) == BaseName(p)
    ensures GetFilename(p, true) == BaseName(p)
  {
    var name := BaseName(p);
    var dot := LastIndexOf(name, Period);
    if dot != -1 {
      assert name == name[..dot] + name[dot..];
    }
  }

  /** With a period, the two forms of the extension differ by exactly that period;
      without one, both are empty and the name is returned whole. */
  lemma ExtensionForms(p: Path)
    ensures Period in BaseName(p) ==> GetFileExtension(p, true) == [Period] + GetFileExtension(p, false)
    ensures Period !in BaseName(p) ==>
      GetFileExtension(p, true) == "" && GetFileExtension(p, false) == "" && GetFilename(p, false) == BaseName(p)
  {
    var name := BaseName(p);
    var dot := LastIndexOf(name, Period);
    if dot != -1 {
      assert name[dot..] == [name[dot]] + name[dot + 1..];
    }
  }

  /** The extension (without its period) contains no period: the split is at the last one. */
  lemma ExtensionHasNoPeriod(p: Path)
    ensures Period !in GetFileExtension(p, false)
  {
  }

  /** The split is at the last of several periods. */
  lemma SplitAtLastPeriod()
    ensures GetFileExtension(["home", "archive.tar.gz"], false) == "gz"
    ensures GetFilename(["home", "archive.tar.gz"], false) == "archive.tar"
  {
    var a := "archive.tar.gz";
    assert LastIndexOf(a, Period) == 11 by {
      assert a[11] == '.' && a[12..] == "gz";
    }
  }

  /** A hidden file's whole name is its extension, and its name without extension is empty. */
  lemma SplitHiddenFile()
    ensures GetFileExtension(["home", ".bashrc"], true) == ".bashrc"
    ensures GetFilename(["home", ".bashrc"], false) == ""
  {
    var b := ".bashrc";
    assert BaseName(["home", b]) == b;
    assert Period !in b[1..] by {
      assert b[1..] == "bashrc";
    }
    assert LastIndexOf(b, Period) == 0;
  }

  /** The root has an empty name and no extension. */
  lemma SplitRoot()
    ensures GetFileExtension([], true) == "" && GetFilename([], false) == ""
  {
    assert BaseName([]) == "";
  }

  /** Sanitising leaves only allowed characters and changes exactly the others. */
  lemma SanitizeOnlyAllowed(s: string)
    ensures forall i | 0 <= i < |Sanitize(s)| :: Allowed(Sanitize(s)[i])
  {
  }

  /** The strings sanitising leaves as they are are exactly the strings of allowed
      characters; in particular sanitising twice is sanitising once. */
  lemma SanitizeFixedPoints(s: string)
    ensures Sanitize(s) == s <==> forall i | 0 <= i < |s| :: Allowed(s[i])
    ensures Sanitize(Sanitize(s)) == Sanitize(s)
  {
    if Sanitize(s) == s {
      forall i | 0 <= i < |s| ensures Allowed(s[i]) {
        assert Sanitize(s)[i] == s[i];
      }
    }
  }

  /** A sanitised string is usable as a single name: it holds no file separator and no
      space, has the original length, and keeps every period where it was. */
  lemma SanitizeIsOneName(s: string)
    ensures Separator !in Sanitize(s) && ' ' !in Sanitize(s)
    ensures forall i | 0 <= i < |s| && s[i] == Period :: Sanitize(s)[i] == Period
  {
    SanitizeOnlyAllowed(s);
  }
}
