/** The FileFilter implementations used to list a directory: files only, files whose name
    starts with a prefix, and entries whose name ends with an extension. */
module ListFilters {

  datatype ListFilter =
    | FileOnly
    | StartsWith(prefix: string)
    | Extension(suffix: string)

  /** ASCII upper case of one character; other characters are left alone. */
  function UpperChar(c: char): (u: char)
    ensures 'a' <= c <= 'z' ==> u as int == c as int - 32
    ensures !('a' <= c <= 'z') ==> u == c
    ensures !('a' <= u <= 'z')
  {
    if 'a' <= c <= 'z' then (c as int - 32) as char else c
  }

  /** String.toUpperCase, restricted to ASCII letters. */
  function Upper(s: string): (u: string)
    ensures |u| == |s|
    ensures forall i | 0 <= i < |s| :: u[i] == UpperChar(s[i])
  {
    if s == [] then [] else [UpperChar(s[0])] + Upper(s[1..])
  }

  predicate IsUpper(s: string)
  {
    forall i | 0 <= i < |s| :: !('a' <= s[i] <= 'z')
  }

  predicate EndsWith(s: string, suffix: string)
  {
    |suffix| <= |s| && s[|s| - |suffix|..] == suffix
  }

  /** new FileExtensionListFilter(ext): the extension is upper-cased and given a leading
      period when it has none. */
  function ExtensionFilter(ext: string): (f: ListFilter)
    ensures f.Extension? && |f.suffix| > 0 && f.suffix[0] == '.' && IsUpper(f.suffix)
    ensures |ext| > 0 && ext[0] == '.' ==> f.suffix == Upper(ext)
    ensures !(|ext| > 0 && ext[0] == '.') ==> f.suffix == "." + Upper(ext)
  {
    if |ext| > 0 && ext[0] == '.' then Extension(Upper(ext)) else Extension("." + Upper(ext))
  }

  /** accept(file), given the entry's name and whether it is a directory. */
  function Accept(f: ListFilter, name: string, isDirectory: bool): bool
  {
    match f
    case FileOnly => !isDirectory
    case StartsWith(prefix) => !isDirectory && prefix <= name
    case Extension(suffix) => EndsWith(Upper(name), suffix)
  }

  /** FileOnlyListFilter lists every file whatever its name, and no directory. */
  lemma FileOnlyAcceptsEveryFile(name: string)
    ensures Accept(FileOnly, name, false)
    ensures !Accept(FileOnly, name, true)
  {
  }

  /** FileStartsWithListFilter lists exactly the files whose name is the prefix followed by
      anything, the prefix itself included. */
  lemma StartsWithAcceptsPrefixed(prefix: string, name: string)
    ensures Accept(StartsWith(prefix), name, false) <==> exists rest :: name == prefix + rest
  {
    if Accept(StartsWith(prefix), name, false) {
      assert name == prefix + name[|prefix|..];
    }
  }

  /** FileExtensionListFilter lists exactly the entries whose name ends, ignoring case, with
      the normalised extension (period included). */
  lemma ExtensionAcceptsMatchingEnd(ext: string, name: string, isDirectory: bool)
    ensures var s := ExtensionFilter(ext).suffix;
      Accept(ExtensionFilter(ext), name, isDirectory) <==>
        |s| <= |name| && Upper(name[|name| - |s|..]) == s
  {
    var s := ExtensionFilter(ext).suffix;
    if |s| <= |name| {
      UpperSuffix(name, |name| - |s|);
    }
  }

  /** Upper case commutes with taking a suffix. */
  lemma UpperSuffix(name: string, i: nat)
    requires i <= |name|
    ensures Upper(name)[i..] == Upper(name[i..])
  {
  }

  /** Upper case is idempotent. */
  lemma {:induction false} UpperIdempotent(s: string)
    ensures Upper(Upper(s)) == Upper(s)
  {
    if s != [] {
      UpperIdempotent(s[1..]);
      assert Upper(s)[1..] == Upper(s[1..]);
    }
  }

  /** Upper distributes over concatenation. */
  lemma {:induction false} UpperAppend(a: string, b: string)
    ensures Upper(a + b) == Upper(a) + Upper(b)
  {
    if a != [] {
      assert (a + b)[1..] == a[1..] + b;
      UpperAppend(a[1..], b);
    }
  }

  /** The extension argument's case and leading period make no difference:
      "txt", ".txt", "TXT" and ".Txt" all give the same filter. */
  lemma ExtensionFilterNormalises(ext: string)
    ensures ExtensionFilter(ext) == ExtensionFilter("." + ext[if |ext| > 0 && ext[0] == '.' then 1 else 0..])
    ensures ExtensionFilter(ext) == ExtensionFilter(Upper(ext))
  {
    if |ext| > 0 && ext[0] == '.' {
      assert ext == "." + ext[1..];
    }
    UpperIdempotent(ext);
    UpperAppend(".", ext);
  }

  /** Extension matching ignores the case of the entry's name. */
  lemma ExtensionMatchIgnoresCase(ext: string, name: string, isDirectory: bool)
    ensures Accept(ExtensionFilter(ext), name, isDirectory) == Accept(ExtensionFilter(ext), Upper(name), isDirectory)
  {
    UpperIdempotent(name);
  }

  /** The extension filter does not look at the entry's kind: a directory named like the
      extension is accepted too. */
  lemma ExtensionAcceptsDirectories(ext: string, name: string)
    ensures Accept(ExtensionFilter(ext), name, true) == Accept(ExtensionFilter(ext), name, false)
  {
  }

  /** The period is part of the suffix matched: extension "txt" accepts a name ending in
      ".txt" in any case ... */
  lemma ExtensionNeedsPeriod(name: string)
    requires |name| >= 4 && Upper(name[|name| - 4..]) == ".TXT"
    ensures Accept(ExtensionFilter("txt"), name, false)
  {
    var f := ExtensionFilter("txt");
    assert Upper("txt") == "TXT";
    assert f.suffix == ".TXT";
    assert Upper(name)[|name| - 4..] == Upper(name[|name| - 4..]);
  }

  /** ... and refuses "atxt", which lacks it. */
  lemma ExtensionRefusesMissingPeriod()
    ensures !Accept(ExtensionFilter("txt"), "atxt", false)
  {
    var f := ExtensionFilter("txt");
    assert Upper("txt") == "TXT";
    assert f.suffix[0] == '.';
    assert Upper("atxt")[0] == 'A';
  }

  /** Every name starts with the empty prefix: StartsWith("") lists the same entries as
      FileOnly. */
  lemma EmptyPrefixIsFileOnly(name: string, isDirectory: bool)
    ensures Accept(StartsWith(""), name, isDirectory) == Accept(FileOnly, name, isDirectory)
  {
  }

  /** The prefix filter is case-sensitive. */
  lemma StartsWithIsCaseSensitive()
    ensures !Accept(StartsWith("Log"), "log1.txt", false)
    ensures Accept(StartsWith("Log"), "Log1.txt", false)
  {
    assert "Log"[0] != "log1.txt"[0];
    assert "Log" == "Log1.txt"[..3];
  }

  /** Both file filters refuse every directory. */
  lemma FileFiltersRefuseDirectories(f: ListFilter, name: string)
    requires !f.Extension?
    ensures !Accept(f, name, true)
  {
  }
}
