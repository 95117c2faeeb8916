/**
 * What `CmpName` promises in each mode, proved about the function `CmpName`.
 */
module NameCompareFacts {
  import opened CaseFold
  import opened PathFn
  import opened Wildcard
  import opened WildcardFacts
  import opened NameCompare

  /** A separator-free string is its own base name and has no directory. */
  lemma NoSeparator(s: seq<char>)
    requires NoPathDiv(s)
    ensures GetFilePath(s) == [] && PointToName(s) == s
  {
    SplitPathUnique([], s);
    assert [] + s == s;
  }

  /** A temporary-file base name has at least six characters. */
  lemma RarTempIsLong(upper: char -> char, base: seq<char>)
    ensures IsRarTemp(upper, base) ==> |base| >= 6
  {
    StrNEqualWhole(upper, RarTempPrefix, base, false);
  }

  /** For every mode but NAMES, EXACT and EXACTPATH, a mask that is a prefix
      of the name ending on a path boundary matches; otherwise a SUBPATHONLY
      mask that is a prefix of the name does not. */
  lemma PrefixAtBoundary(upper: char -> char, wild: seq<char>, name: seq<char>, mode: CmpMode)
    requires mode.base != Names && mode.base != Exact && mode.base != ExactPath
    requires IsPrefixOf(upper, wild, name, mode.forceCase)
    ensures |wild| <= |name|
    ensures EndsComponent(name, |wild|) ==> CmpName(upper, wild, name, mode)
    ensures !EndsComponent(name, |wild|) && mode.base == SubPathOnly ==> !CmpName(upper, wild, name, mode)
  {
    StrNEqualWhole(upper, wild, name, mode.forceCase);
  }

  /** SUBPATHONLY fails only for a prefix that stops inside a component;
      otherwise it is decided by the prefix test or by the base names. */
  lemma SubPathOnlyMode(upper: char -> char, wild: seq<char>, name: seq<char>, forceCase: bool)
    ensures CmpName(upper, wild, name, CmpMode(SubPathOnly, forceCase))
        <==> if IsPrefixOf(upper, wild, name, forceCase) then EndsComponent(name, |wild|)
             else !IsRarTemp(upper, PointToName(name)) && Match(upper, PointToName(wild), PointToName(name), forceCase)
  {
  }

  /** NAMES mode ignores the directories: the base names are matched unless
      the name's base is a temporary file. */
  lemma NamesMode(upper: char -> char, wild: seq<char>, name: seq<char>, forceCase: bool)
    ensures CmpName(upper, wild, name, CmpMode(Names, forceCase))
        <==> !IsRarTemp(upper, PointToName(name)) && Match(upper, PointToName(wild), PointToName(name), forceCase)
  {
  }

  /** In NAMES mode a mask and a name without separators are matched
      whole. */
  lemma NamesModeSingleComponent(upper: char -> char, wild: seq<char>, name: seq<char>, forceCase: bool)
    requires NoPathDiv(wild) && NoPathDiv(name)
    ensures CmpName(upper, wild, name, CmpMode(Names, forceCase))
        <==> !IsRarTemp(upper, name) && Match(upper, wild, name, forceCase)
  {
    NamesMode(upper, wild, name, forceCase);
    assert PointToName(wild) == wild by { NoSeparator(wild); }
    assert PointToName(name) == name by { NoSeparator(name); }
  }

  /** In NAMES mode the empty mask matches exactly the names whose base name
      is empty. */
  lemma NamesEmptyMask(upper: char -> char, name: seq<char>, forceCase: bool)
    ensures CmpName(upper, "", name, CmpMode(Names, forceCase)) <==> PointToName(name) == []
  {
    NamesMode(upper, "", name, forceCase);
    NoSeparator("");
    RarTempIsLong(upper, PointToName(name));
  }

  /** In NAMES mode `*` matches every name but a temporary file. */
  lemma NamesStar(upper: char -> char, name: seq<char>, forceCase: bool)
    requires forceCase || PreservesMeta(upper)
    ensures CmpName(upper, "*", name, CmpMode(Names, forceCase)) <==> !IsRarTemp(upper, PointToName(name))
  {
    var base := PointToName(name);
    NoSeparator("*");
    NamesMode(upper, "*", name, forceCase);
    TrailingStar(upper, base, forceCase);
    assert Match(upper, PointToName("*"), base, forceCase);
  }

  /** In NAMES mode `?` matches exactly the names whose base name has one
      character. */
  lemma NamesQuestion(upper: char -> char, name: seq<char>, forceCase: bool)
    requires forceCase || PreservesMeta(upper)
    ensures CmpName(upper, "?", name, CmpMode(Names, forceCase)) <==> |PointToName(name)| == 1
  {
    NamesMode(upper, "?", name, forceCase);
    NoSeparator("?");
    RarTempIsLong(upper, PointToName(name));
    QuestionMark(upper, [], PointToName(name), forceCase);
  }

  /** EXACT mode: directories and base names are both equal under the case
      policy, so the whole paths are, and the name is not a temporary file. */
  lemma ExactMode(upper: char -> char, wild: seq<char>, name: seq<char>, forceCase: bool)
    ensures CmpName(upper, wild, name, CmpMode(Exact, forceCase))
        <==> StrEqual(upper, GetFilePath(wild), GetFilePath(name), forceCase)
             && StrEqual(upper, PointToName(wild), PointToName(name), forceCase)
             && !IsRarTemp(upper, PointToName(name))
    ensures CmpName(upper, wild, name, CmpMode(Exact, forceCase)) ==> StrEqual(upper, wild, name, forceCase)
  {
    if CmpName(upper, wild, name, CmpMode(Exact, forceCase)) {
      SplitPath(wild);
      SplitPath(name);
      StrEqualAppend(upper, GetFilePath(wild), PointToName(wild), GetFilePath(name), PointToName(name), forceCase);
    }
  }

  /** EXACT mode with case forced is literal equality of the paths, except
      that a temporary file never matches. */
  lemma ExactModeForced(upper: char -> char, wild: seq<char>, name: seq<char>)
    ensures CmpName(upper, wild, name, CmpMode(Exact, true)) <==> wild == name && !IsRarTemp(upper, PointToName(name))
  {
    ExactMode(upper, wild, name, true);
    StrEqualProperties(upper, wild, name, wild, true);
    StrEqualProperties(upper, GetFilePath(wild), GetFilePath(name), wild, true);
    StrEqualProperties(upper, PointToName(wild), PointToName(name), wild, true);
  }

  /** EXACTPATH mode: equal directories, then the base names are matched. */
  lemma ExactPathMode(upper: char -> char, wild: seq<char>, name: seq<char>, forceCase: bool)
    ensures CmpName(upper, wild, name, CmpMode(ExactPath, forceCase))
        <==> StrEqual(upper, GetFilePath(wild), GetFilePath(name), forceCase)
             && !IsRarTemp(upper, PointToName(name))
             && Match(upper, PointToName(wild), PointToName(name), forceCase)
  {
  }

  /** SUBPATH with a mask directory free of wildcards: past the prefix test,
      the mask directory must be a prefix of the name directory (an empty one
      always is) and the base names are matched. */
  lemma SubPathLiteralDirectory(upper: char -> char, wild: seq<char>, name: seq<char>, forceCase: bool)
    requires !IsWildcard(GetFilePath(wild))
    ensures CmpName(upper, wild, name, CmpMode(SubPath, forceCase))
        <==> PrefixAccepts(upper, wild, name, CmpMode(SubPath, forceCase))
             || ((GetFilePath(wild) == [] || IsPrefixOf(upper, GetFilePath(wild), GetFilePath(name), forceCase))
                 && !IsRarTemp(upper, PointToName(name))
                 && Match(upper, PointToName(wild), PointToName(name), forceCase))
  {
  }

  /** A mask directory with wildcards makes SUBPATH and WILDSUBPATH match the
      whole mask against the whole name, once the prefix test has failed. */
  lemma WildDirectoryMatchesWholePath(upper: char -> char, wild: seq<char>, name: seq<char>, mode: CmpMode)
    requires mode.base == SubPath || mode.base == WildSubPath
    requires IsWildcard(GetFilePath(wild))
    ensures CmpName(upper, wild, name, mode)
        <==> PrefixAccepts(upper, wild, name, mode) || Match(upper, wild, name, mode.forceCase)
  {
  }

  /** WILDSUBPATH behaves as SUBPATH for a mask with wildcards... */
  lemma WildSubPathWithWildcards(upper: char -> char, wild: seq<char>, name: seq<char>, forceCase: bool)
    requires IsWildcard(wild)
    ensures CmpName(upper, wild, name, CmpMode(WildSubPath, forceCase))
        == CmpName(upper, wild, name, CmpMode(SubPath, forceCase))
  {
  }

  /** ...and, for a mask without them, as EXACTPATH once the prefix test has
      failed. */
  lemma WildSubPathWithoutWildcards(upper: char -> char, wild: seq<char>, name: seq<char>, forceCase: bool)
    requires !IsWildcard(wild)
    ensures CmpName(upper, wild, name, CmpMode(WildSubPath, forceCase))
        <==> PrefixAccepts(upper, wild, name, CmpMode(WildSubPath, forceCase))
             || CmpName(upper, wild, name, CmpMode(ExactPath, forceCase))
  {
    SplitPath(wild);
    assert !IsWildcard(GetFilePath(wild)) by {
      assert forall i :: 0 <= i < |GetFilePath(wild)| ==> GetFilePath(wild)[i] == wild[i];
    }
  }

  /** A temporary-file base name never matches, except through the early
      returns before the exclusion: the prefix-boundary success, or a
      SUBPATH/WILDSUBPATH mask whose directory has wildcards and is matched
      as a whole against the whole name. */
  lemma RarTempExcluded(upper: char -> char, wild: seq<char>, name: seq<char>, mode: CmpMode)
    requires IsRarTemp(upper, PointToName(name))
    requires CmpName(upper, wild, name, mode)
    ensures PrefixAccepts(upper, wild, name, mode)
         || ((mode.base == SubPath || mode.base == WildSubPath)
             && IsWildcard(GetFilePath(wild)) && Match(upper, wild, name, mode.forceCase))
  {
  }

  /** The prefix-boundary success lets a temporary file through. */
  lemma RarTempBypassByPrefix()
    ensures IsRarTemp(UnixUpper, PointToName("dir/__rar_x"))
    ensures CmpName(UnixUpper, "dir", "dir/__rar_x", CmpMode(SubPath, true))
  {
    var name := "dir/__rar_x";
    SplitPathUnique("dir/", "__rar_x");
    assert "dir/" + "__rar_x" == name;
    StrNEqualWholeExact(UnixUpper, RarTempPrefix, "__rar_x", false);
    assert "__rar_x"[..6] == RarTempPrefix;
    StrNEqualWholeExact(UnixUpper, "dir", name, true);
    assert name[..3] == "dir";
  }

  /** So does a wildcard in the mask's directory, which matches the whole
      mask against the whole name. */
  lemma RarTempBypassByWildDirectory()
    ensures IsRarTemp(UnixUpper, PointToName("a/__rar_x"))
    ensures CmpName(UnixUpper, "*/*", "a/__rar_x", CmpMode(WildSubPath, true))
  {
    var name := "a/__rar_x";
    SplitPathUnique("a/", "__rar_x");
    assert "a/" + "__rar_x" == name;
    StrNEqualWholeExact(UnixUpper, RarTempPrefix, "__rar_x", false);
    assert "__rar_x"[..6] == RarTempPrefix;
    SplitPathUnique("*/", "*");
    assert "*/" + "*" == "*/*";
    assert IsWildcard("*/");
    StarRetry(UnixUpper, "/*", name, true);
    assert ['*'] + "/*" == "*/*";
    assert name[1..] == "/__rar_x" && "/__rar_x"[1..] == "__rar_x" && "/*"[1..] == "*";
    TrailingStar(UnixUpper, "__rar_x", true);
    assert Match(UnixUpper, "/*", name[1..], true);
  }

  /** SUBPATH with a mask that has no directory part: the prefix test, or the
      whole mask matched against the name's base name with temporary files
      excluded. */
  lemma SubPathSingleComponentMask(upper: char -> char, wild: seq<char>, name: seq<char>, forceCase: bool)
    requires GetFilePath(wild) == []
    ensures CmpName(upper, wild, name, CmpMode(SubPath, forceCase))
        <==> PrefixAccepts(upper, wild, name, CmpMode(SubPath, forceCase))
             || (!IsRarTemp(upper, PointToName(name)) && Match(upper, wild, PointToName(name), forceCase))
  {
    assert PointToName(wild) == wild;
    SubPathLiteralDirectory(upper, wild, name, forceCase);
  }

  /** SUBPATH with a plain mask that holds no separator, wildcard or `.`,
      case forced: the mask names a leading directory (or the whole path) of
      the name, or it equals the name's base name. */
  lemma LiteralSubPathMask(upper: char -> char, wild: seq<char>, name: seq<char>)
    requires IsLiteral(wild)
    requires NoPathDiv(wild)
    ensures CmpName(upper, wild, name, CmpMode(SubPath, true))
        <==> (|wild| <= |name| && name[..|wild|] == wild && EndsComponent(name, |wild|))
             || (PointToName(name) == wild && !IsRarTemp(upper, PointToName(name)))
  {
    assert GetFilePath(wild) == [] by { NoSeparator(wild); }
    SubPathSingleComponentMask(upper, wild, name, true);
    StrNEqualWholeExact(upper, wild, name, true);
    LiteralMatch(upper, wild, PointToName(name), true);
    StrEqualProperties(upper, wild, PointToName(name), wild, true);
  }

  /** SUBPATH: a directory mask matches the paths below that directory... */
  lemma SubPathDirectoryExample()
    ensures CmpName(UnixUpper, "dir1", "dir1/dir2/file.txt", CmpMode(SubPath, true))
  {
    var name := "dir1/dir2/file.txt";
    StrNEqualWholeExact(UnixUpper, "dir1", name, true);
    assert name[..4] == "dir1" && name[4] == '/';
    PrefixAtBoundary(UnixUpper, "dir1", name, CmpMode(SubPath, true));
  }

  /** ...and only them: it names a leading directory, not a leading text. */
  lemma SubPathSiblingExample()
    ensures !CmpName(UnixUpper, "dir1", "dir11/file.txt", CmpMode(SubPath, true))
  {
    SplitPathUnique("dir11/", "file.txt");
    assert "dir11/" + "file.txt" == "dir11/file.txt";
    StrEqualProperties(UnixUpper, "dir1", "file.txt", "dir1", true);
    SubPathRejectsLongerComponent(UnixUpper, "dir1", "dir11/file.txt", true);
  }

  /** Without the force-case bit the base name compares under the platform
      upper-casing: `DIR1` matches `dir11/dir1` through its base name. */
  lemma SubPathFoldedBaseExample()
    ensures CmpName(AsciiUpper, "DIR1", "dir11/dir1", CmpMode(SubPath, false))
  {
    AsciiUpperPreservesMeta();
    SplitPathUnique("dir11/", "dir1");
    assert "dir11/" + "dir1" == "dir11/dir1";
    assert GetFilePath("DIR1") == [] by { NoSeparator("DIR1"); }
    RarTempIsLong(AsciiUpper, "dir1");
    assert Match(AsciiUpper, "DIR1", "dir1", false) by {
      LiteralMatch(AsciiUpper, "DIR1", "dir1", false);
    }
    SubPathSingleComponentMask(AsciiUpper, "DIR1", "dir11/dir1", false);
  }

  /** A plain SUBPATH mask that the first component of the name extends does
      not match, unless it compares equal to the base name under the case
      policy. */
  lemma SubPathRejectsLongerComponent(upper: char -> char, wild: seq<char>, name: seq<char>, forceCase: bool)
    requires forceCase || PreservesMeta(upper)
    requires IsLiteral(wild) && NoPathDiv(wild)
    requires |wild| < |name| && !IsPathDiv(name[|wild|])
    requires !StrEqual(upper, wild, PointToName(name), forceCase)
    ensures !CmpName(upper, wild, name, CmpMode(SubPath, forceCase))
  {
    assert GetFilePath(wild) == [] by { NoSeparator(wild); }
    assert !Match(upper, wild, PointToName(name), forceCase) by {
      LiteralMatch(upper, wild, PointToName(name), forceCase);
    }
    SubPathSingleComponentMask(upper, wild, name, forceCase);
  }

  /** EXACT compares whole paths. */
  lemma ExactExamples()
    ensures CmpName(UnixUpper, "a/b.txt", "a/b.txt", CmpMode(Exact, true))
    ensures !CmpName(UnixUpper, "a/b.txt", "a/c.txt", CmpMode(Exact, true))
  {
    ExactModeForced(UnixUpper, "a/b.txt", "a/b.txt");
    ExactModeForced(UnixUpper, "a/b.txt", "a/c.txt");
    SplitPathUnique("a/", "b.txt");
    assert "a/" + "b.txt" == "a/b.txt";
    RarTempIsLong(UnixUpper, "b.txt");
  }

  /** A temporary file is hidden from `*` in NAMES mode. */
  lemma NamesHidesRarTemp()
    ensures !CmpName(UnixUpper, "*", "__rar_tmp", CmpMode(Names, true))
  {
    NamesStar(UnixUpper, "__rar_tmp", true);
    NoSeparator("__rar_tmp");
    StrNEqualWholeExact(UnixUpper, RarTempPrefix, "__rar_tmp", false);
    assert "__rar_tmp"[..6] == RarTempPrefix;
  }

  /** Without the force-case bit the platform upper-casing decides; with it
      the comparison is exact. */
  lemma CaseExamples()
    ensures CmpName(AsciiUpper, "ABC", "abc", CmpMode(Names, false))
    ensures !CmpName(AsciiUpper, "ABC", "abc", CmpMode(Names, true))
  {
    AsciiUpperPreservesMeta();
    assert NoPathDiv("ABC") && NoPathDiv("abc");
    NamesModeSingleComponent(AsciiUpper, "ABC", "abc", false);
    NamesModeSingleComponent(AsciiUpper, "ABC", "abc", true);
    RarTempIsLong(AsciiUpper, "abc");
    assert Match(AsciiUpper, "ABC", "abc", false) by {
      LiteralMatch(AsciiUpper, "ABC", "abc", false);
    }
    assert !Match(AsciiUpper, "ABC", "abc", true) by {
      LiteralMatch(AsciiUpper, "ABC", "abc", true);
      StrEqualProperties(AsciiUpper, "ABC", "abc", "abc", true);
    }
    assert StrEqual(AsciiUpper, "ABC", "abc", false);
  }

  /** In NAMES mode an extension mask `*.ext` facing a name with exactly one
      `.` selects by extension: it matches when the text after the `.` equals
      `ext` under the case policy (so `*.txt` matches `report.txt` and, by
      default, `report.TXT`). */
  lemma NamesExtensionMask(upper: char -> char, ext: seq<char>, stem: seq<char>, x: seq<char>, forceCase: bool)
    requires forceCase || PreservesMeta(upper)
    requires ext != [] && !IsWildcard(ext) && NoPathDiv(ext)
    requires '.' !in stem && '.' !in x && NoPathDiv(stem) && NoPathDiv(x)
    requires !IsRarTemp(upper, stem + ['.'] + x)
    ensures CmpName(upper, ['*', '.'] + ext, stem + ['.'] + x, CmpMode(Names, forceCase)) <==> StrEqual(upper, ext, x, forceCase)
  {
    var mask, name := ['*', '.'] + ext, stem + ['.'] + x;
    OneDotExtension(upper, ext, stem, x, forceCase);
    assert NoPathDiv(mask) by {
      forall i | 0 <= i < |mask| ensures !IsPathDiv(mask[i]) {
        if i >= 2 { assert mask[i] == ext[i - 2]; }
      }
    }
    assert NoPathDiv(name) by {
      forall i | 0 <= i < |name| ensures !IsPathDiv(name[i]) {
        if i < |stem| { assert name[i] == stem[i]; }
        else if i > |stem| { assert name[i] == x[i - |stem| - 1]; }
      }
    }
    NamesModeSingleComponent(upper, mask, name, forceCase);
  }

  /** `*.txt` selects by extension, case-insensitively by default. */
  lemma ExtensionExamples()
    ensures CmpName(AsciiUpper, "*.txt", "report.txt", CmpMode(Names, false))
    ensures CmpName(AsciiUpper, "*.txt", "report.TXT", CmpMode(Names, false))
  {
    AsciiUpperPreservesMeta();
    assert "report.txt" == "report" + ['.'] + "txt" && "report.TXT" == "report" + ['.'] + "TXT";
    assert ['*', '.'] + "txt" == "*.txt";
    RarTempIsLong(AsciiUpper, "report.txt");
    RarTempIsLong(AsciiUpper, "report.TXT");
    assert !IsRarTemp(AsciiUpper, "report.txt") && !IsRarTemp(AsciiUpper, "report.TXT");
    NamesExtensionMask(AsciiUpper, "txt", "report", "txt", false);
    NamesExtensionMask(AsciiUpper, "txt", "report", "TXT", false);
    StrEqualProperties(AsciiUpper, "txt", "txt", "txt", false);
    assert StrEqual(AsciiUpper, "txt", "TXT", false);
  }

  /** A name without that extension does not match. */
  lemma MissingExtensionExample()
    ensures !CmpName(AsciiUpper, "*.txt", "report", CmpMode(Names, false))
  {
    var s := "report";
    AsciiUpperPreservesMeta();
    NoSeparator("*.txt");
    NoSeparator(s);
    assert ['*'] + ".txt" == "*.txt";
    StarRetry(AsciiUpper, ".txt", s, false);
    forall i | 0 <= i < |s| ensures !Match(AsciiUpper, ".txt", s[i..], false) {
      assert ".txt" == ['.'] + "txt";
      LiteralMismatchFails(AsciiUpper, '.', "txt", s[i..], false);
    }
  }

  /** `*.` selects the names without an extension... */
  lemma NoExtensionExamples()
    ensures CmpName(AsciiUpper, "*.", "report", CmpMode(Names, false))
    ensures !CmpName(AsciiUpper, "*.", "report.txt", CmpMode(Names, false))
  {
    NoExtensionAccepts();
    NoExtensionRejects();
  }

  /** ...accepting a name without a `.`... */
  lemma NoExtensionAccepts()
    ensures CmpName(AsciiUpper, "*.", "report", CmpMode(Names, false))
  {
    AsciiUpperPreservesMeta();
    assert NoPathDiv("*.") && NoPathDiv("report");
    NamesModeSingleComponent(AsciiUpper, "*.", "report", false);
    RarTempIsLong(AsciiUpper, "report");
    assert Match(AsciiUpper, "*.", "report", false) by {
      StarDot(AsciiUpper, "report", false);
    }
  }

  /** ...and rejecting one whose `.` is not its last character. */
  lemma NoExtensionRejects()
    ensures !CmpName(AsciiUpper, "*.", "report.txt", CmpMode(Names, false))
  {
    var s := "report.txt";
    AsciiUpperPreservesMeta();
    assert NoPathDiv("*.") && NoPathDiv(s);
    NamesModeSingleComponent(AsciiUpper, "*.", s, false);
    assert !Match(AsciiUpper, "*.", s, false) by {
      assert s[6] == '.' && '.' in s && s[|s| - 1] != '.';
      StarDot(AsciiUpper, s, false);
    }
  }
}
