/**
 * What `match` promises, proved about the function `Match`.
 *
 * Lemmas whose mask names a meta character require `forceCase ||
 * PreservesMeta(upper)`: the switch of `match` is on the folded mask
 * character, so a platform upper-casing that turned some letter into `*`
 * would change what that letter means.
 */
module WildcardFacts {
  import opened Wrappers
  import opened CaseFold
  import opened PathFn
  import opened Wildcard

  /** A mask made of ordinary characters only. */
  predicate IsLiteral(p: seq<char>)
  {
    forall i :: 0 <= i < |p| ==> p[i] != '*' && p[i] != '?' && p[i] != '.'
  }

  /** An exhausted mask matches only an exhausted name. */
  lemma EmptyMask(upper: char -> char, s: seq<char>, forceCase: bool)
    ensures Match(upper, [], s, forceCase) <==> s == []
  {
  }

  /** `?` consumes exactly one name character and fails on an exhausted name;
      alone it matches exactly the one-character names. */
  lemma QuestionMark(upper: char -> char, q: seq<char>, s: seq<char>, forceCase: bool)
    requires forceCase || PreservesMeta(upper)
    ensures Match(upper, ['?'] + q, s, forceCase) <==> s != [] && Match(upper, q, s[1..], forceCase)
    ensures Match(upper, ['?'], s, forceCase) <==> |s| == 1
  {
    FoldMeta(upper, '?', forceCase);
    assert (['?'] + q)[1..] == q;
  }

  /** A `*` that ends the mask, and a remaining mask of exactly `*.*`, match
      any rest of the name. */
  lemma TrailingStar(upper: char -> char, s: seq<char>, forceCase: bool)
    requires forceCase || PreservesMeta(upper)
    ensures Match(upper, ['*'], s, forceCase)
    ensures Match(upper, ['*', '.', '*'], s, forceCase)
  {
    FoldMeta(upper, '*', forceCase);
    assert ['*', '.', '*'][1..][1..] == ['*'];
  }

  /** The retry loop tries exactly the non-empty suffixes. */
  lemma {:induction false} AnySuffixIsNonEmptySuffix(upper: char -> char, q: seq<char>, t: seq<char>, forceCase: bool)
    ensures AnySuffix(upper, q, t, forceCase) <==> exists i :: 0 <= i < |t| && Match(upper, q, t[i..], forceCase)
  {
    if t != [] {
      AnySuffixIsNonEmptySuffix(upper, q, t[1..], forceCase);
      assert forall i :: 1 <= i < |t| ==> t[1..][i - 1..] == t[i..];
      assert t[0..] == t;
      if exists i :: 0 <= i < |t| && Match(upper, q, t[i..], forceCase) {
        var i :| 0 <= i < |t| && Match(upper, q, t[i..], forceCase);
        if i > 0 {
          assert Match(upper, q, t[1..][i - 1..], forceCase);
        }
      }
    }
  }

  /** A `*` that no fast path resolves (the rest of the mask does not start
      with `.`, or the name has no `.` and the rest is neither `.` nor `.*`)
      matches when the rest of the mask matches some non-empty suffix of the
      name: the empty suffix is never tried. */
  lemma StarRetry(upper: char -> char, q: seq<char>, s: seq<char>, forceCase: bool)
    requires forceCase || PreservesMeta(upper)
    requires q != []
    requires q[0] == '.' ==> '.' !in s && q != ['.'] && q != ['.', '*']
    ensures Match(upper, ['*'] + q, s, forceCase) <==> exists i :: 0 <= i < |s| && Match(upper, q, s[i..], forceCase)
  {
    FoldMeta(upper, '*', forceCase);
    assert (['*'] + q)[1..] == q;
    assert q == [q[0]] + q[1..];
    AnySuffixIsNonEmptySuffix(upper, q, s, forceCase);
  }

  /** A `*` followed by a `.` mask that no fast path resolves, facing a name
      whose first `.` is at `d`: the retry starts at that `.`, so the rest of
      the mask must match a suffix of the name from `d` on. */
  lemma StarRetryFromDot(upper: char -> char, q: seq<char>, s: seq<char>, d: nat, forceCase: bool)
    requires forceCase || PreservesMeta(upper)
    requires q != [] && q[0] == '.' && q != ['.'] && q != ['.', '*']
    requires d < |s| && s[d] == '.' && '.' !in s[..d]
    requires IsWildcard(q) || '.' in s[d + 1..]
    ensures Match(upper, ['*'] + q, s, forceCase) <==> exists i :: d <= i < |s| && Match(upper, q, s[i..], forceCase)
  {
    FoldMeta(upper, '*', forceCase);
    assert q == [q[0]] + q[1..];
    assert s[d] in s;
    assert IndexOf(s, '.') == Some(d);
    assert s[d..][1..] == s[d + 1..];
    assert Match(upper, ['*'] + q, s, forceCase) == AnySuffix(upper, q, s[d..], forceCase);
    AnySuffixFrom(upper, q, s, d, forceCase);
  }

  /** The retry started at index `d` tries exactly the suffixes from `d` on. */
  lemma AnySuffixFrom(upper: char -> char, q: seq<char>, s: seq<char>, d: nat, forceCase: bool)
    requires d <= |s|
    ensures AnySuffix(upper, q, s[d..], forceCase) <==> exists i :: d <= i < |s| && Match(upper, q, s[i..], forceCase)
  {
    var t := s[d..];
    AnySuffixIsNonEmptySuffix(upper, q, t, forceCase);
    forall j | 0 <= j < |t| ensures t[j..] == s[d + j..] {
    }
    if exists i :: d <= i < |s| && Match(upper, q, s[i..], forceCase) {
      var i :| d <= i < |s| && Match(upper, q, s[i..], forceCase);
      assert t[i - d..] == s[i..];
    }
  }

  /** On an exhausted name a `*` succeeds only through the fast paths `*`, `*.`
      and `*.*`; in particular `**` does not match the empty name. */
  lemma StarOnEmptyName(upper: char -> char, q: seq<char>, forceCase: bool)
    requires forceCase || PreservesMeta(upper)
    ensures Match(upper, ['*'] + q, [], forceCase) <==> q == [] || q == ['.'] || q == ['.', '*']
    ensures !Match(upper, ['*', '*'], [], forceCase)
  {
    FoldMeta(upper, '*', forceCase);
    assert (['*'] + q)[1..] == q;
    assert ['*', '*'] == ['*'] + ['*'];
    if q != [] {
      assert q == [q[0]] + q[1..];
    }
    if q == ['.', '*'] {
      assert q[1..] == ['*'];
    } else if q == ['.'] {
      assert q[1..] == [];
    } else if q != [] {
      assert !AnySuffix(upper, q, [], forceCase);
      assert IndexOf([], '.').None?;
    }
  }

  /** A remaining mask of exactly `*.` matches when the rest of the name has
      no `.`, or its first `.` is its last character. */
  lemma StarDot(upper: char -> char, s: seq<char>, forceCase: bool)
    requires forceCase || PreservesMeta(upper)
    ensures Match(upper, ['*', '.'], s, forceCase)
        <==> '.' !in s || (s[|s| - 1] == '.' && '.' !in s[..|s| - 1])
  {
    FoldMeta(upper, '*', forceCase);
    assert ['*', '.'][1..] == ['.'];
    var dot := IndexOf(s, '.');
    if dot.Some? && dot.value + 1 != |s| && s[|s| - 1] == '.' {
      assert s[..|s| - 1][dot.value] == '.';
    }
  }

  /** The extension fast path: after `*.`, a mask `e` without wildcards, facing
      a name whose first `.` at `d` is its only one, is decided by comparing
      `e` with the text after that `.`. */
  lemma ExtensionFastPath(upper: char -> char, e: seq<char>, s: seq<char>, d: nat, forceCase: bool)
    requires forceCase || PreservesMeta(upper)
    requires e != [] && !IsWildcard(e)
    requires d < |s| && s[d] == '.' && '.' !in s[..d] && '.' !in s[d + 1..]
    ensures Match(upper, ['*', '.'] + e, s, forceCase) == StrEqual(upper, e, s[d + 1..], forceCase)
  {
    FoldMeta(upper, '*', forceCase);
    var q := ['.'] + e;
    assert (['*', '.'] + e)[1..] == q && q[1..] == e;
    var dot := IndexOf(s, '.');
    assert dot.Some? && dot.value == d;
    assert s[d..][1..] == s[d + 1..];
    assert !IsWildcard(q);
  }

  /** The extension fast path for a name `stem.x` with a single `.`. */
  lemma OneDotExtension(upper: char -> char, ext: seq<char>, stem: seq<char>, x: seq<char>, forceCase: bool)
    requires forceCase || PreservesMeta(upper)
    requires ext != [] && !IsWildcard(ext)
    requires '.' !in stem && '.' !in x
    ensures Match(upper, ['*', '.'] + ext, stem + ['.'] + x, forceCase) == StrEqual(upper, ext, x, forceCase)
  {
    var name := stem + ['.'] + x;
    assert name[..|stem|] == stem && name[|stem| + 1..] == x;
    ExtensionFastPath(upper, ext, name, |stem|, forceCase);
  }

  /** A mask of ordinary characters matches exactly the names equal to it
      under the case policy. */
  lemma {:induction false} LiteralMatch(upper: char -> char, p: seq<char>, s: seq<char>, forceCase: bool)
    requires forceCase || PreservesMeta(upper)
    requires IsLiteral(p)
    ensures Match(upper, p, s, forceCase) <==> StrEqual(upper, p, s, forceCase)
  {
    if p != [] {
      FoldMeta(upper, p[0], forceCase);
      assert IsLiteral(p[1..]) by {
        forall i | 0 <= i < |p[1..]| ensures p[1..][i] != '*' && p[1..][i] != '?' && p[1..][i] != '.' {
          assert p[1..][i] == p[i + 1];
        }
      }
      if s != [] {
        LiteralMatch(upper, p[1..], s[1..], forceCase);
      }
    }
  }

  /** A mask `.` facing an exhausted name or a `\` is skipped without
      consuming the name. */
  lemma DotSkip(upper: char -> char, q: seq<char>, s: seq<char>, forceCase: bool)
    requires forceCase || PreservesMeta(upper)
    requires s == [] || s[0] == '\\'
    ensures Match(upper, ['.'] + q, s, forceCase) == Match(upper, q, s, forceCase)
  {
    FoldMeta(upper, '.', forceCase);
    if s != [] {
      FoldMeta(upper, s[0], forceCase);
    }
    assert (['.'] + q)[1..] == q;
  }

  /** A mask `.` facing a name `.` compares equal and consumes it: the skip
      arm for a name `.` is never reached. */
  lemma DotConsumesDot(upper: char -> char, q: seq<char>, r: seq<char>, forceCase: bool)
    requires forceCase || PreservesMeta(upper)
    ensures Match(upper, ['.'] + q, ['.'] + r, forceCase) == Match(upper, q, r, forceCase)
  {
    FoldMeta(upper, '.', forceCase);
    assert (['.'] + q)[1..] == q && (['.'] + r)[1..] == r;
  }

  /** Any other literal that differs from the name character after folding
      fails at once: nothing before it is retried. */
  lemma LiteralMismatchFails(upper: char -> char, c: char, q: seq<char>, s: seq<char>, forceCase: bool)
    requires forceCase || PreservesMeta(upper)
    requires c != '*' && c != '?'
    requires s == [] || Fold(upper, c, forceCase) != Fold(upper, s[0], forceCase)
    requires c == '.' ==> s != [] && s[0] != '\\'
    ensures !Match(upper, [c] + q, s, forceCase)
  {
    FoldMeta(upper, c, forceCase);
    if s != [] {
      FoldMeta(upper, s[0], forceCase);
    }
  }

  /** "name." matches "name": a literal mask followed by `.` matches the
      names equal to the literal, with or without the trailing `.`. */
  lemma {:induction false} TrailingDotMatchesBareName(upper: char -> char, e: seq<char>, s: seq<char>, forceCase: bool)
    requires forceCase || PreservesMeta(upper)
    requires IsLiteral(e)
    ensures Match(upper, e + ['.'], s, forceCase)
        <==> StrEqual(upper, e, s, forceCase) || StrEqual(upper, e + ['.'], s, forceCase)
  {
    FoldMeta(upper, '.', forceCase);
    if e == [] {
      assert e + ['.'] == ['.'];
      if s != [] {
        FoldMeta(upper, s[0], forceCase);
        assert StrEqual(upper, [], s[1..], forceCase) <==> s[1..] == [];
      }
    } else {
      FoldMeta(upper, e[0], forceCase);
      assert (e + ['.'])[1..] == e[1..] + ['.'];
      assert IsLiteral(e[1..]) by {
        forall i | 0 <= i < |e[1..]| ensures e[1..][i] != '*' && e[1..][i] != '?' && e[1..][i] != '.' {
          assert e[1..][i] == e[i + 1];
        }
      }
      if s != [] {
        TrailingDotMatchesBareName(upper, e[1..], s[1..], forceCase);
      }
    }
  }

  /** Where the fast path applies to an extension of ordinary characters, it
      gives the answer the general retry over every non-empty suffix of the
      name would give. */
  lemma FastPathAgreesWithRetry(upper: char -> char, e: seq<char>, s: seq<char>, d: nat, forceCase: bool)
    requires forceCase || PreservesMeta(upper)
    requires e != [] && forall i :: 0 <= i < |e| ==> !IsMeta(e[i])
    requires d < |s| && s[d] == '.' && '.' !in s[..d] && '.' !in s[d + 1..]
    ensures Match(upper, ['*', '.'] + e, s, forceCase)
        == exists i :: 0 <= i < |s| && Match(upper, ['.'] + e, s[i..], forceCase)
  {
    var q := ['.'] + e;
    assert q[1..] == e;
    FoldMeta(upper, '.', forceCase);
    FoldMeta(upper, e[0], forceCase);
    assert !IsWildcard(e);
    assert IsLiteral(e);
    ExtensionFastPath(upper, e, s, d, forceCase);
    forall i | 0 <= i < |s|
      ensures Match(upper, q, s[i..], forceCase) <==> i == d && StrEqual(upper, e, s[d + 1..], forceCase)
    {
      FoldMeta(upper, s[i], forceCase);
      assert s[i..][1..] == s[i + 1..];
      if i == d {
        LiteralMatch(upper, e, s[d + 1..], forceCase);
      } else {
        assert s[i] != '.' by {
          if i < d { assert s[..d][i] == s[i]; } else { assert s[d + 1..][i - d - 1] == s[i]; }
        }
        LiteralMatch(upper, e, s[i..], forceCase);
      }
    }
  }

  /** The fast path and the retry disagree when the extension itself ends in
      `.`: `*.txt.` does not match `a.txt` through the fast path... */
  lemma FastPathRejectsTrailingDot()
    ensures !Match(UnixUpper, "*.txt.", "a.txt", true)
  {
    ExtensionFastPath(UnixUpper, "txt.", "a.txt", 1, true);
    assert ['*', '.'] + "txt." == "*.txt.";
    assert "a.txt"[..1] == "a" && "a.txt"[2..] == "txt";
    StrEqualProperties(UnixUpper, "txt.", "txt", "txt", true);
  }

  /** ...although the retry from the `.` of `a.txt` would succeed... */
  lemma RetryAcceptsTrailingDot()
    ensures AnySuffix(UnixUpper, ".txt.", "a.txt", true)
  {
    assert "a.txt"[1..] == ".txt";
    RetryAcceptsTrailingDotAt("a.txt", 1);
  }

  /** ...and `*.txt.` does match `a.b.txt`, where the fast path is not taken. */
  lemma TrailingDotMatchesWithTwoDots()
    ensures Match(UnixUpper, "*.txt.", "a.b.txt", true)
  {
    var s, t := "a.b.txt", ".b.txt";
    assert "*.txt." == ['*'] + ".txt.";
    assert IndexOf(s, '.') == Some(1) && s[1..] == t;
    assert !('.' !in t[1..]);
    assert t[2..] == ".txt";
    RetryAcceptsTrailingDotAt(t, 2);
  }

  /** The retry of `.txt.` succeeds on any text with a suffix `.txt`. */
  lemma RetryAcceptsTrailingDotAt(t: seq<char>, k: nat)
    requires k < |t| && t[k..] == ".txt"
    ensures AnySuffix(UnixUpper, ".txt.", t, true)
  {
    TrailingDotMatchesBareName(UnixUpper, "txt", "txt", true);
    StrEqualProperties(UnixUpper, "txt", "txt", "txt", true);
    assert "txt" + ['.'] == "txt.";
    assert ".txt."[1..] == "txt." && ".txt"[1..] == "txt";
    assert Match(UnixUpper, ".txt.", t[k..], true);
    AnySuffixIsNonEmptySuffix(UnixUpper, ".txt.", t, true);
  }
}
