/**
 * `CmpName` of match.cpp (both widths): decides whether an archive entry's
 * path `name` matches the user mask `wild` under a matching mode.
 */
module NameCompare {
  import opened CaseFold
  import opened PathFn
  import opened Wildcard

  /** The base modes that `CmpMode & MATCH_MODEMASK` selects. */
  datatype BaseMode = Names | SubPathOnly | Exact | ExactPath | SubPath | WildSubPath

  /** A `CmpMode`: the base mode and the `MATCH_FORCECASESENSITIVE` bit. */
  datatype CmpMode = CmpMode(base: BaseMode, forceCase: bool)

  /** The prefix of RAR's own temporary files. */
  const RarTempPrefix: seq<char> := "__rar_"

  /** `mstrnicompc("__rar_", base, 6, false) == 0`: `base` starts with the
      temporary-file prefix, compared under the platform upper-casing (case is
      never forced here). */
  predicate IsRarTemp(upper: char -> char, base: seq<char>)
  {
    StrNEqual(upper, RarTempPrefix, base, 6, false)
  }

  /** `wild` is, under the case policy, a prefix of `name`
      (`mstrnicompc(wild, name, strlen(wild), forceCase) == 0`). */
  predicate IsPrefixOf(upper: char -> char, wild: seq<char>, name: seq<char>, forceCase: bool)
  {
    StrNEqual(upper, wild, name, |wild|, forceCase)
  }

  /** The character of `name` just after the first `n` ones is a separator or
      the terminator. */
  predicate EndsComponent(name: seq<char>, n: nat)
  {
    n >= |name| || IsPathDiv(name[n])
  }

  /** The early success of the prefix-aware modes: the mask is a prefix of the
      name that ends on a path boundary. */
  predicate PrefixAccepts(upper: char -> char, wild: seq<char>, name: seq<char>, mode: CmpMode)
  {
    mode.base != Names && mode.base != Exact && mode.base != ExactPath
    && IsPrefixOf(upper, wild, name, mode.forceCase) && EndsComponent(name, |wild|)
  }

  /** `CmpName(wild, name, mode)`. */
  function CmpName(upper: char -> char, wild: seq<char>, name: seq<char>, mode: CmpMode): bool
  {
    var forceCase := mode.forceCase;
    var m := mode.base;
    if m != Names && m != Exact && m != ExactPath && IsPrefixOf(upper, wild, name, forceCase)
       && EndsComponent(name, |wild|) then
      // "path1" matches "path1\path2\filename.ext" and "path1"
      true
    else if m == SubPathOnly && IsPrefixOf(upper, wild, name, forceCase) then
      false
    else
      var path1, path2 := GetFilePath(wild), GetFilePath(name);
      if (m == Exact || m == ExactPath) && !StrEqual(upper, path1, path2, forceCase) then
        false
      else if (m == SubPath || m == WildSubPath) && IsWildcard(path1) then
        Match(upper, wild, name, forceCase)
      else if (m == SubPath || m == WildSubPath) && (m == SubPath || IsWildcard(wild))
              && path1 != [] && !StrNEqual(upper, path1, path2, |path1|, forceCase) then
        false
      else if m == WildSubPath && !IsWildcard(wild) && !StrEqual(upper, path1, path2, forceCase) then
        false
      else
        var name1, name2 := PointToName(wild), PointToName(name);
        if IsRarTemp(upper, name2) then
          // RAR's temporary files never match
          false
        else if m == Exact then
          StrEqual(upper, name1, name2, forceCase)
        else
          Match(upper, name1, name2, forceCase)
  }
}
