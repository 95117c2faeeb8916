# UnRAR wildcard and path matching, modelled in Dafny

This project models the file-mask matcher of UnRAR 3.9.10 (`match.cpp`).
The matcher decides whether an archive member name, or a file name on disk,
is selected by a user's mask such as `*.txt`, `dir1` or `src/*.c`. It has
three parts:

- `match`: the wildcard engine. `?` matches one character. `*` matches a run
  of characters, with fast paths for `*`, `*.`, `*.*` and `*.ext` at the end of
  the mask. A mask `.` may also match nothing before the end of the name or a
  `\`, so "name." matches "name". The source's condition also names a name `.`,
  but that arm is never reached: a mask `.` facing a name `.` compares equal and
  consumes it.
- `CmpName`: the mode-driven comparison of a mask against a path. The modes
  are NAMES, SUBPATHONLY, EXACT, EXACTPATH, SUBPATH and WILDSUBPATH, each with an
  optional force-case bit. It tests whether the mask is a leading directory of
  the name, compares the directory parts, and always rejects RAR temporary files
  (`__rar_*`) once it reaches the base names.
- The case policy: `toupperc`/`touppercw`, and the comparison wrappers
  `mstricompc`/`mstrnicompc`, which use exact comparison (`strcmp`,
  `strncmp`) when case is forced and otherwise call the case-insensitive
  helpers `stricompc`, `strnicomp` and their wide twins. Those helpers are not
  part of this model; it assumes they compare the characters folded by the same
  platform upper-casing as `toupperc` (see "## Left out").

The narrow (`char`) and wide (`wchar`) copies of each routine differ only in
which platform upper-casing they call: `toupperc` has a `_WIN_32` branch that
calls `CharUpper`, while `touppercw` calls `toupperw`. The model takes the
upper-casing as a parameter, so one model over `seq<char>` stands for both.

## How the model is built

- **Strings.** A C string is a `seq<char>`; its terminating NUL is the end of
  the sequence. `Name[WildLength]` being NUL becomes "the index is past the end".
- **Case.** The platform's upper-casing (`CharUpper`, `toupper`, `toupperw`) is
  a parameter `upper: char -> char`.
  - `CaseFold.UnixUpper` is the identity, which is what a `_UNIX` build uses.
  - `CaseFold.AsciiUpper` is a sample non-Unix upper-casing, used only by the
    example lemmas; it models no line of the source.
  - `CaseFold.Fold` is `toupperc`/`touppercw`.
  - `CaseFold.StrEqual` is `mstricompc(...) == 0` and `CaseFold.StrNEqual` is
    `mstrnicompc(...) == 0`. Both compare one character at a time, folded by
    `Fold`, and stop at the first terminator. The forced-case branches
    (`strcmp`, `strncmp`) and the `_UNIX` branch of `mstrnicompc` at lines
    279-280 are this with no folding. The unforced, non-`_UNIX` branches rest on
    the assumption about the helpers stated under "## Left out".
- **The switch on folded characters.** `match` switches on the *upper-cased*
  mask character. So lemmas about masks that contain meta characters require
  `forceCase || PreservesMeta(upper)`: the upper-casing fixes `* ? . \` and maps
  no other character onto them. `CaseFold.AsciiUpperPreservesMeta` shows the
  requirement can be met.
- **`match`.** It is modelled twice:
  - `Wildcard.Match`, `Wildcard.MatchStar` and `Wildcard.AnySuffix` are
    mutually recursive functions and serve as the reference definition;
  - `WildcardLoop.MatchLoop` and `WildcardLoop.StarLoop` are the source's loop
    (`for (;; ++string)` with the `*` retry loop), as methods proved equal to
    the functions.
- **`CmpName`.** `NameCompare.CmpName` is a function that follows the branches
  of lines 37-91 in order. The numeric `MATCH_*` codes become
  `NameCompare.CmpMode(base, forceCase)`.
- **Path helpers.** `PointToName`, `GetFilePath`, `IsWildcard` and `strchr` are
  defined in files that are not part of this model. `PathFn` gives each one by
  the behaviour the matcher relies on:
  - `PointToName` is the text after the last `\` or `/`;
  - `GetFilePath` is the text before it, separator included, so that directory
    plus base name is the whole path;
  - `IsWildcard` holds when the string contains `*` or `?`;
  - `IndexOf` gives the first index of a character, like `strchr`.
- **The temporary-file rule.** The comment at lines 82-83 says temporary files
  are always rejected. The code only rejects them after the early returns at
  lines 52-53 and 67-68. The model follows the code, and
  `NameCompareFacts.RarTempExcluded` states exactly when a `__rar_` name can
  still match.

## Model

| member | source | states |
|---|---|---|
| CaseFold.FoldIsExact | UnRAR-3.9.10/match.cpp:11-34 | With case forced, or on a `_UNIX` build, a character's comparison key is the character itself |
| CaseFold.FoldMeta | UnRAR-3.9.10/match.cpp:157-159 | Under a meta-preserving upper-casing, a folded mask character is `*`, `?`, `.` or `\` exactly when the character was |
| CaseFold.AsciiUpperPreservesMeta | UnRAR-3.9.10/match.cpp:15-20 | The sample upper-casing fixes the meta characters and maps nothing else onto them |
| CaseFold.KeysExact | UnRAR-3.9.10/match.cpp:11-34 | With case forced, or on a `_UNIX` build, the key sequence of a string is the string |
| CaseFold.StrEqualKeys | UnRAR-3.9.10/match.cpp:257-262 | `mstricompc(a, b) == 0` holds exactly when the case-folded key sequences of `a` and `b` are equal |
| CaseFold.StrEqualProperties | UnRAR-3.9.10/match.cpp:257-262 | With case forced the comparison is plain equality; otherwise it is reflexive, symmetric and transitive |
| CaseFold.StrEqualAppend | UnRAR-3.9.10/match.cpp:257-262 | Strings equal piece by piece under the case policy are equal whole |
| CaseFold.StrNEqualIsPrefixEqual | UnRAR-3.9.10/match.cpp:275-284 | `mstrnicompc(a, b, n) == 0` holds exactly when the first `n` characters of `a` and of `b` (fewer if a string is shorter) compare equal |
| CaseFold.StrNEqualWhole | UnRAR-3.9.10/match.cpp:275-284 | Comparing `strlen(w)` characters holds exactly when `w` is, case-folded, a prefix of `s` |
| CaseFold.StrNEqualWholeExact | UnRAR-3.9.10/match.cpp:277-280 | With case forced, or on a `_UNIX` build, that prefix test is literal: `s` starts with `w` |
| PathFn.NameStart | UnRAR-3.9.10/match.cpp:79-80 | The base name starts just after the last separator: nothing after it is a separator, and the character before it is one |
| PathFn.SplitPath | UnRAR-3.9.10/match.cpp:59-61 | Directory part plus base name is the whole path; the base has no separator; the directory is empty or ends in one |
| PathFn.SplitPathUnique | UnRAR-3.9.10/match.cpp:59-61 | A directory that is empty or ends in a separator, followed by a separator-free base, is split back into exactly those two parts |
| PathFn.IndexOf | UnRAR-3.9.10/match.cpp:174 | `strchr`: None exactly when the character is absent; otherwise the index of its first occurrence |
| WildcardLoop.MatchLoop | UnRAR-3.9.10/match.cpp:153-201 | The source's loop over mask and name returns exactly what the reference definition `Wildcard.Match` gives |
| WildcardLoop.StarLoop | UnRAR-3.9.10/match.cpp:167-188 | The `*` case, with its fast paths and its retry over suffixes, returns exactly what `Wildcard.MatchStar` gives |
| WildcardFacts.EmptyMask | UnRAR-3.9.10/match.cpp:161-162 | An exhausted mask matches exactly an exhausted name |
| WildcardFacts.QuestionMark | UnRAR-3.9.10/match.cpp:163-166 | `?` consumes exactly one character and fails on an exhausted name; `?` alone matches exactly the one-character names |
| WildcardFacts.TrailingStar | UnRAR-3.9.10/match.cpp:168-173 | A final `*`, and a final `*.*`, match every rest of the name |
| WildcardFacts.StarDot | UnRAR-3.9.10/match.cpp:174-176 | A final `*.` matches exactly when the rest of the name has no `.`, or its first `.` is its last character |
| WildcardFacts.ExtensionFastPath | UnRAR-3.9.10/match.cpp:177-181 | After `*.`, an extension without wildcards facing a name with one `.` is decided by comparing it with the text after that `.` |
| WildcardFacts.OneDotExtension | UnRAR-3.9.10/match.cpp:177-181 | `*.ext` against `stem.x` with a single `.` matches exactly when `ext` equals `x` under the case policy |
| WildcardFacts.AnySuffixIsNonEmptySuffix | UnRAR-3.9.10/match.cpp:185-188 | The retry loop succeeds exactly when the rest of the mask matches some non-empty suffix of the name |
| WildcardFacts.StarRetry | UnRAR-3.9.10/match.cpp:167-188 | When the rest `q` of the mask does not start with `.`, or the name has no `.` and `q` is neither `.` nor `.*`, `*q` matches exactly when `q` matches a non-empty suffix of the name; the empty suffix is never tried |
| WildcardFacts.StarRetryFromDot | UnRAR-3.9.10/match.cpp:170-188 | When `q` starts with `.`, is neither `.` nor `.*`, and the extension fast path is not taken for a name whose first `.` is at `d`, `*q` matches exactly when `q` matches a suffix of the name starting at `d` or later |
| WildcardFacts.AnySuffixFrom | UnRAR-3.9.10/match.cpp:179-188 | The retry started at index `d` succeeds exactly when `q` matches some suffix starting at `d` or later |
| WildcardFacts.StarOnEmptyName | UnRAR-3.9.10/match.cpp:167-188 | On an exhausted name `*q` matches exactly for `q` empty, `.` or `.*`; so `**` does not match an empty name |
| WildcardFacts.LiteralMatch | UnRAR-3.9.10/match.cpp:189-198 | A mask of ordinary characters matches exactly the names equal to it under the case policy |
| WildcardFacts.LiteralMismatchFails | UnRAR-3.9.10/match.cpp:189-197 | A literal that differs from the name character after folding (and is not a `.` facing the end, a `\` or a `.`) fails the whole match |
| WildcardFacts.DotConsumesDot | UnRAR-3.9.10/match.cpp:189-198 | A mask `.` facing a name `.` consumes it, so the skip arm for a name `.` is never reached |
| WildcardFacts.DotSkip | UnRAR-3.9.10/match.cpp:192-194 | A mask `.` facing the end of the name or a `\` is skipped without consuming the name |
| WildcardFacts.TrailingDotMatchesBareName | UnRAR-3.9.10/match.cpp:192-194 | A literal mask followed by `.` matches exactly the names equal to the literal, with or without the `.` |
| WildcardFacts.FastPathAgreesWithRetry | UnRAR-3.9.10/match.cpp:174-188 | For an extension of ordinary characters, the fast path gives the answer the retry over all non-empty suffixes would give |
| WildcardFacts.FastPathRejectsTrailingDot | UnRAR-3.9.10/match.cpp:177-181 | The fast path rejects `a.txt` for `*.txt.` |
| WildcardFacts.RetryAcceptsTrailingDot | UnRAR-3.9.10/match.cpp:185-188 | The retry from the `.` of `a.txt` would accept the rest `.txt.` of that mask |
| WildcardFacts.TrailingDotMatchesWithTwoDots | UnRAR-3.9.10/match.cpp:174-188 | `*.txt.` does match `a.b.txt`, where the fast path is not taken |
| NameCompareFacts.PrefixAtBoundary | UnRAR-3.9.10/match.cpp:45-57 | Except in NAMES, EXACT and EXACTPATH, a mask that is a prefix of the name ending at a separator or at the end matches; a SUBPATHONLY prefix that stops inside a component does not |
| NameCompareFacts.SubPathOnlyMode | UnRAR-3.9.10/match.cpp:43-90 | SUBPATHONLY: a prefix mask decides by the component boundary; otherwise the base names decide, temporary files excluded |
| NameCompareFacts.NamesMode | UnRAR-3.9.10/match.cpp:79-90 | NAMES ignores directories: it matches the base names unless the name's base is a temporary file |
| NameCompareFacts.NamesModeSingleComponent | UnRAR-3.9.10/match.cpp:79-90 | In NAMES, a mask and a name without separators are matched whole |
| NameCompareFacts.NamesEmptyMask | UnRAR-3.9.10/match.cpp:79-90 | In NAMES, the empty mask matches exactly the names with an empty base name |
| NameCompareFacts.NamesStar | UnRAR-3.9.10/match.cpp:82-90 | In NAMES, `*` matches every name except a temporary file |
| NameCompareFacts.NamesQuestion | UnRAR-3.9.10/match.cpp:79-90 | In NAMES, `?` matches exactly the names whose base name has one character |
| NameCompareFacts.ExactMode | UnRAR-3.9.10/match.cpp:63-88 | EXACT matches exactly when the directories and the base names compare equal and the name is not a temporary file; then the whole paths compare equal |
| NameCompareFacts.ExactModeForced | UnRAR-3.9.10/match.cpp:63-88 | EXACT with case forced is literal equality of the paths, temporary files excluded |
| NameCompareFacts.ExactPathMode | UnRAR-3.9.10/match.cpp:63-90 | EXACTPATH matches exactly when the directories compare equal, the name is not a temporary file and the base names match |
| NameCompareFacts.SubPathLiteralDirectory | UnRAR-3.9.10/match.cpp:66-90 | SUBPATH with a wildcard-free mask directory: the prefix test, or the mask directory being empty or a prefix of the name's directory plus matching base names |
| NameCompareFacts.WildDirectoryMatchesWholePath | UnRAR-3.9.10/match.cpp:66-68 | SUBPATH and WILDSUBPATH with wildcards in the mask directory: the prefix test or `match` of the whole mask against the whole name |
| NameCompareFacts.WildSubPathWithWildcards | UnRAR-3.9.10/match.cpp:66-74 | WILDSUBPATH is SUBPATH for a mask with wildcards |
| NameCompareFacts.WildSubPathWithoutWildcards | UnRAR-3.9.10/match.cpp:75-77 | WILDSUBPATH with a wildcard-free mask is the prefix test or EXACTPATH |
| NameCompareFacts.RarTempExcluded | UnRAR-3.9.10/match.cpp:82-85 | A temporary file matches only through the prefix-boundary success or the whole-path match of a wildcard directory |
| NameCompareFacts.RarTempBypassByPrefix | UnRAR-3.9.10/match.cpp:46-53 | `dir` in SUBPATH matches `dir/__rar_x`, a temporary file |
| NameCompareFacts.RarTempBypassByWildDirectory | UnRAR-3.9.10/match.cpp:66-68 | `*/*` in WILDSUBPATH matches `a/__rar_x`, a temporary file |
| NameCompareFacts.LiteralSubPathMask | UnRAR-3.9.10/match.cpp:43-90 | SUBPATH, case forced, plain mask: it names a leading directory (or the whole path) of the name, or equals its base name |
| NameCompareFacts.SubPathSingleComponentMask | UnRAR-3.9.10/match.cpp:43-90 | SUBPATH with a mask that has no directory part: the prefix test succeeds, or the name is not a temporary file and the mask matches its base name |
| NameCompareFacts.SubPathRejectsLongerComponent | UnRAR-3.9.10/match.cpp:46-90 | On any platform, with or without the force-case bit: a plain SUBPATH mask that the name's first component extends does not match unless it compares equal to the base name under the case policy |
| NameCompareFacts.SubPathFoldedBaseExample | UnRAR-3.9.10/match.cpp:84-90 | Without the force-case bit and under an ASCII upper-casing, `DIR1` in SUBPATH matches `dir11/dir1` through its base name |
| NameCompareFacts.SubPathDirectoryExample | UnRAR-3.9.10/match.cpp:49-53 | `dir1` in SUBPATH matches `dir1/dir2/file.txt` |
| NameCompareFacts.SubPathSiblingExample | UnRAR-3.9.10/match.cpp:46-90 | `dir1` in SUBPATH does not match `dir11/file.txt` |
| NameCompareFacts.ExactExamples | UnRAR-3.9.10/match.cpp:63-88 | EXACT accepts `a/b.txt` for itself and rejects `a/c.txt` |
| NameCompareFacts.NamesHidesRarTemp | UnRAR-3.9.10/match.cpp:82-85 | `*` in NAMES does not match `__rar_tmp` |
| NameCompareFacts.CaseExamples | UnRAR-3.9.10/match.cpp:11-22 | `ABC` matches `abc` under an ASCII upper-casing, but not with case forced |
| NameCompareFacts.NamesExtensionMask | UnRAR-3.9.10/match.cpp:177-181 | In NAMES, `*.ext` against a separator-free name with one `.` matches exactly when the extension compares equal |
| NameCompareFacts.ExtensionExamples | UnRAR-3.9.10/match.cpp:177-181 | `*.txt` matches `report.txt` and, case-insensitively, `report.TXT` |
| NameCompareFacts.MissingExtensionExample | UnRAR-3.9.10/match.cpp:185-198 | `*.txt` does not match `report` |
| NameCompareFacts.NoExtensionExamples | UnRAR-3.9.10/match.cpp:174-176 | `*.` matches `report` and not `report.txt` |
| NameCompareFacts.NoExtensionAccepts | UnRAR-3.9.10/match.cpp:174-176 | `*.` in NAMES matches `report`, which has no `.` |
| NameCompareFacts.NoExtensionRejects | UnRAR-3.9.10/match.cpp:174-176 | `*.` in NAMES does not match `report.txt`, whose `.` is not its last character |

## Left out

- The numeric `MATCH_*` codes, the `MATCH_MODEMASK` masking and the `MATCH_FORCECASESENSITIVE` bit: their header is not part of this model, so a mode is a datatype of a base mode and a force-case flag.
- The platform upper-casing (`CharUpper`, `toupper`, `toupperw`) is a parameter, not a definition. It is assumed never to turn a character into NUL, which would end a C string early.
- `stricompc` (line 261), `stricompcw` (line 270), `strnicomp` (line 282) and `strnicmpw` (line 295): their source files are not part of this model. `CaseFold.StrEqual` and `CaseFold.StrNEqual` assume that they compare the two strings one character at a time, using keys folded by the same `upper` as `toupperc`/`touppercw`, and stop at the first terminator (or after `N` characters). A helper that folds differently, for example by lower-casing or through a locale table other than the one `toupperc` uses, is not covered.
- `PointToName`, `GetFilePath` and `IsWildcard`: their source files are not part of this model, so they are given by the behaviour described above. Drive letters (`C:name`) and the truncation of `GetFilePath` to an `NM`-sized buffer are not modelled.
- The wide copies of `CmpName`, `match`, `mstricompcw` and `mstrnicompcw` (lines 95-149, 205-253, 266-271, 288-297): they differ from the narrow copies only in the platform upper-casing they call, which the `upper` parameter covers, so one model stands for both. UTF-16 code units in the surrogate range cannot be held in Dafny's `char` and are not covered.
- The `SFX_MODULE` build, which drops the wide copies: it is not modelled as a separate configuration.
- Recursion depth and stack use of `match` are not modelled; only termination is proved.
- The application files around the matcher (Objective-C `Classes/*.h`, `Defaults.h`, `Website/index.js`) are not part of the matcher.
