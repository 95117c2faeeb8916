/**
 * The string helpers `CmpName` and `match` call: `PointToName`,
 * `GetFilePath`, `IsWildcard` and `strchr`. Their own source files are not part
 * of this model; each is given here by the behaviour the matcher relies on.
 * Both `\` and `/` separate path components.
 */
module PathFn {
  import opened Wrappers

  predicate IsPathDiv(c: char)
  {
    c == '\\' || c == '/'
  }

  /** No character of `s` separates path components. */
  predicate NoPathDiv(s: seq<char>)
  {
    forall i :: 0 <= i < |s| ==> !IsPathDiv(s[i])
  }

  /** Where the base name of `s` starts: just after its last separator, or 0
      when it has none. */
  function NameStart(s: seq<char>): (k: nat)
    ensures k <= |s|
    ensures forall i :: k <= i < |s| ==> !IsPathDiv(s[i])
    ensures k > 0 ==> IsPathDiv(s[k - 1])
  {
    if s == [] then 0
    else if IsPathDiv(s[|s| - 1]) then |s|
    else NameStart(s[..|s| - 1])
  }

  /** `PointToName(s)`: the base name, the text after the last separator. */
  function PointToName(s: seq<char>): seq<char>
  {
    s[NameStart(s)..]
  }

  /** `GetFilePath(s, ...)`: the directory part in front of the base name,
      separator included. */
  function GetFilePath(s: seq<char>): seq<char>
  {
    s[..NameStart(s)]
  }

  /** `IsWildcard(s)`: `s` holds a `*` or a `?`. */
  predicate IsWildcard(s: seq<char>)
  {
    '*' in s || '?' in s
  }

  /** `strchr(s, c)`: the index of the first `c` in `s`, or None. */
  function IndexOf(s: seq<char>, c: char): (r: Option<nat>)
    ensures r.None? <==> c !in s
    ensures r.Some? ==> r.value < |s| && s[r.value] == c && c !in s[..r.value]
  {
    if s == [] then None
    else if s[0] == c then Some(0)
    else match IndexOf(s[1..], c)
      case None => None
      case Some(k) => Some(k + 1)
  }

  /** The split into directory and base name loses nothing: the base name
      holds no separator, and the directory is empty or ends with one. */
  lemma SplitPath(s: seq<char>)
    ensures GetFilePath(s) + PointToName(s) == s
    ensures NoPathDiv(PointToName(s))
    ensures GetFilePath(s) == [] || IsPathDiv(GetFilePath(s)[|GetFilePath(s)| - 1])
  {
  }

  /** The split is determined by the two parts: a directory that is empty or
      ends in a separator, followed by a separator-free base name. */
  lemma SplitPathUnique(dir: seq<char>, base: seq<char>)
    requires dir == [] || IsPathDiv(dir[|dir| - 1])
    requires NoPathDiv(base)
    ensures GetFilePath(dir + base) == dir && PointToName(dir + base) == base
  {
    var s := dir + base;
    var k := NameStart(s);
    assert dir != [] ==> s[|dir| - 1] == dir[|dir| - 1];
    assert k >= |dir|;
    assert k <= |dir|;
  }
}
