/**
 * `match` of match.cpp (both widths): a backtracking matcher for one mask
 * against one name, with `*` (any run of characters), `?` (one character),
 * fast paths for extension masks and a rule that lets a mask `.` be skipped.
 *
 * `Match` is the matcher as a recursive function; `MatchStar` is its `*`
 * branch and `AnySuffix` the retry loop of that branch. `MatchLoop`, in
 * wildcard_loop.dfy, is the character-stepping loop of the source, proved equal
 * to `Match`.
 */
module Wildcard {
  import opened CaseFold
  import opened PathFn

  /** `match(p, s, forceCase)`. The switch is on the folded mask character;
      the extension tests of the `*` branch look at the raw characters. */
  function Match(upper: char -> char, p: seq<char>, s: seq<char>, forceCase: bool): bool
    decreases |p|, 0, 0
  {
    if p == [] then s == []
    else
      var pc := Fold(upper, p[0], forceCase);
      if pc == '?' then
        s != [] && Match(upper, p[1..], s[1..], forceCase)
      else if pc == '*' then
        MatchStar(upper, p[1..], s, forceCase)
      else if s != [] && pc == Fold(upper, s[0], forceCase) then
        Match(upper, p[1..], s[1..], forceCase)
      else if pc == '.' && (s == [] || Fold(upper, s[0], forceCase) == '\\' || Fold(upper, s[0], forceCase) == '.') then
        // "name." matches "name", "name.\" matches "name\": skip the mask '.'
        Match(upper, p[1..], s, forceCase)
      else
        false
  }

  /** The `*` branch, with `q` the mask after the `*`. */
  function MatchStar(upper: char -> char, q: seq<char>, s: seq<char>, forceCase: bool): bool
    decreases |q|, 2, 0
  {
    if q == [] then true
    else if q[0] == '.' && q[1..] == ['*'] then true
    else if q[0] == '.' && q[1..] == [] then
      var dot := IndexOf(s, '.');
      dot.None? || dot.value + 1 == |s|
    else if q[0] == '.' && IndexOf(s, '.').Some? then
      var t := s[IndexOf(s, '.').value..];
      if !IsWildcard(q) && IndexOf(t[1..], '.').None? then
        StrEqual(upper, q[1..], t[1..], forceCase)
      else
        AnySuffix(upper, q, t, forceCase)
    else
      AnySuffix(upper, q, s, forceCase)
  }

  /** The retry loop of the `*` branch: `q` is tried against `t`, then
      against `t` less its first character, and so on while text remains. */
  function AnySuffix(upper: char -> char, q: seq<char>, t: seq<char>, forceCase: bool): bool
    decreases |q|, 1, |t|
  {
    t != [] && (Match(upper, q, t, forceCase) || AnySuffix(upper, q, t[1..], forceCase))
  }
}
