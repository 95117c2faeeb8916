/**
 * The imperative form of `match`: a loop that steps a mask index and a name
 * index and returns from inside the switch. `StarLoop` is the body of the
 * `*` case, whose retry loop calls the matcher on every non-empty suffix.
 */
module WildcardLoop {
  import opened CaseFold
  import opened PathFn
  import opened Wildcard

  method MatchLoop(upper: char -> char, pattern: seq<char>, name: seq<char>, forceCase: bool) returns (b: bool)
    ensures b == Match(upper, pattern, name, forceCase)
    decreases |pattern|, 0
  {
    var pi, si := 0, 0;
    while pi < |pattern|
      invariant 0 <= pi <= |pattern| && 0 <= si <= |name|
      invariant Match(upper, pattern[pi..], name[si..], forceCase) == Match(upper, pattern, name, forceCase)
      decreases |pattern| - pi
    {
      ghost var p, s := pattern[pi..], name[si..];
      assert p[1..] == pattern[pi + 1..];
      assert s != [] ==> s[1..] == name[si + 1..];
      var pc := Fold(upper, pattern[pi], forceCase);
      pi := pi + 1;
      if pc == '?' {
        if si == |name| {
          return false;
        }
        si := si + 1;
      } else if pc == '*' {
        b := StarLoop(upper, pattern[pi..], name[si..], forceCase);
        return;
      } else if si == |name| || pc != Fold(upper, name[si], forceCase) {
        if pc == '.' && (si == |name| || Fold(upper, name[si], forceCase) == '\\' || Fold(upper, name[si], forceCase) == '.') {
          b := MatchLoop(upper, pattern[pi..], name[si..], forceCase);
          return;
        }
        return false;
      } else {
        si := si + 1;
      }
    }
    b := si == |name|;
  }

  /** The `*` case: `q` is the mask after the `*`, `name` the rest of the name. */
  method StarLoop(upper: char -> char, q: seq<char>, name: seq<char>, forceCase: bool) returns (b: bool)
    ensures b == MatchStar(upper, q, name, forceCase)
    decreases |q|, 1
  {
    if q == [] {
      return true;
    }
    var si := 0;
    if q[0] == '.' {
      if |q| == 2 && q[1] == '*' {
        assert q[1..] == ['*'];
        return true;
      }
      var dot := IndexOf(name, '.');
      if |q| == 1 {
        return dot.None? || dot.value + 1 == |name|;
      }
      if dot.Some? {
        si := dot.value;
        if !IsWildcard(q) && IndexOf(name[si + 1..], '.').None? {
          assert name[si..][1..] == name[si + 1..];
          return StrEqual(upper, q[1..], name[si + 1..], forceCase);
        }
        assert name[si..][1..] == name[si + 1..];
      }
    }
    while si < |name|
      invariant 0 <= si <= |name|
      invariant AnySuffix(upper, q, name[si..], forceCase) == MatchStar(upper, q, name, forceCase)
    {
      var r := MatchLoop(upper, q, name[si..], forceCase);
      if r {
        return true;
      }
      assert name[si..][1..] == name[si + 1..];
      si := si + 1;
    }
    return false;
  }
}
